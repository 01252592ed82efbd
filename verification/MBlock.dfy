/** The fixed-size block allocator of common/fast_mblock.c: chunks from malloc, cut into blocks by
    address arithmetic, and a chain of free blocks threaded through the blocks themselves. Memory is
    a map from addresses to words, address 0 is NULL, and pointers take 8 bytes. */
module MBlock {
  import opened Common

  const ONE_MEGABYTE: nat := 1024 * 1024

  // ----- sizes ---------------------------------------------------------------------------------------

  /** MEM_ALIGN. */
  function MemAlign(x: nat): nat { (x + 7) / 8 * 8 }

  lemma MemAlignIsLeast(x: nat, y: nat)
    ensures MemAlign(x) % 8 == 0 && x <= MemAlign(x)
    ensures y % 8 == 0 && x <= y ==> MemAlign(x) <= y
  {
    var q, r := (x + 7) / 8, (x + 7) % 8;
    assert x + 7 == 8 * q + r && MemAlign(x) == 8 * q;
    assert y % 8 == 0 ==> y == 8 * (y / 8);
  }

  function BlockSize(elementSize: nat): nat { MemAlign(ADDRESS_SIZE + elementSize) }

  /** elementsOnce as fast_mblock_init sets it. */
  function ElementsOnce(elementSize: nat, requested: int): nat
    requires elementSize > 0
  {
    if requested > 0 then requested else ONE_MEGABYTE / BlockSize(elementSize)
  }

  /** A chunk holds at least one block iff a number was asked for or a block fits a megabyte. */
  lemma ElementsOnceIff(elementSize: nat, requested: int)
    requires elementSize > 0
    ensures ElementsOnce(elementSize, requested) >= 1 <==> requested > 0 || elementSize <= ONE_MEGABYTE - ADDRESS_SIZE
  {
    var b := BlockSize(elementSize);
    MemAlignIsLeast(ADDRESS_SIZE + elementSize, ONE_MEGABYTE);
    if b > ONE_MEGABYTE { assert ONE_MEGABYTE / b == 0; } else { QuotientAtLeastOne(ONE_MEGABYTE, b); }
  }

  /** A block has room for its link and its element, and less than a word to spare. */
  lemma BlockHoldsElement(elementSize: nat)
    ensures ADDRESS_SIZE + elementSize <= BlockSize(elementSize) < ADDRESS_SIZE + elementSize + 8
    ensures BlockSize(elementSize) % 8 == 0
  {
    MemAlignIsLeast(ADDRESS_SIZE + elementSize, 0);
  }

  /** The number asked for, or as many blocks as fit a megabyte. */
  lemma ElementsOnceMeans(elementSize: nat, requested: int)
    requires elementSize > 0
    ensures var n, size := ElementsOnce(elementSize, requested), BlockSize(elementSize);
      if requested > 0 then n == requested else n * size <= 1048576 < (n + 1) * size
  {
    if requested <= 0 { Fitting(BlockSize(elementSize), ONE_MEGABYTE); }
  }

  lemma Fitting(size: nat, room: nat)
    requires size > 0
    ensures room / size * size <= room < (room / size + 1) * size
  {
    var q := room / size;
    assert room == size * q + room % size;
    assert (q + 1) * size == q * size + size;
  }

  lemma QuotientAtLeastOne(x: nat, b: nat)
    requires 0 < b <= x
    ensures x / b >= 1
  {
    assert x == b * (x / b) + x % b;
  }

  /** The bytes of `n` blocks, block by block. */
  function Times(size: nat, n: nat): nat { if n == 0 then 0 else size + Times(size, n - 1) }

  lemma {:induction false} TimesIsProduct(size: nat, n: nat)
    ensures Times(size, n) == size * n
  {
    if n > 0 { TimesIsProduct(size, n - 1); }
  }

  datatype Geometry = Geometry(blockSize: nat, once: nat)

  predicate Sound(g: Geometry) { g.blockSize > ADDRESS_SIZE && g.blockSize % 8 == 0 && g.once >= 1 }

  function ChunkSize(g: Geometry): nat { ADDRESS_SIZE + Times(g.blockSize, g.once) }

  /** A chunk is its header and the blocks, nothing else. */
  lemma ChunkSizeIs(g: Geometry)
    ensures ChunkSize(g) == 8 + g.blockSize * g.once
  {
    TimesIsProduct(g.blockSize, g.once);
  }

  // ----- chunks and blocks -----------------------------------------------------------------------

  /** `n` consecutive blocks from `start` on. */
  function BlocksFrom(start: int, size: nat, n: nat): (r: seq<int>)
    ensures |r| == n
    decreases n
  {
    if n == 0 then [] else [start] + BlocksFrom(start + size, size, n - 1)
  }

  function BlocksOf(g: Geometry, chunk: int): seq<int> { BlocksFrom(chunk + ADDRESS_SIZE, g.blockSize, g.once) }

  function AllBlocks(g: Geometry, chunks: seq<int>): seq<int> {
    if chunks == [] then [] else BlocksOf(g, chunks[0]) + AllBlocks(g, chunks[1..])
  }

  predicate Apart(size: nat, a: int, b: int) { a + size <= b || b + size <= a }

  predicate ApartFromAll(size: nat, a: int, others: seq<int>) {
    forall i :: 0 <= i < |others| ==> Apart(size, a, others[i])
  }

  /** Aligned chunks that do not overlap. */
  predicate Chunked(g: Geometry, chunks: seq<int>) {
    chunks != [] ==>
      && chunks[0] > 0 && chunks[0] % 8 == 0
      && ApartFromAll(ChunkSize(g), chunks[0], chunks[1..])
      && Chunked(g, chunks[1..])
  }

  /** What malloc promises: nothing, or an aligned region that overlaps no chunk. */
  predicate MallocAnswer(g: Geometry, chunks: seq<int>, address: int) {
    address == 0 || (address > 0 && address % 8 == 0 && ApartFromAll(ChunkSize(g), address, chunks))
  }

  /** A block lies inside its chunk, behind the header, at an aligned address. */
  predicate InChunk(g: Geometry, chunk: int, p: int) {
    chunk + ADDRESS_SIZE <= p && p + g.blockSize <= chunk + ChunkSize(g) && p % 8 == 0
  }

  lemma {:induction false} BlocksFromAre(start: int, size: nat, n: nat, k: nat)
    requires k < n && size % 8 == 0 && start % 8 == 0
    ensures var p := BlocksFrom(start, size, n)[k];
      start <= p && p + size <= start + Times(size, n) && p % 8 == 0 && p == start + Times(size, k)
    decreases k
  {
    if k > 0 { BlocksFromAre(start + size, size, n - 1, k - 1); }
  }

  lemma {:induction false} BlocksFromApart(start: int, size: nat, n: nat, k: nat, l: nat)
    requires k < l < n && size % 8 == 0 && start % 8 == 0
    ensures BlocksFrom(start, size, n)[k] + size <= BlocksFrom(start, size, n)[l]
    decreases k
  {
    if k == 0 {
      BlocksFromAre(start + size, size, n - 1, l - 1);
    } else {
      BlocksFromApart(start + size, size, n - 1, k - 1, l - 1);
    }
  }

  /** The chunk a block comes from. */
  lemma {:induction false} ChunkOf(g: Geometry, chunks: seq<int>, k: nat) returns (c: nat)
    requires Sound(g) && Chunked(g, chunks) && k < |AllBlocks(g, chunks)|
    ensures c < |chunks| && InChunk(g, chunks[c], AllBlocks(g, chunks)[k])
    decreases |chunks|
  {
    var first, rest := BlocksOf(g, chunks[0]), AllBlocks(g, chunks[1..]);
    assert AllBlocks(g, chunks) == first + rest;
    if k < g.once {
      c := 0;
      FirstChunkHolds(g, chunks[0], k);
    } else {
      c := ChunkOf(g, chunks[1..], k - g.once);
      c := c + 1;
    }
  }

  lemma FirstChunkHolds(g: Geometry, chunk: int, k: nat)
    requires Sound(g) && chunk % 8 == 0 && k < g.once
    ensures InChunk(g, chunk, BlocksOf(g, chunk)[k])
  {
    BlocksFromAre(chunk + ADDRESS_SIZE, g.blockSize, g.once, k);
  }

  lemma AcrossChunks(g: Geometry, a: int, b: int, p: int, q: int)
    requires Apart(ChunkSize(g), a, b) && InChunk(g, a, p) && InChunk(g, b, q)
    ensures Apart(g.blockSize, p, q)
  {
  }

  /** Any two blocks of all chunks are disjoint. */
  lemma {:induction false} BlocksApart(g: Geometry, chunks: seq<int>, k: nat, l: nat)
    requires Sound(g) && Chunked(g, chunks) && k < l < |AllBlocks(g, chunks)|
    ensures Apart(g.blockSize, AllBlocks(g, chunks)[k], AllBlocks(g, chunks)[l])
    decreases |chunks|
  {
    var first, rest := BlocksOf(g, chunks[0]), AllBlocks(g, chunks[1..]);
    assert AllBlocks(g, chunks) == first + rest;
    if l < g.once {
      BlocksFromApart(chunks[0] + ADDRESS_SIZE, g.blockSize, g.once, k, l);
    } else if k >= g.once {
      BlocksApart(g, chunks[1..], k - g.once, l - g.once);
    } else {
      BlocksFromAre(chunks[0] + ADDRESS_SIZE, g.blockSize, g.once, k);
      var c := ChunkOf(g, chunks[1..], l - g.once);
      AcrossChunks(g, chunks[0], chunks[1..][c], first[k], rest[l - g.once]);
    }
  }

  // ----- the allocator as a state machine ----------------------------------------------------------

  /** The free chain from its head on, the blocks held by callers, and the malloc chain. */
  datatype Blocks = Blocks(free: seq<int>, held: set<int>, chunks: seq<int>)

  datatype Step = Alloc(address: int) | Free(p: int)

  function Refilled(g: Geometry, b: Blocks, address: int): Blocks {
    if b.free == [] && address != 0 then b.(free := BlocksOf(g, address), chunks := [address] + b.chunks) else b
  }

  function Taken(b: Blocks): Blocks {
    if b.free == [] then b else b.(free := b.free[1..], held := b.held + {b.free[0]})
  }

  function After(g: Geometry, b: Blocks, step: Step): Blocks {
    match step
    case Alloc(address) => Taken(Refilled(g, b, address))
    case Free(p) => b.(free := [p] + b.free, held := b.held - {p})
  }

  predicate Enabled(g: Geometry, b: Blocks, step: Step) {
    match step
    case Alloc(address) => MallocAnswer(g, b.chunks, address)
    case Free(p) => p in b.held
  }

  predicate NoRepeat(s: seq<int>) { s != [] ==> s[0] !in s[1..] && NoRepeat(s[1..]) }

  /** Free and held blocks are the blocks of all chunks, each once. */
  ghost predicate Partition(g: Geometry, b: Blocks) {
    && NoRepeat(b.free)
    && (forall p :: p in b.free ==> p !in b.held)
    && (forall p :: p in AllBlocks(g, b.chunks) <==> p in b.free || p in b.held)
    && |b.free| + |b.held| == g.once * |b.chunks|
  }

  ghost predicate Inv(g: Geometry, b: Blocks) { Sound(g) && Chunked(g, b.chunks) && Partition(g, b) }

  lemma {:induction false} BlocksFromNoRepeat(start: int, size: nat, n: nat)
    requires 0 < size
    ensures NoRepeat(BlocksFrom(start, size, n))
    ensures forall p :: p in BlocksFrom(start, size, n) ==> start <= p
    decreases n
  {
    if n > 0 { BlocksFromNoRepeat(start + size, size, n - 1); }
  }

  /** The blocks of a new chunk are new. */
  lemma NewBlocks(g: Geometry, chunks: seq<int>, address: int)
    requires Sound(g) && Chunked(g, chunks) && MallocAnswer(g, chunks, address) && address != 0
    ensures forall p :: p in BlocksOf(g, address) ==> p !in AllBlocks(g, chunks)
  {
    forall p | p in BlocksOf(g, address) ensures p !in AllBlocks(g, chunks) {
      var k :| 0 <= k < g.once && BlocksOf(g, address)[k] == p;
      BlocksFromAre(address + ADDRESS_SIZE, g.blockSize, g.once, k);
      NotInside(g, chunks, address, p);
    }
  }

  lemma NotInside(g: Geometry, chunks: seq<int>, address: int, p: int)
    requires Sound(g) && Chunked(g, chunks) && ApartFromAll(ChunkSize(g), address, chunks)
    requires InChunk(g, address, p)
    ensures p !in AllBlocks(g, chunks)
  {
    var all := AllBlocks(g, chunks);
    forall l | 0 <= l < |all| ensures all[l] != p {
      var c := ChunkOf(g, chunks, l);
      assert Apart(ChunkSize(g), address, chunks[c]);
    }
  }

  lemma RefilledKeeps(g: Geometry, b: Blocks, address: int)
    requires Inv(g, b) && MallocAnswer(g, b.chunks, address)
    ensures Inv(g, Refilled(g, b, address))
  {
    if b.free == [] && address != 0 {
      var chunks := [address] + b.chunks;
      assert chunks[1..] == b.chunks;
      NewBlocks(g, b.chunks, address);
      BlocksFromNoRepeat(address + ADDRESS_SIZE, g.blockSize, g.once);
      assert AllBlocks(g, chunks) == BlocksOf(g, address) + AllBlocks(g, b.chunks);
      OneMoreChunk(g.once, |b.chunks|);
    }
  }

  lemma OneMoreChunk(once: nat, n: nat)
    ensures once * (n + 1) == once + once * n
  {
  }

  lemma TakenKeeps(g: Geometry, b: Blocks)
    requires Inv(g, b)
    ensures Inv(g, Taken(b))
  {
    if b.free != [] {
      var x, rest := b.free[0], b.free[1..];
      assert forall p :: p in b.free <==> p == x || p in rest;
      assert x !in b.held;
      assert |b.held + {x}| == |b.held| + 1;
    }
  }

  lemma StepKeeps(g: Geometry, b: Blocks, step: Step)
    requires Inv(g, b) && Enabled(g, b, step)
    ensures Inv(g, After(g, b, step))
  {
    match step
    case Alloc(address) =>
      RefilledKeeps(g, b, address);
      TakenKeeps(g, Refilled(g, b, address));
    case Free(p) =>
      var free' := [p] + b.free;
      assert free'[1..] == b.free;
  }

  /** What was freed last is handed out next, and nothing else changes. */
  lemma FreeThenAlloc(g: Geometry, b: Blocks, p: int, address: int)
    requires p in b.held
    ensures After(g, After(g, b, Free(p)), Alloc(address)) == b
  {
    var b' := After(g, b, Free(p));
    assert b'.free[1..] == b.free && b'.held + {p} == b.held;
  }

  predicate Possible(g: Geometry, b: Blocks, run: seq<Step>)
    decreases |run|
  {
    run != [] ==> Enabled(g, b, run[0]) && Possible(g, After(g, b, run[0]), run[1..])
  }

  function Run(g: Geometry, b: Blocks, run: seq<Step>): Blocks
    decreases |run|
  {
    if run == [] then b else Run(g, After(g, b, run[0]), run[1..])
  }

  /** Over any run: free and held blocks are all the blocks of all chunks, each in one place. */
  lemma {:induction false} RunKeeps(g: Geometry, b: Blocks, run: seq<Step>)
    requires Inv(g, b) && Possible(g, b, run)
    ensures Inv(g, Run(g, b, run))
    decreases |run|
  {
    if run != [] {
      StepKeeps(g, b, run[0]);
      RunKeeps(g, After(g, b, run[0]), run[1..]);
    }
  }

  /** Two different blocks a run has handed out do not overlap, and each lies in a chunk. */
  lemma HeldBlocksAreDisjoint(g: Geometry, run: seq<Step>, p: int, q: int)
    requires Sound(g) && Possible(g, Blocks([], {}, []), run)
    requires var b := Run(g, Blocks([], {}, []), run); p in b.held && q in b.held && p != q
    ensures Apart(g.blockSize, p, q)
    ensures exists c :: c in Run(g, Blocks([], {}, []), run).chunks && InChunk(g, c, p)
  {
    RunKeeps(g, Blocks([], {}, []), run);
    var b := Run(g, Blocks([], {}, []), run);
    BlockApart(g, b.chunks, p, q);
    var all := AllBlocks(g, b.chunks);
    assert p in all;
    var k :| 0 <= k < |all| && all[k] == p;
    var c := ChunkOf(g, b.chunks, k);
  }

  lemma BlockApart(g: Geometry, chunks: seq<int>, p: int, q: int)
    requires Sound(g) && Chunked(g, chunks) && p in AllBlocks(g, chunks) && q in AllBlocks(g, chunks) && p != q
    ensures Apart(g.blockSize, p, q)
  {
    var all := AllBlocks(g, chunks);
    var k :| 0 <= k < |all| && all[k] == p;
    var l :| 0 <= l < |all| && all[l] == q;
    if k < l { BlocksApart(g, chunks, k, l); } else { BlocksApart(g, chunks, l, k); }
  }

  /** A block does not touch the header of any chunk. */
  lemma BlockApartFromHeaders(g: Geometry, chunks: seq<int>, p: int, c: int)
    requires Sound(g) && Chunked(g, chunks) && p in AllBlocks(g, chunks) && c in chunks
    ensures c + ADDRESS_SIZE <= p || p + g.blockSize <= c
  {
    var all := AllBlocks(g, chunks);
    var k :| 0 <= k < |all| && all[k] == p;
    var i := ChunkOf(g, chunks, k);
    var j :| 0 <= j < |chunks| && chunks[j] == c;
    ChunksApart(g, chunks, i, j);
  }

  lemma {:induction false} ChunksApart(g: Geometry, chunks: seq<int>, i: nat, j: nat)
    requires Chunked(g, chunks) && i < |chunks| && j < |chunks|
    ensures i != j ==> Apart(ChunkSize(g), chunks[i], chunks[j])
  {
    if i > 0 && j > 0 {
      ChunksApart(g, chunks[1..], i - 1, j - 1);
    } else if i > 0 {
      assert chunks[1..][i - 1] == chunks[i];
    } else if j > 0 {
      assert chunks[1..][j - 1] == chunks[j];
    }
  }

  // ----- chains in memory ----------------------------------------------------------------------------

  type Memory = map<int, int>

  /** From `head` the words lead through `list` to `end`. */
  predicate Chain(mem: Memory, head: int, list: seq<int>, end: int)
    decreases |list|
  {
    if list == [] then head == end
    else head == list[0] && head != 0 && head in mem && Chain(mem, mem[head], list[1..], end)
  }

  lemma {:induction false} ChainFrame(mem: Memory, head: int, list: seq<int>, end: int, at: int, word: int)
    requires Chain(mem, head, list, end) && at !in list
    ensures Chain(mem[at := word], head, list, end)
    decreases |list|
  {
    if list != [] { ChainFrame(mem, mem[head], list[1..], end, at, word); }
  }

  /** The word at `q` shares a byte with the `size` bytes at `at`. */
  predicate Overlaps(q: int, at: int, size: nat) { q < at + size && at < q + ADDRESS_SIZE }

  lemma {:induction false} ChainUntouched(mem: Memory, head: int, list: seq<int>, end: int, words: Memory)
    requires Chain(mem, head, list, end) && forall q :: q in list ==> q !in words
    ensures Chain(mem + words, head, list, end)
    decreases |list|
  {
    if list != [] { ChainUntouched(mem, mem[head], list[1..], end, words); }
  }

  lemma {:induction false} ChainSnoc(mem: Memory, head: int, list: seq<int>, at: int, word: int)
    requires Chain(mem, head, list, at) && at !in list && at != 0
    ensures Chain(mem[at := word], head, list + [at], word)
    decreases |list|
  {
    if list != [] {
      ChainSnoc(mem, mem[head], list[1..], at, word);
      assert (list + [at])[1..] == list[1..] + [at];
    } else {
      assert (list + [at])[1..] == [];
    }
  }

  lemma {:induction false} BlocksFromSnoc(start: int, size: nat, n: nat)
    requires 0 < size
    ensures BlocksFrom(start, size, n + 1) == BlocksFrom(start, size, n) + [start + Times(size, n)]
    ensures forall p :: p in BlocksFrom(start, size, n) ==> p < start + Times(size, n)
    decreases n
  {
    if n > 0 {
      BlocksFromSnoc(start + size, size, n - 1);
      var tail := BlocksFrom(start + size, size, n - 1);
      assert BlocksFrom(start, size, n) == [start] + tail;
      assert BlocksFrom(start, size, n + 1) == [start] + (tail + [start + Times(size, n)]);
    }
  }

  lemma {:induction false} TimesPositive(size: nat, n: nat)
    requires size > 0
    ensures Times(size, n) > 0 <==> n > 0
  {
    if n > 1 { TimesPositive(size, n - 1); }
  }

  lemma {:induction false} TimesMonotone(size: nat, n: nat, m: nat)
    requires n <= m
    ensures Times(size, m) == Times(size, n) + Times(size, m - n)
  {
    if n > 0 { TimesMonotone(size, n - 1, m - 1); }
  }

  // ----- the allocator ---------------------------------------------------------------------------------

  class BlockManager {
    var mem: Memory
    var freeHead: int
    var mallocHead: int
    const elementSize: nat
    const elementsOnce: nat
    ghost var blocks: Blocks

    function Shape(): Geometry { Geometry(BlockSize(elementSize), elementsOnce) }

    ghost predicate Valid()
      reads this
    {
      && Inv(Shape(), blocks)
      && Chain(mem, freeHead, blocks.free, 0)
      && Chain(mem, mallocHead, blocks.chunks, 0)
    }

    constructor (size: nat, once: nat)
      requires size > 0
      ensures elementSize == size && elementsOnce == once && blocks == Blocks([], {}, [])
      ensures Valid() <==> once >= 1
    {
      elementSize, elementsOnce := size, once;
      mem, freeHead, mallocHead := map[], 0, 0;
      blocks := Blocks([], {}, []);
      MemAlignIsLeast(ADDRESS_SIZE + size, 0);
    }

    /** The loop of fast_mblock_prealloc. */
    method ThreadBlocks(g: Geometry, start: int, last: int)
      requires Sound(g) && start > 0 && last == start + Times(g.blockSize, g.once - 1)
      requires Chain(mem, mallocHead, blocks.chunks, 0)
      requires forall c :: c in blocks.chunks ==> c < start || last < c
      modifies this`mem
      ensures Chain(mem, mallocHead, blocks.chunks, 0)
      ensures Chain(mem, start, BlocksFrom(start, g.blockSize, g.once - 1), last)
    {
      var size := g.blockSize;
      var p := start;
      ghost var n: nat := 0;
      while p < last
        invariant n <= g.once - 1 && start <= p == start + Times(size, n)
        invariant last == p + Times(size, g.once - 1 - n)
        invariant Chain(mem, start, BlocksFrom(start, size, n), p)
        invariant Chain(mem, mallocHead, blocks.chunks, 0)
      {
        TimesPositive(size, g.once - 1 - n);
        TimesMonotone(size, n, n + 1);
        BlocksFromSnoc(start, size, n);
        ChainSnoc(mem, start, BlocksFrom(start, size, n), p, p + size);
        ChainFrame(mem, mallocHead, blocks.chunks, 0, p, p + size);
        mem := mem[p := p + size];
        p, n := p + size, n + 1;
      }
      TimesPositive(size, g.once - 1 - n);
    }

    /** Cutting a chunk into a chain of blocks. */
    method LayOut(g: Geometry, address: int)
      requires Sound(g) && address > 0 && ApartFromAll(ChunkSize(g), address, blocks.chunks)
      requires Chain(mem, mallocHead, blocks.chunks, 0)
      modifies this`mem
      ensures Chain(mem, mallocHead, blocks.chunks, 0)
      ensures Chain(mem, address + ADDRESS_SIZE, BlocksOf(g, address), 0)
    {
      var start := address + ADDRESS_SIZE;
      var last := LastBlock(g, address);
      assert forall c :: c in blocks.chunks ==> c < start || last < c;
      ThreadBlocks(g, start, last);
      BlocksFromSnoc(start, g.blockSize, g.once - 1);
      ChainSnoc(mem, start, BlocksFrom(start, g.blockSize, g.once - 1), last, 0);
      ChainFrame(mem, mallocHead, blocks.chunks, 0, last, 0);
      mem := mem[last := 0];
    }

    /** pLast: one block before the end of the chunk. */
    method LastBlock(g: Geometry, address: int) returns (last: int)
      requires Sound(g)
      ensures last == address + ADDRESS_SIZE + Times(g.blockSize, g.once - 1)
      ensures last + g.blockSize == address + ChunkSize(g)
    {
      var allocSize := ADDRESS_SIZE + g.blockSize * g.once;
      TimesIsProduct(g.blockSize, g.once);
      last := address + (allocSize - g.blockSize);
    }

    /** fast_mblock_prealloc, called when no block is free. */
    method Prealloc(address: int) returns (ok: bool)
      requires Valid() && MallocAnswer(Shape(), blocks.chunks, address) && blocks.free == []
      modifies this
      ensures Valid() && blocks == Refilled(Shape(), old(blocks), address)
      ensures ok <==> address != 0
    {
      if address == 0 {
        return false;
      }
      ghost var g, chunks := Shape(), blocks.chunks;
      RefilledKeeps(g, blocks, address);
      LayOut(Shape(), address);
      BlocksFromNoRepeat(address + ADDRESS_SIZE, g.blockSize, g.once);
      freeHead := address + ADDRESS_SIZE;
      ChainFrame(mem, freeHead, BlocksOf(g, address), 0, address, mallocHead);
      ChainFrame(mem, mallocHead, chunks, 0, address, mallocHead);
      mem := mem[address := mallocHead];
      mallocHead := address;
      blocks := Refilled(g, blocks, address);
      assert blocks.chunks[1..] == chunks;
      return true;
    }

    /** fast_mblock_alloc; `address` is malloc's answer should it be asked. */
    method Alloc(address: int) returns (p: int)
      requires Valid() && MallocAnswer(Shape(), blocks.chunks, address)
      modifies this
      ensures Valid() && blocks == After(Shape(), old(blocks), Step.Alloc(address))
      ensures p == 0 <==> old(blocks).free == [] && address == 0
      ensures blocks.chunks == if old(blocks).free == [] && address != 0 then [address] + old(blocks).chunks
                               else old(blocks).chunks
      ensures p != 0 ==> p in blocks.held && p !in old(blocks).held
    {
      if freeHead == 0 {
        var ok := Prealloc(address);
        if !ok {
          return 0;
        }
      }
      TakenKeeps(Shape(), blocks);
      p := freeHead;
      freeHead := mem[p];
      blocks := Taken(blocks);
    }

    /** fast_mblock_free of a block the caller holds. */
    method Free(p: int)
      requires Valid() && p in blocks.held
      modifies this
      ensures Valid() && blocks == After(Shape(), old(blocks), Step.Free(p))
    {
      StepKeeps(Shape(), blocks, Step.Free(p));
      HeaderSafe(p, p, ADDRESS_SIZE);
      assert Overlaps(p, p, ADDRESS_SIZE);
      ChainFrame(mem, freeHead, blocks.free, 0, p, freeHead);
      ChainFrame(mem, mallocHead, blocks.chunks, 0, p, freeHead);
      mem := mem[p := freeHead];
      blocks := After(Shape(), blocks, Step.Free(p));
      assert blocks.free[1..] == old(blocks).free;
      freeHead := p;
    }

    /** Bytes inside a held block overlap no word of the free chain and no chunk header. */
    lemma HeaderSafe(p: int, at: int, size: nat)
      requires Valid() && p in blocks.held && p <= at && at + size <= p + Shape().blockSize
      ensures p > 0
      ensures forall q :: q in blocks.free || q in blocks.chunks ==> !Overlaps(q, at, size)
    {
      var g := Shape();
      var all := AllBlocks(g, blocks.chunks);
      assert p in all;
      forall q | q in blocks.free ensures !Overlaps(q, at, size) {
        assert q in all;
        BlockApart(g, blocks.chunks, p, q);
      }
      forall c | c in blocks.chunks ensures !Overlaps(c, at, size) {
        BlockApartFromHeaders(g, blocks.chunks, p, c);
      }
      var k :| 0 <= k < |all| && all[k] == p;
      var c := ChunkOf(g, blocks.chunks, k);
      ChunkPositive(g, blocks.chunks, c);
    }

    /** A store of `size` bytes inside a held block may change every word that overlaps it, aligned or
        not, and disturbs nothing. */
    method WriteInto(p: int, at: int, size: nat, words: Memory)
      requires Valid() && p in blocks.held && p <= at && at + size <= p + Shape().blockSize
      requires forall q :: q in words ==> Overlaps(q, at, size)
      modifies this`mem
      ensures Valid() && mem == old(mem) + words
    {
      HeaderSafe(p, at, size);
      ChainUntouched(mem, freeHead, blocks.free, 0, words);
      ChainUntouched(mem, mallocHead, blocks.chunks, 0, words);
      mem := mem + words;
    }

    /** fast_mblock_count. */
    method Count() returns (count: nat)
      requires Valid()
      ensures count == |blocks.free| == elementsOnce * |blocks.chunks| - |blocks.held|
    {
      count := 0;
      var p := freeHead;
      while p != 0
        invariant count <= |blocks.free| && Chain(mem, p, blocks.free[count..], 0)
        decreases |blocks.free| - count
      {
        assert blocks.free[count..][1..] == blocks.free[count + 1..];
        p := mem[p];
        count := count + 1;
      }
    }

    /** fast_mblock_destroy: every chunk is released once, none is read after its release. */
    method Destroy() returns (released: seq<int>)
      requires Valid()
      modifies this
      ensures released == old(blocks).chunks && freeHead == mallocHead == 0
    {
      released := [];
      var p := mallocHead;
      while p != 0
        invariant |released| <= |blocks.chunks| && released == blocks.chunks[..|released|]
        invariant Chain(mem, p, blocks.chunks[|released|..], 0)
        decreases |blocks.chunks| - |released|
      {
        assert blocks.chunks[|released|..][1..] == blocks.chunks[|released| + 1..];
        var gone := p;
        p := mem[p];
        released := released + [gone];
      }
      freeHead, mallocHead := 0, 0;
    }
  }

  lemma {:induction false} ChunkPositive(g: Geometry, chunks: seq<int>, c: nat)
    requires Chunked(g, chunks) && c < |chunks|
    ensures chunks[c] > 0
  {
    if c > 0 { ChunkPositive(g, chunks[1..], c - 1); }
  }

  /** fast_mblock_init: no manager for an element size that is not positive (EINVAL); a manager can
      be used iff its chunks are not empty. */
  method Init(elementSize: int, requested: int) returns (manager: BlockManager?)
    ensures manager == null <==> elementSize <= 0
    ensures manager != null ==>
      && manager.elementSize == elementSize && manager.elementsOnce == ElementsOnce(elementSize, requested)
      && manager.blocks == Blocks([], {}, [])
      && (manager.Valid() <==> requested > 0 || elementSize <= ONE_MEGABYTE - ADDRESS_SIZE)
  {
    if elementSize <= 0 {
      return null;
    }
    ElementsOnceIff(elementSize, requested);
    manager := new BlockManager(elementSize, ElementsOnce(elementSize, requested));
  }
}
