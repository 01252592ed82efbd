/** The streaming MD5 of common/md5.c against the one-shot definition of RFC 1321: a 64-byte
    buffer, a bit counter in two 32-bit words, and updates of any length must amount to padding
    the whole message and applying the compression function to its blocks.

    The compression function itself (MD5Transform) is a parameter: everything here holds for any
    function from a state and a 64-byte block to a state. */
module Md5 {
  import opened Common

  const TWO32: nat := 0x1_0000_0000
  const TWO64: nat := 0x1_0000_0000_0000_0000

  type Word = x: int | 0 <= x < 0x1_0000_0000

  datatype State = State(a: Word, b: Word, c: Word, d: Word)

  type Transform = (State, seq<Byte>) -> State

  const INIT := State(0x67452301, 0xefcdab89, 0x98badcfe, 0x10325476)

  // ----- RFC 1321, sections 3.1 to 3.5 -----------------------------------------------------------

  /** `k` bytes of a number, low-order byte first. */
  function LittleEndian(n: nat, k: nat): (r: seq<Byte>)
    ensures |r| == k
  {
    if k == 0 then [] else [n % 256] + LittleEndian(n / 256, k - 1)
  }

  function Zeros(k: nat): (r: seq<Byte>)
    ensures |r| == k
  {
    seq(k, i => 0)
  }

  /** How many zero bytes follow the 0x80: as many as bring the length to 56 modulo 64. */
  function ZeroCount(n: nat): nat { (119 - n % 64) % 64 }

  lemma ZeroCountIsLeast(n: nat, k: nat)
    ensures (n + 1 + ZeroCount(n)) % 64 == 56
    ensures (n + 1 + k) % 64 == 56 ==> ZeroCount(n) <= k
  {
    var q, r := n / 64, n % 64;
    assert n == 64 * q + r;
    if r < 56 {
      assert n + 1 + ZeroCount(n) == 64 * q + 56;
    } else {
      assert n + 1 + ZeroCount(n) == 64 * (q + 1) + 56;
    }
    Apart(n + 1 + ZeroCount(n), n + 1 + k);
  }

  lemma Apart(x: nat, y: nat)
    ensures x % 64 == y % 64 && x > y ==> x >= y + 64
  {
  }

  lemma PaddedLength(n: nat)
    ensures (n + (1 + ZeroCount(n)) + 8) % 64 == 0
  {
    var q, r := n / 64, n % 64;
    assert n == 64 * q + r;
    if r < 56 {
      assert n + (1 + ZeroCount(n)) + 8 == 64 * (q + 1);
    } else {
      assert n + (1 + ZeroCount(n)) + 8 == 64 * (q + 2);
    }
  }

  /** The length of `n` bytes in bits, modulo 2^64. */
  function BitCount(n: nat): nat { 8 * n % TWO64 }

  /** The padded message: 0x80, zeros, and the length in bits modulo 2^64, low-order byte first. */
  function Pad(m: seq<Byte>): seq<Byte> {
    m + ([0x80] + Zeros(ZeroCount(|m|))) + LittleEndian(BitCount(|m|), 8)
  }

  lemma PadFillsBlocks(m: seq<Byte>)
    ensures |Pad(m)| % 64 == 0
  {
    PaddedLength(|m|);
  }

  /** The state after the successive 64-byte blocks of `m`. */
  function Blocks(f: Transform, s: State, m: seq<Byte>): State {
    if |m| < 64 then s else f(Blocks(f, s, m[..|m| - 64]), m[|m| - 64..])
  }

  function Digest(s: State): (r: seq<Byte>)
    ensures |r| == 16
  {
    LittleEndian(s.a, 4) + LittleEndian(s.b, 4) + LittleEndian(s.c, 4) + LittleEndian(s.d, 4)
  }

  function Md5Of(f: Transform, m: seq<Byte>): (r: seq<Byte>)
    ensures |r| == 16
  {
    Digest(Blocks(f, INIT, Pad(m)))
  }

  /** The start value of section 3.3 of RFC 1321, low-order bytes first. */
  lemma StartBytes()
    ensures Digest(INIT) ==
      [0x01, 0x23, 0x45, 0x67, 0x89, 0xab, 0xcd, 0xef, 0xfe, 0xdc, 0xba, 0x98, 0x76, 0x54, 0x32, 0x10]
  {
    FourBytes(INIT.a);
    FourBytes(INIT.b);
    FourBytes(INIT.c);
    FourBytes(INIT.d);
  }

  /** The number that bytes stand for, low-order first. */
  function Value(bytes: seq<Byte>): nat { if bytes == [] then 0 else bytes[0] as int + 256 * Value(bytes[1..]) }

  lemma {:induction false} LittleEndianValue(n: nat, k: nat)
    requires n < Power256(k)
    ensures Value(LittleEndian(n, k)) == n
  {
    if k > 0 {
      LittleEndianValue(n / 256, k - 1);
      assert LittleEndian(n, k)[1..] == LittleEndian(n / 256, k - 1);
    }
  }

  lemma EightBytes()
    ensures Power256(8) == TWO64
  {
    assert Power256(2) == 0x1_0000;
    assert Power256(4) == TWO32;
    assert Power256(6) == 0x1_0000_0000_0000;
  }

  /** The padding, byte by byte: 0x80, zeros to 56 modulo 64, and the number of bits. */
  lemma PadBytes(m: seq<Byte>)
    ensures var p := Pad(m); var end := |p| - 8;
      && |p| % 64 == 0 && |m| + 9 <= |p| <= |m| + 72
      && p[..|m|] == m && p[|m|] == 0x80 && (forall i :: |m| < i < end ==> p[i] == 0)
      && Value(p[end..]) == 8 * |m| % TWO64
  {
    PadFillsBlocks(m);
    EightBytes();
    LittleEndianValue(BitCount(|m|), 8);
    var p := Pad(m);
    assert p[|p| - 8..] == LittleEndian(BitCount(|m|), 8);
  }

  // ----- the bit counter ---------------------------------------------------------------------------

  /** The count words hold the number of bits of `n` bytes, modulo 2^64. */
  predicate Counts(low: Word, high: Word, n: nat) { low + TWO32 * high == BitCount(n) }

  /** (count[0] >> 3) & 0x3F. */
  function BufferIndex(low: Word): nat { low / 8 % 64 }

  lemma SplitMod(x: nat, low: nat, high: nat)
    requires low < TWO32 && high < TWO32 && low + TWO32 * high == x % TWO64
    ensures low == x % TWO32
  {
    var q := x / TWO64;
    assert x == TWO64 * q + low + TWO32 * high;
    assert x == TWO32 * (TWO32 * q + high) + low;
  }

  lemma IndexIsLengthMod64(low: Word, high: Word, n: nat)
    requires Counts(low, high, n)
    ensures BufferIndex(low) == n % 64
  {
    SplitMod(8 * n, low, high);
    var q := 8 * n / TWO32;
    assert 8 * n == TWO32 * q + low;
    LowBits(n, q, low, n - 0x2000_0000 * q);
  }

  lemma LowBits(n: nat, q: nat, low: nat, v: int)
    requires 8 * n == TWO32 * q + low && v == n - 0x2000_0000 * q
    ensures low / 8 % 64 == n % 64
  {
    assert low == 8 * v;
    assert low / 8 == v;
    AddMultiple(v, 0x80_0000 * q);
  }

  lemma AddMultiple(v: nat, k: nat)
    ensures (v + 64 * k) % 64 == v % 64
  {
  }

  /** The counter update of my_md5_update: add the shifted length to the low word, carry, and add
      its top three bits to the high word. */
  function AddLength(low: Word, high: Word, len: Word): (Word, Word) {
    var shifted := len * 8 % TWO32;
    var low' := (low + shifted) % TWO32;
    var carry := if low' < shifted then 1 else 0;
    (low', (high + carry + len / 0x2000_0000) % TWO32)
  }

  lemma AddLengthCounts(low: Word, high: Word, len: Word, n: nat)
    requires Counts(low, high, n)
    ensures var (low', high') := AddLength(low, high, len); Counts(low', high', n + len)
  {
    AddLengthMod(low, high, len, n);
  }

  lemma ModOf(x: nat, q: nat, r: nat)
    requires x == TWO64 * q + r && r < TWO64
    ensures x % TWO64 == r
  {
  }

  lemma AddLengthMod(low: Word, high: Word, len: Word, n: nat)
    requires low + TWO32 * high == 8 * n % TWO64
    ensures var (low', high') := AddLength(low, high, len); low' + TWO32 * high' == 8 * (n + len) % TWO64
  {
    var shifted, top := len * 8 % TWO32, len / 0x2000_0000;
    assert len * 8 == TWO32 * top + shifted;
    var (low', high') := AddLength(low, high, len);
    var carry := if low' < shifted then 1 else 0;
    assert low + shifted == low' + TWO32 * carry;
    var h := high + carry + top;
    var over := h / TWO32;
    assert h == TWO32 * over + high';
    var q := 8 * n / TWO64;
    assert 8 * n == TWO64 * q + low + TWO32 * high;
    assert 8 * (n + len) == TWO64 * (q + over) + (low' + TWO32 * high');
    ModOf(8 * (n + len), q + over, low' + TWO32 * high');
  }

  lemma CountBytes(low: Word, high: Word)
    ensures LittleEndian(low + TWO32 * high, 8) == LittleEndian(low, 4) + LittleEndian(high, 4)
  {
    assert Power256(4) == TWO32 by { assert Power256(2) == 0x1_0000; }
    LittleEndianSplit(low, high, 4);
  }

  /** A low part of `k` bytes below a high part of four. */
  lemma {:induction false} LittleEndianSplit(low: nat, high: nat, k: nat)
    requires low < Power256(k)
    ensures LittleEndian(low + Power256(k) * high, k + 4) == LittleEndian(low, k) + LittleEndian(high, 4)
  {
    if k > 0 {
      var x := Power256(k - 1) * high;
      assert Power256(k) * high == 256 * x;
      LowByte(low, x);
      LittleEndianSplit(low / 256, high, k - 1);
      Prepended(low + 256 * x, k + 4);
      Prepended(low, k);
    }
  }

  lemma Prepended(n: nat, k: nat)
    requires k > 0
    ensures LittleEndian(n, k) == [n % 256] + LittleEndian(n / 256, k - 1)
  {
  }

  lemma LowByte(low: nat, x: nat)
    ensures (low + 256 * x) % 256 == low % 256 && (low + 256 * x) / 256 == low / 256 + x
  {
  }

  function Power256(k: nat): nat { if k == 0 then 1 else 256 * Power256(k - 1) }

  // ----- blocks ------------------------------------------------------------------------------------

  lemma {:induction false} BlocksConcat(f: Transform, s: State, x: seq<Byte>, y: seq<Byte>, k: nat)
    requires |y| == 64 * k
    ensures Blocks(f, Blocks(f, s, x), y) == Blocks(f, s, x + y)
    decreases k
  {
    if k == 0 {
      assert x + y == x;
    } else {
      var n := |y| - 64;
      BlocksConcat(f, s, x, y[..n], k - 1);
      assert (x + y)[..|x + y| - 64] == x + y[..n];
      assert (x + y)[|x + y| - 64..] == y[n..];
    }
  }

  lemma BlocksOne(f: Transform, s: State, x: seq<Byte>, block: seq<Byte>)
    requires |block| == 64
    ensures Blocks(f, s, x + block) == f(Blocks(f, s, x), block)
  {
    assert (x + block)[..|x + block| - 64] == x;
    assert (x + block)[|x + block| - 64..] == block;
  }

  /** How many of `n` bytes wait for their block to fill. */
  function Waiting(n: nat): (r: nat)
    ensures r < 64 && r <= n
  {
    n % 64
  }

  /** The part of a message that has gone through the transform, and the part that waits. */
  function Done(m: seq<Byte>): seq<Byte> { m[..|m| - Waiting(|m|)] }
  function Rest(m: seq<Byte>): (r: seq<Byte>)
    ensures |r| == Waiting(|m|)
  {
    m[|m| - Waiting(|m|)..]
  }

  lemma DoneOf(m: seq<Byte>, x: seq<Byte>, y: seq<Byte>, k: nat)
    requires m == x + y && |x| == 64 * k && |y| < 64
    ensures Done(m) == x && Rest(m) == y
  {
    assert |m| % 64 == |y|;
  }

  lemma DoneLength(m: seq<Byte>)
    ensures m == Done(m) + Rest(m) && |Done(m)| == 64 * (|m| / 64)
  {
  }

  /** A short update only waits. */
  lemma ShortUpdate(m: seq<Byte>, input: seq<Byte>)
    requires |Rest(m)| + |input| < 64
    ensures Done(m + input) == Done(m) && Rest(m + input) == Rest(m) + input
  {
    DoneLength(m);
    assert m + input == Done(m) + (Rest(m) + input);
    DoneOf(m + input, Done(m), Rest(m) + input, |m| / 64);
  }

  /** A long update completes the waiting block and `j` more, and leaves the tail of its input. */
  lemma LongUpdate(f: Transform, m: seq<Byte>, input: seq<Byte>, i: nat, j: nat)
    requires |Rest(m)| + i == 64 + 64 * j && i <= |input| < i + 64
    ensures Rest(m + input) == input[i..]
    ensures Blocks(f, INIT, Done(m + input)) == Blocks(f, Blocks(f, INIT, Done(m)), Rest(m) + input[..i])
  {
    LongUpdateDone(m, input, i, j);
    BlocksConcat(f, INIT, Done(m), Rest(m) + input[..i], 1 + j);
  }

  lemma LongUpdateDone(m: seq<Byte>, input: seq<Byte>, i: nat, j: nat)
    requires |Rest(m)| + i == 64 + 64 * j && i <= |input| < i + 64
    ensures Rest(m + input) == input[i..]
    ensures Done(m + input) == Done(m) + (Rest(m) + input[..i])
  {
    DoneLength(m);
    var x, y := Done(m), Rest(m) + input[..i];
    assert m + input == (x + y) + input[i..];
    DoneOf(m + input, x + y, input[i..], |m| / 64 + 1 + j);
  }

  /** The loop of my_md5_update tests `i + 63 < inputLen` in 32-bit arithmetic. */
  function Plus63(i: Word): Word { if i + 63 < TWO32 then i + 63 else i + 63 - TWO32 }

  /** The test does not wrap at `i`, nor at any later start of a block. */
  predicate NoWrap(i: nat, len: nat)
    decreases len - i
  {
    i + 63 < TWO32 && (i + 64 <= len ==> NoWrap(i + 64, len))
  }

  /** Exactly when the last start stays clear of the end of the 32-bit range; and where the test
      wraps it holds, so that the loop goes on beyond the input. */
  lemma {:induction false} NoWrapIff(i: nat, len: nat)
    requires i <= len < TWO32
    ensures NoWrap(i, len) <==> len - Waiting(len - i) + 63 < TWO32
    ensures i + 63 >= TWO32 ==> Plus63(i) < len
    decreases len - i
  {
    if i + 64 <= len { NoWrapIff(i + 64, len); }
  }

  /** One waiting byte and the longest input make the test wrap. */
  lemma LongestUpdateWraps()
    ensures !NoWrap(63, TWO32 - 1)
  {
    NoWrapIff(63, TWO32 - 1);
    assert TWO32 - 64 == 64 * 0x3ff_ffff;
  }

  lemma {:induction false} ShortUpdatesDoNotWrap(i: nat, len: nat)
    requires i <= len <= TWO32 - 64
    ensures NoWrap(i, len)
    decreases len - i
  {
    if i + 64 <= len { ShortUpdatesDoNotWrap(i + 64, len); }
  }

  /** From an empty buffer every start of a block is a multiple of 64. */
  lemma {:induction false} FirstUpdateDoesNotWrap(k: nat, len: nat)
    requires 64 * k <= len < TWO32
    ensures NoWrap(64 * k, len)
    decreases len - 64 * k
  {
    if 64 * k + 64 <= len { FirstUpdateDoesNotWrap(k + 1, len); }
  }

  // ----- words and bytes ---------------------------------------------------------------------------

  /** Words as bytes, four each, low-order byte first. */
  function Encoded(words: seq<Word>): (r: seq<Byte>)
    ensures |r| == 4 * |words|
  {
    if words == [] then [] else Encoded(words[..|words| - 1]) + LittleEndian(words[|words| - 1], 4)
  }

  lemma FourBytes(w: Word)
    ensures LittleEndian(w, 4) == [w % 256, w / 0x100 % 256, w / 0x1_0000 % 256, w / 0x100_0000 % 256]
  {
    var w1 := w / 256;
    var w2 := w1 / 256;
    Prepended(w, 4);
    Prepended(w1, 3);
    Prepended(w2, 2);
    Prepended(w2 / 256, 1);
    assert w2 == w / 0x1_0000 && w2 / 256 == w / 0x100_0000;
  }

  /** Encode. */
  method Encode(input: seq<Word>) returns (output: seq<Byte>)
    ensures output == Encoded(input)
  {
    output := [];
    var i := 0;
    while i < |input|
      invariant 0 <= i <= |input| && output == Encoded(input[..i])
    {
      var w := input[i];
      FourBytes(w);
      assert input[..i + 1][..i] == input[..i];
      output := output + [w % 256, w / 0x100 % 256, w / 0x1_0000 % 256, w / 0x100_0000 % 256];
      i := i + 1;
    }
    assert input[..i] == input;
  }

  lemma EncodedTwo(low: Word, high: Word)
    ensures Encoded([low, high]) == LittleEndian(low + TWO32 * high, 8)
  {
    CountBytes(low, high);
    assert Encoded([low]) == LittleEndian(low, 4) by { EncodedSnoc([], low); }
    assert Encoded([low, high]) == Encoded([low]) + LittleEndian(high, 4) by { EncodedSnoc([low], high); }
  }

  lemma EncodedState(s: State)
    ensures Encoded([s.a, s.b, s.c, s.d]) == Digest(s)
  {
    var a, b, c, d := s.a, s.b, s.c, s.d;
    EncodedTwo(a, b);
    CountBytes(a, b);
    assert Encoded([a, b, c]) == Encoded([a, b]) + LittleEndian(c, 4) by {
      assert [a, b, c] == [a, b] + [c];
      EncodedSnoc([a, b], c);
    }
    assert Encoded([a, b, c, d]) == Encoded([a, b, c]) + LittleEndian(d, 4) by {
      assert [a, b, c, d] == [a, b, c] + [d];
      EncodedSnoc([a, b, c], d);
    }
  }

  lemma EncodedSnoc(words: seq<Word>, w: Word)
    ensures Encoded(words + [w]) == Encoded(words) + LittleEndian(w, 4)
  {
    var all := words + [w];
    assert all[..|all| - 1] == words;
  }

  /** PADDING, as much of it as my_md5_final takes. */
  function PadLength(index: nat): (n: nat)
    requires index < 64
    ensures 1 <= n <= 64
  {
    if index < 56 then 56 - index else 120 - index
  }

  lemma PadLengthIsPadding(n: nat)
    ensures PadLength(n % 64) == 1 + ZeroCount(n)
  {
    var r := n % 64;
    if r < 56 { assert 119 - r == 64 + (55 - r); }
  }

  lemma AllDone(m: seq<Byte>)
    requires |m| % 64 == 0
    ensures Done(m) == m
  {
  }

  /** The message that a cutting cuts. */
  function Concat(chunks: seq<seq<Byte>>): seq<Byte> {
    if chunks == [] then [] else Concat(chunks[..|chunks| - 1]) + chunks[|chunks| - 1]
  }

  class Md5Context {
    var state: State
    var low: Word
    var high: Word
    var buffer: array<Byte>
    const f: Transform
    ghost var message: seq<Byte>

    /** All blocks of `m` have gone through the transform, and the rest of it is in the buffer. */
    ghost predicate Buffered(m: seq<Byte>)
      reads this`state, this`buffer, buffer
    {
      && buffer.Length == 64
      && buffer[..|Rest(m)|] == Rest(m)
      && state == Blocks(f, INIT, Done(m))
    }

    ghost predicate Valid()
      reads this, buffer
    {
      Counts(low, high, |message|) && Buffered(message)
    }

    /** my_md5_init. */
    constructor (transform: Transform)
      ensures Valid() && message == [] && f == transform && fresh(buffer)
    {
      f, state, low, high, message := transform, INIT, 0, 0, [];
      buffer := new Byte[64];
    }

    /** The transforming half of my_md5_update: the filled buffer, then whole blocks of the input. */
    method Consume(input: seq<Byte>, index: nat) returns (i: nat, ghost j: nat)
      requires buffer.Length == 64 && index < 64 && 64 - index <= |input| < TWO32 && NoWrap(64 - index, |input|)
      modifies this`state, buffer
      ensures index + i == 64 + 64 * j && i <= |input| < i + 64
      ensures state == Blocks(f, old(state), old(buffer[..index]) + input[..i])
    {
      ghost var rest, s := buffer[..index], state;
      i, j := 64 - index, 0;
      TransformBuffer(input, index);
      while Plus63(i) < |input|
        invariant index + i == 64 + 64 * j && i <= |input| && NoWrap(i, |input|)
        invariant state == Blocks(f, s, rest + input[..i])
        decreases |input| - i
      {
        assert i + 64 <= |input| && NoWrap(i + 64, |input|);
        TransformBlock(input, i, s, rest);
        i, j := i + 64, j + 1;
      }
    }

    method TransformBuffer(input: seq<Byte>, index: nat)
      requires buffer.Length == 64 && index < 64 && 64 - index <= |input|
      modifies this`state, buffer
      ensures state == Blocks(f, old(state), old(buffer[..index]) + input[..64 - index])
    {
      ghost var block := buffer[..index] + input[..64 - index];
      CopyInto(buffer, index, input[..64 - index]);
      assert buffer[..] == buffer[..64] == block;
      BlocksOne(f, state, [], block);
      assert [] + block == block;
      state := f(state, buffer[..]);
    }

    method TransformBlock(input: seq<Byte>, i: nat, ghost s: State, ghost rest: seq<Byte>)
      requires i + 64 <= |input| && state == Blocks(f, s, rest + input[..i])
      modifies this`state
      ensures state == Blocks(f, s, rest + input[..i + 64])
    {
      BlocksOne(f, s, rest + input[..i], input[i..i + 64]);
      assert rest + input[..i] + input[i..i + 64] == rest + input[..i + 64];
      state := f(state, input[i..i + 64]);
    }

    method CountInput(len: Word, ghost n: nat)
      requires Counts(low, high, n)
      modifies this`low, this`high
      ensures Counts(low, high, n + len)
    {
      AddLengthCounts(low, high, len, n);
      var counts := AddLength(low, high, len);
      low, high := counts.0, counts.1;
    }

    method Index() returns (index: nat)
      requires Counts(low, high, |message|)
      ensures index == |Rest(message)| < 64
    {
      IndexIsLengthMod64(low, high, |message|);
      index := BufferIndex(low);
    }

    /** my_md5_update. */
    method Update(input: seq<Byte>)
      requires Valid() && |input| < TWO32
      requires |Rest(message)| + |input| < 64 || NoWrap(64 - |Rest(message)|, |input|)
      modifies this, buffer
      ensures Valid() && message == old(message) + input && buffer == old(buffer)
    {
      var index := Index();
      CountInput(|input|, |message|);
      if |input| >= 64 - index {
        Fill(input, index, message);
      } else {
        ShortUpdate(message, input);
        CopyInto(buffer, index, input);
      }
      message := message + input;
    }

    method Fill(input: seq<Byte>, index: nat, ghost m: seq<Byte>)
      requires Buffered(m) && index == |Rest(m)| && 64 - index <= |input| < TWO32 && NoWrap(64 - index, |input|)
      modifies this`state, buffer
      ensures Buffered(m + input)
    {
      var i, j := Consume(input, index);
      LongUpdate(f, m, input, i, j);
      CopyInto(buffer, 0, input[i..]);
    }

    /** An update short enough for any state of the buffer. */
    method UpdateShort(input: seq<Byte>)
      requires Valid() && |input| <= TWO32 - 64
      modifies this, buffer
      ensures Valid() && message == old(message) + input && buffer == old(buffer)
    {
      if |Rest(message)| + |input| >= 64 { ShortUpdatesDoNotWrap(64 - |Rest(message)|, |input|); }
      Update(input);
    }

    /** my_md5_final: the padding, the bit count saved before it, and the wiped context. */
    method Final() returns (digest: seq<Byte>)
      requires Valid()
      modifies this, buffer
      ensures digest == Md5Of(f, old(message))
      ensures buffer == old(buffer) && low == high == 0 && state == State(0, 0, 0, 0)
      ensures buffer.Length == 64 && forall i :: 0 <= i < 64 ==> buffer[i] == 0
    {
      ghost var m := message;
      var bits := Encode([low, high]);
      EncodedTwo(low, high);
      var index := Index();
      PadLengthIsPadding(|m|);
      PadMessage(index, m, bits);
      PadFillsBlocks(m);
      AllDone(message);
      digest := Encode([state.a, state.b, state.c, state.d]);
      EncodedState(state);
      Wipe();
    }

    method PadMessage(index: nat, ghost m: seq<Byte>, bits: seq<Byte>)
      requires Valid() && message == m && index == |Rest(m)| && |bits| == 8
      requires bits == LittleEndian(BitCount(|m|), 8)
      requires PadLength(index) == 1 + ZeroCount(|m|)
      modifies this, buffer
      ensures Valid() && buffer == old(buffer) && message == Pad(m)
    {
      UpdateShort([0x80] + Zeros(PadLength(index) - 1));
      UpdateShort(bits);
    }

    /** MD5_memset over the context. */
    method Wipe()
      requires buffer.Length == 64
      modifies this, buffer
      ensures buffer == old(buffer) && low == high == 0 && state == State(0, 0, 0, 0)
      ensures forall i :: 0 <= i < 64 ==> buffer[i] == 0
    {
      state, low, high := State(0, 0, 0, 0), 0, 0;
      var i := 0;
      while i < 64
        invariant 0 <= i <= 64 && buffer == old(buffer) && low == high == 0 && state == State(0, 0, 0, 0)
        invariant forall j :: 0 <= j < i ==> buffer[j] == 0
      {
        buffer[i] := 0;
        i := i + 1;
      }
    }
  }

  /** Any cutting of a message into updates gives the digest of the whole message. */
  method DigestOfCutting(f: Transform, chunks: seq<seq<Byte>>) returns (digest: seq<Byte>)
    requires forall i :: 0 <= i < |chunks| ==> |chunks[i]| <= TWO32 - 64
    ensures digest == Md5Of(f, Concat(chunks))
  {
    var context := new Md5Context(f);
    var i := 0;
    while i < |chunks|
      invariant 0 <= i <= |chunks| && context.Valid() && context.f == f
      invariant fresh(context) && fresh(context.buffer)
      invariant context.message == Concat(chunks[..i])
    {
      assert chunks[..i + 1][..i] == chunks[..i];
      context.UpdateShort(chunks[i]);
      i := i + 1;
    }
    assert chunks[..i] == chunks;
    digest := context.Final();
  }

  /** my_md5_buffer: one update of any length that 32 bits can hold. */
  method DigestOfBuffer(f: Transform, message: seq<Byte>) returns (digest: seq<Byte>)
    requires |message| < TWO32
    ensures digest == Md5Of(f, message)
  {
    var context := new Md5Context(f);
    FirstUpdate(context, message);
    digest := context.Final();
  }

  method FirstUpdate(context: Md5Context, input: seq<Byte>)
    requires context.Valid() && context.message == [] && |input| < TWO32
    modifies context, context.buffer
    ensures context.Valid() && context.message == input && context.buffer == old(context.buffer)
  {
    if |input| >= 64 { FirstUpdateDoesNotWrap(1, |input|); }
    context.Update(input);
  }
}
