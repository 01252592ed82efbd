/** The chained hash table of common/hash.c as a value, and its proof that every run refines a
    finite map.  A bucket is the sequence of nodes on its chain, head first; `h` is the table's
    `hash_func`, an arbitrary function to 32-bit codes. */
module HashModel {
  import opened Common

  /** sizeof(HashData) on a 64-bit machine. */
  const NODE_SIZE := 32

  const PRIMES: seq<nat> := [
    1, 3, 17, 37, 79, 163, 331, 673, 1361, 2729, 5471, 10949, 21911, 43853, 87719, 175447, 350899,
    701819, 1403641, 2807303, 5614657, 11229331, 22458671, 44917381, 89834777, 179669557,
    359339171, 718678369, 1437356741, 2147483647]

  /** A string of `key_len` bytes. */
  type Key = string
  type HashCode = x: int | 0 <= x < 0x1_0000_0000
  type HashFunc = Key -> HashCode

  /** A HashData node; `room` is its `malloc_value_size`. */
  datatype Entry<V> = Entry(key: Key, value: V, len: nat, room: nat)

  type Chain<V> = seq<Entry<V>>

  /** What a caller can see under a key: the value and its length. */
  datatype Item<V> = Item(value: V, len: nat)

  lemma QuotientUnique(x: nat, n: nat, q: nat, r: nat)
    requires n > 0 && x == q * n + r && r < n
    ensures x % n == r
  {
    var p, s := x / n, x % n;
    assert x == p * n + s;
    assert (p - q) * n == p * n - q * n;
    NoSmallMultiple(p - q, n, r - s);
  }

  lemma NoSmallMultiple(k: int, n: nat, d: int)
    requires k * n == d && 0 - n < d < n
    ensures d == 0
  {
    MultipleIsLarge(k, n);
    MultipleIsLarge(-k, n);
  }

  lemma MultipleIsLarge(k: int, n: nat)
    ensures k >= 1 ==> k * n >= n
  {
    if k >= 1 { assert (k - 1) * n >= 0; }
  }

  // ----- one chain --------------------------------------------------------------------------

  /** The first position holding `key`, or the length of the chain. */
  function Index<V>(c: Chain<V>, key: Key): (i: nat)
    ensures i <= |c|
    ensures i < |c| ==> c[i].key == key
    ensures forall j :: 0 <= j < i ==> c[j].key != key
  {
    FirstWhere(c, (e: Entry<V>) => e.key == key)
  }

  ghost predicate DistinctKeys<V>(c: Chain<V>) {
    forall i, j :: 0 <= i < j < |c| ==> c[i].key != c[j].key
  }

  function NodeBytes<V>(e: Entry<V>): nat { NODE_SIZE + |e.key| + e.room }

  function ChainBytes<V>(c: Chain<V>): nat {
    if c == [] then 0 else ChainBytes(c[..|c| - 1]) + NodeBytes(c[|c| - 1])
  }

  lemma {:induction false} ChainBytesConcat<V>(c: Chain<V>, d: Chain<V>)
    ensures ChainBytes(c + d) == ChainBytes(c) + ChainBytes(d)
    decreases |d|
  {
    if d == [] {
      assert c + d == c;
    } else {
      var m := |d| - 1;
      assert (c + d)[..|c + d| - 1] == c + d[..m];
      ChainBytesConcat(c, d[..m]);
    }
  }

  lemma ChainBytesOne<V>(e: Entry<V>)
    ensures ChainBytes([e]) == NodeBytes(e)
  {
    assert [e][..0] == [];
  }

  /** Taking one node out of a chain changes the bytes by exactly that node. */
  lemma {:induction false} ChainBytesMiddle<V>(x: Chain<V>, e: Entry<V>, z: Chain<V>)
    ensures ChainBytes(x + [e] + z) == ChainBytes(x + z) + NodeBytes(e)
  {
    ChainBytesConcat(x + [e], z);
    ChainBytesConcat(x, [e]);
    ChainBytesConcat(x, z);
    ChainBytesOne(e);
  }

  // ----- the buckets ------------------------------------------------------------------------

  function Flatten<V>(b: seq<Chain<V>>): Chain<V> {
    if b == [] then [] else Flatten(b[..|b| - 1]) + b[|b| - 1]
  }

  function Empty<V>(n: nat): (b: seq<Chain<V>>)
    ensures |b| == n && forall i :: 0 <= i < n ==> b[i] == []
  {
    seq(n, i => [])
  }

  function Place<V>(h: HashFunc, b: seq<Chain<V>>, key: Key): (i: nat)
    requires |b| > 0
    ensures i < |b|
  {
    h(key) % |b|
  }

  /** ADD_TO_BUCKET: the node becomes the head of its chain. */
  function Add<V>(h: HashFunc, b: seq<Chain<V>>, e: Entry<V>): (r: seq<Chain<V>>)
    requires |b| > 0
    ensures |r| == |b|
  {
    var i := Place(h, b, e.key);
    b[i := [e] + b[i]]
  }

  /** The loop of _rehash1: every node of the old chains, in order, added to the new buckets. */
  function AddAll<V>(h: HashFunc, b: seq<Chain<V>>, es: Chain<V>): (r: seq<Chain<V>>)
    requires |b| > 0
    ensures |r| == |b|
  {
    if es == [] then b else Add(h, AddAll(h, b, es[..|es| - 1]), es[|es| - 1])
  }

  function Rehashed<V>(h: HashFunc, b: seq<Chain<V>>, n: nat): seq<Chain<V>>
    requires n > 0
  {
    AddAll(h, Empty(n), Flatten(b))
  }

  /** What hash_find_ex sees: the first match on the chain that the key hashes to. */
  function Get<V>(h: HashFunc, b: seq<Chain<V>>, key: Key): Option<Item<V>>
    requires |b| > 0
  {
    var c := b[Place(h, b, key)];
    var i := Index(c, key);
    if i < |c| then Some(Item(c[i].value, c[i].len)) else None
  }

  /** Each node lies in the bucket of its hash code, and no chain holds a key twice. */
  ghost predicate Placed<V>(h: HashFunc, b: seq<Chain<V>>) {
    && |b| > 0
    && (forall i, j :: 0 <= i < |b| && 0 <= j < |b[i]| ==> h(b[i][j].key) % |b| == i)
    && (forall i :: 0 <= i < |b| ==> DistinctKeys(b[i]))
  }

  // ----- the finite map ---------------------------------------------------------------------

  ghost function ToMap<V>(es: Chain<V>): map<Key, Item<V>> {
    if es == [] then map[]
    else var e := es[|es| - 1]; ToMap(es[..|es| - 1])[e.key := Item(e.value, e.len)]
  }

  ghost function Contents<V>(b: seq<Chain<V>>): map<Key, Item<V>> { ToMap(Flatten(b)) }

  ghost function Lookup<V>(m: map<Key, Item<V>>, key: Key): Option<Item<V>> {
    if key in m then Some(m[key]) else None
  }

  lemma {:induction false} ToMapConcat<V>(es: Chain<V>, fs: Chain<V>)
    ensures ToMap(es + fs) == ToMap(es) + ToMap(fs)
    decreases |fs|
  {
    if fs == [] {
      assert es + fs == es;
    } else {
      var n := |fs| - 1;
      assert (es + fs)[..|es + fs| - 1] == es + fs[..n];
      ToMapConcat(es, fs[..n]);
    }
  }

  lemma {:induction false} ToMapKeys<V>(es: Chain<V>, key: Key)
    ensures key in ToMap(es) <==> exists j :: 0 <= j < |es| && es[j].key == key
  {
    if es != [] {
      var n := |es| - 1;
      ToMapKeys(es[..n], key);
      if key in ToMap(es) && key != es[n].key {
        var j :| 0 <= j < n && es[..n][j].key == key;
        assert es[j].key == key;
      }
    }
  }

  /** Without repeated keys the map gives each node back and has as many keys as nodes. */
  lemma {:induction false} ToMapDistinct<V>(es: Chain<V>)
    requires DistinctKeys(es)
    ensures |ToMap(es)| == |es|
    ensures forall j :: 0 <= j < |es| ==> es[j].key in ToMap(es) && ToMap(es)[es[j].key] == Item(es[j].value, es[j].len)
  {
    if es != [] {
      var n := |es| - 1;
      ToMapDistinct(es[..n]);
      ToMapKeys(es[..n], es[n].key);
      forall j | 0 <= j < n
        ensures es[j].key in ToMap(es) && ToMap(es)[es[j].key] == Item(es[j].value, es[j].len)
      {
        assert es[..n][j] == es[j];
      }
    }
  }

  /** On one chain, the first match is what the map says. */
  lemma ChainLookup<V>(c: Chain<V>, key: Key)
    requires DistinctKeys(c)
    ensures var i := Index(c, key);
      Lookup(ToMap(c), key) == if i < |c| then Some(Item(c[i].value, c[i].len)) else None
  {
    ToMapDistinct(c);
    ToMapKeys(c, key);
  }

  /** Only the bucket a key has its place in can hold it. */
  lemma {:induction false} FlattenLookup<V>(place: Key -> nat, b: seq<Chain<V>>, key: Key)
    requires forall i, j :: 0 <= i < |b| && 0 <= j < |b[i]| ==> place(b[i][j].key) == i
    ensures Lookup(Contents(b), key) == if place(key) < |b| then Lookup(ToMap(b[place(key)]), key) else None
    decreases |b|
  {
    if b != [] {
      var k := |b| - 1;
      var d, c := b[..k], b[k];
      ToMapConcat(Flatten(d), c);
      FlattenLookup(place, d, key);
      if key in ToMap(c) {
        ToMapKeys(c, key);
        assert place(key) == k;
      }
    }
  }

  lemma PlacedLookup<V>(h: HashFunc, b: seq<Chain<V>>, n: nat, key: Key)
    requires n > 0 && |b| <= n
    requires forall i, j :: 0 <= i < |b| && 0 <= j < |b[i]| ==> h(b[i][j].key) % n == i
    ensures Lookup(Contents(b), key)
      == if h(key) % n < |b| then Lookup(ToMap(b[h(key) % n]), key) else None
  {
    FlattenLookup((k: Key) => h(k) % n, b, key);
  }

  /** hash_find agrees with the map. */
  lemma GetMeetsMap<V>(h: HashFunc, b: seq<Chain<V>>, key: Key)
    requires Placed(h, b)
    ensures Get(h, b, key) == Lookup(Contents(b), key)
  {
    PlacedLookup(h, b, |b|, key);
    ChainLookup(b[Place(h, b, key)], key);
  }

  // ----- changing one bucket ------------------------------------------------------------------

  lemma {:induction false} ToMapMiddle<V>(x: Chain<V>, e: Entry<V>, z: Chain<V>)
    requires DistinctKeys(x + [e] + z)
    ensures DistinctKeys(x + z) && e.key !in ToMap(x + z)
    ensures ToMap(x + [e] + z) == ToMap(x + z)[e.key := Item(e.value, e.len)]
  {
    var c := x + [e] + z;
    assert forall i :: 0 <= i < |x + z| ==> (x + z)[i] == c[if i < |x| then i else i + 1];
    assert c[|x|] == e;
    ToMapKeys(x + z, e.key);
    ToMapKeys(z, e.key);
    ToMapConcat(x + [e], z);
    ToMapConcat(x, [e]);
    ToMapConcat(x, z);
    assert ToMap([e]) == map[e.key := Item(e.value, e.len)] by { assert [e][..0] == []; }
  }

  ghost predicate BelongsAt<V>(h: HashFunc, n: nat, i: nat, c: Chain<V>) {
    n > 0 && DistinctKeys(c) && forall j :: 0 <= j < |c| ==> h(c[j].key) % n == i
  }

  lemma ChangeBucket<V>(h: HashFunc, b: seq<Chain<V>>, i: nat, c: Chain<V>, key: Key)
    requires Placed(h, b) && i < |b| && BelongsAt(h, |b|, i, c)
    ensures Placed(h, b[i := c])
    ensures Lookup(Contents(b[i := c]), key)
      == if h(key) % |b| == i then Lookup(ToMap(c), key) else Lookup(Contents(b), key)
  {
    PlacedLookup(h, b, |b|, key);
    PlacedLookup(h, b[i := c], |b|, key);
  }

  lemma {:induction false} FlattenUpdate<V>(b: seq<Chain<V>>, i: nat, c: Chain<V>)
    requires i < |b|
    ensures |Flatten(b[i := c])| == |Flatten(b)| - |b[i]| + |c|
    ensures ChainBytes(Flatten(b[i := c])) == ChainBytes(Flatten(b)) - ChainBytes(b[i]) + ChainBytes(c)
    decreases |b|
  {
    var k := |b| - 1;
    var d := b[i := c];
    ChainBytesConcat(Flatten(b[..k]), b[k]);
    ChainBytesConcat(Flatten(d[..k]), d[k]);
    if i < k {
      FlattenUpdate(b[..k], i, c);
      assert d[..k] == b[..k][i := c];
    } else {
      assert d[..k] == b[..k];
    }
  }

  /** A chain with a node between `x` and `z`, and the same chain without it: the one change
      behind adding, deleting and updating. */
  lemma SpliceMeetsMap<V>(h: HashFunc, b: seq<Chain<V>>, i: nat, x: Chain<V>, e: Entry<V>, z: Chain<V>)
    requires Placed(h, b) && i < |b| && BelongsAt(h, |b|, i, x + [e] + z)
    ensures Placed(h, b[i := x + [e] + z]) && Placed(h, b[i := x + z])
    ensures Contents(b[i := x + [e] + z]) == Contents(b[i := x + z])[e.key := Item(e.value, e.len)]
    ensures e.key !in Contents(b[i := x + z])
  {
    var c, d := x + [e] + z, x + z;
    ToMapMiddle(x, e, z);
    assert BelongsAt(h, |b|, i, d) by {
      assert forall j :: 0 <= j < |d| ==> d[j] == c[if j < |x| then j else j + 1];
    }
    assert h(e.key) % |b| == i by { assert c[|x|] == e; }
    var m := Contents(b[i := d])[e.key := Item(e.value, e.len)];
    forall key ensures Lookup(Contents(b[i := c]), key) == Lookup(m, key) {
      SpliceLookup(h, b, i, c, d, e, key);
    }
    SpliceLookup(h, b, i, c, d, e, e.key);
    SameMap(Contents(b[i := c]), m);
  }

  lemma SpliceLookup<V>(h: HashFunc, b: seq<Chain<V>>, i: nat, c: Chain<V>, d: Chain<V>, e: Entry<V>, key: Key)
    requires Placed(h, b) && i < |b| && BelongsAt(h, |b|, i, c) && BelongsAt(h, |b|, i, d)
    requires h(e.key) % |b| == i && e.key !in ToMap(d)
    requires ToMap(c) == ToMap(d)[e.key := Item(e.value, e.len)]
    ensures Placed(h, b[i := c]) && Placed(h, b[i := d])
    ensures Lookup(Contents(b[i := c]), key)
      == if key == e.key then Some(Item(e.value, e.len)) else Lookup(Contents(b[i := d]), key)
    ensures Lookup(Contents(b[i := d]), e.key) == None
  {
    ChangeBucket(h, b, i, c, key);
    ChangeBucket(h, b, i, d, key);
    ChangeBucket(h, b, i, d, e.key);
  }

  lemma SameMap<V>(m: map<Key, Item<V>>, m': map<Key, Item<V>>)
    requires forall key :: Lookup(m, key) == Lookup(m', key)
    ensures m == m'
  {
    forall key ensures key in m <==> key in m' { assert Lookup(m, key) == Lookup(m', key); }
    forall key | key in m ensures m[key] == m'[key] { assert Lookup(m, key) == Lookup(m', key); }
  }

  // ----- rehashing ----------------------------------------------------------------------------

  /** Count, bytes and contents of a table whose bucket `i` does or does not hold a node. */
  lemma SpliceKeeps<V>(h: HashFunc, b: seq<Chain<V>>, i: nat, x: Chain<V>, e: Entry<V>, z: Chain<V>,
                       with: seq<Chain<V>>, without: seq<Chain<V>>)
    requires Placed(h, b) && i < |b| && BelongsAt(h, |b|, i, x + [e] + z)
    requires with == b[i := x + [e] + z] && without == b[i := x + z]
    ensures Placed(h, with) && Placed(h, without)
    ensures |Flatten(with)| == |Flatten(without)| + 1
    ensures ChainBytes(Flatten(with)) == ChainBytes(Flatten(without)) + NodeBytes(e)
    ensures e.key !in Contents(without)
    ensures Contents(with) == Contents(without)[e.key := Item(e.value, e.len)]
  {
    SpliceMeetsMap(h, b, i, x, e, z);
    FlattenUpdate(b, i, x + [e] + z);
    FlattenUpdate(b, i, x + z);
    ChainBytesMiddle(x, e, z);
  }

  lemma AddBelongs<V>(h: HashFunc, b: seq<Chain<V>>, e: Entry<V>)
    requires Placed(h, b) && e.key !in Contents(b)
    ensures var i := Place(h, b, e.key); BelongsAt(h, |b|, i, [e] + b[i])
  {
    GetMeetsMap(h, b, e.key);
    var c := b[Place(h, b, e.key)];
    assert Index(c, e.key) == |c|;
  }

  lemma AddMeetsMap<V>(h: HashFunc, b: seq<Chain<V>>, e: Entry<V>)
    requires Placed(h, b) && e.key !in Contents(b)
    ensures Placed(h, Add(h, b, e))
    ensures Contents(Add(h, b, e)) == Contents(b)[e.key := Item(e.value, e.len)]
    ensures |Flatten(Add(h, b, e))| == |Flatten(b)| + 1
    ensures ChainBytes(Flatten(Add(h, b, e))) == ChainBytes(Flatten(b)) + NodeBytes(e)
  {
    var i := Place(h, b, e.key);
    var c := b[i];
    AddBelongs(h, b, e);
    assert [] + [e] + c == [e] + c && [] + c == c;
    assert b == b[i := c];
    SpliceKeeps(h, b, i, [], e, c, Add(h, b, e), b);
  }

  lemma {:induction false} FlattenEmpty<V>(b: seq<Chain<V>>)
    requires forall i :: 0 <= i < |b| ==> b[i] == []
    ensures Flatten(b) == []
  {
    if b != [] { FlattenEmpty(b[..|b| - 1]); }
  }

  /** Filling empty buckets with nodes of distinct keys: same map, same count, same bytes. */
  lemma {:induction false} AddAllMeetsMap<V>(h: HashFunc, start: seq<Chain<V>>, es: Chain<V>)
    requires Placed(h, start) && Flatten(start) == [] && DistinctKeys(es)
    ensures var b := AddAll(h, start, es);
      && Placed(h, b) && Contents(b) == ToMap(es)
      && |Flatten(b)| == |es| && ChainBytes(Flatten(b)) == ChainBytes(es)
    decreases |es|
  {
    if es != [] {
      var k := |es| - 1;
      var fs, e := es[..k], es[k];
      AddAllMeetsMap(h, start, fs);
      assert e.key !in ToMap(fs) by { ToMapKeys(fs, e.key); }
      AddMeetsMap(h, AddAll(h, start, fs), e);
    }
  }

  /** No key occurs twice in the whole table. */
  lemma {:induction false} FlattenDistinct<V>(h: HashFunc, b: seq<Chain<V>>, n: nat)
    requires n > 0 && |b| <= n
    requires forall i, j :: 0 <= i < |b| && 0 <= j < |b[i]| ==> h(b[i][j].key) % n == i
    requires forall i :: 0 <= i < |b| ==> DistinctKeys(b[i])
    ensures DistinctKeys(Flatten(b))
    ensures forall j :: 0 <= j < |Flatten(b)| ==> h(Flatten(b)[j].key) % n < |b|
    decreases |b|
  {
    if b != [] {
      var k := |b| - 1;
      FlattenDistinct(h, b[..k], n);
      assert DistinctKeys(b[k]);
    }
  }

  /** _rehash1 rearranges the nodes and nothing else. */
  lemma RehashMeetsMap<V>(h: HashFunc, b: seq<Chain<V>>, n: nat)
    requires Placed(h, b) && n > 0
    ensures var r := Rehashed(h, b, n);
      && Placed(h, r) && |r| == n && Contents(r) == Contents(b)
      && |Flatten(r)| == |Flatten(b)| && ChainBytes(Flatten(r)) == ChainBytes(Flatten(b))
  {
    FlattenDistinct(h, b, |b|);
    FlattenEmpty<V>(Empty(n));
    AddAllMeetsMap(h, Empty(n), Flatten(b));
  }

  // ----- the table ----------------------------------------------------------------------------

  /** HashArray.  `capacity` is the number of buckets; `slot` is the position of the capacity
      pointer in prime_array, or None when the capacity was allocated by hash_best_op. */
  datatype Table<V> = Table(buckets: seq<Chain<V>>, slot: Option<nat>, itemCount: int, bytesUsed: int,
                            maxBytes: int, loadFactor: real, mallocValue: bool)

  ghost predicate Fits<V>(e: Entry<V>, mallocValue: bool) {
    if mallocValue then e.len <= e.room else e.room == 0
  }

  ghost predicate AllFit<V>(b: seq<Chain<V>>, mallocValue: bool) {
    forall i, j :: 0 <= i < |b| && 0 <= j < |b[i]| ==> Fits(b[i][j], mallocValue)
  }

  ghost predicate Valid<V>(h: HashFunc, t: Table<V>) {
    && Placed(h, t.buckets)
    && t.itemCount == |Flatten(t.buckets)|
    && t.bytesUsed == ADDRESS_SIZE * |t.buckets| + ChainBytes(Flatten(t.buckets))
    && AllFit(t.buckets, t.mallocValue)
    && (t.slot.Some? ==> t.slot.value < |PRIMES| && PRIMES[t.slot.value] == |t.buckets|)
    && 0.1 <= t.loadFactor <= 1.0
  }

  predicate WithinLimit<V>(t: Table<V>) { t.maxBytes > 0 ==> t.bytesUsed <= t.maxBytes }

  /** prime_array holds a capacity beyond the current one. */
  predicate Growable<V>(t: Table<V>) { |t.buckets| < PRIMES[|PRIMES| - 1] }

  /** The first position from `i` on with an entry above `n`, or the size of the array. */
  function FirstAbove(primes: seq<nat>, n: nat, i: nat): (r: nat)
    requires i <= |primes|
    ensures i <= r <= |primes|
    ensures r < |primes| ==> primes[r] > n
    ensures forall j :: i <= j < r ==> primes[j] <= n
    decreases |primes| - i
  {
    if i == |primes| || primes[i] > n then i else FirstAbove(primes, n, i + 1)
  }

  ghost predicate Ascending(primes: seq<nat>) {
    forall i, j :: 0 <= i < j < |primes| ==> primes[i] < primes[j]
  }

  lemma {:induction false} AscendingFrom(primes: seq<nat>, i: nat, j: nat)
    requires forall k :: 0 <= k < |primes| - 1 ==> primes[k] < primes[k + 1]
    requires i < j < |primes|
    ensures primes[i] < primes[j]
    decreases j - i
  {
    if i + 1 < j { AscendingFrom(primes, i, j - 1); }
    assert primes[j - 1] < primes[j - 1 + 1];
  }

  lemma PrimesAscend()
    ensures Ascending(PRIMES)
  {
    forall i, j | 0 <= i < j < |PRIMES| ensures PRIMES[i] < PRIMES[j] { AscendingFrom(PRIMES, i, j); }
  }

  /** prime_array from 1 to the largest signed prime: each entry more than doubles the one before, except for
      the last, and no entry has a small divisor. */
  lemma PrimesDouble(k: nat)
    requires k < |PRIMES|
    ensures |PRIMES| == 30 && PRIMES[0] == 1 && PRIMES[29] == 0x7fff_ffff
    ensures k < 28 ==> PRIMES[k + 1] > 2 * PRIMES[k]
    ensures k > 0 ==> PRIMES[k] % 2 != 0
    ensures k > 1 ==> PRIMES[k] % 3 != 0 && PRIMES[k] % 5 != 0 && PRIMES[k] % 7 != 0
  {
  }

  lemma StepIsFirstAbove(primes: seq<nat>, i: nat)
    requires Ascending(primes) && i < |primes|
    ensures FirstAbove(primes, primes[i], 0) == i + 1
  {
    var r := FirstAbove(primes, primes[i], 0);
    AscendAt(primes, r, i);
    AscendAt(primes, i, i + 1);
  }

  lemma AscendAt(primes: seq<nat>, i: nat, j: nat)
    requires Ascending(primes)
    ensures i < j < |primes| ==> primes[i] < primes[j]
  {
  }

  /** Where the capacity pointer goes: one step on in prime_array, or, from an allocated
      capacity, to the first entry above it. */
  function NextSlot<V>(t: Table<V>): nat {
    match t.slot
    case Some(i) => i + 1
    case None => FirstAbove(PRIMES, |t.buckets|, 0)
  }

  /** prime_array goes on behind the current capacity; if it does not, _rehash reads outside it. */
  predicate HasNext<V>(t: Table<V>) { NextSlot(t) < |PRIMES| && PRIMES[NextSlot(t)] > 0 }

  /** It goes on iff the capacity is below its last entry; and both ways lead to the least entry
      above the current capacity. */
  lemma NextSlotIsFirstAbove<V>(h: HashFunc, t: Table<V>)
    requires Valid(h, t)
    ensures HasNext(t) <==> Growable(t)
    ensures HasNext(t) ==> NextSlot(t) == FirstAbove(PRIMES, |t.buckets|, 0) && PRIMES[NextSlot(t)] > |t.buckets|
  {
    PrimesAscend();
    NextIn(PRIMES, t.slot, |t.buckets|);
  }

  lemma NextIn(primes: seq<nat>, slot: Option<nat>, n: nat)
    requires Ascending(primes) && |primes| > 0 && (slot.Some? ==> slot.value < |primes| && primes[slot.value] == n)
    ensures slot.Some? ==> FirstAbove(primes, n, 0) == slot.value + 1
    ensures FirstAbove(primes, n, 0) < |primes| <==> n < primes[|primes| - 1]
  {
    if slot.Some? { StepIsFirstAbove(primes, slot.value); }
    if n < primes[|primes| - 1] { LastIsLeft(primes, n); } else { NoneIsLeft(primes, n); }
  }

  lemma NoneIsLeft(primes: seq<nat>, n: nat)
    requires Ascending(primes) && |primes| > 0 && n >= primes[|primes| - 1]
    ensures FirstAbove(primes, n, 0) == |primes|
  {
    AscendAt(primes, FirstAbove(primes, n, 0), |primes| - 1);
  }

  lemma LastIsLeft(primes: seq<nat>, n: nat)
    requires |primes| > 0 && n < primes[|primes| - 1]
    ensures FirstAbove(primes, n, 0) < |primes|
  {
    assert primes[|primes| - 1] > n;
  }

  /** _rehash1: refused by the limit, refused by malloc, or all nodes moved to `n` buckets. */
  function Rehash1<V>(h: HashFunc, t: Table<V>, n: nat, ok: bool): (Table<V>, int)
    requires n > 0
  {
    if t.maxBytes > 0 && t.bytesUsed + ADDRESS_SIZE * n > t.maxBytes then (t, ENOSPC)
    else if !ok then (t, ENOMEM)
    else
      (t.(buckets := Rehashed(h, t.buckets, n),
          itemCount := |Flatten(t.buckets)|,
          bytesUsed := t.bytesUsed + ADDRESS_SIZE * n - ADDRESS_SIZE * |t.buckets|), 0)
  }

  /** Over the limit: ENOSPC.  Within it or without one: ENOMEM if malloc refuses, otherwise `n`
      buckets. */
  lemma Rehash1Answers<V>(h: HashFunc, t: Table<V>, n: nat, ok: bool)
    requires n > 0
    ensures var (t', code) := Rehash1(h, t, n, ok);
      && (code == ENOSPC <==> t.maxBytes > 0 && t.bytesUsed + ADDRESS_SIZE * n > t.maxBytes)
      && (code == ENOMEM <==> (t.maxBytes <= 0 || t.bytesUsed + ADDRESS_SIZE * n <= t.maxBytes) && !ok)
      && (code == 0 <==> (t.maxBytes <= 0 || t.bytesUsed + ADDRESS_SIZE * n <= t.maxBytes) && ok)
      && |t'.buckets| == if code == 0 then n else |t.buckets|
  {
  }

  function Rehash<V>(h: HashFunc, t: Table<V>, ok: bool): (Table<V>, int)
    requires HasNext(t)
  {
    var next := NextSlot(t);
    var r := Rehash1(h, t, PRIMES[next], ok);
    if r.1 != 0 then r else (r.0.(slot := Some(next)), 0)
  }

  function SetBucket<V>(t: Table<V>, i: nat, c: Chain<V>): Table<V>
    requires i < |t.buckets|
  {
    t.(buckets := t.buckets[i := c])
  }

  /** DELETE_FROM_BUCKET. */
  function RemoveAt<V>(t: Table<V>, i: nat, j: nat): Table<V>
    requires i < |t.buckets| && j < |t.buckets[i]|
  {
    var c := t.buckets[i];
    SetBucket(t, i, c[..j] + c[j + 1..]).(
      itemCount := t.itemCount - 1, bytesUsed := t.bytesUsed - NodeBytes(c[j]))
  }

  predicate LoadReached<V>(t: Table<V>)
    requires |t.buckets| > 0
  {
    (t.itemCount as real) / (|t.buckets| as real) >= t.loadFactor
  }

  /** ADD_TO_BUCKET with the byte account. */
  function AddNode<V>(h: HashFunc, t: Table<V>, e: Entry<V>): Table<V>
    requires |t.buckets| > 0
  {
    t.(buckets := Add(h, t.buckets, e), itemCount := t.itemCount + 1, bytesUsed := t.bytesUsed + NodeBytes(e))
  }

  function NewEntry<V>(t: Table<V>, key: Key, value: V, len: nat): Entry<V> {
    Entry(key, value, len, if t.mallocValue then len else 0)
  }

  /** The limit or malloc refuses a node of this size. */
  predicate Refused<V>(t: Table<V>, bytes: int, nodeOk: bool) {
    (t.maxBytes > 0 && t.bytesUsed + bytes > t.maxBytes) || !nodeOk
  }

  /** If a node is added and the load factor is reached, there is a next capacity. */
  predicate MayInsertNew<V>(h: HashFunc, t: Table<V>, key: Key, value: V, len: nat, nodeOk: bool)
    requires |t.buckets| > 0
  {
    var e := NewEntry(t, key, value, len);
    Refused(t, NodeBytes(e), nodeOk) || (LoadReached(AddNode(h, t, e)) ==> HasNext(t))
  }

  /** The node for a new key, once any old one is gone. */
  function InsertNew<V>(h: HashFunc, t: Table<V>, key: Key, value: V, len: nat, nodeOk: bool, rehashOk: bool)
    : (Table<V>, int)
    requires |t.buckets| > 0 && MayInsertNew(h, t, key, value, len, nodeOk)
  {
    var e := NewEntry(t, key, value, len);
    if t.maxBytes > 0 && t.bytesUsed + NodeBytes(e) > t.maxBytes then (t, -ENOSPC)
    else if !nodeOk then (t, -ENOMEM)
    else
      var t' := AddNode(h, t, e);
      (if LoadReached(t') then Rehash(h, t', rehashOk).0 else t', 1)
  }

  /** The new value goes into the old node. */
  predicate InPlace<V>(t: Table<V>, e: Entry<V>, len: nat) {
    !t.mallocValue || (e.room >= len && e.room / 2 < len)
  }

  /** An insert reaches _rehash only with a next capacity in prime_array. */
  predicate MayInsert<V>(h: HashFunc, t: Table<V>, key: Key, value: V, len: nat, nodeOk: bool)
    requires |t.buckets| > 0
  {
    var i := Place(h, t.buckets, key);
    var c := t.buckets[i];
    var j := Index(c, key);
    if j == |c| then MayInsertNew(h, t, key, value, len, nodeOk)
    else InPlace(t, c[j], len) || MayInsertNew(h, RemoveAt(t, i, j), key, value, len, nodeOk)
  }

  /** hash_insert_ex; `nodeOk` and `rehashOk` say whether the two allocations succeed. */
  function Insert<V>(h: HashFunc, t: Table<V>, key: Key, value: V, len: nat, nodeOk: bool, rehashOk: bool)
    : (Table<V>, int)
    requires |t.buckets| > 0 && MayInsert(h, t, key, value, len, nodeOk)
  {
    var i := Place(h, t.buckets, key);
    var c := t.buckets[i];
    var j := Index(c, key);
    if j == |c| then InsertNew(h, t, key, value, len, nodeOk, rehashOk)
    else if InPlace(t, c[j], len) then (SetBucket(t, i, c[j := c[j].(value := value, len := len)]), 0)
    else InsertNew(h, RemoveAt(t, i, j), key, value, len, nodeOk, rehashOk)
  }

  function Delete<V>(h: HashFunc, t: Table<V>, key: Key): (Table<V>, int)
    requires |t.buckets| > 0
  {
    var i := Place(h, t.buckets, key);
    var j := Index(t.buckets[i], key);
    if j == |t.buckets[i]| then (t, ENOENT) else (RemoveAt(t, i, j), 0)
  }

  // ----- what each operation keeps ------------------------------------------------------------

  lemma {:induction false} FlattenFits<V>(b: seq<Chain<V>>, mv: bool)
    requires AllFit(b, mv)
    ensures forall j :: 0 <= j < |Flatten(b)| ==> Fits(Flatten(b)[j], mv)
  {
    if b != [] {
      assert AllFit(b[..|b| - 1], mv);
      FlattenFits(b[..|b| - 1], mv);
    }
  }

  lemma {:induction false} AddAllFits<V>(h: HashFunc, b: seq<Chain<V>>, es: Chain<V>, mv: bool)
    requires |b| > 0 && AllFit(b, mv) && forall j :: 0 <= j < |es| ==> Fits(es[j], mv)
    ensures AllFit(AddAll(h, b, es), mv)
    decreases |es|
  {
    if es != [] {
      AddAllFits(h, b, es[..|es| - 1], mv);
    }
  }

  /** A rehash, successful or refused, keeps contents, count, byte account and limit; a refused
      one changes nothing at all. */
  lemma Rehash1Keeps<V>(h: HashFunc, t: Table<V>, n: nat, ok: bool)
    requires Valid(h, t.(slot := None)) && n > 0
    ensures var (t', code) := Rehash1(h, t, n, ok);
      && Valid(h, t'.(slot := None)) && Contents(t'.buckets) == Contents(t.buckets)
      && (WithinLimit(t) ==> WithinLimit(t'))
      && (if code == 0 then |t'.buckets| == n else t' == t)
  {
    RehashMeetsMap(h, t.buckets, n);
    FlattenFits(t.buckets, t.mallocValue);
    AddAllFits(h, Empty(n), Flatten(t.buckets), t.mallocValue);
  }

  lemma RehashKeeps<V>(h: HashFunc, t: Table<V>, ok: bool)
    requires Valid(h, t) && HasNext(t)
    ensures var (t', code) := Rehash(h, t, ok);
      && Valid(h, t') && Contents(t'.buckets) == Contents(t.buckets)
      && (WithinLimit(t) ==> WithinLimit(t'))
      && (code != 0 ==> t' == t)
  {
    NextSlotIsFirstAbove(h, t);
    Rehash1Keeps(h, t, PRIMES[NextSlot(t)], ok);
  }

  /** DELETE_FROM_BUCKET takes out exactly one key. */
  lemma RemoveAtKeeps<V>(h: HashFunc, t: Table<V>, i: nat, j: nat)
    requires Valid(h, t) && i < |t.buckets| && j < |t.buckets[i]|
    ensures var t' := RemoveAt(t, i, j);
      && Valid(h, t') && Contents(t'.buckets) == Contents(t.buckets) - {t.buckets[i][j].key}
      && t.buckets[i][j].key in Contents(t.buckets)
      && (WithinLimit(t) ==> WithinLimit(t'))
  {
    var b, c := t.buckets, t.buckets[i];
    var x, e, z := c[..j], c[j], c[j + 1..];
    assert c == x + [e] + z;
    assert b == b[i := c];
    SpliceKeeps(h, b, i, x, e, z, b, b[i := x + z]);
    assert Contents(b) - {e.key} == Contents(b[i := x + z]);
    RemoveFits(b, i, j, t.mallocValue);
  }

  lemma RemoveFits<V>(b: seq<Chain<V>>, i: nat, j: nat, mv: bool)
    requires AllFit(b, mv) && i < |b| && j < |b[i]|
    ensures AllFit(b[i := b[i][..j] + b[i][j + 1..]], mv)
  {
    var c := b[i];
    var d := c[..j] + c[j + 1..];
    assert forall k :: 0 <= k < |d| ==> d[k] == c[if k < j then k else k + 1];
  }

  lemma UpdateBucket<V>(h: HashFunc, b: seq<Chain<V>>, i: nat, x: Chain<V>, e: Entry<V>, z: Chain<V>, e': Entry<V>)
    requires Placed(h, b) && i < |b| && b[i] == x + [e] + z
    requires e'.key == e.key && e'.room == e.room
    ensures var r := b[i := x + [e'] + z];
      && Placed(h, r) && |Flatten(r)| == |Flatten(b)| && ChainBytes(Flatten(r)) == ChainBytes(Flatten(b))
      && Contents(r) == Contents(b)[e.key := Item(e'.value, e'.len)]
  {
    var c, d := x + [e] + z, x + [e'] + z;
    assert BelongsAt(h, |b|, i, d) by {
      assert forall k :: 0 <= k < |d| ==> d[k].key == c[k].key;
    }
    assert b == b[i := c];
    SpliceKeeps(h, b, i, x, e, z, b, b[i := x + z]);
    SpliceKeeps(h, b, i, x, e', z, b[i := d], b[i := x + z]);
  }

  /** An update in place changes the value under one key. */
  lemma UpdateKeeps<V>(h: HashFunc, t: Table<V>, i: nat, j: nat, value: V, len: nat)
    requires Valid(h, t) && i < |t.buckets| && j < |t.buckets[i]|
    requires t.mallocValue ==> len <= t.buckets[i][j].room
    ensures var c := t.buckets[i];
      var t' := SetBucket(t, i, c[j := c[j].(value := value, len := len)]);
      && Valid(h, t') && Contents(t'.buckets) == Contents(t.buckets)[c[j].key := Item(value, len)]
  {
    var c := t.buckets[i];
    var x, e, z := c[..j], c[j], c[j + 1..];
    var e' := e.(value := value, len := len);
    var d := c[j := e'];
    assert c == x + [e] + z && d == x + [e'] + z;
    UpdateBucket(h, t.buckets, i, x, e, z, e');
    ChangeFits(t.buckets, i, d, t.mallocValue);
  }

  lemma ChangeFits<V>(b: seq<Chain<V>>, i: nat, c: Chain<V>, mv: bool)
    requires AllFit(b, mv) && i < |b| && forall k :: 0 <= k < |c| ==> Fits(c[k], mv)
    ensures AllFit(b[i := c], mv)
  {
  }

  lemma InsertNewKeeps<V>(h: HashFunc, t: Table<V>, key: Key, value: V, len: nat, nodeOk: bool, rehashOk: bool)
    requires Valid(h, t) && key !in Contents(t.buckets) && MayInsertNew(h, t, key, value, len, nodeOk)
    ensures var (t', code) := InsertNew(h, t, key, value, len, nodeOk, rehashOk);
      && Valid(h, t') && (WithinLimit(t) ==> WithinLimit(t'))
      && (if code == 1 then Contents(t'.buckets) == Contents(t.buckets)[key := Item(value, len)]
          else code < 0 && t' == t)
  {
    var e := NewEntry(t, key, value, len);
    AddNodeKeeps(h, t, e);
    var t' := AddNode(h, t, e);
    if !Refused(t, NodeBytes(e), nodeOk) && LoadReached(t') { RehashKeeps(h, t', rehashOk); }
  }

  lemma AddNodeKeeps<V>(h: HashFunc, t: Table<V>, e: Entry<V>)
    requires Valid(h, t) && e.key !in Contents(t.buckets) && Fits(e, t.mallocValue)
    ensures var t' := AddNode(h, t, e);
      && Valid(h, t') && Contents(t'.buckets) == Contents(t.buckets)[e.key := Item(e.value, e.len)]
      && NextSlot(t') == NextSlot(t)
  {
    AddMeetsMap(h, t.buckets, e);
    var i := Place(h, t.buckets, e.key);
    ChangeFits(t.buckets, i, [e] + t.buckets[i], t.mallocValue);
  }

  /** hash_insert_ex.  0: the key was there and now has the new value.  1: the key has the new
      value, in a new node.  Negative: the key is absent, and nothing else changed - so an
      update that had to free the old node first has lost it. */
  lemma InsertMeetsMap<V>(h: HashFunc, t: Table<V>, key: Key, value: V, len: nat, nodeOk: bool, rehashOk: bool)
    requires Valid(h, t) && MayInsert(h, t, key, value, len, nodeOk)
    ensures var (t', code) := Insert(h, t, key, value, len, nodeOk, rehashOk);
      var m, m' := Contents(t.buckets), Contents(t'.buckets);
      && Valid(h, t') && (WithinLimit(t) ==> WithinLimit(t'))
      && m' == (if code >= 0 then m[key := Item(value, len)] else m - {key})
  {
    var i := Place(h, t.buckets, key);
    var c := t.buckets[i];
    var j := Index(c, key);
    assert key in Contents(t.buckets) <==> j < |c| by { GetMeetsMap(h, t.buckets, key); }
    if j == |c| {
      InsertNewKeeps(h, t, key, value, len, nodeOk, rehashOk);
      assert Contents(t.buckets) - {key} == Contents(t.buckets);
    } else if InPlace(t, c[j], len) {
      UpdateKeeps(h, t, i, j, value, len);
    } else {
      ReplaceMeetsMap(h, t, i, j, value, len, nodeOk, rehashOk);
    }
  }

  /** The delete-then-reinsert path. */
  lemma ReplaceMeetsMap<V>(h: HashFunc, t: Table<V>, i: nat, j: nat, value: V, len: nat, nodeOk: bool, rehashOk: bool)
    requires Valid(h, t) && i < |t.buckets| && j < |t.buckets[i]|
    requires MayInsertNew(h, RemoveAt(t, i, j), t.buckets[i][j].key, value, len, nodeOk)
    ensures var key := t.buckets[i][j].key;
      var (t', code) := InsertNew(h, RemoveAt(t, i, j), key, value, len, nodeOk, rehashOk);
      var m, m' := Contents(t.buckets), Contents(t'.buckets);
      && Valid(h, t') && (WithinLimit(t) ==> WithinLimit(t'))
      && m' == (if code >= 0 then m[key := Item(value, len)] else m - {key})
  {
    var key := t.buckets[i][j].key;
    RemoveAtKeeps(h, t, i, j);
    InsertNewKeeps(h, RemoveAt(t, i, j), key, value, len, nodeOk, rehashOk);
    var m := Contents(t.buckets);
    assert (m - {key})[key := Item(value, len)] == m[key := Item(value, len)];
  }

  /** A table of these items, buckets and bytes grows when its load is looked at: the load factor is
      reached, prime_array has a next entry, malloc grants that many buckets, and so does the limit. */
  ghost predicate Grows(
    items: int, capacity: nat, used: int, maxBytes: int, loadFactor: real, next: nat, rehashOk: bool)
    requires capacity > 0
  {
    && items as real / capacity as real >= loadFactor && next < |PRIMES| && rehashOk
    && (maxBytes <= 0 || used + ADDRESS_SIZE * PRIMES[next] <= maxBytes)
  }

  /** A new node makes the table grow to the first larger prime exactly then. */
  lemma InsertNewGrowsIff<V>(h: HashFunc, t: Table<V>, key: Key, value: V, len: nat, nodeOk: bool, rehashOk: bool)
    requires Valid(h, t) && key !in Contents(t.buckets) && MayInsertNew(h, t, key, value, len, nodeOk)
    ensures var (t', code) := InsertNew(h, t, key, value, len, nodeOk, rehashOk);
      var next, n := FirstAbove(PRIMES, |t.buckets|, 0), |t.buckets|;
      var used := t.bytesUsed + NODE_SIZE + |key| + if t.mallocValue then len else 0;
      |t'.buckets| ==
        if code == 1 && Grows(t.itemCount + 1, n, used, t.maxBytes, t.loadFactor, next, rehashOk) then PRIMES[next]
        else n
  {
    var e := NewEntry(t, key, value, len);
    var t' := AddNode(h, t, e);
    AddNodeKeeps(h, t, e);
    AddNodeMeans(h, t, e);
    if LoadReached(t') && !Refused(t, NodeBytes(e), nodeOk) { RehashGrowsIff(h, t', rehashOk); }
  }

  lemma AddNodeMeans<V>(h: HashFunc, t: Table<V>, e: Entry<V>)
    requires |t.buckets| > 0
    ensures var t' := AddNode(h, t, e);
      && |t'.buckets| == |t.buckets| && t'.itemCount == t.itemCount + 1
      && t'.bytesUsed == t.bytesUsed + NODE_SIZE + |e.key| + e.room
      && t'.maxBytes == t.maxBytes && t'.loadFactor == t.loadFactor
  {
  }

  lemma RehashGrowsIff<V>(h: HashFunc, t: Table<V>, ok: bool)
    requires Valid(h, t) && HasNext(t)
    ensures var next := FirstAbove(PRIMES, |t.buckets|, 0);
      && next < |PRIMES|
      && |Rehash(h, t, ok).0.buckets| ==
           if ok && (t.maxBytes <= 0 || t.bytesUsed + ADDRESS_SIZE * PRIMES[next] <= t.maxBytes) then PRIMES[next]
           else |t.buckets|
  {
    NextSlotIsFirstAbove(h, t);
    Rehash1Answers(h, t, PRIMES[NextSlot(t)], ok);
  }

  /** Growing along prime_array more than doubles the capacity until its last step. */
  lemma RehashDoubles<V>(h: HashFunc, t: Table<V>, ok: bool)
    requires Valid(h, t) && HasNext(t) && t.slot.Some? && |t.buckets| < PRIMES[28]
    ensures var (t', code) := Rehash(h, t, ok); code == 0 ==> |t'.buckets| > 2 * |t.buckets|
  {
    PrimesAscend();
    AscendAt(PRIMES, 28, t.slot.value);
    PrimesDouble(t.slot.value);
    Rehash1Answers(h, t, PRIMES[NextSlot(t)], ok);
  }

  /** Whether an insert makes the table grow, from what is known before the call: `freed` is the size of
      the old node, if there is one and it has to go. */
  ghost predicate InsertGrows<V>(h: HashFunc, t: Table<V>, key: Key, len: nat, rehashOk: bool)
    requires |t.buckets| > 0
  {
    var c, n := t.buckets[Place(h, t.buckets, key)], |t.buckets|;
    var j := Index(c, key);
    var items := t.itemCount + if j < |c| then 0 else 1;
    var freed := if j < |c| then NODE_SIZE + |key| + c[j].room else 0;
    var used := t.bytesUsed - freed + NODE_SIZE + |key| + if t.mallocValue then len else 0;
    Grows(items, n, used, t.maxBytes, t.loadFactor, FirstAbove(PRIMES, n, 0), rehashOk)
  }

  /** An insert leaves as many buckets as there were, unless it made a new node and the table grows. */
  lemma InsertGrowsIff<V>(h: HashFunc, t: Table<V>, key: Key, value: V, len: nat, nodeOk: bool, rehashOk: bool)
    requires Valid(h, t) && MayInsert(h, t, key, value, len, nodeOk)
    ensures var (t', code) := Insert(h, t, key, value, len, nodeOk, rehashOk);
      var next := FirstAbove(PRIMES, |t.buckets|, 0);
      |t'.buckets| == if code == 1 && InsertGrows(h, t, key, len, rehashOk) then PRIMES[next] else |t.buckets|
  {
    var c := t.buckets[Place(h, t.buckets, key)];
    if Index(c, key) == |c| {
      AbsentGrowsIff(h, t, key, value, len, nodeOk, rehashOk);
    } else {
      StoredGrowsIff(h, t, key, value, len, nodeOk, rehashOk);
    }
  }

  lemma AbsentGrowsIff<V>(h: HashFunc, t: Table<V>, key: Key, value: V, len: nat, nodeOk: bool, rehashOk: bool)
    requires Valid(h, t) && MayInsert(h, t, key, value, len, nodeOk)
    requires var c := t.buckets[Place(h, t.buckets, key)]; Index(c, key) == |c|
    ensures var (t', code) := Insert(h, t, key, value, len, nodeOk, rehashOk);
      var next := FirstAbove(PRIMES, |t.buckets|, 0);
      |t'.buckets| == if code == 1 && InsertGrows(h, t, key, len, rehashOk) then PRIMES[next] else |t.buckets|
  {
    assert key !in Contents(t.buckets) by { GetMeetsMap(h, t.buckets, key); }
    InsertNewGrowsIff(h, t, key, value, len, nodeOk, rehashOk);
    assert Insert(h, t, key, value, len, nodeOk, rehashOk) == InsertNew(h, t, key, value, len, nodeOk, rehashOk);
  }

  lemma StoredGrowsIff<V>(h: HashFunc, t: Table<V>, key: Key, value: V, len: nat, nodeOk: bool, rehashOk: bool)
    requires Valid(h, t) && MayInsert(h, t, key, value, len, nodeOk)
    requires var c := t.buckets[Place(h, t.buckets, key)]; Index(c, key) < |c|
    ensures var (t', code) := Insert(h, t, key, value, len, nodeOk, rehashOk);
      var next := FirstAbove(PRIMES, |t.buckets|, 0);
      |t'.buckets| == if code == 1 && InsertGrows(h, t, key, len, rehashOk) then PRIMES[next] else |t.buckets|
  {
    var i := Place(h, t.buckets, key);
    var c := t.buckets[i];
    var j := Index(c, key);
    if !InPlace(t, c[j], len) {
      ReplaceGrowsIff(h, t, i, j, value, len, nodeOk, rehashOk);
      assert Insert(h, t, key, value, len, nodeOk, rehashOk)
        == InsertNew(h, RemoveAt(t, i, j), key, value, len, nodeOk, rehashOk);
    }
  }

  /** The same when the old node at `i`, `j` had to go first. */
  lemma ReplaceGrowsIff<V>(h: HashFunc, t: Table<V>, i: nat, j: nat, value: V, len: nat, nodeOk: bool, rehashOk: bool)
    requires Valid(h, t) && i < |t.buckets| && j < |t.buckets[i]|
    requires MayInsertNew(h, RemoveAt(t, i, j), t.buckets[i][j].key, value, len, nodeOk)
    ensures var e, n := t.buckets[i][j], |t.buckets|;
      var (t', code) := InsertNew(h, RemoveAt(t, i, j), e.key, value, len, nodeOk, rehashOk);
      var next := FirstAbove(PRIMES, n, 0);
      var used := t.bytesUsed - (NODE_SIZE + |e.key| + e.room) + NODE_SIZE + |e.key| + if t.mallocValue then len else 0;
      |t'.buckets| ==
        if code == 1 && Grows(t.itemCount, n, used, t.maxBytes, t.loadFactor, next, rehashOk) then PRIMES[next] else n
  {
    RemoveAtKeeps(h, t, i, j);
    RemoveAtMeans(t, i, j);
    var t1 := RemoveAt(t, i, j);
    assert t1.itemCount + 1 == t.itemCount;
    InsertNewGrowsIff(h, t1, t.buckets[i][j].key, value, len, nodeOk, rehashOk);
  }

  lemma RemoveAtMeans<V>(t: Table<V>, i: nat, j: nat)
    requires i < |t.buckets| && j < |t.buckets[i]|
    ensures var t', e := RemoveAt(t, i, j), t.buckets[i][j];
      && |t'.buckets| == |t.buckets| && t'.itemCount == t.itemCount - 1
      && t'.bytesUsed == t.bytesUsed - (NODE_SIZE + |e.key| + e.room)
      && t'.maxBytes == t.maxBytes && t'.loadFactor == t.loadFactor && t'.mallocValue == t.mallocValue
  {
  }

  /** The answer of hash_insert_ex, from what is known before the call. */
  function InsertCode<V>(h: HashFunc, t: Table<V>, key: Key, len: nat, nodeOk: bool): int
    requires |t.buckets| > 0
  {
    var c := t.buckets[Place(h, t.buckets, key)];
    var j := Index(c, key);
    var needed := NODE_SIZE + |key| + if t.mallocValue then len else 0;
    var freed := if j < |c| then NodeBytes(c[j]) else 0;
    if j < |c| && InPlace(t, c[j], len) then 0
    else if t.maxBytes > 0 && t.bytesUsed - freed + needed > t.maxBytes then -ENOSPC
    else if !nodeOk then -ENOMEM
    else 1
  }

  /** The update of a stored key frees the old node and is then refused the new one. */
  predicate LosesKey<V>(h: HashFunc, t: Table<V>, key: Key, len: nat, nodeOk: bool)
    requires |t.buckets| > 0
  {
    var c := t.buckets[Place(h, t.buckets, key)];
    var j := Index(c, key);
    && j < |c| && t.mallocValue && (c[j].room < len || len <= c[j].room / 2)
    && ((t.maxBytes > 0 && t.bytesUsed - c[j].room + len > t.maxBytes) || !nodeOk)
  }

  lemma InsertAnswers<V>(h: HashFunc, t: Table<V>, key: Key, value: V, len: nat, nodeOk: bool, rehashOk: bool)
    requires |t.buckets| > 0 && MayInsert(h, t, key, value, len, nodeOk)
    ensures Insert(h, t, key, value, len, nodeOk, rehashOk).1 == InsertCode(h, t, key, len, nodeOk)
    ensures LosesKey(h, t, key, len, nodeOk) <==>
      (InsertCode(h, t, key, len, nodeOk) < 0
       && var c := t.buckets[Place(h, t.buckets, key)]; Index(c, key) < |c|)
  {
  }

  /** A stored key is gone after an insert iff LosesKey held before it. */
  lemma InsertLosesKeyIff<V>(h: HashFunc, t: Table<V>, key: Key, value: V, len: nat, nodeOk: bool, rehashOk: bool)
    requires Valid(h, t) && MayInsert(h, t, key, value, len, nodeOk)
    ensures var t' := Insert(h, t, key, value, len, nodeOk, rehashOk).0;
      (key in Contents(t.buckets) && key !in Contents(t'.buckets)) <==> LosesKey(h, t, key, len, nodeOk)
  {
    InsertMeetsMap(h, t, key, value, len, nodeOk, rehashOk);
    InsertAnswers(h, t, key, value, len, nodeOk, rehashOk);
    GetMeetsMap(h, t.buckets, key);
  }

  /** One bucket, one key with a value of one byte. */
  function SmallTable<V>(value: V): Table<V> {
    Table([[Entry("k", value, 1, 1)]], Some(0), 1, ADDRESS_SIZE + NODE_SIZE + 2, 0, 1.0, true)
  }

  /** A value that outgrows its node, and malloc refusing a new one: the key is lost. */
  lemma GrowingValueIsLost<V>(h: HashFunc, value: V, larger: V)
    ensures Valid(h, SmallTable(value)) && MayInsert(h, SmallTable(value), "k", larger, 2, false)
    ensures var t := SmallTable(value); var (t', code) := Insert(h, t, "k", larger, 2, false, true);
      "k" in Contents(t.buckets) && code == -ENOMEM && "k" !in Contents(t'.buckets)
  {
    SmallTableValid(h, value);
    var t := SmallTable(value);
    assert Place(h, t.buckets, "k") == 0;
    assert Index(t.buckets[0], "k") == 0;
    GetMeetsMap(h, t.buckets, "k");
    InsertAnswers(h, t, "k", larger, 2, false, true);
    InsertMeetsMap(h, t, "k", larger, 2, false, true);
  }

  lemma SmallTableValid<V>(h: HashFunc, value: V)
    ensures Valid(h, SmallTable(value))
  {
    var c := [Entry("k", value, 1, 1)];
    var b := [c];
    assert |b[..0]| == 0 && Flatten(b[..0]) == [];
    assert Flatten(b) == Flatten(b[..0]) + c == c;
    ChainBytesOne(c[0]);
    assert PRIMES[0] == 1;
  }

  /** hash_delete removes exactly the key, and says ENOENT iff it was absent. */
  lemma DeleteMeetsMap<V>(h: HashFunc, t: Table<V>, key: Key)
    requires Valid(h, t)
    ensures var (t', code) := Delete(h, t, key);
      && Valid(h, t') && (WithinLimit(t) ==> WithinLimit(t'))
      && Contents(t'.buckets) == Contents(t.buckets) - {key}
      && code == (if key in Contents(t.buckets) then 0 else ENOENT)
      && (code != 0 ==> t' == t)
  {
    var i := Place(h, t.buckets, key);
    var j := Index(t.buckets[i], key);
    GetMeetsMap(h, t.buckets, key);
    if j < |t.buckets[i]| {
      RemoveAtKeeps(h, t, i, j);
    } else {
      assert Contents(t.buckets) - {key} == Contents(t.buckets);
    }
  }

  // ----- conflicts ------------------------------------------------------------------------------

  /** A bucket holding two nodes with different hash codes. */
  ghost predicate Mixed<V>(h: HashFunc, c: Chain<V>) {
    exists i, j :: 0 <= i < j < |c| && h(c[i].key) != h(c[j].key)
  }

  ghost function MixedCount<V>(h: HashFunc, b: seq<Chain<V>>): nat {
    if b == [] then 0
    else MixedCount(h, b[..|b| - 1]) + if Mixed(h, b[|b| - 1]) then 1 else 0
  }

  /** Two keys with different hash codes that a capacity of `n` puts into one bucket. */
  ghost predicate Collides(h: HashFunc, keys: set<Key>, n: nat)
    requires n > 0
  {
    exists k, l :: k in keys && l in keys && h(k) != h(l) && h(k) % n == h(l) % n
  }

  lemma {:induction false} MixedCountZero<V>(h: HashFunc, b: seq<Chain<V>>)
    ensures MixedCount(h, b) == 0 <==> forall i :: 0 <= i < |b| ==> !Mixed(h, b[i])
  {
    if b != [] {
      var k := |b| - 1;
      MixedCountZero(h, b[..k]);
      assert forall i :: 0 <= i < k ==> b[..k][i] == b[i];
    }
  }

  lemma KeyHasPlace<V>(h: HashFunc, b: seq<Chain<V>>, key: Key) returns (j: nat)
    requires Placed(h, b) && key in Contents(b)
    ensures j < |b[Place(h, b, key)]| && b[Place(h, b, key)][j].key == key
  {
    GetMeetsMap(h, b, key);
    j := Index(b[Place(h, b, key)], key);
  }

  lemma PlaceHasKey<V>(h: HashFunc, b: seq<Chain<V>>, i: nat, j: nat)
    requires Placed(h, b) && i < |b| && j < |b[i]|
    ensures b[i][j].key in Contents(b)
  {
    GetMeetsMap(h, b, b[i][j].key);
  }

  lemma CollidesMeansMixed<V>(h: HashFunc, b: seq<Chain<V>>, k: Key, l: Key)
    requires Placed(h, b) && k in Contents(b) && l in Contents(b)
    requires h(k) != h(l) && h(k) % |b| == h(l) % |b|
    ensures Mixed(h, b[Place(h, b, k)])
  {
    var x := KeyHasPlace(h, b, k);
    var y := KeyHasPlace(h, b, l);
    assert Place(h, b, k) == Place(h, b, l);
    TwoCodes(h, b[Place(h, b, k)], x, y);
  }

  lemma TwoCodes<V>(h: HashFunc, c: Chain<V>, x: nat, y: nat)
    requires x < |c| && y < |c| && h(c[x].key) != h(c[y].key)
    ensures Mixed(h, c)
  {
    var i, j := if x < y then x else y, if x < y then y else x;
    assert 0 <= i < j < |c| && h(c[i].key) != h(c[j].key);
  }

  lemma MixedMeansCollides<V>(h: HashFunc, b: seq<Chain<V>>, i: nat)
    requires Placed(h, b) && i < |b| && Mixed(h, b[i])
    ensures Collides(h, Contents(b).Keys, |b|)
  {
    var c := b[i];
    var x, y :| 0 <= x < y < |c| && h(c[x].key) != h(c[y].key);
    PlaceHasKey(h, b, i, x);
    PlaceHasKey(h, b, i, y);
    assert h(c[x].key) % |b| == i == h(c[y].key) % |b|;
  }

  /** The conflict count is zero exactly when the capacity separates all different hash codes. */
  lemma ConflictsMeanCollision<V>(h: HashFunc, b: seq<Chain<V>>)
    requires Placed(h, b)
    ensures MixedCount(h, b) > 0 <==> Collides(h, Contents(b).Keys, |b|)
  {
    MixedCountZero(h, b);
    var keys := Contents(b).Keys;
    if Collides(h, keys, |b|) {
      var k, l :| k in keys && l in keys && h(k) != h(l) && h(k) % |b| == h(l) % |b|;
      CollidesMeansMixed(h, b, k, l);
    }
    if i :| 0 <= i < |b| && Mixed(h, b[i]) {
      MixedMeansCollides(h, b, i);
    }
  }

  lemma CollisionNeedsTwo<V>(h: HashFunc, b: seq<Chain<V>>)
    requires Placed(h, b) && MixedCount(h, b) > 0
    ensures |Flatten(b)| >= 2
  {
    MixedCountZero(h, b);
    var i :| 0 <= i < |b| && Mixed(h, b[i]);
    FlattenUpdate(b, i, []);
    assert |b[i]| >= 2;
  }

  /** Beyond the largest hash code a key's bucket is its hash code. */
  lemma LargeCapacitySeparates(h: HashFunc, keys: set<Key>, n: nat)
    requires n > 0 && forall k :: k in keys ==> h(k) < n
    ensures !Collides(h, keys, n)
  {
    forall k | k in keys ensures h(k) % n == h(k) {}
  }

  /** The divisibility test of hash_best_op. */
  predicate Candidate(n: nat) { n % 3 != 0 && n % 5 != 0 && n % 7 != 0 }

  predicate Odd(n: int) { n >= 0 && n % 2 == 1 }

  /** How far `c` is below the next number that leaves 1 modulo 210. */
  function ToOne(c: nat): nat {
    var r := c % 210;
    if r <= 1 then 1 - r else 211 - r
  }

  lemma NeighboursPass(q: nat)
    ensures Candidate(210 * q + 1) && Candidate(210 * q + 209)
  {
    Leaves(3, 70 * q, 1);
    Leaves(5, 42 * q, 1);
    Leaves(7, 30 * q, 1);
    Leaves(3, 70 * q + 69, 2);
    Leaves(5, 42 * q + 41, 4);
    Leaves(7, 30 * q + 29, 6);
  }

  lemma Leaves(d: nat, k: nat, r: nat)
    requires r < d
    ensures (d * k + r) % d == r
  {
    QuotientUnique(d * k + r, d, k, r);
  }

  /** Numbers that leave 1 modulo 210 pass the test, so stepping by 2 from an odd number must
      meet one. */
  lemma StepTowardsOne(c: nat)
    requires Odd(c) && !Candidate(c)
    ensures ToOne(c + 2) < ToOne(c)
  {
    var q, r := c / 210, c % 210;
    NeighboursPass(q);
    ToOneFalls(c, q, r);
  }

  lemma ToOneFalls(c: nat, q: nat, r: nat)
    requires c == 210 * q + r && r < 210 && Odd(c) && r != 1 && r != 209
    ensures ToOne(c + 2) < ToOne(c)
  {
    assert c == 2 * (105 * q) + r;
    QuotientUnique(c, 210, q, r);
    QuotientUnique(c + 2, 210, q, r + 2);
  }

  /** The next odd number that passes the test. */
  function NextCandidate(c: nat): (n: nat)
    requires Odd(c)
    ensures c < n && Odd(n) && Candidate(n)
    decreases ToOne(c + 2)
  {
    if Candidate(c + 2) then c + 2
    else
      StepTowardsOne(c + 2);
      NextCandidate(c + 2)
  }

  /** No odd number in between passes it. */
  lemma {:induction false} NextCandidateIsLeast(c: nat, x: nat)
    requires Odd(c) && Odd(x) && c < x < NextCandidate(c)
    ensures !Candidate(x)
    decreases ToOne(c + 2)
  {
    if c + 2 < x {
      StepTowardsOne(c + 2);
      NextCandidateIsLeast(c + 2, x);
    } else if x == c + 1 {
      OddsApart(c);
    }
  }

  lemma OddsApart(c: nat)
    requires Odd(c)
    ensures !Odd(c + 1)
  {
  }

  /** The inner loop stops at the least odd number above `c` that 3, 5 and 7 do not divide. */
  lemma NextCandidateMeans(c: nat)
    requires Odd(c)
    ensures var n := NextCandidate(c);
      && c < n && n % 2 == 1 && n % 3 != 0 && n % 5 != 0 && n % 7 != 0
      && (forall x: nat :: c < x < n && x % 2 == 1 ==> x % 3 == 0 || x % 5 == 0 || x % 7 == 0)
  {
    forall x: nat | c < x < NextCandidate(c) && x % 2 == 1 ensures x % 3 == 0 || x % 5 == 0 || x % 7 == 0 {
      NextCandidateIsLeast(c, x);
    }
  }

  /** Where hash_best_op starts looking. */
  function StartCapacity(suggest: int, itemCount: int): int {
    if suggest > 2 && suggest >= itemCount then
      if (suggest - 2) % 2 == 0 then suggest - 1 else suggest - 2
    else 2 * (itemCount - 1) + 1
  }

  lemma StartIsOdd(suggest: int, itemCount: int)
    requires itemCount >= 1
    ensures Odd(StartCapacity(suggest, itemCount))
  {
  }

  /** The first capacity tried is the least such number not below the suggestion, or, if that is too small
      for the items, not below twice their number. */
  lemma FirstTriedIs(suggest: int, itemCount: int)
    requires itemCount >= 1
    ensures Odd(StartCapacity(suggest, itemCount))
    ensures var n := NextCandidate(StartCapacity(suggest, itemCount));
      var bound := if suggest > 2 && suggest >= itemCount then suggest else 2 * itemCount;
      && bound <= n && n % 2 == 1 && n % 3 != 0 && n % 5 != 0 && n % 7 != 0
      && (forall x: nat :: bound <= x < n && x % 2 == 1 ==> x % 3 == 0 || x % 5 == 0 || x % 7 == 0)
  {
    StartIsOdd(suggest, itemCount);
    NextCandidateMeans(StartCapacity(suggest, itemCount));
  }

  function LastOr(x: int, sizes: seq<nat>): int { if sizes == [] then x else sizes[|sizes| - 1] }

  /** The capacities tried one after the other. */
  ghost predicate CandidatesFrom(start: int, sizes: seq<nat>) {
    sizes == [] ||
    var before := sizes[..|sizes| - 1];
    && CandidatesFrom(start, before)
    && Odd(LastOr(start, before)) && sizes[|sizes| - 1] == NextCandidate(LastOr(start, before))
  }

  ghost predicate AllCollide(h: HashFunc, keys: set<Key>, sizes: seq<nat>) {
    forall i :: 0 <= i < |sizes| ==> sizes[i] > 0 && Collides(h, keys, sizes[i])
  }

  /** The buckets after rehashing to each of these capacities in turn. */
  ghost function Resized<V>(h: HashFunc, b: seq<Chain<V>>, sizes: seq<nat>): seq<Chain<V>> {
    if sizes == [] then b
    else
      var n := sizes[|sizes| - 1];
      if n == 0 then b else Rehashed(h, Resized(h, b, sizes[..|sizes| - 1]), n)
  }

  /** How hash_best_op ends.  0: the table's own capacity already separates the hash codes, and
      nothing was tried.  1: the last capacity tried is the first that does.  Negative: neither the
      old capacity nor any tried so far does, and the table has the last of them. */
  ghost predicate Searched(
    h: HashFunc, keys: set<Key>, start: int, initial: nat, sizes: seq<nat>, final: nat, code: int)
  {
    && code in {0, 1, -ENOMEM, -ENOSPC}
    && initial > 0 && CandidatesFrom(start, sizes) && final == LastOr(initial, sizes)
    && (code == 0 <==> !Collides(h, keys, initial)) && (code == 0 ==> sizes == [])
    && (code == 1 ==> sizes != [] && final > 0 && !Collides(h, keys, final))
    && AllCollide(h, keys, if code == 1 then sizes[..|sizes| - 1] else sizes)
  }

  /** The search after trying `sizes`, standing at `c`. */
  ghost predicate Trying(h: HashFunc, keys: set<Key>, start: int, sizes: seq<nat>, c: int) {
    c == LastOr(start, sizes) && Odd(c) && CandidatesFrom(start, sizes) && AllCollide(h, keys, sizes)
  }

  /** One more capacity: refused, free of collisions, or neither. */
  lemma TriedOne(
    h: HashFunc, keys: set<Key>, start: int, initial: nat, sizes: seq<nat>, c: int, result: int, clash: bool)
    requires Trying(h, keys, start, sizes, c) && initial > 0 && Collides(h, keys, initial)
    requires result in {0, ENOMEM, ENOSPC} && (result == 0 ==> (clash <==> Collides(h, keys, NextCandidate(c))))
    ensures var n := NextCandidate(c); var longer := sizes + [n];
      if result != 0 then Searched(h, keys, start, initial, sizes, LastOr(initial, sizes), -result)
      else if clash then Trying(h, keys, start, longer, n) && n > LastOr(-1, sizes)
      else Searched(h, keys, start, initial, longer, n, 1)
  {
    CandidatesFurther(start, sizes);
    assert (sizes + [NextCandidate(c)])[..|sizes|] == sizes;
  }

  lemma CandidatesFurther(start: int, sizes: seq<nat>)
    requires CandidatesFrom(start, sizes) && Odd(LastOr(start, sizes))
    ensures CandidatesFrom(start, sizes + [NextCandidate(LastOr(start, sizes))])
  {
    var n := NextCandidate(LastOr(start, sizes));
    assert (sizes + [n])[..|sizes|] == sizes;
  }

  /** The last accepted rehash passed the limit test of _rehash1. */
  ghost predicate Fitted(maxBytes: int, nodeBytes: int, initial: nat, sizes: seq<nat>) {
    maxBytes > 0 && sizes != [] ==>
      nodeBytes + ADDRESS_SIZE * LastOr(initial, sizes[..|sizes| - 1]) + ADDRESS_SIZE * sizes[|sizes| - 1] <= maxBytes
  }

  /** Why a rehash of a table with `used` bytes to `n` buckets was refused. */
  ghost predicate Cause(maxBytes: int, used: int, n: nat, ok: bool, code: int) {
    if maxBytes > 0 && used + ADDRESS_SIZE * n > maxBytes then code == -ENOSPC else !ok && code == -ENOMEM
  }

  /** Why the search ended without success: the candidate after the last of `sizes` was refused. */
  ghost predicate RefusedAfter(
    maxBytes: int, nodeBytes: int, initial: nat, start: int, sizes: seq<nat>, rehashOk: nat -> bool, code: int)
  {
    Odd(LastOr(start, sizes)) &&
    Cause(maxBytes, nodeBytes + ADDRESS_SIZE * LastOr(initial, sizes), NextCandidate(LastOr(start, sizes)),
          rehashOk(|sizes|), code)
  }

  /** hash_best_op as a step: the table rehashed to each of `sizes` in turn, which is how far the search
      got, with a capacity of its own; no step at all if nothing collides or no capacity can be had. */
  ghost predicate OptimisedBy<V>(
    h: HashFunc, t: Table<V>, suggest: int, capOk: bool, rehashOk: nat -> bool, sizes: seq<nat>, t': Table<V>,
    code: int)
  {
    var n, n' := |t.buckets|, |t'.buckets|;
    && (capOk && code < 0 ==>
          RefusedAfter(t.maxBytes, t.bytesUsed - ADDRESS_SIZE * n, n, StartCapacity(suggest, t.itemCount), sizes,
                       rehashOk, code))
    && Searched(h, Contents(t.buckets).Keys, StartCapacity(suggest, t.itemCount), n, sizes, n', code)
    && (code != 0 && !capOk ==> code == -ENOMEM && sizes == [])
    && Fitted(t.maxBytes, t.bytesUsed - ADDRESS_SIZE * n, n, sizes)
    && t' == if code == 0 || !capOk then t else
         t.(buckets := Resized(h, t.buckets, sizes), slot := None,
            bytesUsed := t.bytesUsed - ADDRESS_SIZE * n + ADDRESS_SIZE * n')
  }

  lemma SearchedIsOptimised<V>(
    h: HashFunc, t: Table<V>, suggest: int, rehashOk: nat -> bool, sizes: seq<nat>, t': Table<V>, code: int)
    requires Searched(h, Contents(t.buckets).Keys, StartCapacity(suggest, t.itemCount), |t.buckets|, sizes,
                      |t'.buckets|, code)
    requires code < 0 ==>
      RefusedAfter(t.maxBytes, t.bytesUsed - ADDRESS_SIZE * |t.buckets|, |t.buckets|,
                   StartCapacity(suggest, t.itemCount), sizes, rehashOk, code)
    requires code != 0 && Fitted(t.maxBytes, t.bytesUsed - ADDRESS_SIZE * |t.buckets|, |t.buckets|, sizes)
    requires t'.buckets == Resized(h, t.buckets, sizes) && t'.itemCount == t.itemCount
    requires t'.bytesUsed == t.bytesUsed - ADDRESS_SIZE * |t.buckets| + ADDRESS_SIZE * |t'.buckets|
    requires t'.maxBytes == t.maxBytes && t'.loadFactor == t.loadFactor && t'.mallocValue == t.mallocValue
    ensures OptimisedBy(h, t, suggest, true, rehashOk, sizes, t'.(slot := None), code)
  {
  }

  /** Where nothing collides, or no capacity can be had, the table stays as it is. */
  lemma NothingTried<V>(h: HashFunc, t: Table<V>, suggest: int, capOk: bool, rehashOk: nat -> bool)
    requires |t.buckets| > 0
    ensures var clash := Collides(h, Contents(t.buckets).Keys, |t.buckets|);
      !clash || !capOk ==> OptimisedBy(h, t, suggest, capOk, rehashOk, [], t, if clash then -ENOMEM else 0)
  {
  }

  /** Which allocation or limit ended a search that failed, read off the table it left. */
  lemma RefusalMeans<V>(
    h: HashFunc, t: Table<V>, suggest: int, rehashOk: nat -> bool, sizes: seq<nat>, t': Table<V>, code: int)
    requires OptimisedBy(h, t, suggest, true, rehashOk, sizes, t', code) && code < 0
    ensures var last := LastOr(StartCapacity(suggest, t.itemCount), sizes);
      && Odd(last)
      && if t.maxBytes > 0 && t'.bytesUsed + ADDRESS_SIZE * NextCandidate(last) > t.maxBytes then code == -ENOSPC
         else code == -ENOMEM && !rehashOk(|sizes|)
    ensures t'.maxBytes == t.maxBytes
  {
    assert |t'.buckets| == LastOr(|t.buckets|, sizes);
  }

  /** Rehashing again and again keeps what one rehash keeps. */
  lemma {:induction false} ResizedKeeps<V>(h: HashFunc, b: seq<Chain<V>>, sizes: seq<nat>, mv: bool)
    requires Placed(h, b) && AllFit(b, mv) && forall k :: 0 <= k < |sizes| ==> sizes[k] > 0
    ensures var r := Resized(h, b, sizes);
      && Placed(h, r) && AllFit(r, mv) && |r| == LastOr(|b|, sizes) && Contents(r) == Contents(b)
      && |Flatten(r)| == |Flatten(b)| && ChainBytes(Flatten(r)) == ChainBytes(Flatten(b))
    decreases |sizes|
  {
    if sizes != [] {
      var before, n := sizes[..|sizes| - 1], sizes[|sizes| - 1];
      ResizedKeeps(h, b, before, mv);
      RehashMeetsMap(h, Resized(h, b, before), n);
      FlattenFits(Resized(h, b, before), mv);
      AddAllFits(h, Empty(n), Flatten(Resized(h, b, before)), mv);
    }
  }

  lemma {:induction false} CandidatesArePositive(start: int, sizes: seq<nat>, k: nat)
    requires CandidatesFrom(start, sizes) && k < |sizes|
    ensures sizes[k] > 0
    decreases |sizes|
  {
    if k < |sizes| - 1 { CandidatesArePositive(start, sizes[..|sizes| - 1], k); }
  }

  /** The optimiser keeps the map and everything that makes a table valid. */
  lemma OptimiseMeetsMap<V>(
    h: HashFunc, t: Table<V>, suggest: int, capOk: bool, rehashOk: nat -> bool, sizes: seq<nat>, t': Table<V>,
    code: int)
    requires Valid(h, t) && OptimisedBy(h, t, suggest, capOk, rehashOk, sizes, t', code)
    ensures Valid(h, t') && Contents(t'.buckets) == Contents(t.buckets) && (WithinLimit(t) ==> WithinLimit(t'))
  {
    forall k | 0 <= k < |sizes| ensures sizes[k] > 0 {
      CandidatesArePositive(StartCapacity(suggest, t.itemCount), sizes, k);
    }
    ResizedKeeps(h, t.buckets, sizes, t.mallocValue);
  }

  lemma ResizedFurther<V>(h: HashFunc, b: seq<Chain<V>>, sizes: seq<nat>, n: nat)
    requires n > 0
    ensures Resized(h, b, sizes + [n]) == Rehashed(h, Resized(h, b, sizes), n)
  {
    assert (sizes + [n])[..|sizes|] == sizes;
  }

  // ----- whole runs -----------------------------------------------------------------------------

  datatype Op<V> =
    | OpInsert(key: Key, value: V, len: nat, nodeOk: bool, rehashOk: bool)
    | OpDelete(key: Key)
    | OpOptimise(suggest: int, capOk: bool, sizeOk: nat -> bool)

  /** An operation on `t` leaves `t'` and answers `code`. */
  ghost predicate Steps<V>(h: HashFunc, t: Table<V>, op: Op<V>, t': Table<V>, code: int) {
    && |t.buckets| > 0
    && match op
       case OpInsert(key, value, len, nodeOk, rehashOk) =>
         && MayInsert(h, t, key, value, len, nodeOk)
         && (t', code) == Insert(h, t, key, value, len, nodeOk, rehashOk)
       case OpDelete(key) => (t', code) == Delete(h, t, key)
       case OpOptimise(suggest, capOk, sizeOk) =>
         exists sizes :: OptimisedBy(h, t, suggest, capOk, sizeOk, sizes, t', code)
  }

  /** What the map must be after an operation that returned `code`. */
  ghost function MapStep<V>(m: map<Key, Item<V>>, op: Op<V>, code: int): map<Key, Item<V>> {
    match op
    case OpInsert(key, value, len, _, _) => if code >= 0 then m[key := Item(value, len)] else m - {key}
    case OpDelete(key) => m - {key}
    case OpOptimise(_, _, _) => m
  }

  /** The code an operation must return, and when an insert may lose a stored key. */
  ghost predicate CodeRight<V>(h: HashFunc, t: Table<V>, op: Op<V>, t': Table<V>, code: int)
    requires |t.buckets| > 0 && |t'.buckets| > 0
  {
    match op
    case OpInsert(key, _, len, nodeOk, _) =>
      && code == InsertCode(h, t, key, len, nodeOk)
      && (code < 0 && key in Contents(t.buckets) <==> LosesKey(h, t, key, len, nodeOk))
    case OpDelete(key) => code == if key in Contents(t.buckets) then 0 else ENOENT
    case OpOptimise(_, capOk, sizeOk) =>
      && (t.maxBytes <= 0 && capOk && (forall k :: sizeOk(k)) ==> code >= 0)
      && (code == 0 <==> !Collides(h, Contents(t.buckets).Keys, |t.buckets|))
      && (code >= 0 <==> !Collides(h, Contents(t'.buckets).Keys, |t'.buckets|))
  }

  ghost predicate StepAt<V>(h: HashFunc, ts: seq<Table<V>>, ops: seq<Op<V>>, codes: seq<int>, k: nat)
    requires k < |ops| == |codes| < |ts|
  {
    Steps(h, ts[k], ops[k], ts[k + 1], codes[k])
  }

  /** The tables a run passes through; an insert may not reach _rehash once prime_array is used up. */
  ghost predicate IsRun<V>(h: HashFunc, ts: seq<Table<V>>, ops: seq<Op<V>>, codes: seq<int>) {
    && |ts| == |ops| + 1 && |codes| == |ops|
    && forall k :: 0 <= k < |ops| ==> StepAt(h, ts, ops, codes, k)
  }

  ghost function MapRun<V>(m: map<Key, Item<V>>, ops: seq<Op<V>>, codes: seq<int>): map<Key, Item<V>>
    requires |ops| == |codes|
  {
    if ops == [] then m
    else
      var n := |ops| - 1;
      MapStep(MapRun(m, ops[..n], codes[..n]), ops[n], codes[n])
  }

  /** Every run of inserts and deletes, with any pattern of refused allocations and refused
      rehashes, refines a finite map: the table it reaches is valid (each key in one node, in the
      bucket of its hash code; count and bytes exact; values within their buffers), shows exactly
      the map that the returned codes announce, counts its keys, answers every find from that
      map, and is within its byte limit if it started so. */
  lemma {:induction false} RunMeetsMap<V>(
    h: HashFunc, ts: seq<Table<V>>, ops: seq<Op<V>>, codes: seq<int>, probe: Key)
    requires IsRun(h, ts, ops, codes) && Valid(h, ts[0])
    ensures var t := ts[|ops|]; var m := MapRun(Contents(ts[0].buckets), ops, codes);
      && Valid(h, t) && Contents(t.buckets) == m && t.itemCount == |m|
      && Get(h, t.buckets, probe) == Lookup(m, probe)
      && (WithinLimit(ts[0]) ==> WithinLimit(t))
    decreases |ops|
  {
    if ops != [] {
      var n := |ops| - 1;
      RunPrefix(h, ts, ops, codes, n);
      RunMeetsMap(h, ts[..n + 1], ops[..n], codes[..n], probe);
      assert StepAt(h, ts, ops, codes, n);
      StepMeetsMap(h, ts[n], ops[n], ts[n + 1], codes[n]);
    }
    TableMeetsMap(h, ts[|ops|], probe);
  }

  /** Every code of a run is the one the table before it calls for, and an insert loses a stored key
      exactly when LosesKey said so. */
  lemma RunAnswers<V>(h: HashFunc, ts: seq<Table<V>>, ops: seq<Op<V>>, codes: seq<int>, k: nat)
    requires IsRun(h, ts, ops, codes) && Valid(h, ts[0]) && k < |ops|
    ensures Valid(h, ts[k]) && Valid(h, ts[k + 1]) && CodeRight(h, ts[k], ops[k], ts[k + 1], codes[k])
    ensures Contents(ts[k].buckets) == MapRun(Contents(ts[0].buckets), ops[..k], codes[..k])
  {
    RunReaches(h, ts, ops, codes, k);
    assert StepAt(h, ts, ops, codes, k);
    StepMeetsMap(h, ts[k], ops[k], ts[k + 1], codes[k]);
  }

  lemma RunReaches<V>(h: HashFunc, ts: seq<Table<V>>, ops: seq<Op<V>>, codes: seq<int>, k: nat)
    requires IsRun(h, ts, ops, codes) && Valid(h, ts[0]) && k <= |ops|
    ensures Valid(h, ts[k])
    ensures Contents(ts[k].buckets) == MapRun(Contents(ts[0].buckets), ops[..k], codes[..k])
  {
    RunPrefix(h, ts, ops, codes, k);
    var us := ts[..k + 1];
    assert us[0] == ts[0] && us[k] == ts[k];
    RunMeetsMap(h, us, ops[..k], codes[..k], "");
  }

  lemma RunPrefix<V>(h: HashFunc, ts: seq<Table<V>>, ops: seq<Op<V>>, codes: seq<int>, k: nat)
    requires IsRun(h, ts, ops, codes) && k <= |ops|
    ensures IsRun(h, ts[..k + 1], ops[..k], codes[..k])
  {
    var us, os, cs := ts[..k + 1], ops[..k], codes[..k];
    forall i | 0 <= i < k ensures StepAt(h, us, os, cs, i) {
      assert StepAt(h, ts, ops, codes, i);
    }
  }

  /** A valid table counts and finds the keys of its map. */
  lemma TableMeetsMap<V>(h: HashFunc, t: Table<V>, probe: Key)
    requires Valid(h, t)
    ensures t.itemCount == |Contents(t.buckets)| && Get(h, t.buckets, probe) == Lookup(Contents(t.buckets), probe)
  {
    GetMeetsMap(h, t.buckets, probe);
    FlattenDistinct(h, t.buckets, |t.buckets|);
    ToMapDistinct(Flatten(t.buckets));
  }

  lemma StepMeetsMap<V>(h: HashFunc, t: Table<V>, op: Op<V>, t': Table<V>, code: int)
    requires Valid(h, t) && Steps(h, t, op, t', code)
    ensures Valid(h, t') && (WithinLimit(t) ==> WithinLimit(t'))
    ensures Contents(t'.buckets) == MapStep(Contents(t.buckets), op, code) && CodeRight(h, t, op, t', code)
  {
    match op
    case OpInsert(key, value, len, nodeOk, rehashOk) =>
      InsertMeetsMap(h, t, key, value, len, nodeOk, rehashOk);
      InsertAnswers(h, t, key, value, len, nodeOk, rehashOk);
      GetMeetsMap(h, t.buckets, key);
    case OpDelete(key) => DeleteMeetsMap(h, t, key);
    case OpOptimise(suggest, capOk, sizeOk) =>
      var sizes :| OptimisedBy(h, t, suggest, capOk, sizeOk, sizes, t', code);
      OptimiseMeetsMap(h, t, suggest, capOk, sizeOk, sizes, t', code);
      OptimiseAnswers(h, t, suggest, capOk, sizeOk, sizes, t', code);
  }

  /** 0: nothing collided.  Not negative: nothing collides now. */
  lemma OptimiseAnswers<V>(
    h: HashFunc, t: Table<V>, suggest: int, capOk: bool, rehashOk: nat -> bool, sizes: seq<nat>, t': Table<V>,
    code: int)
    requires Valid(h, t) && Valid(h, t') && OptimisedBy(h, t, suggest, capOk, rehashOk, sizes, t', code)
    requires Contents(t'.buckets) == Contents(t.buckets)
    ensures code == 0 <==> !Collides(h, Contents(t.buckets).Keys, |t.buckets|)
    ensures code >= 0 <==> !Collides(h, Contents(t'.buckets).Keys, |t'.buckets|)
  {
    if code < 0 && sizes != [] { assert sizes[|sizes| - 1] == |t'.buckets|; }
  }
}
