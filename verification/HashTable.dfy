/** The chained hash table of common/hash.c updated in place: a bucket array whose chains, count,
    byte account and capacity change step by step.  Every operation is proved to leave exactly
    the table that its namesake in module HashModel computes; hash_best_op, which has no simpler
    form, is specified by what it searches for. */
module HashTable {
  import opened Common
  import opened M = HashModel

  class HashArray<V> {
    var buckets: array<Chain<V>>
    var capacity: nat
    var slot: Option<nat>
    var isMallocCapacity: bool
    var itemCount: int
    var bytesUsed: int
    const hashFunc: HashFunc
    const maxBytes: int
    const loadFactor: real
    const mallocValue: bool

    ghost function State(): Table<V>
      reads this, buckets
    {
      Table(buckets[..], slot, itemCount, bytesUsed, maxBytes, loadFactor, mallocValue)
    }

    ghost predicate Valid()
      reads this, buckets
    {
      && capacity == buckets.Length && (isMallocCapacity <==> slot == None)
      && M.Valid(hashFunc, State())
    }

    /** The inner loop of _rehash1: one old chain, node by node, into the new buckets. */
    method MoveChain(target: array<Chain<V>>, chain: Chain<V>, ghost start: seq<Chain<V>>, ghost done: Chain<V>)
      requires target.Length == |start| > 0
      requires target[..] == AddAll(hashFunc, start, done) && itemCount == |done|
      modifies target, this`itemCount
      ensures target[..] == AddAll(hashFunc, start, done + chain)
      ensures itemCount == |done + chain|
    {
      assert done + chain[..0] == done;
      var j := 0;
      while j < |chain|
        invariant 0 <= j <= |chain|
        invariant target[..] == AddAll(hashFunc, start, done + chain[..j])
        invariant itemCount == |done| + j
      {
        var e := chain[j];
        var k := hashFunc(e.key) % target.Length;
        target[k] := [e] + target[k];
        itemCount := itemCount + 1;
        assert (done + chain[..j + 1])[..|done| + j] == done + chain[..j];
        j := j + 1;
      }
      assert chain[..j] == chain;
    }

    /** _rehash1 after its allocation: the nodes move to `n` new buckets. */
    method MoveAll(n: nat)
      requires n > 0
      modifies this`buckets, this`itemCount
      ensures fresh(buckets) && buckets.Length == n
      ensures buckets[..] == Rehashed(hashFunc, old(buckets[..]), n)
      ensures itemCount == |Flatten(old(buckets[..]))|
    {
      var oldBuckets := buckets;
      ghost var b := buckets[..];
      var target := new Chain<V>[n](_ => []);
      assert target[..] == Empty(n);
      itemCount := 0;
      var i := 0;
      while i < oldBuckets.Length
        invariant 0 <= i <= oldBuckets.Length && oldBuckets[..] == b
        invariant target[..] == AddAll(hashFunc, Empty(n), Flatten(b[..i]))
        invariant itemCount == |Flatten(b[..i])|
      {
        MoveChain(target, oldBuckets[i], Empty(n), Flatten(b[..i]));
        assert b[..i + 1][..i] == b[..i];
        i := i + 1;
      }
      assert b[..i] == b;
      buckets := target;
    }

    /** Shape of a fresh, empty table; used by InitEx once the capacity is known. */
    constructor (h: HashFunc, i: nat, load: real, limit: int, copyValues: bool)
      requires i < |PRIMES| && PRIMES[i] > 0 && 0.1 <= load <= 1.0
      ensures Valid() && fresh(buckets) && Contents(buckets[..]) == map[]
      ensures hashFunc == h && maxBytes == limit && mallocValue == copyValues && loadFactor == load
      ensures slot == Some(i) && capacity == PRIMES[i] && bytesUsed == ADDRESS_SIZE * capacity
    {
      hashFunc, maxBytes, loadFactor, mallocValue := h, limit, load, copyValues;
      slot, isMallocCapacity, capacity := Some(i), false, PRIMES[i];
      itemCount, bytesUsed := 0, ADDRESS_SIZE * PRIMES[i];
      buckets := new Chain<V>[PRIMES[i]](_ => []);
      new;
      FlattenEmpty(buckets[..]);
    }

    /** _rehash1.  The capacity is overwritten before the allocation is known to succeed; the
        caller takes it back if it does not. */
    method Rehash1(n: nat, ok: bool) returns (code: int)
      requires n > 0
      modifies this`buckets, this`capacity, this`itemCount, this`bytesUsed
      ensures (State(), code) == M.Rehash1(hashFunc, old(State()), n, ok)
      ensures capacity == n && (if code == 0 then fresh(buckets) else buckets == old(buckets))
    {
      capacity := n;
      var bytes := ADDRESS_SIZE * n;
      if maxBytes > 0 && bytesUsed + bytes > maxBytes { return ENOSPC; }
      if !ok { return ENOMEM; }
      bytesUsed := bytesUsed + bytes - ADDRESS_SIZE * buckets.Length;
      MoveAll(n);
      code := 0;
    }

    /** _rehash, with its rollback. */
    method Rehash(ok: bool) returns (code: int)
      requires Valid() && HasNext(State())
      modifies this
      ensures (State(), code) == M.Rehash(hashFunc, old(State()), ok)
      ensures capacity == buckets.Length && (isMallocCapacity <==> slot == None)
      ensures if code == 0 then fresh(buckets) else buckets == old(buckets)
    {
      NextSlotIsFirstAbove(hashFunc, State());
      var oldCapacity := capacity;
      var next: nat;
      if isMallocCapacity {
        next := FindPrime(capacity);
      } else {
        next := slot.value + 1;
      }
      code := Rehash1(PRIMES[next], ok);
      if code != 0 {
        capacity := oldCapacity;
      } else {
        slot, isMallocCapacity := Some(next), false;
      }
    }

    method Find(key: Key) returns (item: Option<Item<V>>)
      requires Valid()
      ensures item == Lookup(Contents(buckets[..]), key)
    {
      GetMeetsMap(hashFunc, buckets[..], key);
      var chain := buckets[hashFunc(key) % capacity];
      var j := FindEntry(chain, key);
      item := if j < |chain| then Some(Item(chain[j].value, chain[j].len)) else None;
    }

    /** hash_insert_ex. */
    method Insert(key: Key, value: V, len: nat, nodeOk: bool, rehashOk: bool) returns (code: int)
      requires Valid() && MayInsert(hashFunc, State(), key, value, len, nodeOk)
      modifies this, buckets
      ensures (State(), code) == M.Insert(hashFunc, old(State()), key, value, len, nodeOk, rehashOk)
      ensures Valid() && (buckets == old(buckets) || fresh(buckets))
      ensures Contents(buckets[..]) ==
        if code >= 0 then old(Contents(buckets[..]))[key := Item(value, len)] else old(Contents(buckets[..])) - {key}
      ensures code == InsertCode(hashFunc, old(State()), key, len, nodeOk)
      ensures capacity ==
        if code == 1 && InsertGrows(hashFunc, old(State()), key, len, rehashOk)
        then PRIMES[FirstAbove(PRIMES, old(capacity), 0)] else old(capacity)
    {
      InsertGrowsIff(hashFunc, State(), key, value, len, nodeOk, rehashOk);
      InsertMeetsMap(hashFunc, State(), key, value, len, nodeOk, rehashOk);
      InsertAnswers(hashFunc, State(), key, value, len, nodeOk, rehashOk);
      code := InsertSteps(key, value, len, nodeOk, rehashOk);
    }

    method InsertSteps(key: Key, value: V, len: nat, nodeOk: bool, rehashOk: bool) returns (code: int)
      requires Valid() && MayInsert(hashFunc, State(), key, value, len, nodeOk)
      modifies this, buckets
      ensures (State(), code) == M.Insert(hashFunc, old(State()), key, value, len, nodeOk, rehashOk)
      ensures capacity == buckets.Length && (isMallocCapacity <==> slot == None)
      ensures buckets == old(buckets) || fresh(buckets)
    {
      var i := hashFunc(key) % capacity;
      var chain := buckets[i];
      var j := FindEntry(chain, key);
      assert key in Contents(buckets[..]) <==> j < |chain| by { GetMeetsMap(hashFunc, buckets[..], key); }
      if j < |chain| {
        var e := chain[j];
        if !mallocValue || (e.room >= len && e.room / 2 < len) {
          buckets[i] := chain[j := e.(value := value, len := len)];
          return 0;
        }
        RemoveAtKeeps(hashFunc, State(), i, j);
        DeleteFromBucket(i, j);
      }
      code := InsertNew(key, value, len, nodeOk, rehashOk);
    }

    method DeleteFromBucket(i: nat, j: nat)
      requires i < buckets.Length && j < |buckets[i]|
      modifies this`itemCount, this`bytesUsed, buckets
      ensures State() == RemoveAt(old(State()), i, j)
    {
      var chain := buckets[i];
      buckets[i] := chain[..j] + chain[j + 1..];
      itemCount := itemCount - 1;
      bytesUsed := bytesUsed - NodeBytes(chain[j]);
    }

    method AddNode(e: Entry<V>)
      requires capacity == buckets.Length > 0
      modifies this`itemCount, this`bytesUsed, buckets
      ensures State() == M.AddNode(hashFunc, old(State()), e)
    {
      bytesUsed := bytesUsed + NodeBytes(e);
      var i := hashFunc(e.key) % capacity;
      buckets[i] := [e] + buckets[i];
      itemCount := itemCount + 1;
    }

    method InsertNew(key: Key, value: V, len: nat, nodeOk: bool, rehashOk: bool) returns (code: int)
      requires Valid() && key !in Contents(buckets[..]) && MayInsertNew(hashFunc, State(), key, value, len, nodeOk)
      modifies this, buckets
      ensures (State(), code) == M.InsertNew(hashFunc, old(State()), key, value, len, nodeOk, rehashOk)
      ensures capacity == buckets.Length && (isMallocCapacity <==> slot == None)
      ensures buckets == old(buckets) || fresh(buckets)
    {
      var e := Entry(key, value, len, if mallocValue then len else 0);
      var bytes := NodeBytes(e);
      if maxBytes > 0 && bytesUsed + bytes > maxBytes { return -ENOSPC; }
      if !nodeOk { return -ENOMEM; }
      AddNodeKeeps(hashFunc, State(), e);
      AddNode(e);
      if (itemCount as real) / (capacity as real) >= loadFactor {
        var _ := Rehash(rehashOk);
      }
      code := 1;
    }

    /** hash_delete. */
    method Delete(key: Key) returns (code: int)
      requires Valid()
      modifies this`itemCount, this`bytesUsed, buckets
      ensures (State(), code) == M.Delete(hashFunc, old(State()), key)
      ensures Valid() && Contents(buckets[..]) == old(Contents(buckets[..])) - {key}
    {
      DeleteMeetsMap(hashFunc, State(), key);
      var i := hashFunc(key) % capacity;
      var chain := buckets[i];
      var j := FindEntry(chain, key);
      if j == |chain| { return ENOENT; }
      DeleteFromBucket(i, j);
      code := 0;
    }

    /** _hash_conflict_count. */
    method ConflictCount() returns (count: nat)
      requires capacity == buckets.Length
      ensures count == MixedCount(hashFunc, buckets[..])
    {
      count := 0;
      var i := 0;
      while i < capacity
        invariant 0 <= i <= capacity && count == MixedCount(hashFunc, buckets[..i])
      {
        var conflicted := Conflicted(hashFunc, buckets[i]);
        count := count + if conflicted then 1 else 0;
        assert buckets[..i + 1][..i] == buckets[..i];
        i := i + 1;
      }
      assert buckets[..i] == buckets[..];
    }

    /** Some part of the table may be out of step with the capacity pointer, not with its value. */
    ghost predicate Sound()
      reads this, buckets
    {
      capacity == buckets.Length && M.Valid(hashFunc, State().(slot := None))
    }

    ghost function Keys(): set<Key>
      reads this, buckets
    {
      Contents(buckets[..]).Keys
    }

    method Clashes() returns (clash: bool)
      requires Sound()
      ensures clash <==> Collides(hashFunc, Keys(), capacity)
      ensures clash ==> itemCount >= 2
    {
      var conflicts := ConflictCount();
      ConflictsMeanCollision(hashFunc, buckets[..]);
      clash := conflicts > 0;
      if clash { CollisionNeedsTwo(hashFunc, buckets[..]); }
    }

    /** The table holds `b`, with `nodeBytes` in its nodes, rehashed to each of `sizes` in turn. */
    ghost predicate Holds(b: seq<Chain<V>>, m: map<Key, Item<V>>, nodeBytes: int, sizes: seq<nat>)
      reads this, buckets
    {
      && Sound() && Contents(buckets[..]) == m
      && buckets[..] == Resized(hashFunc, b, sizes) && capacity == LastOr(|b|, sizes)
      && itemCount == |Flatten(b)| && bytesUsed == nodeBytes + ADDRESS_SIZE * capacity
      && Fitted(maxBytes, nodeBytes, |b|, sizes)
    }

    /** What a rehash that takes the table to `bytes` answers. */
    ghost function Answer(limit: int, bytes: int, ok: bool): int {
      if limit > 0 && bytes > limit then ENOSPC else if !ok then ENOMEM else 0
    }

    /** A rehash to `n` buckets, and the conflicts it leaves. */
    method TryCapacity(n: nat, ok: bool) returns (result: int, conflicts: nat)
      requires Sound() && n > 0
      modifies this`buckets, this`capacity, this`itemCount, this`bytesUsed
      ensures result == Answer(maxBytes, old(bytesUsed) + ADDRESS_SIZE * n, ok) && capacity == n
      ensures result != 0 ==> State() == old(State()) && buckets == old(buckets)
      ensures result == 0 ==>
        && Sound() && fresh(buckets) && buckets[..] == Rehashed(hashFunc, old(buckets[..]), n)
        && Contents(buckets[..]) == old(Contents(buckets[..]))
        && itemCount == old(itemCount) && bytesUsed == old(bytesUsed - ADDRESS_SIZE * buckets.Length) + ADDRESS_SIZE * n
        && (conflicts > 0 <==> Collides(hashFunc, Keys(), n))
        && (conflicts > 0 ==> n < 0x1_0000_0000)
    {
      Rehash1Keeps(hashFunc, State(), n, ok);
      conflicts := 0;
      result := Rehash1(n, ok);
      if result == 0 {
        conflicts := ConflictCount();
        ConflictsMeanCollision(hashFunc, buckets[..]);
        if n >= 0x1_0000_0000 { LargeCapacitySeparates(hashFunc, Keys(), n); }
      }
    }

    /** One round of hash_best_op with its rollback. */
    method Round(n: nat, ok: bool, ghost b: seq<Chain<V>>, ghost m: map<Key, Item<V>>, ghost nodeBytes: int,
                 ghost sizes: seq<nat>)
      returns (result: int, conflicts: nat)
      requires Holds(b, m, nodeBytes, sizes) && n > 0
      modifies this`buckets, this`capacity, this`itemCount, this`bytesUsed
      ensures result == Answer(maxBytes, nodeBytes + ADDRESS_SIZE * LastOr(|b|, sizes) + ADDRESS_SIZE * n, ok)
      ensures Holds(b, m, nodeBytes, if result == 0 then sizes + [n] else sizes)
      ensures result == 0 ==>
        && (conflicts > 0 <==> Collides(hashFunc, m.Keys, n)) && (conflicts > 0 ==> n < 0x1_0000_0000)
    {
      ResizedFurther(hashFunc, b, sizes, n);
      assert (sizes + [n])[..|sizes|] == sizes;
      var oldCapacity := capacity;
      result, conflicts := TryCapacity(n, ok);
      if result != 0 { capacity := oldCapacity; }
    }

    /** The outer loop of hash_best_op, from the moment a conflict is known. */
    method Search(start: nat, rehashOk: nat -> bool, ghost b: seq<Chain<V>>, ghost m: map<Key, Item<V>>,
                  ghost nodeBytes: int)
      returns (code: int, ghost sizes: seq<nat>)
      requires Holds(b, m, nodeBytes, []) && Odd(start) && Collides(hashFunc, m.Keys, capacity)
      modifies this`buckets, this`capacity, this`itemCount, this`bytesUsed
      ensures Holds(b, m, nodeBytes, sizes) && code != 0
      ensures Searched(hashFunc, m.Keys, start, |b|, sizes, capacity, code)
      ensures code < 0 ==> RefusedAfter(maxBytes, nodeBytes, |b|, start, sizes, rehashOk, code)
    {
      sizes, code := [], 1;
      var newCapacity, k, more := start, 0, true;
      while more
        invariant Holds(b, m, nodeBytes, sizes) && (more ==> k == |sizes|)
        invariant !more && code < 0 ==> RefusedAfter(maxBytes, nodeBytes, |b|, start, sizes, rehashOk, code)
        invariant if more then Trying(hashFunc, m.Keys, start, sizes, newCapacity)
                  else Searched(hashFunc, m.Keys, start, |b|, sizes, capacity, code) && code != 0
        decreases more, 0x1_0000_0000 - LastOr(-1, sizes)
      {
        newCapacity, code, more, sizes := Attempt(newCapacity, rehashOk(k), b, m, nodeBytes, start, sizes);
        k := k + 1;
      }
    }

    /** One turn of that loop. */
    method Attempt(from: nat, ok: bool, ghost b: seq<Chain<V>>, ghost m: map<Key, Item<V>>, ghost nodeBytes: int,
                   ghost start: int, ghost sizes: seq<nat>)
      returns (n: nat, code: int, more: bool, ghost tried: seq<nat>)
      requires Holds(b, m, nodeBytes, sizes) && Trying(hashFunc, m.Keys, start, sizes, from)
      requires |b| > 0 && Collides(hashFunc, m.Keys, |b|)
      modifies this`buckets, this`capacity, this`itemCount, this`bytesUsed
      ensures Holds(b, m, nodeBytes, tried) && (more ==> |tried| == |sizes| + 1)
      ensures !more && code < 0 ==> tried == sizes
      ensures !more && code < 0 ==>
        Cause(maxBytes, nodeBytes + ADDRESS_SIZE * LastOr(|b|, sizes), NextCandidate(from), ok, code)
      ensures more ==>
        Trying(hashFunc, m.Keys, start, tried, n) && LastOr(-1, sizes) < LastOr(-1, tried) < 0x1_0000_0000
      ensures !more ==> Searched(hashFunc, m.Keys, start, |b|, tried, capacity, code) && code != 0
    {
      n := AdvanceCapacity(from);
      var result, conflicts := Round(n, ok, b, m, nodeBytes, sizes);
      TriedOne(hashFunc, m.Keys, start, |b|, sizes, from, result, conflicts > 0);
      tried := if result == 0 then sizes + [n] else sizes;
      code := if result == 0 then 1 else -result;
      more := result == 0 && conflicts > 0;
    }

    /** The search once a conflict is known, and the capacity that is from then on the table's own. */
    method Improve(suggest: int, rehashOk: nat -> bool) returns (code: int, ghost sizes: seq<nat>)
      requires Valid() && itemCount >= 2 && Collides(hashFunc, Keys(), capacity)
      modifies this
      ensures capacity == buckets.Length && isMallocCapacity && slot == None && code != 0
      ensures OptimisedBy(hashFunc, old(State()), suggest, true, rehashOk, sizes, State(), code)
    {
      ghost var t, nodeBytes := State(), bytesUsed - ADDRESS_SIZE * buckets.Length;
      StartIsOdd(suggest, itemCount);
      code, sizes := Search(StartCapacity(suggest, itemCount), rehashOk, t.buckets, Contents(t.buckets), nodeBytes);
      SearchedIsOptimised(hashFunc, t, suggest, rehashOk, sizes, State(), code);
      Unslot();
    }

    /** From now on the capacity is one of hash_best_op's own. */
    method Unslot()
      modifies this`slot, this`isMallocCapacity
      ensures isMallocCapacity && State() == old(State()).(slot := None)
    {
      slot, isMallocCapacity := None, true;
    }

    /** hash_best_op.  `capOk` says whether the new capacity can be allocated and `rehashOk(k)`
        whether the k-th bucket array can.  The search ends at the first tried capacity that
        separates all different hash codes, which exists; a refused rehash stops it on the last
        table that was built. */
    method BestOp(suggest: int, capOk: bool, rehashOk: nat -> bool) returns (code: int, ghost sizes: seq<nat>)
      requires Valid()
      modifies this
      ensures Valid() && Contents(buckets[..]) == old(Contents(buckets[..]))
      ensures OptimisedBy(hashFunc, old(State()), suggest, capOk, rehashOk, sizes, State(), code)
      ensures code < 0 && capOk ==>
        var n := NextCandidate(LastOr(StartCapacity(suggest, old(itemCount)), sizes));
        if maxBytes > 0 && bytesUsed + ADDRESS_SIZE * n > maxBytes then code == -ENOSPC
        else code == -ENOMEM && !rehashOk(|sizes|)
      ensures maxBytes <= 0 && capOk && (forall k :: rehashOk(k)) ==> code >= 0
      ensures code == 0 || !capOk ==> State() == old(State())
      ensures code == 1 ==> isMallocCapacity
    {
      ghost var t := State();
      var clash := Clashes();
      NothingTried(hashFunc, t, suggest, capOk, rehashOk);
      if !clash { return 0, []; }
      if !capOk { return -ENOMEM, []; }
      code, sizes := Improve(suggest, rehashOk);
      OptimiseMeetsMap(hashFunc, t, suggest, capOk, rehashOk, sizes, State(), code);
      if code < 0 { RefusalMeans(hashFunc, t, suggest, rehashOk, sizes, State(), code); }
    }
  }

  /** The inner loop of hash_best_op. */
  method AdvanceCapacity(c: nat) returns (n: nat)
    requires Odd(c)
    ensures n == NextCandidate(c)
  {
    n := c + 2;
    while n % 3 == 0 || n % 5 == 0 || n % 7 == 0
      invariant c < n && Odd(n)
      invariant NextCandidate(c) == if Candidate(n) then n else NextCandidate(n)
      decreases ToOne(n)
    {
      StepTowardsOne(n);
      n := n + 2;
    }
  }

  /** One bucket of _hash_conflict_count: compare every node with all later ones. */
  method Conflicted<V>(h: HashFunc, chain: Chain<V>) returns (conflicted: bool)
    ensures conflicted <==> Mixed(h, chain)
  {
    conflicted := false;
    var i := 0;
    while i < |chain|
      invariant 0 <= i <= |chain|
      invariant forall x, y :: 0 <= x < i && x < y < |chain| ==> h(chain[x].key) == h(chain[y].key)
    {
      var j := i + 1;
      while j < |chain|
        invariant i < j <= |chain|
        invariant forall y :: i < y < j ==> h(chain[i].key) == h(chain[y].key)
      {
        if h(chain[i].key) != h(chain[j].key) { return true; }
        j := j + 1;
      }
      i := i + 1;
    }
  }

  /** The search over prime_array in hash_init_ex and _rehash. */
  method FindPrime(n: nat) returns (i: nat)
    ensures i == FirstAbove(PRIMES, n, 0)
  {
    i := 0;
    while i < |PRIMES| && PRIMES[i] <= n
      invariant i <= |PRIMES| && FirstAbove(PRIMES, n, 0) == FirstAbove(PRIMES, n, i)
    {
      i := i + 1;
    }
  }

  /** _chain_find_entry, and the same walk inside insert and delete. */
  method FindEntry<V>(chain: Chain<V>, key: Key) returns (j: nat)
    ensures j == Index(chain, key)
  {
    j := 0;
    while j < |chain| && chain[j].key != key
      invariant j <= |chain| && forall k :: 0 <= k < j ==> chain[k].key != key
    {
      j := j + 1;
    }
  }

  /** hash_init_ex.  The bucket array is allocated while the limit is still zero, so the limit
      is not checked against it: the new table is within its limit exactly when that one array
      is. */
  method InitEx<V>(h: HashFunc, capacity: nat, load: real, limit: int, copyValues: bool, ok: bool)
    returns (code: int, t: HashArray?<V>)
    ensures code == (if FirstAbove(PRIMES, capacity, 0) == |PRIMES| then EINVAL else if !ok then ENOMEM else 0)
    ensures code == 0 <==> t != null
    ensures t != null ==>
      && fresh(t) && fresh(t.buckets) && t.Valid() && Contents(t.buckets[..]) == map[]
      && t.capacity == PRIMES[FirstAbove(PRIMES, capacity, 0)] > capacity
      && t.hashFunc == h && t.maxBytes == limit && t.mallocValue == copyValues && t.itemCount == 0
      && t.loadFactor == (if 0.1 <= load <= 1.0 then load else 0.5)
      && t.bytesUsed == ADDRESS_SIZE * t.capacity
      && (WithinLimit(t.State()) <==> limit <= 0 || ADDRESS_SIZE * t.capacity <= limit)
  {
    var i := FindPrime(capacity);
    if i == |PRIMES| { return EINVAL, null; }
    if !ok { return ENOMEM, null; }
    t := new HashArray(h, i, if 0.1 <= load <= 1.0 then load else 0.5, limit, copyValues);
    code := 0;
  }
}
