/** The scheduler of common/sched_thread.c as values: the entry array, its intrusive chain, the
    set of tasks it stands for and the log of what ran when. */
module SchedModel {
  import opened Common

  /** ScheduleEntry.  `base` is the instant that `time_base` denotes, or None for TIME_NONE;
      `next` is the array index of the next entry on the chain, or NIL. */
  datatype Entry = Entry(id: int, func: int, interval: int, base: Option<int>, nextCall: int, next: int)

  const NIL := -1

  // ----- tasks: the array as a finite map from ids ----------------------------------------------

  datatype Task = Task(func: int, interval: int, nextCall: int)

  function TaskOf(e: Entry): Task { Task(e.func, e.interval, e.nextCall) }

  ghost predicate UniqueIds(es: seq<Entry>) {
    forall i, j :: 0 <= i < j < |es| ==> es[i].id != es[j].id
  }

  /** The first position with this id, or the length. */
  function Index(es: seq<Entry>, id: int): (i: nat)
    ensures i <= |es|
    ensures i < |es| ==> es[i].id == id
    ensures forall j :: 0 <= j < i ==> es[j].id != id
  {
    FirstWhere(es, (e: Entry) => e.id == id)
  }

  ghost function Tasks(es: seq<Entry>): map<int, Task> {
    if es == [] then map[]
    else var e := es[|es| - 1]; Tasks(es[..|es| - 1])[e.id := TaskOf(e)]
  }

  lemma {:induction false} TasksDomain(es: seq<Entry>, id: int)
    ensures id in Tasks(es) <==> exists j :: 0 <= j < |es| && es[j].id == id
  {
    if es != [] {
      var n := |es| - 1;
      TasksDomain(es[..n], id);
      if id in Tasks(es) && id != es[n].id {
        var j :| 0 <= j < n && es[..n][j].id == id;
        assert es[j].id == id;
      }
    }
  }

  lemma {:induction false} TasksAt(es: seq<Entry>, j: nat)
    requires UniqueIds(es) && j < |es|
    ensures es[j].id in Tasks(es) && Tasks(es)[es[j].id] == TaskOf(es[j])
  {
    var n := |es| - 1;
    if j < n {
      TasksAt(es[..n], j);
      assert es[..n][j] == es[j];
    }
  }

  /** With unique ids, the map is what Index finds. */
  lemma TasksLookup(es: seq<Entry>, id: int)
    requires UniqueIds(es)
    ensures var i := Index(es, id);
      if i < |es| then id in Tasks(es) && Tasks(es)[id] == TaskOf(es[i]) else id !in Tasks(es)
  {
    TasksDomain(es, id);
    var i := Index(es, id);
    if i < |es| { TasksAt(es, i); }
  }

  lemma TasksAre(es: seq<Entry>, m: map<int, Task>)
    requires UniqueIds(es)
    requires forall j :: 0 <= j < |es| ==> es[j].id in m && m[es[j].id] == TaskOf(es[j])
    requires forall id :: id in m ==> exists j :: 0 <= j < |es| && es[j].id == id
    ensures Tasks(es) == m
  {
    forall id ensures id in Tasks(es) <==> id in m { TasksDomain(es, id); }
    forall id | id in m ensures Tasks(es)[id] == m[id] {
      var j :| 0 <= j < |es| && es[j].id == id;
      TasksAt(es, j);
    }
  }

  // ----- permutations ---------------------------------------------------------------------------

  /** Each of 0..n-1 exactly once. */
  ghost predicate Permutation(p: seq<nat>, n: nat) {
    && |p| == n
    && (forall i :: 0 <= i < n ==> p[i] < n)
    && (forall i, j :: 0 <= i < j < n ==> p[i] != p[j])
  }

  ghost function Range(n: nat): (s: set<nat>)
    ensures |s| == n && forall x: nat :: x in s <==> x < n
  {
    if n == 0 then {} else Range(n - 1) + {n - 1}
  }

  ghost function Image(p: seq<nat>): set<nat> { set i | 0 <= i < |p| :: p[i] }

  lemma {:induction false} ImageSize(p: seq<nat>)
    requires forall i, j :: 0 <= i < j < |p| ==> p[i] != p[j]
    ensures |Image(p)| == |p|
  {
    if p != [] {
      var n := |p| - 1;
      ImageSize(p[..n]);
      assert Image(p) == Image(p[..n]) + {p[n]};
    }
  }

  lemma SubsetOfSameSize(a: set<nat>, b: set<nat>)
    requires a <= b && |a| == |b|
    ensures a == b
  {
    if x :| x in b && x !in a {
      assert |b - {x}| == |b| - 1;
      SubsetSize(a, b - {x});
      assert false;
    }
  }

  lemma {:induction false} SubsetSize(a: set<nat>, b: set<nat>)
    requires a <= b
    ensures |a| <= |b|
    decreases a
  {
    if x :| x in a { SubsetSize(a - {x}, b - {x}); }
  }

  /** A permutation misses nothing. */
  lemma PermutationHits(p: seq<nat>, n: nat, x: nat) returns (i: nat)
    requires Permutation(p, n) && x < n
    ensures i < n && p[i] == x
  {
    ImageSize(p);
    SubsetOfSameSize(Image(p), Range(n));
    assert x in Image(p);
    i :| 0 <= i < |p| && p[i] == x;
  }

  function Permuted(es: seq<Entry>, p: seq<nat>): (r: seq<Entry>)
    requires |p| == |es| && forall i :: 0 <= i < |p| ==> p[i] < |es|
    ensures |r| == |es| && forall i :: 0 <= i < |p| ==> r[i] == es[p[i]]
  {
    seq(|p|, i requires 0 <= i < |p| => es[p[i]])
  }

  /** `r` is `es` in the order `p`, links aside. */
  ghost predicate InOrderOf(es: seq<Entry>, p: seq<nat>, r: seq<Entry>) {
    && Permutation(p, |es|) && |r| == |es|
    && (forall i :: 0 <= i < |r| ==> r[i].id == es[p[i]].id && TaskOf(r[i]) == TaskOf(es[p[i]]))
  }

  ghost predicate Rearranged(es: seq<Entry>, r: seq<Entry>) { exists p :: InOrderOf(es, p, r) }

  /** Rearranging entries, and writing their links, does not change the tasks. */
  lemma RearrangedTasks(es: seq<Entry>, p: seq<nat>, r: seq<Entry>)
    requires UniqueIds(es) && InOrderOf(es, p, r)
    ensures UniqueIds(r) && Tasks(r) == Tasks(es)
  {
    forall i, j | 0 <= i < j < |r| ensures r[i].id != r[j].id {
      if p[i] < p[j] { assert es[p[i]].id != es[p[j]].id; } else { assert es[p[j]].id != es[p[i]].id; }
    }
    forall j | 0 <= j < |r| ensures r[j].id in Tasks(es) && Tasks(es)[r[j].id] == TaskOf(r[j]) {
      TasksAt(es, p[j]);
    }
    forall id | id in Tasks(es) ensures exists j :: 0 <= j < |r| && r[j].id == id {
      TasksDomain(es, id);
      var k :| 0 <= k < |es| && es[k].id == id;
      var i := PermutationHits(p, |es|, k);
      assert r[i].id == id;
    }
    TasksAre(r, Tasks(es));
  }

  ghost predicate SortedByTime(es: seq<Entry>) {
    forall i, j :: 0 <= i < j < |es| ==> es[i].nextCall <= es[j].nextCall
  }

  lemma RearrangedKeeps(es: seq<Entry>, r: seq<Entry>)
    requires Rearranged(es, r)
    ensures UniqueIds(es) ==> UniqueIds(r) && Tasks(r) == Tasks(es)
  {
    if UniqueIds(es) {
      var p :| InOrderOf(es, p, r);
      RearrangedTasks(es, p, r);
    }
  }

  lemma SameTimesRearranged(es: seq<Entry>, fs: seq<Entry>)
    requires SameTimes(es, fs)
    ensures Rearranged(es, fs)
  {
    var p: seq<nat> := seq(|es|, i => i);
    assert InOrderOf(es, p, fs);
  }

  /** What qsort may answer for an array: the order it puts the entries in. */
  ghost predicate Sorts(es: seq<Entry>, p: seq<nat>) {
    Permutation(p, |es|) && SortedByTime(Permuted(es, p))
  }

  ghost predicate IsQsort(qsort: seq<Entry> -> seq<nat>) {
    forall es :: Sorts(es, qsort(es))
  }

  // ----- the chain --------------------------------------------------------------------------------

  ghost predicate Within(es: seq<Entry>, c: seq<nat>) { forall i :: 0 <= i < |c| ==> c[i] < |es| }

  ghost predicate Distinct(c: seq<nat>) { forall i, j :: 0 <= i < j < |c| ==> c[i] != c[j] }

  ghost predicate Links(es: seq<Entry>, c: seq<nat>)
    requires Within(es, c)
  {
    forall i, j :: 0 <= i < j < |c| && j == i + 1 ==> es[c[i]].next == c[j]
  }

  ghost predicate Ends(es: seq<Entry>, c: seq<nat>, head: int, tail: int)
    requires Within(es, c)
  {
    if c == [] then head == NIL && tail == NIL
    else head == c[0] && tail == c[|c| - 1] && es[tail].next == NIL
  }

  /** Following `next` from `head` visits the indices `c` and ends at `tail`. */
  ghost predicate Path(es: seq<Entry>, c: seq<nat>, head: int, tail: int) {
    Within(es, c) && Distinct(c) && Links(es, c) && Ends(es, c, head, tail)
  }

  ghost predicate InOrder(es: seq<Entry>, c: seq<nat>) {
    && (forall i :: 0 <= i < |c| ==> c[i] < |es|)
    && (forall i, j :: 0 <= i < j < |c| ==> es[c[i]].nextCall <= es[c[j]].nextCall)
  }

  /** The chain is acyclic, holds every array entry exactly once, is sorted by next_call_time and
      ends at `tail`. */
  ghost predicate Chained(es: seq<Entry>, c: seq<nat>, head: int, tail: int) {
    Path(es, c, head, tail) && InOrder(es, c) && |c| == |es|
  }

  ghost predicate SameTimes(es: seq<Entry>, fs: seq<Entry>) {
    && |es| == |fs|
    && forall i :: 0 <= i < |es| ==> es[i].id == fs[i].id && TaskOf(es[i]) == TaskOf(fs[i])
  }

  /** The links that sched_make_chain writes: each entry to its successor in the array. */
  function Threaded(es: seq<Entry>): (r: seq<Entry>)
    ensures |r| == |es|
    ensures forall i :: 0 <= i < |es| ==> r[i] == es[i].(next := if i < |es| - 1 then i + 1 else NIL)
  {
    seq(|es|, i requires 0 <= i < |es| => es[i].(next := if i < |es| - 1 then i + 1 else NIL))
  }

  ghost function Counting(n: nat): (c: seq<nat>)
    ensures |c| == n && forall i :: 0 <= i < n ==> c[i] == i
  {
    seq(n, i => i)
  }

  /** Threading a sorted array in order makes a good chain through all of it. */
  lemma ThreadedChained(es: seq<Entry>)
    requires es != [] && SortedByTime(es)
    ensures Chained(Threaded(es), Counting(|es|), 0, |es| - 1)
  {
    var r, c := Threaded(es), Counting(|es|);
    forall i, j | 0 <= i < j < |c| ensures r[c[i]].nextCall <= r[c[j]].nextCall {
      assert es[i].nextCall <= es[j].nextCall;
    }
  }

  lemma QsortKeeps(qsort: seq<Entry> -> seq<nat>, es: seq<Entry>)
    requires IsQsort(qsort)
    ensures |qsort(es)| == |es| && (forall i :: 0 <= i < |es| ==> qsort(es)[i] < |es|)
    ensures var r := Permuted(es, qsort(es)); SortedByTime(r) && InOrderOf(es, qsort(es), r)
  {
    assert Sorts(es, qsort(es));
  }

  function SetNext(es: seq<Entry>, i: nat, next: int): seq<Entry>
    requires i < |es|
  {
    es[i := es[i].(next := next)]
  }

  /** The two link writes of the splice: `previous` (if any) to `node`, and `node` to `until`. */
  function Linked(es: seq<Entry>, previous: int, node: nat, until: int): (fs: seq<Entry>)
    requires node < |es| && (previous == NIL || 0 <= previous < |es|)
    ensures |fs| == |es|
  {
    SetNext(if previous == NIL then es else SetNext(es, previous, node), node, until)
  }

  /** `fs` with chain `d` is `es` with chain `c` and one more entry on it; no entry off the chain
      and no task has changed. */
  ghost predicate Spliced(es: seq<Entry>, c: seq<nat>, fs: seq<Entry>, d: seq<nat>, node: nat) {
    && SameTimes(es, fs) && |d| == |c| + 1
    && (forall x :: x in d <==> x in c || x == node)
    && (forall x :: 0 <= x < |es| && x !in d ==> fs[x] == es[x])
  }

  function Before(c: seq<nat>, p: nat): int
    requires p <= |c|
  {
    if p == 0 then NIL else c[p - 1]
  }

  /** Position `p` of the chain holds the first entry that is not earlier than this one. */
  ghost predicate Fitting(es: seq<Entry>, c: seq<nat>, node: nat, p: nat) {
    && node < |es| && p < |c| && Within(es, c) && es[node].nextCall <= es[c[p]].nextCall
    && (forall i :: 0 <= i < p ==> es[c[i]].nextCall < es[node].nextCall)
  }

  ghost predicate SortedPath(es: seq<Entry>, c: seq<nat>, head: int, tail: int) {
    Path(es, c, head, tail) && InOrder(es, c)
  }

  /** Splicing an entry in front of position `p` of the chain. */
  lemma SpliceIn(es: seq<Entry>, c: seq<nat>, head: int, tail: int, node: nat, p: nat)
    requires SortedPath(es, c, head, tail) && node !in c && Fitting(es, c, node, p)
    ensures var fs := Linked(es, Before(c, p), node, c[p]);
      var d := SpliceAt(c, node, p);
      SortedPath(fs, d, if p == 0 then node else head, tail) && Spliced(es, c, fs, d, node)
  {
    var fs := Linked(es, Before(c, p), node, c[p]);
    var d := SpliceAt(c, node, p);
    assert Path(fs, d, if p == 0 then node else head, tail) by { SplicedPath(es, c, head, tail, node, p); }
    assert InOrder(fs, d) by {
      SplicedOrder(es, c, node, p);
      OrderByTimes(es, fs, d);
    }
    SpliceInIsSpliced(es, c, node, p);
  }

  lemma SpliceInIsSpliced(es: seq<Entry>, c: seq<nat>, node: nat, p: nat)
    requires Within(es, c) && node < |es| && p < |c|
    ensures Spliced(es, c, Linked(es, Before(c, p), node, c[p]), SpliceAt(c, node, p), node)
  {
    var d := SpliceAt(c, node, p);
    SplicedMembers(c, node, p);
    assert p > 0 ==> Before(c, p) in d;
    assert node in d;
  }

  lemma OrderByTimes(es: seq<Entry>, fs: seq<Entry>, c: seq<nat>)
    requires InOrder(es, c) && SameTimes(es, fs)
    ensures InOrder(fs, c)
  {
    forall i, j | 0 <= i < j < |c| ensures fs[c[i]].nextCall <= fs[c[j]].nextCall {
      assert TaskOf(fs[c[i]]) == TaskOf(es[c[i]]) && TaskOf(fs[c[j]]) == TaskOf(es[c[j]]);
    }
  }

  lemma SplicedMembers(c: seq<nat>, node: nat, p: nat)
    requires p < |c|
    ensures var d := SpliceAt(c, node, p); forall x :: x in d <==> x in c || x == node
  {
    assert c == c[..p] + c[p..];
  }

  function SpliceAt(c: seq<nat>, node: nat, p: nat): (d: seq<nat>)
    requires p < |c|
    ensures |d| == |c| + 1
    ensures forall i :: 0 <= i < |d| ==> d[i] == if i < p then c[i] else if i == p then node else c[i - 1]
  {
    c[..p] + [node] + c[p..]
  }

  lemma SplicedPath(es: seq<Entry>, c: seq<nat>, head: int, tail: int, node: nat, p: nat)
    requires Path(es, c, head, tail) && node < |es| && node !in c && p < |c|
    ensures Path(Linked(es, Before(c, p), node, c[p]), SpliceAt(c, node, p), if p == 0 then node else head, tail)
  {
    var fs, d := Linked(es, Before(c, p), node, c[p]), SpliceAt(c, node, p);
    assert Within(fs, d);
    assert Distinct(d) by { SplicedDistinct(c, node, p); }
    assert Links(fs, d) by {
      forall i, j | 0 <= i < j < |d| && j == i + 1 ensures fs[d[i]].next == d[j] {
        SplicedLink(es, c, node, p, i);
      }
    }
    assert Ends(fs, d, if p == 0 then node else head, tail) by { SplicedEnds(es, c, head, tail, node, p); }
  }

  lemma SplicedEnds(es: seq<Entry>, c: seq<nat>, head: int, tail: int, node: nat, p: nat)
    requires Within(es, c) && Distinct(c) && Ends(es, c, head, tail) && node < |es| && node !in c && p < |c|
    ensures var fs, d := Linked(es, Before(c, p), node, c[p]), SpliceAt(c, node, p);
      Within(fs, d) && Ends(fs, d, if p == 0 then node else head, tail)
  {
    assert tail in c;
    if p > 0 { assert c[p - 1] != c[|c| - 1]; }
  }

  lemma SplicedDistinct(c: seq<nat>, node: nat, p: nat)
    requires node !in c && p < |c| && Distinct(c)
    ensures Distinct(SpliceAt(c, node, p))
  {
  }

  lemma SplicedLink(es: seq<Entry>, c: seq<nat>, node: nat, p: nat, i: nat)
    requires node < |es| && node !in c && p < |c| && i < |c| && Within(es, c) && Distinct(c) && Links(es, c)
    ensures var d := SpliceAt(c, node, p);
      d[i] < |es| && Linked(es, Before(c, p), node, c[p])[d[i]].next == d[i + 1]
  {
    var d := SpliceAt(c, node, p);
    if i < p - 1 {
      assert d[i] == c[i] && d[i + 1] == c[i + 1];
    } else if i == p - 1 {
      assert d[i] == c[i] && d[i + 1] == node;
    } else if i == p {
      assert d[i] == node && d[i + 1] == c[p];
    } else {
      assert d[i] == c[i - 1] && d[i + 1] == c[i];
    }
  }

  lemma SplicedOrder(es: seq<Entry>, c: seq<nat>, node: nat, p: nat)
    requires InOrder(es, c) && Fitting(es, c, node, p)
    ensures InOrder(es, SpliceAt(c, node, p))
  {
    forall i | p <= i < |c| ensures es[node].nextCall <= es[c[i]].nextCall {
      assert es[c[p]].nextCall <= es[c[i]].nextCall;
    }
  }

  /** Appending an entry behind the tail. */
  lemma SpliceLast(es: seq<Entry>, c: seq<nat>, head: int, tail: int, node: nat)
    requires SortedPath(es, c, head, tail) && node < |es| && node !in c && c != []
    requires es[c[|c| - 1]].nextCall <= es[node].nextCall
    ensures var fs := SetNext(SetNext(es, c[|c| - 1], node), node, NIL);
      SortedPath(fs, c + [node], head, node) && Spliced(es, c, fs, c + [node], node)
  {
    var fs := SetNext(SetNext(es, c[|c| - 1], node), node, NIL);
    var d := c + [node];
    forall i, j | 0 <= i < j < |d| && j == i + 1 ensures fs[d[i]].next == d[j] {
      if j < |c| { assert d[j] == c[j]; }
    }
    forall i | 0 <= i < |c| ensures fs[c[i]].nextCall <= fs[node].nextCall {
      if i < |c| - 1 { assert es[c[i]].nextCall <= es[c[|c| - 1]].nextCall; }
    }
  }

  // ----- running the due entries --------------------------------------------------------------------

  /** The array after the first `k` entries of the chain ran at time `now`. */
  function Executed(es: seq<Entry>, c: seq<nat>, k: nat, now: int): (r: seq<Entry>)
    requires k <= |c| && forall i :: 0 <= i < |c| ==> c[i] < |es|
    ensures |r| == |es|
  {
    if k == 0 then es
    else
      var before := Executed(es, c, k - 1, now);
      var e := before[c[k - 1]];
      before[c[k - 1] := e.(nextCall := now + e.interval)]
  }

  lemma {:induction false} ExecutedAt(es: seq<Entry>, c: seq<nat>, k: nat, now: int, x: nat)
    requires k <= |c| && x < |es| && forall i :: 0 <= i < |c| ==> c[i] < |es|
    ensures Executed(es, c, k, now)[x]
      == if x in c[..k] then es[x].(nextCall := now + es[x].interval) else es[x]
  {
    if k > 0 {
      ExecutedAt(es, c, k - 1, now, x);
      assert c[..k] == c[..k - 1] + [c[k - 1]];
    }
  }

  /** The first `k` entries of the chain were due, and these are their ids. */
  ghost predicate RanPrefix(es: seq<Entry>, c: seq<nat>, k: nat, ran: seq<int>, now: int) {
    && Within(es, c) && |ran| == k <= |c|
    && (forall i :: 0 <= i < k ==> ran[i] == es[c[i]].id && es[c[i]].nextCall <= now)
  }

  lemma NotYetExecuted(es: seq<Entry>, c: seq<nat>, k: nat, now: int)
    requires k < |c| && forall i :: 0 <= i < |c| ==> c[i] < |es|
    requires forall i, j :: 0 <= i < j < |c| ==> c[i] != c[j]
    ensures Executed(es, c, k, now)[c[k]] == es[c[k]]
  {
    ExecutedAt(es, c, k, now, c[k]);
  }

  /** What running a set of tasks does to them. */
  ghost function RunTasks(m: map<int, Task>, ids: set<int>, now: int): map<int, Task> {
    map id | id in m :: if id in ids then m[id].(nextCall := now + m[id].interval) else m[id]
  }

  /** What ran is next due its interval after now; all else is as it was. */
  lemma RunTasksMeans(m: map<int, Task>, ran: seq<int>, now: int)
    ensures var m' := RunTasks(m, SetOf(ran), now);
      && m'.Keys == m.Keys
      && (forall id :: id in m ==>
            m'[id] == Task(m[id].func, m[id].interval, if id in ran then now + m[id].interval else m[id].nextCall))
  {
    forall id ensures id in SetOf(ran) <==> id in ran {
      if id in ran {
        var i :| 0 <= i < |ran| && ran[i] == id;
      }
    }
  }

  ghost function IdsOf(es: seq<Entry>, c: seq<nat>): (r: seq<int>)
    requires forall i :: 0 <= i < |c| ==> c[i] < |es|
    ensures |r| == |c| && forall i :: 0 <= i < |c| ==> r[i] == es[c[i]].id
  {
    seq(|c|, i requires 0 <= i < |c| => es[c[i]].id)
  }

  ghost function SetOf(ids: seq<int>): set<int> { set i | 0 <= i < |ids| :: ids[i] }

  lemma RanById(es: seq<Entry>, c: seq<nat>, x: nat)
    requires UniqueIds(es) && x < |es| && forall i :: 0 <= i < |c| ==> c[i] < |es|
    ensures x in c <==> es[x].id in SetOf(IdsOf(es, c))
  {
    var ids := IdsOf(es, c);
    if x in c {
      var i :| 0 <= i < |c| && c[i] == x;
      assert ids[i] == es[x].id;
    }
    if es[x].id in SetOf(ids) {
      var i :| 0 <= i < |ids| && ids[i] == es[x].id;
      SameIdSamePlace(es, c[i], x);
    }
  }

  lemma SameIdSamePlace(es: seq<Entry>, a: nat, b: nat)
    requires UniqueIds(es) && a < |es| && b < |es| && es[a].id == es[b].id
    ensures a == b
  {
  }

  lemma ExecutedTasks(es: seq<Entry>, c: seq<nat>, k: nat, now: int)
    requires UniqueIds(es) && Permutation(c, |es|) && k <= |c|
    ensures var fs := Executed(es, c, k, now);
      && UniqueIds(fs) && Tasks(fs) == RunTasks(Tasks(es), SetOf(IdsOf(es, c[..k])), now)
      && forall x :: 0 <= x < |es| ==> fs[x].id == es[x].id && fs[x].next == es[x].next
  {
    var fs := Executed(es, c, k, now);
    var ids := IdsOf(es, c[..k]);
    forall x | 0 <= x < |es|
      ensures fs[x].id == es[x].id && fs[x].next == es[x].next
      ensures fs[x] == if es[x].id in SetOf(ids) then es[x].(nextCall := now + es[x].interval) else es[x]
    {
      ExecutedAt(es, c, k, now, x);
      RanById(es, c[..k], x);
    }
    var m := RunTasks(Tasks(es), SetOf(ids), now);
    forall j | 0 <= j < |fs| ensures fs[j].id in m && m[fs[j].id] == TaskOf(fs[j]) { TasksAt(es, j); }
    forall id | id in m ensures exists j :: 0 <= j < |fs| && fs[j].id == id {
      TasksDomain(es, id);
      var j :| 0 <= j < |es| && es[j].id == id;
      assert fs[j].id == id;
    }
    TasksAre(fs, m);
  }

  /** Running does not touch the links, nor the times of what did not run. */
  lemma ExecutedChain(es: seq<Entry>, c: seq<nat>, k: nat, now: int, head: int, tail: int)
    requires Chained(es, c, head, tail) && k <= |c|
    ensures var fs := Executed(es, c, k, now); Path(fs, c, head, tail) && InOrder(fs, c[k..])
  {
    var fs := Executed(es, c, k, now);
    forall x | 0 <= x < |es| ensures fs[x].next == es[x].next { ExecutedAt(es, c, k, now, x); }
    PathByLinks(es, fs, c, head, tail);
    ExecutedRest(es, c, k, now);
  }

  lemma PathByLinks(es: seq<Entry>, fs: seq<Entry>, c: seq<nat>, head: int, tail: int)
    requires Path(es, c, head, tail) && |fs| == |es| && forall x :: 0 <= x < |es| ==> fs[x].next == es[x].next
    ensures Path(fs, c, head, tail)
  {
  }

  lemma ExecutedRest(es: seq<Entry>, c: seq<nat>, k: nat, now: int)
    requires InOrder(es, c) && k <= |c| && forall i, j :: 0 <= i < j < |c| ==> c[i] != c[j]
    ensures InOrder(Executed(es, c, k, now), c[k..])
  {
    var fs := Executed(es, c, k, now);
    forall i | k <= i < |c| ensures fs[c[i]] == es[c[i]] { ExecutedAt(es, c, k, now, c[i]); }
  }

  lemma SuffixPath(es: seq<Entry>, c: seq<nat>, head: int, tail: int, k: nat)
    requires Path(es, c, head, tail) && k < |c|
    ensures Path(es, c[k..], c[k], tail)
  {
    var d := c[k..];
    forall i, j | 0 <= i < j < |d| && j == i + 1 ensures es[d[i]].next == d[j] {
      assert d[i] == c[k + i] && d[j] == c[k + j];
    }
  }

  ghost predicate Due(m: map<int, Task>, id: int, now: int) { id in m && m[id].nextCall <= now }

  /** What ran was due, each task once; and, if the round was complete, everything due ran. */
  ghost predicate RanDue(m: map<int, Task>, ran: seq<int>, now: int, complete: bool) {
    && (forall i, j :: 0 <= i < j < |ran| ==> ran[i] != ran[j])
    && (forall i :: 0 <= i < |ran| ==> Due(m, ran[i], now))
    && (complete ==> forall id :: Due(m, id, now) ==> id in SetOf(ran))
  }

  lemma RanExactlyDue(es: seq<Entry>, c: seq<nat>, k: nat, now: int, ran: seq<int>, complete: bool)
    requires UniqueIds(es) && Permutation(c, |es|) && InOrder(es, c) && k <= |c|
    requires ran == IdsOf(es, c[..k])
    requires forall i :: 0 <= i < k ==> es[c[i]].nextCall <= now
    requires complete && k < |c| ==> es[c[k]].nextCall > now
    ensures RanDue(Tasks(es), ran, now, complete)
  {
    forall i, j | 0 <= i < j < |ran| ensures ran[i] != ran[j] {
      DifferentPlaceDifferentId(es, c[i], c[j]);
    }
    forall i | 0 <= i < |ran| ensures Due(Tasks(es), ran[i], now) { TasksAt(es, c[i]); }
    if complete {
      forall id | Due(Tasks(es), id, now) ensures id in SetOf(ran) {
        TasksDomain(es, id);
        var x :| 0 <= x < |es| && es[x].id == id;
        TasksAt(es, x);
        var i := PermutationHits(c, |es|, x);
        EarlyInChain(es, c, k, now, i);
        assert c[..k][i] == x;
        RanById(es, c[..k], x);
      }
    }
  }

  lemma DifferentPlaceDifferentId(es: seq<Entry>, a: nat, b: nat)
    requires UniqueIds(es) && a < |es| && b < |es| && a != b
    ensures es[a].id != es[b].id
  {
  }

  lemma EarlyInChain(es: seq<Entry>, c: seq<nat>, k: nat, now: int, i: nat)
    requires InOrder(es, c) && i < |c| && es[c[i]].nextCall <= now && (k < |c| ==> es[c[k]].nextCall > now)
    ensures i < k
  {
  }

  /** With unique ids a round runs exactly the due tasks and moves them on. */
  lemma RoundRuns(es: seq<Entry>, c: seq<nat>, head: int, tail: int, k: nat, now: int,
                  ran: seq<int>, complete: bool, r: seq<Entry>)
    requires UniqueIds(es) && Chained(es, c, head, tail)
    requires RanPrefix(es, c, k, ran, now) && (complete && k < |c| ==> es[c[k]].nextCall > now)
    requires Rearranged(Executed(es, c, k, now), r)
    ensures UniqueIds(r) && Tasks(r) == RunTasks(Tasks(es), SetOf(ran), now)
    ensures RanDue(Tasks(es), ran, now, complete)
  {
    assert Permutation(c, |es|);
    assert ran == IdsOf(es, c[..k]);
    RanExactlyDue(es, c, k, now, ran, complete);
    ExecutedTasks(es, c, k, now);
    RearrangedKeeps(Executed(es, c, k, now), r);
  }

  lemma InOrderAgain(es: seq<Entry>, c: seq<nat>, k: nat)
    requires k <= |c| && Within(es, c) && InOrder(es, c[k..]) && (k == 0 || |c| == 1)
    ensures InOrder(es, c)
  {
    if k == 0 { assert c[0..] == c; }
  }

  // ----- the waiting slot ---------------------------------------------------------------------------

  /** The deletion loop: close the gap over the first entry with this id. */
  function Without(es: seq<Entry>, id: int): seq<Entry> {
    var i := Index(es, id);
    if i < |es| then es[..i] + es[i + 1..] else es
  }

  /** The inner loop of the merge: overwrite the entry with the same id, or append. */
  function Put(es: seq<Entry>, w: Entry): seq<Entry> {
    var i := Index(es, w.id);
    if i < |es| then es[i := w] else es + [w]
  }

  function PutAll(es: seq<Entry>, ws: seq<Entry>): seq<Entry> {
    if ws == [] then es else Put(PutAll(es, ws[..|ws| - 1]), ws[|ws| - 1])
  }

  lemma WithoutMeetsMap(es: seq<Entry>, id: int)
    requires UniqueIds(es)
    ensures UniqueIds(Without(es, id)) && Tasks(Without(es, id)) == Tasks(es) - {id}
  {
    var i := Index(es, id);
    var fs := Without(es, id);
    TasksLookup(es, id);
    if i < |es| {
      assert forall j :: 0 <= j < |fs| ==> fs[j] == es[if j < i then j else j + 1];
      var m := Tasks(es) - {id};
      forall j | 0 <= j < |fs| ensures fs[j].id in m && m[fs[j].id] == TaskOf(fs[j]) {
        TasksAt(es, if j < i then j else j + 1);
      }
      forall x | x in m ensures exists j :: 0 <= j < |fs| && fs[j].id == x {
        TasksDomain(es, x);
        var k :| 0 <= k < |es| && es[k].id == x;
        assert fs[if k < i then k else k - 1].id == x;
      }
      TasksAre(fs, m);
    } else {
      assert Tasks(es) - {id} == Tasks(es);
    }
  }

  /** The tasks left by a pending deletion; a negative id means that none is pending. */
  ghost function Remaining(m: map<int, Task>, id: int): map<int, Task> { if id >= 0 then m - {id} else m }

  lemma DeletionMeetsMap(es: seq<Entry>, id: int)
    requires UniqueIds(es)
    ensures var fs := if id >= 0 then Without(es, id) else es;
      && UniqueIds(fs) && Tasks(fs) == Remaining(Tasks(es), id)
      && (id in Tasks(es) <==> Index(es, id) < |es|)
  {
    WithoutMeetsMap(es, id);
    TasksLookup(es, id);
  }

  lemma PutMeetsMap(es: seq<Entry>, w: Entry)
    requires UniqueIds(es)
    ensures UniqueIds(Put(es, w)) && Tasks(Put(es, w)) == Tasks(es)[w.id := TaskOf(w)]
  {
    var i := Index(es, w.id);
    var fs := Put(es, w);
    var m := Tasks(es)[w.id := TaskOf(w)];
    if i < |es| {
      forall j | 0 <= j < |fs| ensures fs[j].id in m && m[fs[j].id] == TaskOf(fs[j]) { TasksAt(es, j); }
      forall x | x in m ensures exists j :: 0 <= j < |fs| && fs[j].id == x {
        if x == w.id {
          assert fs[i].id == x;
        } else {
          TasksDomain(es, x);
          var k :| 0 <= k < |es| && es[k].id == x;
          assert fs[k].id == x;
        }
      }
      TasksAre(fs, m);
    } else {
      assert fs[..|fs| - 1] == es;
    }
  }

  /** A later waiting entry wins over an earlier one, and any of them over a scheduled one. */
  ghost function Override(m: map<int, Task>, ws: seq<Entry>): map<int, Task> {
    if ws == [] then m
    else var w := ws[|ws| - 1]; Override(m, ws[..|ws| - 1])[w.id := TaskOf(w)]
  }

  /** Of several waiting entries with an id the last one wins. */
  lemma {:induction false} LastWaitingWins(m: map<int, Task>, ws: seq<Entry>, j: nat)
    requires j < |ws| && forall k :: j < k < |ws| ==> ws[k].id != ws[j].id
    ensures var w, r := ws[j], Override(m, ws); w.id in r && r[w.id] == Task(w.func, w.interval, w.nextCall)
    decreases |ws|
  {
    var init := ws[..|ws| - 1];
    if j < |ws| - 1 {
      assert init[j] == ws[j];
      LastWaitingWins(m, init, j);
    }
  }

  /** Tasks that no waiting entry names stay as they were. */
  lemma {:induction false} OthersStay(m: map<int, Task>, ws: seq<Entry>, id: int)
    requires forall j :: 0 <= j < |ws| ==> ws[j].id != id
    ensures var r := Override(m, ws); (id in r <==> id in m) && (id in m ==> r[id] == m[id])
    decreases |ws|
  {
    if ws != [] { OthersStay(m, ws[..|ws| - 1], id); }
  }

  lemma {:induction false} PutAllMeetsMap(es: seq<Entry>, ws: seq<Entry>)
    requires UniqueIds(es)
    ensures UniqueIds(PutAll(es, ws)) && Tasks(PutAll(es, ws)) == Override(Tasks(es), ws)
    decreases |ws|
  {
    if ws != [] {
      var n := |ws| - 1;
      PutAllMeetsMap(es, ws[..n]);
      PutMeetsMap(PutAll(es, ws[..n]), ws[n]);
    }
  }

  /** sched_check_waiting deletes an entry. */
  predicate Deletes(es: seq<Entry>, id: int) { id >= 0 && Index(es, id) < |es| }

  lemma DeletesMeans(es: seq<Entry>, id: int)
    ensures Deletes(es, id) <==> id >= 0 && exists j :: 0 <= j < |es| && es[j].id == id
  {
  }

  /** What sched_check_waiting leaves in the array, in some order. */
  function AfterWaiting(es: seq<Entry>, id: int, ws: seq<Entry>, ok: bool): seq<Entry> {
    var rest := if id >= 0 then Without(es, id) else es;
    if ws != [] && ok then PutAll(rest, ws) else rest
  }

  ghost function TasksAfterWaiting(m: map<int, Task>, id: int, ws: seq<Entry>, ok: bool): map<int, Task> {
    if ws != [] && ok then Override(Remaining(m, id), ws) else Remaining(m, id)
  }

  lemma DeletesIff(es: seq<Entry>, id: int)
    requires UniqueIds(es)
    ensures Deletes(es, id) <==> id >= 0 && id in Tasks(es)
  {
    TasksLookup(es, id);
  }

  /** With unique ids that is: the old tasks less the deleted one, overridden by the waiting ones. */
  lemma WaitingMeetsMap(es: seq<Entry>, id: int, ws: seq<Entry>, ok: bool, r: seq<Entry>)
    requires UniqueIds(es) && Rearranged(AfterWaiting(es, id, ws, ok), r)
    ensures UniqueIds(r) && Tasks(r) == TasksAfterWaiting(Tasks(es), id, ws, ok)
  {
    DeletionMeetsMap(es, id);
    PutAllMeetsMap(if id >= 0 then Without(es, id) else es, ws);
    RearrangedKeeps(AfterWaiting(es, id, ws, ok), r);
  }

  // ----- the first call -----------------------------------------------------------------------------

  /** An entry's time base has been resolved to an instant that is not in the future. */
  predicate BasePast(e: Entry, now: int) { e.base.Some? ==> e.base.value <= now }

  /** sched_init_entries for one entry. */
  function FirstCall(e: Entry, now: int): int
    requires e.interval > 0 && BasePast(e, now)
  {
    match e.base
    case None => now + e.interval
    case Some(base) => now + e.interval - (now - base) % e.interval
  }

  /** The first call is the first instant after now that lies a whole number of intervals from the
      base, or one interval from now without a base. */
  lemma FirstCallOnGrid(e: Entry, now: int)
    requires e.interval > 0 && BasePast(e, now)
    ensures now < FirstCall(e, now) <= now + e.interval
    ensures exists k: int :: FirstCall(e, now) == (if e.base.Some? then e.base.value else now) + k * e.interval
  {
    var base := if e.base.Some? then e.base.value else now;
    var d, n := now - base, e.interval;
    assert d == (d / n) * n + d % n;
    assert (d / n + 1) * n == (d / n) * n + n;
    if e.base.Some? {
      assert FirstCall(e, now) == base + (d / n + 1) * n;
    } else {
      assert FirstCall(e, now) == base + 1 * n;
    }
  }

  /** How many entries the loop of sched_init_entries gets through: it stops at a bad interval. */
  function Accepted(es: seq<Entry>): (n: nat)
    ensures n <= |es| && (n < |es| ==> es[n].interval <= 0)
    ensures forall i :: 0 <= i < n ==> es[i].interval > 0
  {
    if es == [] || es[0].interval <= 0 then 0
    else
      var n := Accepted(es[1..]);
      assert forall i :: 1 <= i < |es| ==> es[i] == es[1..][i - 1];
      n + 1
  }

  function Started(e: Entry, now: int): Entry
    requires BasePast(e, now)
  {
    if e.interval > 0 then e.(nextCall := FirstCall(e, now)) else e
  }

  /** The array and the answer of sched_init_entries. */
  function Initialised(es: seq<Entry>, now: int): (r: (seq<Entry>, int))
    requires forall i :: 0 <= i < |es| ==> BasePast(es[i], now)
    ensures |r.0| == |es| && (r.1 == 0 <==> forall i :: 0 <= i < |es| ==> es[i].interval > 0)
    ensures forall i :: 0 <= i < |es| ==> r.0[i] == if i < Accepted(es) then Started(es[i], now) else es[i]
  {
    (seq(|es|, i requires 0 <= i < |es| => if i < Accepted(es) then Started(es[i], now) else es[i]),
     if Accepted(es) == |es| then 0 else EINVAL)
  }

  /** sched_init_entries sets first calls within an interval from now, up to the first bad interval, and
      changes nothing else. */
  lemma InitialisedMeans(es: seq<Entry>, now: int, i: nat)
    requires (forall k :: 0 <= k < |es| ==> BasePast(es[k], now)) && i < |es|
    ensures var (r, code) := Initialised(es, now); var good := forall k :: 0 <= k <= i ==> es[k].interval > 0;
      && |r| == |es| && (code == 0 || code == EINVAL)
      && (code == 0 <==> forall k :: 0 <= k < |es| ==> es[k].interval > 0)
      && r[i] == es[i].(nextCall := r[i].nextCall)
      && (good ==> now < r[i].nextCall <= now + es[i].interval)
      && (!good ==> r[i] == es[i])
  {
    if i < Accepted(es) { FirstCallOnGrid(es[i], now); }
  }
}
