/** The scheduler thread of common/sched_thread.c: an array of entries threaded by a sorted chain,
    changed in place by making the chain, by the waiting slot, and by one round of the thread. */
module Scheduler {
  import opened Common
  import opened SchedModel
  import opened SchedLog

  class ScheduleContext {
    var entries: array<Entry>
    var count: nat
    var head: int
    var tail: int
    /** The static waiting_schedule_array and waiting_del_id. */
    var waiting: seq<Entry>
    var waitingDelId: int
    /** The order in which the C library's qsort leaves an array. */
    const qsort: seq<Entry> -> seq<nat>

    ghost var chain: seq<nat>

    ghost function Items(): seq<Entry>
      requires count <= entries.Length
      reads this`count, this`entries, entries
    {
      entries[..count]
    }

    /** What holds between any two steps of the thread: the chain goes through all entries, in order. */
    ghost predicate Running()
      reads this`count, this`entries, this`head, this`tail, this`chain, entries
    {
      count <= entries.Length && IsQsort(qsort) && Chained(Items(), chain, head, tail)
    }

    /** With unique ids the entries stand for tasks. */
    ghost predicate Valid()
      reads this`count, this`entries, this`head, this`tail, this`chain, entries
    {
      Running() && UniqueIds(Items())
    }

    /** sched_make_chain. */
    method MakeChain()
      requires count <= entries.Length && IsQsort(qsort)
      modifies this`head, this`tail, this`chain, entries
      ensures Chained(Items(), chain, head, tail) && Rearranged(old(Items()), Items())
    {
      ghost var es := Items();
      if count == 0 {
        head, tail, chain := NIL, NIL, [];
        assert InOrderOf(es, [], Items());
        return;
      }
      ghost var p := Sort();
      ThreadedChained(Items());
      Thread();
      chain := Counting(count);
      assert InOrderOf(es, p, Items());
    }

    /** The first chain of the thread; with unique ids the context is then valid. */
    method FirstChain()
      requires count <= entries.Length && IsQsort(qsort)
      modifies this`head, this`tail, this`chain, entries
      ensures Chained(Items(), chain, head, tail) && Rearranged(old(Items()), Items())
      ensures UniqueIds(old(Items())) ==> Valid() && Tasks(Items()) == Tasks(old(Items()))
    {
      ghost var es := Items();
      MakeChain();
      RearrangedKeeps(es, Items());
    }

    /** The call of qsort. */
    method Sort() returns (ghost p: seq<nat>)
      requires count <= entries.Length && IsQsort(qsort)
      modifies entries
      ensures SortedByTime(Items()) && InOrderOf(old(Items()), p, Items())
    {
      ghost var es := Items();
      p := qsort(es);
      QsortKeeps(qsort, es);
      var r := Permuted(entries[..count], qsort(entries[..count]));
      CopyInto(entries, 0, r);
      assert Items() == r;
    }

    /** The linking loop of sched_make_chain. */
    method Thread()
      requires 0 < count <= entries.Length
      modifies this`head, this`tail, entries
      ensures Items() == Threaded(old(Items())) && head == 0 && tail == count - 1
    {
      ghost var es := Items();
      head, tail := 0, count - 1;
      var i := 0;
      while i < tail
        invariant 0 <= i <= tail == count - 1 && head == 0
        invariant forall j :: 0 <= j < count ==> entries[j] == if j < i then es[j].(next := j + 1) else es[j]
      {
        entries[i] := entries[i].(next := i + 1);
        i := i + 1;
      }
      entries[tail] := entries[tail].(next := NIL);
      assert forall j :: 0 <= j < count ==> Items()[j] == Threaded(es)[j];
    }

    method SetNextAt(i: nat, next: int)
      requires i < count <= entries.Length
      modifies entries
      ensures Items() == SetNext(old(Items()), i, next)
    {
      entries[i] := entries[i].(next := next);
    }

    /** One pass of the execution loop: the callback, then the entry's next call moves on. */
    method RunOne(current: nat, now: int, ghost es: seq<Entry>, ghost k: nat) returns (id: int, next: int)
      requires count == |es| <= entries.Length && Path(es, chain, head, tail) && k < |chain| && current == chain[k]
      requires Items() == Executed(es, chain, k, now)
      modifies entries
      ensures Items() == Executed(es, chain, k + 1, now)
      ensures id == es[chain[k]].id && next == (if k + 1 < |chain| then chain[k + 1] else NIL)
    {
      NotYetExecuted(es, chain, k, now);
      assert Items()[current] == es[current];
      var e := entries[current];
      entries[current] := e.(nextCall := now + e.interval);
      id, next := e.id, e.next;
    }

    /** The test of the execution loop. */
    method IsDue(current: int, now: int, ghost es: seq<Entry>, ghost k: nat) returns (due: bool)
      requires count == |es| <= entries.Length && Path(es, chain, head, tail) && k <= |chain|
      requires Items() == Executed(es, chain, k, now) && current == (if k < |chain| then chain[k] else NIL)
      ensures due <==> k < |chain| && es[chain[k]].nextCall <= now
    {
      if current == NIL {
        return false;
      }
      NotYetExecuted(es, chain, k, now);
      assert Items()[current] == es[chain[k]];
      return entries[current].nextCall <= now;
    }

    /** The execution loop of a round.  The continue flag is seen set `stopAfter` times. */
    method RunDue(now: int, stopAfter: nat) returns (k: nat, current: int, ran: seq<int>)
      requires count <= entries.Length && Path(Items(), chain, head, tail)
      modifies entries
      ensures k <= |chain| && k <= stopAfter && current == (if k < |chain| then chain[k] else NIL)
      ensures Items() == Executed(old(Items()), chain, k, now)
      ensures RanPrefix(old(Items()), chain, k, ran, now)
      ensures k < |chain| && k < stopAfter ==> old(Items())[chain[k]].nextCall > now
    {
      ghost var es := Items();
      k, current, ran := 0, head, [];
      var due := IsDue(current, now, es, k);
      while k < stopAfter && due
        invariant k <= |chain| && k <= stopAfter && current == (if k < |chain| then chain[k] else NIL)
        invariant Items() == Executed(es, chain, k, now) && RanPrefix(es, chain, k, ran, now)
        invariant due <==> k < |chain| && es[chain[k]].nextCall <= now
      {
        var id;
        id, current := RunOne(current, now, es, k);
        k, ran := k + 1, ran + [id];
        due := IsDue(current, now, es, k);
      }
    }

    /** The search of the splice loop: the first chain position not before the node's time. */
    method FindUntil(node: nat, ghost c: seq<nat>) returns (previous: int, until: int, ghost p: nat)
      requires count <= entries.Length && Path(Items(), c, head, tail) && node < count && c != []
      requires entries[node].nextCall < entries[tail].nextCall
      ensures p < |c| && until == c[p] && previous == Before(c, p) && Fitting(Items(), c, node, p)
    {
      previous, until, p := NIL, head, 0;
      while until != NIL && entries[node].nextCall > entries[until].nextCall
        invariant p < |c| && until == c[p] && previous == Before(c, p)
        invariant forall i :: 0 <= i < p ==> Items()[c[i]].nextCall < Items()[node].nextCall
        decreases |c| - p
      {
        assert Items()[c[p]] == entries[until];
        previous, until := until, entries[until].next;
        p := p + 1;
      }
      assert Items()[c[p]] == entries[until];
    }

    /** One pass of the splice loop: an executed entry goes back into the rest of the chain. */
    method SpliceOne(node: nat, ghost c: seq<nat>) returns (next: int, ghost d: seq<nat>)
      requires count <= entries.Length && SortedPath(Items(), c, head, tail)
      requires node < count && node !in c && c != []
      modifies this`head, this`tail, entries
      ensures next == old(entries[node].next)
      ensures SortedPath(Items(), d, head, tail) && Spliced(old(Items()), c, Items(), d, node)
    {
      next := entries[node].next;
      if entries[node].nextCall >= entries[tail].nextCall {
        d := Append(node, c);
      } else {
        d := InsertBefore(node, c);
      }
    }

    method Append(node: nat, ghost c: seq<nat>) returns (ghost d: seq<nat>)
      requires count <= entries.Length && SortedPath(Items(), c, head, tail)
      requires node < count && node !in c && c != []
      requires entries[node].nextCall >= entries[tail].nextCall
      modifies this`tail, entries
      ensures SortedPath(Items(), d, head, tail) && Spliced(old(Items()), c, Items(), d, node)
    {
      SpliceLast(Items(), c, head, tail, node);
      SetNextAt(tail, node);
      tail := node;
      SetNextAt(tail, NIL);
      d := c + [node];
    }

    method InsertBefore(node: nat, ghost c: seq<nat>) returns (ghost d: seq<nat>)
      requires count <= entries.Length && SortedPath(Items(), c, head, tail)
      requires node < count && node !in c && c != []
      requires entries[node].nextCall < entries[tail].nextCall
      modifies this`head, entries
      ensures SortedPath(Items(), d, head, tail) && Spliced(old(Items()), c, Items(), d, node)
    {
      ghost var es := Items();
      var previous, until, p := FindUntil(node, c);
      LinkIn(previous, node, until);
      d := SpliceAt(c, node, p);
      SpliceIn(es, c, old(head), tail, node, p);
    }

    method LinkIn(previous: int, node: nat, until: int)
      requires count <= entries.Length && node < count && (previous == NIL || 0 <= previous < count)
      modifies this`head, entries
      ensures Items() == Linked(old(Items()), previous, node, until)
      ensures head == if previous == NIL then node else old(head)
    {
      if previous == NIL {
        head := node;
      } else {
        SetNextAt(previous, node);
      }
      SetNextAt(node, until);
    }

    /** The splice loop of a round: the `k` executed entries, which lead the old chain, go back one
        by one into the rest of it. */
    method SpliceBack(k: nat, current: int)
      requires count <= entries.Length && Path(Items(), chain, head, tail) && |chain| == count
      requires 0 < k < |chain| && current == chain[k] && InOrder(Items(), chain[k..])
      modifies this`head, this`tail, this`chain, entries
      ensures Chained(Items(), chain, head, tail) && SameTimes(old(Items()), Items())
    {
      ghost var es, c := Items(), chain[k..];
      var node := head;
      SuffixPath(es, chain, head, tail, k);
      head := current;
      var i := 0;
      while i < k
        invariant i <= k && chain == old(chain)
        invariant SortedPath(Items(), c, head, tail) && SameTimes(es, Items())
        invariant |c| == count - k + i
        invariant forall j :: i <= j < k ==> chain[j] !in c
        invariant forall j, l :: i <= j < l < k && l == j + 1 ==> Items()[chain[j]].next == chain[l]
        invariant i < k ==> node == chain[i]
      {
        node, c := SpliceOne(node, c);
        i := i + 1;
      }
      chain := c;
    }

    /** One round of sched_thread_entrance, from the moment its time is known, whatever the ids: a
        prefix of the chain ran, and the chain is complete and in order again. */
    method RoundChain(now: int, stopAfter: nat) returns (ran: seq<int>, ghost k: nat)
      requires Running()
      modifies this`head, this`tail, this`chain, entries
      ensures Running() && k <= stopAfter && RanPrefix(old(Items()), old(chain), k, ran, now)
      ensures k < |old(chain)| && k < stopAfter ==> old(Items())[old(chain)[k]].nextCall > now
      ensures Rearranged(Executed(old(Items()), old(chain), k, now), Items())
    {
      ghost var es := Items();
      var done, current;
      done, current, ran := RunDue(now, stopAfter);
      k := done;
      ExecutedChain(es, chain, k, now, head, tail);
      Reorder(done, current);
    }

    /** One round where ids are unique: exactly the due tasks ran and moved on, all of them unless the
        flag stopped it. */
    method Round(now: int, stopAfter: nat) returns (ran: seq<int>)
      requires Valid()
      modifies this`head, this`tail, this`chain, entries
      ensures Valid()
      ensures Tasks(Items()) == RunTasks(old(Tasks(Items())), SetOf(ran), now)
      ensures |ran| <= stopAfter && RanDue(old(Tasks(Items())), ran, now, |ran| < stopAfter || stopAfter >= count)
    {
      ghost var es, c, first, last := Items(), chain, head, tail;
      ghost var k;
      ran, k := RoundChain(now, stopAfter);
      RoundRuns(es, c, first, last, k, now, ran, |ran| < stopAfter || stopAfter >= count, Items());
    }

    /** The end of a round: nothing to do, a new chain, or the splice loop. */
    method Reorder(k: nat, current: int)
      requires count <= entries.Length && IsQsort(qsort)
      requires Path(Items(), chain, head, tail) && |chain| == count && k <= count
      requires InOrder(Items(), chain[k..]) && current == (if k < count then chain[k] else NIL)
      modifies this`head, this`tail, this`chain, entries
      ensures Chained(Items(), chain, head, tail) && Rearranged(old(Items()), Items())
    {
      ghost var es := Items();
      if k == 0 || count == 1 {
        InOrderAgain(es, chain, k);
        SameTimesRearranged(es, es);
        return;
      }
      if k > count / 2 {
        MakeChain();
        return;
      }
      SpliceBack(k, current);
      SameTimesRearranged(es, Items());
    }

    method FindId(id: int) returns (i: nat)
      requires count <= entries.Length
      ensures i == Index(Items(), id)
    {
      i := 0;
      while i < count && entries[i].id != id
        invariant i <= count && forall j :: 0 <= j < i ==> entries[j].id != id
      {
        i := i + 1;
      }
      assert i < count ==> Items()[i].id == id;
    }

    /** The first part of sched_check_waiting: close the gap over the entry to be deleted. */
    method DeleteWaiting() returns (deleted: bool)
      requires count <= entries.Length
      modifies this`count, this`waitingDelId, entries
      ensures waitingDelId < 0 && count <= entries.Length
      ensures Items() == if old(waitingDelId) >= 0 then Without(old(Items()), old(waitingDelId)) else old(Items())
      ensures deleted <==> Deletes(old(Items()), old(waitingDelId))
      ensures !deleted ==> Items() == old(Items()) && count == old(count)
    {
      deleted := false;
      if waitingDelId < 0 { return; }
      ghost var es := Items();
      var i := FindId(waitingDelId);
      waitingDelId := -1;
      if i == count { return; }
      CloseGap(i);
      count := count - 1;
      deleted := true;
      assert Items() == es[..i] + es[i + 1..];
    }

    method CloseGap(gap: nat)
      requires gap < count <= entries.Length
      modifies entries
      ensures entries[..count - 1] == old(Items())[..gap] + old(Items())[gap + 1..]
    {
      ghost var es := Items();
      var i := gap + 1;
      while i < count
        invariant gap < i <= count
        invariant forall x :: 0 <= x < gap ==> entries[x] == es[x]
        invariant forall x, y :: gap <= x < i - 1 && y == x + 1 ==> entries[x] == es[y]
        invariant forall x :: i <= x < count ==> entries[x] == es[x]
      {
        entries[i - 1] := entries[i];
        i := i + 1;
      }
      ghost var rest := es[gap + 1..];
      assert forall x :: 0 <= x < |rest| ==> rest[x] == es[gap + 1 + x];
    }

    /** One waiting entry into the new array: over the entry with its id, or at the end. */
    method PutOne(w: Entry)
      requires count < entries.Length
      modifies this`count, entries
      ensures count <= old(count) + 1 && count <= entries.Length && Items() == Put(old(Items()), w)
    {
      var i := FindId(w.id);
      entries[i] := w;
      if i == count { count := count + 1; }
    }

    /** The merge loop of sched_check_waiting, into a newly allocated array. */
    method MergeWaiting()
      requires count <= entries.Length
      modifies this`count, this`entries, this`waiting
      ensures fresh(entries) && count <= entries.Length && waiting == []
      ensures Items() == PutAll(old(Items()), old(waiting))
    {
      ghost var es := Items();
      var merged := new Entry[count + |waiting|](i requires 0 <= i reads this, entries =>
        if i < count && i < entries.Length then entries[i] else Entry(0, 0, 0, None, 0, NIL));
      entries := merged;
      assert Items() == es;
      var j := 0;
      while j < |waiting|
        invariant j <= |waiting| && waiting == old(waiting) && fresh(entries)
        invariant count + (|waiting| - j) <= entries.Length
        invariant Items() == PutAll(es, waiting[..j])
      {
        PutOne(waiting[j]);
        assert waiting[..j + 1][..j] == waiting[..j];
        j := j + 1;
      }
      assert waiting[..j] == waiting;
      waiting := [];
    }

    /** sched_check_waiting, whatever the ids: the pending deletion, then the pending entries, of which
        the last one with an id wins.  The chain is rebuilt whenever the array changed, also when the
        new array cannot be allocated after a deletion. */
    method CheckChain(ok: bool) returns (code: int)
      requires Running()
      modifies this`count, this`entries, this`waiting, this`waitingDelId, this`head, this`tail, this`chain, entries
      ensures Running() && waitingDelId < 0 && (entries == old(entries) || fresh(entries))
      ensures Rearranged(AfterWaiting(old(Items()), old(waitingDelId), old(waiting), ok), Items())
      ensures waiting == if ok then [] else old(waiting)
      ensures code == 0 <==> if old(waiting) != [] then ok else Deletes(old(Items()), old(waitingDelId))
      ensures code == ENOENT <==> old(waiting) == [] && !Deletes(old(Items()), old(waitingDelId))
      ensures code == ENOMEM <==> old(waiting) != [] && !ok
    {
      var installs := waiting != [] && ok;
      var deleted := DeleteWaiting();
      code := if waiting != [] then (if ok then 0 else ENOMEM) else if deleted then 0 else ENOENT;
      if installs { Install(); } else { ChainAgain(deleted); }
    }

    /** The second half of sched_check_waiting: the waiting entries, and a new chain. */
    method Install()
      requires count <= entries.Length && IsQsort(qsort)
      modifies this`count, this`entries, this`waiting, this`head, this`tail, this`chain
      ensures Running() && waiting == [] && fresh(entries)
      ensures Rearranged(PutAll(old(Items()), old(waiting)), Items())
    {
      MergeWaiting();
      MakeChain();
    }

    /** A new chain if an entry went. */
    method ChainAgain(deleted: bool)
      requires count <= entries.Length && IsQsort(qsort) && (!deleted ==> Running())
      modifies this`head, this`tail, this`chain, entries
      ensures Running() && Rearranged(old(Items()), Items())
    {
      if deleted { MakeChain(); } else { SameTimesRearranged(Items(), Items()); }
    }

    /** sched_check_waiting where ids are unique, seen as tasks. */
    method CheckWaiting(ok: bool) returns (code: int)
      requires Valid()
      modifies this, entries
      ensures Valid() && waitingDelId < 0 && (entries == old(entries) || fresh(entries))
      ensures Tasks(Items()) == TasksAfterWaiting(old(Tasks(Items())), old(waitingDelId), old(waiting), ok)
      ensures waiting == if ok then [] else old(waiting)
      ensures var deleted := old(waitingDelId) >= 0 && old(waitingDelId) in old(Tasks(Items()));
        && (code == 0 <==> if old(waiting) != [] then ok else deleted)
        && (code == ENOENT <==> old(waiting) == [] && !deleted)
        && (code == ENOMEM <==> old(waiting) != [] && !ok)
    {
      ghost var es, id, ws := Items(), waitingDelId, waiting;
      DeletesIff(es, id);
      code := CheckChain(ok);
      WaitingMeetsMap(es, id, ws, ok, Items());
    }

    /** One look of sched_add_entries at the waiting slot: while it is taken the caller sleeps and
        looks again.  The entries stay in the slot even when an interval is bad and the answer is
        EINVAL. */
    method AddEntries(es: seq<Entry>, now: int, ok: bool) returns (again: bool, code: int)
      requires forall i :: 0 <= i < |es| ==> BasePast(es[i], now)
      modifies this`waiting
      ensures again <==> es != [] && old(waiting) != []
      ensures code == if es == [] then ENOENT else if again then 0 else if !ok then ENOMEM else Initialised(es, now).1
      ensures waiting == if es == [] || again || !ok then old(waiting) else Initialised(es, now).0
    {
      if es == [] { return false, ENOENT; }
      if waiting != [] { return true, 0; }
      if !ok { return false, ENOMEM; }
      again := false;
      waiting, code := InitEntries(es, now);
    }

    /** One look of sched_del_entry at the pending id. */
    method DelEntry(id: int) returns (again: bool, code: int)
      modifies this`waitingDelId
      ensures again <==> id >= 0 && old(waitingDelId) >= 0
      ensures code == if id < 0 then EINVAL else 0
      ensures waitingDelId == if id < 0 || again then old(waitingDelId) else id
    {
      if id < 0 { return false, EINVAL; }
      if waitingDelId >= 0 { return true, 0; }
      waitingDelId := id;
      return false, 0;
    }

    constructor (es: seq<Entry>, sort: seq<Entry> -> seq<nat>)
      ensures fresh(entries) && count == entries.Length && Items() == es && qsort == sort
      ensures waiting == [] && waitingDelId < 0
    {
      qsort, waiting, waitingDelId := sort, [], -1;
      head, tail, chain, count := NIL, NIL, [], |es|;
      entries := new Entry[|es|](i requires 0 <= i < |es| => es[i]);
    }
  }

  /** The start of sched_thread_entrance: nothing if an interval is bad; with unique ids the thread
      starts in a valid state with the initialised tasks. */
  method Start(es: seq<Entry>, now: int, sort: seq<Entry> -> seq<nat>) returns (context: ScheduleContext?)
    requires IsQsort(sort) && forall i :: 0 <= i < |es| ==> BasePast(es[i], now)
    ensures context != null <==> forall i :: 0 <= i < |es| ==> es[i].interval > 0
    ensures context != null ==>
      && fresh(context) && fresh(context.entries) && context.Running()
      && Rearranged(Initialised(es, now).0, context.Items())
      && (UniqueIds(es) ==> context.Valid() && Tasks(context.Items()) == Tasks(Initialised(es, now).0))
  {
    var ready, code := InitEntries(es, now);
    if code != 0 { return null; }
    context := new ScheduleContext(ready, sort);
    context.FirstChain();
  }

  ghost function View(context: ScheduleContext, log: seq<Event>): Thread
    requires context.count <= context.entries.Length
    reads context, context.entries
  {
    Thread(Tasks(context.Items()), context.waiting, context.waitingDelId, log)
  }

  /** One turn of a thread, and what it adds to the log. */
  method Take(context: ScheduleContext, turn: Turn, ghost log: seq<Event>)
    returns (ran: seq<int>, ghost log': seq<Event>)
    requires context.Valid() && Possible(turn)
    modifies context, context.entries
    ensures context.Valid() && (context.entries == old(context.entries) || fresh(context.entries))
    ensures Turned(old(View(context, log)), turn, ran, View(context, log'))
  {
    ran, log' := [], log;
    match turn
    case DoRound(now, stopAfter) =>
      ghost var m := Tasks(context.Items());
      ran := context.Round(now, stopAfter);
      log' := log + RunEvents(m, ran, now);
    case DoCheck(ok) =>
      log' := if ok then log + InstallEvents(context.waiting) else log;
      var _ := context.CheckWaiting(ok);
    case DoAdd(es, at, ok) => var _, _ := context.AddEntries(es, at, ok);
    case DoDelete(id) => var _, _ := context.DelEntry(id);
  }

  /** Any sequence of turns keeps the state valid and is a run of the machine over tasks and log, in
      which executions are spaced. */
  method RunTurns(context: ScheduleContext, turns: seq<Turn>) returns (rans: seq<seq<int>>, ghost ss: seq<Thread>)
    requires context.Valid() && forall i :: 0 <= i < |turns| ==> Possible(turns[i])
    modifies context, context.entries
    ensures context.Valid() && IsRun(ss, turns, rans)
    ensures ss[0] == old(View(context, [])) && ss[|turns|] == View(context, ss[|turns|].log)
    ensures AllSpaced(ss[|turns|].log)
  {
    rans, ss := [], [View(context, [])];
    var i := 0;
    while i < |turns|
      invariant 0 <= i <= |turns| && context.Valid() && |rans| == i && IsRun(ss, turns[..i], rans)
      invariant ss[0] == old(View(context, [])) && ss[i] == View(context, ss[i].log)
      invariant context.entries == old(context.entries) || fresh(context.entries)
    {
      var ran;
      ghost var log;
      ran, log := Take(context, turns[i], ss[i].log);
      RunOn(ss, turns[..i], rans, turns[i], ran, View(context, log));
      assert turns[..i + 1] == turns[..i] + [turns[i]];
      rans, ss := rans + [ran], ss + [View(context, log)];
      i := i + 1;
    }
    assert turns[..i] == turns;
    RunsAreSpaced(ss, turns, rans);
  }

  /** The loop of sched_init_entries. */
  method InitEntries(es: seq<Entry>, now: int) returns (r: seq<Entry>, code: int)
    requires forall i :: 0 <= i < |es| ==> BasePast(es[i], now)
    ensures (r, code) == Initialised(es, now)
  {
    r, code := es, 0;
    var i := 0;
    while i < |es| && code == 0
      invariant i <= |es| == |r| && (code == 0 || (code == EINVAL && i < |es| && es[i].interval <= 0))
      invariant forall j :: 0 <= j < i ==> es[j].interval > 0
      invariant forall j :: 0 <= j < |es| ==> r[j] == if j < i then Started(es[j], now) else es[j]
      decreases |es| - i, code == 0
    {
      if es[i].interval <= 0 {
        code := EINVAL;
      } else {
        r := r[i := es[i].(nextCall := FirstCall(es[i], now))];
        i := i + 1;
      }
    }
    assert i == Accepted(es);
    assert r == Initialised(es, now).0;
  }
}
