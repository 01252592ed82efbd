/** What ran when: a log of executions and installations, a thread's turns as a machine over tasks and
    log, and the spacing of executions over whole runs. */
module SchedLog {
  import opened Common
  import opened SchedModel

  // ----- the log ------------------------------------------------------------------------------------

  datatype Event = Ran(id: int, at: int, interval: int) | Installed(id: int)

  /** The earliest time the log leaves for the next execution of `id`: its last execution plus the
      interval it had then, or any time once it was installed anew. */
  ghost function NotBefore(log: seq<Event>, id: int): Option<int> {
    if log == [] then None
    else
      var e := log[|log| - 1];
      if e.id != id then NotBefore(log[..|log| - 1], id)
      else if e.Ran? then Some(e.at + e.interval)
      else None
  }

  ghost predicate Allows(earliest: Option<int>, time: int) { earliest.Some? ==> time >= earliest.value }

  ghost predicate SpacedAt(log: seq<Event>, j: nat)
    requires j < |log|
  {
    log[j].Ran? ==> Allows(NotBefore(log[..j], log[j].id), log[j].at)
  }

  /** Every logged execution came no earlier than the log before it allowed. */
  ghost predicate Spaced(log: seq<Event>) { forall j :: 0 <= j < |log| ==> SpacedAt(log, j) }

  ghost predicate FitsAt(log: seq<Event>, m: map<int, Task>, id: int) {
    id in m ==> Allows(NotBefore(log, id), m[id].nextCall)
  }

  /** ... and no task is due before the log allows it to run again. */
  ghost predicate LogFits(log: seq<Event>, m: map<int, Task>) {
    Spaced(log) && forall id :: FitsAt(log, m, id)
  }

  lemma Appended(log: seq<Event>, e: Event, id: int)
    ensures NotBefore(log + [e], id)
      == if e.id != id then NotBefore(log, id) else if e.Ran? then Some(e.at + e.interval) else None
  {
    assert (log + [e])[..|log|] == log;
  }

  lemma AppendedSpaced(log: seq<Event>, e: Event)
    requires Spaced(log) && (e.Ran? ==> Allows(NotBefore(log, e.id), e.at))
    ensures Spaced(log + [e])
  {
    forall j | 0 <= j < |log + [e]| ensures SpacedAt(log + [e], j) {
      assert (log + [e])[..j] == log[..j];
      if j < |log| { assert SpacedAt(log, j); } else { assert log[..j] == log; }
    }
  }

  lemma LogForget(log: seq<Event>, m: map<int, Task>, id: int)
    requires LogFits(log, m)
    ensures LogFits(log, m - {id})
  {
    var m' := m - {id};
    forall x ensures FitsAt(log, m', x) { assert FitsAt(log, m, x); }
  }

  /** Logging a run of a task that was due, and moving its next call on. */
  lemma LogRun(log: seq<Event>, m: map<int, Task>, id: int, now: int)
    requires LogFits(log, m) && id in m && m[id].nextCall <= now
    ensures LogFits(log + [Ran(id, now, m[id].interval)], RunTasks(m, {id}, now))
  {
    var e := Ran(id, now, m[id].interval);
    assert FitsAt(log, m, id);
    AppendedSpaced(log, e);
    var m' := RunTasks(m, {id}, now);
    forall x ensures FitsAt(log + [e], m', x) {
      Appended(log, e, x);
      assert FitsAt(log, m, x);
    }
  }

  /** Logging an installation makes room for any new task under that id. */
  lemma LogInstall(log: seq<Event>, m: map<int, Task>, id: int, t: Task)
    requires LogFits(log, m)
    ensures LogFits(log + [Installed(id)], m[id := t])
  {
    var e := Installed(id);
    AppendedSpaced(log, e);
    var m' := m[id := t];
    forall x ensures FitsAt(log + [e], m', x) {
      Appended(log, e, x);
      assert FitsAt(log, m, x);
    }
  }

  /** Logging what a round runs. */
  lemma {:induction false} LogRuns(log: seq<Event>, m: map<int, Task>, ran: seq<int>, now: int)
    requires LogFits(log, m) && RanDue(m, ran, now, false)
    ensures LogFits(log + RunEvents(m, ran, now), RunTasks(m, SetOf(ran), now))
    decreases |ran|
  {
    if ran == [] {
      assert RunTasks(m, SetOf(ran), now) == m && log + RunEvents(m, ran, now) == log;
    } else {
      var n := |ran| - 1;
      var before, id := ran[..n], ran[n];
      LogRuns(log, m, before, now);
      var sofar, m' := log + RunEvents(m, before, now), RunTasks(m, SetOf(before), now);
      LastRuns(m, ran, now);
      LogRun(sofar, m', id, now);
      assert log + RunEvents(m, ran, now) == sofar + [Ran(id, now, m[id].interval)];
    }
  }

  /** The last of distinct due tasks, after the others. */
  lemma LastRuns(m: map<int, Task>, ran: seq<int>, now: int)
    requires ran != [] && RanDue(m, ran, now, false)
    ensures var n := |ran| - 1; var m' := RunTasks(m, SetOf(ran[..n]), now);
      && ran[n] in m' && m'[ran[n]] == m[ran[n]] && m[ran[n]].nextCall <= now
      && RunTasks(m', {ran[n]}, now) == RunTasks(m, SetOf(ran), now)
  {
    var n := |ran| - 1;
    assert Due(m, ran[n], now);
    assert SetOf(ran) == SetOf(ran[..n]) + {ran[n]} by {
      forall x | x in SetOf(ran[..n]) + {ran[n]} ensures x in SetOf(ran) {
        if x != ran[n] {
          var i :| 0 <= i < n && ran[..n][i] == x;
          assert ran[i] == x;
        }
      }
      forall x | x in SetOf(ran) ensures x in SetOf(ran[..n]) + {ran[n]} {
        var i :| 0 <= i < |ran| && ran[i] == x;
        if i < n { assert ran[..n][i] == x; }
      }
    }
    assert ran[n] !in SetOf(ran[..n]);
  }

  ghost function InstallEvents(ws: seq<Entry>): (r: seq<Event>)
    ensures |r| == |ws| && forall i :: 0 <= i < |ws| ==> r[i] == Installed(ws[i].id)
  {
    seq(|ws|, i requires 0 <= i < |ws| => Installed(ws[i].id))
  }

  lemma {:induction false} LogInstalls(log: seq<Event>, m: map<int, Task>, ws: seq<Entry>)
    requires LogFits(log, m)
    ensures LogFits(log + InstallEvents(ws), Override(m, ws))
    decreases |ws|
  {
    if ws == [] {
      assert log + InstallEvents(ws) == log;
    } else {
      var n := |ws| - 1;
      LogInstalls(log, m, ws[..n]);
      LogInstall(log + InstallEvents(ws[..n]), Override(m, ws[..n]), ws[n].id, TaskOf(ws[n]));
      assert log + InstallEvents(ws) == log + InstallEvents(ws[..n]) + [Installed(ws[n].id)];
    }
  }

  /** What the log says about `id` is what its last event about `id` says. */
  lemma {:induction false} LastWord(log: seq<Event>, i: nat, id: int)
    requires i < |log| && log[i].id == id && forall x :: i < x < |log| ==> log[x].id != id
    ensures NotBefore(log, id) == if log[i].Ran? then Some(log[i].at + log[i].interval) else None
    decreases |log|
  {
    if i < |log| - 1 { LastWord(log[..|log| - 1], i, id); }
  }

  /** Over a whole run, two executions of an entry that is not replaced in between are at least its
      interval apart: consecutive ones always, and any two if its interval is positive. */
  lemma {:induction false} AllRunsSpaced(log: seq<Event>, i: nat, j: nat)
    requires Spaced(log) && i < j < |log| && log[i].Ran? && log[j].Ran? && log[i].id == log[j].id
    requires forall x :: i < x < j && log[x].id == log[i].id ==> log[x].Ran? && log[x].interval > 0
    ensures log[j].at >= log[i].at + log[i].interval
    decreases j - i
  {
    if x :| i < x < j && log[x].id == log[i].id {
      AllRunsSpaced(log, i, x);
      AllRunsSpaced(log, x, j);
    } else {
      assert SpacedAt(log, j);
      LastWord(log[..j], i, log[i].id);
    }
  }

  /** Any two executions of an entry that is not replaced in between, nor was its interval not
      positive, are at least that interval apart. */
  ghost predicate AllSpaced(log: seq<Event>) {
    forall i, j ::
      0 <= i < j < |log| && log[i].Ran? && log[j].Ran? && log[i].id == log[j].id && OnlyRuns(log, i, j)
      ==> log[j].at >= log[i].at + log[i].interval
  }

  ghost predicate OnlyRuns(log: seq<Event>, i: nat, j: nat)
    requires i < j < |log|
  {
    forall x :: i < x < j && log[x].id == log[i].id ==> log[x].Ran? && log[x].interval > 0
  }

  lemma SpacedIsAllSpaced(log: seq<Event>)
    requires Spaced(log)
    ensures AllSpaced(log)
  {
    forall i, j | 0 <= i < j < |log| && log[i].Ran? && log[j].Ran? && log[i].id == log[j].id && OnlyRuns(log, i, j)
      ensures log[j].at >= log[i].at + log[i].interval
    {
      AllRunsSpaced(log, i, j);
    }
  }

  ghost function RunEvents(m: map<int, Task>, ran: seq<int>, now: int): (r: seq<Event>)
    requires forall i :: 0 <= i < |ran| ==> ran[i] in m
    ensures |r| == |ran| && forall i :: 0 <= i < |ran| ==> r[i] == Ran(ran[i], now, m[ran[i]].interval)
  {
    seq(|ran|, i requires 0 <= i < |ran| => Ran(ran[i], now, m[ran[i]].interval))
  }

  // ----- turns ---------------------------------------------------------------------------------------

  /** What happens to a thread: a round, a look at the waiting slot, or a caller's request. */
  datatype Turn =
    | DoRound(now: int, stopAfter: nat)
    | DoCheck(ok: bool)
    | DoAdd(es: seq<Entry>, at: int, ok: bool)
    | DoDelete(id: int)

  /** Tasks, waiting slot, pending deletion, and what has run and been installed so far. */
  datatype Thread = Thread(tasks: map<int, Task>, waiting: seq<Entry>, deleting: int, log: seq<Event>)

  ghost predicate Possible(turn: Turn) {
    turn.DoAdd? ==> forall i :: 0 <= i < |turn.es| ==> BasePast(turn.es[i], turn.at)
  }

  /** One turn; `ran` is what a round executes. */
  ghost predicate Turned(s: Thread, turn: Turn, ran: seq<int>, s': Thread)
    requires Possible(turn)
  {
    match turn
    case DoRound(now, stopAfter) =>
      && RanDue(s.tasks, ran, now, |ran| < stopAfter) && |ran| <= stopAfter
      && s' == s.(tasks := RunTasks(s.tasks, SetOf(ran), now), log := s.log + RunEvents(s.tasks, ran, now))
    case DoCheck(ok) =>
      && s'.tasks == TasksAfterWaiting(s.tasks, s.deleting, s.waiting, ok)
      && s'.waiting == (if ok then [] else s.waiting) && s'.deleting < 0
      && s'.log == if ok then s.log + InstallEvents(s.waiting) else s.log
    case DoAdd(es, at, ok) =>
      s' == if es == [] || s.waiting != [] || !ok then s else s.(waiting := Initialised(es, at).0)
    case DoDelete(id) => s' == if id < 0 || s.deleting >= 0 then s else s.(deleting := id)
  }

  /** A task that ran in a round runs again in a later full round iff its interval has passed. */
  lemma RunsAgainIff(
    s: Thread, now: int, stopAfter: nat, ran: seq<int>, s': Thread, later: int, ran': seq<int>, s'': Thread, id: int)
    requires Turned(s, DoRound(now, stopAfter), ran, s') && id in ran
    requires Turned(s', DoRound(later, |ran'| + 1), ran', s'')
    ensures id in s.tasks && (id in ran' <==> later >= now + s.tasks[id].interval)
  {
    var i :| 0 <= i < |ran| && ran[i] == id;
    assert Due(s.tasks, id, now);
    RunTasksMeans(s.tasks, ran, now);
    if id in ran' {
      var j :| 0 <= j < |ran'| && ran'[j] == id;
      assert Due(s'.tasks, id, later);
    } else {
      assert id !in SetOf(ran');
      assert !Due(s'.tasks, id, later);
    }
  }

  lemma TurnKeeps(s: Thread, turn: Turn, ran: seq<int>, s': Thread)
    requires Possible(turn) && Turned(s, turn, ran, s') && LogFits(s.log, s.tasks)
    ensures LogFits(s'.log, s'.tasks)
  {
    match turn
    case DoRound(now, _) => LogRuns(s.log, s.tasks, ran, now);
    case DoCheck(ok) =>
      LogForget(s.log, s.tasks, s.deleting);
      LogInstalls(s.log, Remaining(s.tasks, s.deleting), s.waiting);
    case DoAdd(_, _, _) =>
    case DoDelete(_) =>
  }

  ghost predicate TurnAt(ss: seq<Thread>, turns: seq<Turn>, rans: seq<seq<int>>, k: nat)
    requires k < |turns| == |rans| < |ss|
  {
    Possible(turns[k]) && Turned(ss[k], turns[k], rans[k], ss[k + 1])
  }

  /** A run passes through `ss`. */
  ghost predicate IsRun(ss: seq<Thread>, turns: seq<Turn>, rans: seq<seq<int>>) {
    && |ss| == |turns| + 1 && |rans| == |turns|
    && forall k :: 0 <= k < |turns| ==> TurnAt(ss, turns, rans, k)
  }

  lemma RunPrefix(ss: seq<Thread>, turns: seq<Turn>, rans: seq<seq<int>>, n: nat)
    requires IsRun(ss, turns, rans) && n <= |turns|
    ensures IsRun(ss[..n + 1], turns[..n], rans[..n])
  {
    var us, vs, ws := ss[..n + 1], turns[..n], rans[..n];
    forall k | 0 <= k < n ensures TurnAt(us, vs, ws, k) {
      assert TurnAt(ss, turns, rans, k);
    }
  }

  lemma RunOn(ss: seq<Thread>, turns: seq<Turn>, rans: seq<seq<int>>, turn: Turn, ran: seq<int>, s: Thread)
    requires IsRun(ss, turns, rans) && Possible(turn) && Turned(ss[|turns|], turn, ran, s)
    ensures IsRun(ss + [s], turns + [turn], rans + [ran])
  {
    var us, vs, ws := ss + [s], turns + [turn], rans + [ran];
    forall k | 0 <= k < |turns| + 1 ensures TurnAt(us, vs, ws, k) {
      if k < |turns| { assert TurnAt(ss, turns, rans, k); }
    }
  }

  /** Over any run, two executions of an entry that is not replaced in between are at least its
      interval apart. */
  lemma {:induction false} RunsAreSpaced(ss: seq<Thread>, turns: seq<Turn>, rans: seq<seq<int>>)
    requires IsRun(ss, turns, rans) && ss[0].log == []
    ensures var s := ss[|turns|]; LogFits(s.log, s.tasks) && AllSpaced(s.log)
    decreases |turns|
  {
    var n := |turns|;
    if n > 0 {
      RunPrefix(ss, turns, rans, n - 1);
      RunsAreSpaced(ss[..n], turns[..n - 1], rans[..n - 1]);
      assert TurnAt(ss, turns, rans, n - 1);
      TurnKeeps(ss[n - 1], turns[n - 1], rans[n - 1], ss[n]);
    } else {
      EmptyLogFits(ss[0].tasks);
    }
    SpacedIsAllSpaced(ss[n].log);
  }

  lemma EmptyLogFits(m: map<int, Task>)
    ensures LogFits([], m)
  {
  }
}
