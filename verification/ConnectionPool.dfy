/** The connection pool of common/connection_pool.c. Every section under a manager's lock is one
    step; the connect itself happens between two steps. A run is any sequence of steps of any
    number of threads, so what holds over runs holds in every interleaving. */
module ConnectionPool {
  import opened Common

  /** A ConnectionNode of the free list; `conn` stands for the block that holds the connection. */
  datatype Node = Node(conn: nat, atime: int)

  /** The fields of a ConnectionManager, the free list from its head on. */
  datatype Core = Core(free: seq<Node>, total: int, freeCount: int)

  /** max_count_per_entry (not positive: no limit) and max_idle_time. */
  datatype Limits = Limits(maxCount: int, maxIdle: int)

  datatype Outcome = Reused(reused: nat) | Opening(opening: nat) | NoSpace | NoMemory

  // ----- one section under the lock ----------------------------------------------------------------

  predicate Expired(p: Limits, node: Node, now: int) { now - node.atime > p.maxIdle }

  /** How many connections at the head of the list have been idle too long. */
  function Stale(p: Limits, free: seq<Node>, now: int): (k: nat)
    ensures k <= |free|
    ensures forall i :: 0 <= i < k ==> Expired(p, free[i], now)
    ensures k < |free| ==> !Expired(p, free[k], now)
  {
    if free == [] || !Expired(p, free[0], now) then 0 else 1 + Stale(p, free[1..], now)
  }

  predicate AtLimit(p: Limits, total: int) { p.maxCount > 0 && total >= p.maxCount }

  function OutcomeOf(p: Limits, core: Core, now: int, mallocOk: bool, block: nat): Outcome {
    var k := Stale(p, core.free, now);
    if k < |core.free| then Reused(core.free[k].conn)
    else if AtLimit(p, core.total - k) then NoSpace
    else if mallocOk then Opening(block) else NoMemory
  }

  function CoreAfterGet(p: Limits, core: Core, now: int, mallocOk: bool): Core {
    var k := Stale(p, core.free, now);
    if k < |core.free| then Core(core.free[k + 1..], core.total - k, core.freeCount - k - 1)
    else Core([], core.total - k + (if mallocOk && !AtLimit(p, core.total - k) then 1 else 0), core.freeCount - k)
  }

  function CoreAfterClose(core: Core, conn: nat, force: bool, now: int): Core {
    if force then core.(total := core.total - 1)
    else core.(free := [Node(conn, now)] + core.free, freeCount := core.freeCount + 1)
  }

  class ConnectionManager {
    var free: seq<Node>
    var totalCount: int
    var freeCount: int

    function Fields(): Core
      reads this
    {
      Core(free, totalCount, freeCount)
    }

    constructor ()
      ensures Fields() == Core([], 0, 0)
    {
      free, totalCount, freeCount := [], 0, 0;
    }

    /** The locked section of conn_pool_get_connection; `block` is what malloc would return. */
    method Get(p: Limits, now: int, mallocOk: bool, block: nat) returns (outcome: Outcome)
      modifies this
      ensures Fields() == CoreAfterGet(p, old(Fields()), now, mallocOk)
      ensures outcome == OutcomeOf(p, old(Fields()), now, mallocOk, block)
    {
      ghost var k := 0;
      while free != []
        invariant k <= Stale(p, old(free), now)
        invariant free == old(free)[k..] && totalCount == old(totalCount) - k && freeCount == old(freeCount) - k
        decreases |free|
      {
        var node := free[0];
        free := free[1..];
        freeCount := freeCount - 1;
        if now - node.atime <= p.maxIdle {
          return Reused(node.conn);
        }
        totalCount := totalCount - 1;
        k := k + 1;
      }
      if p.maxCount > 0 && totalCount >= p.maxCount {
        return NoSpace;
      }
      if !mallocOk {
        return NoMemory;
      }
      totalCount := totalCount + 1;
      return Opening(block);
    }

    /** The locked section of conn_pool_close_connection_ex. */
    method Close(conn: nat, force: bool, now: int)
      modifies this
      ensures Fields() == CoreAfterClose(old(Fields()), conn, force, now)
      ensures free == if force then old(free) else [Node(conn, now)] + old(free)
      ensures totalCount == old(totalCount) - (if force then 1 else 0)
      ensures freeCount == old(freeCount) + (if force then 0 else 1)
    {
      if force {
        totalCount := totalCount - 1;
      } else {
        free := [Node(conn, now)] + free;
        freeCount := freeCount + 1;
      }
    }
  }

  // ----- the protocol of one manager ----------------------------------------------------------------

  /** A manager with its surroundings: who holds which connection, which connects are under way,
      which have failed, which connections were disconnected, how many blocks were ever taken, and
      the time. */
  datatype State = State(
    core: Core,
    borrowed: set<nat>,
    connecting: set<nat>,
    failed: set<nat>,
    closed: set<nat>,
    taken: nat,
    clock: int)

  datatype Step =
    | Tick(now: int)
    | Get(read: int, mallocOk: bool)
    | Connected(conn: nat)
    | ConnectFailed(conn: nat)
    | Close(held: nat, force: bool)

  const START := State(Core([], 0, 0), {}, {}, {}, {}, 0, 0)

  /** The clock does not go back; a get has read it some time before it takes the lock; a close
      reads it under the lock; callers close what they hold. */
  predicate Enabled(s: State, step: Step) {
    match step
    case Tick(now) => s.clock <= now
    case Get(read, _) => read <= s.clock
    case Connected(conn) => conn in s.connecting
    case ConnectFailed(conn) => conn in s.connecting
    case Close(conn, _) => conn in s.borrowed
  }

  function Conns(free: seq<Node>): set<nat> {
    if free == [] then {} else {free[0].conn} + Conns(free[1..])
  }

  function AfterGet(p: Limits, s: State, read: int, mallocOk: bool): State {
    var k := Stale(p, s.core.free, read);
    var s' := s.(core := CoreAfterGet(p, s.core, read, mallocOk), closed := s.closed + Conns(s.core.free[..k]));
    match OutcomeOf(p, s.core, read, mallocOk, s.taken)
    case Reused(conn) => s'.(borrowed := s.borrowed + {conn})
    case Opening(conn) => s'.(connecting := s.connecting + {conn}, taken := s.taken + 1)
    case _ => s'
  }

  function After(p: Limits, s: State, step: Step): State {
    match step
    case Tick(now) => s.(clock := now)
    case Get(read, mallocOk) => AfterGet(p, s, read, mallocOk)
    case Connected(conn) => s.(connecting := s.connecting - {conn}, borrowed := s.borrowed + {conn})
    case ConnectFailed(conn) => s.(connecting := s.connecting - {conn}, failed := s.failed + {conn})
    case Close(conn, force) =>
      s.(core := CoreAfterClose(s.core, conn, force, s.clock),
         borrowed := s.borrowed - {conn},
         closed := if force then s.closed + {conn} else s.closed)
  }

  /** How many times a connection is on the free list. */
  function Occurs(free: seq<Node>, c: nat): (n: nat)
    ensures n > 0 <==> c in Conns(free)
  {
    if free == [] then 0 else
      (if free[0].conn == c then 1 else 0) + Occurs(free[1..], c)
  }

  function In(x: set<nat>, c: nat): nat { if c in x then 1 else 0 }

  /** In how many places a block is. */
  function Places(s: State, c: nat): nat {
    Occurs(s.core.free, c) + In(s.borrowed, c) + In(s.connecting, c) + In(s.failed, c) + In(s.closed, c)
  }

  function Live(s: State): nat { |s.core.free| + |s.borrowed| + |s.connecting| }

  /** The free list from the newest to the oldest, none of it from the future. */
  predicate NewestFirst(free: seq<Node>, clock: int) {
    free != [] ==> free[0].atime <= clock && NewestFirst(free[1..], free[0].atime)
  }

  /** A block that was ever taken is in one place, any other in none. */
  predicate Located(s: State, c: nat) { Places(s, c) == if c < s.taken then 1 else 0 }

  predicate Counted(p: Limits, s: State) {
    && s.core.freeCount == |s.core.free|
    && s.core.total == Live(s) + |s.failed|
    && (p.maxCount > 0 ==> s.core.total <= p.maxCount)
  }

  ghost predicate Inv(p: Limits, s: State) {
    && Counted(p, s)
    && (forall c: nat :: Located(s, c))
    && NewestFirst(s.core.free, s.clock)
  }

  // ----- what every step keeps ------------------------------------------------------------------

  lemma {:induction false} OccursSplit(free: seq<Node>, k: nat, c: nat)
    requires k <= |free|
    ensures Occurs(free, c) == Occurs(free[..k], c) + Occurs(free[k..], c)
  {
    if k == 0 {
      assert free[..0] == [] && free[0..] == free;
    } else {
      OccursSplit(free[1..], k - 1, c);
      assert free[1..][..k - 1] == free[..k][1..] && free[1..][k - 1..] == free[k..];
    }
  }

  lemma {:induction false} ListedOccurs(free: seq<Node>, k: nat)
    requires k < |free|
    ensures free[k].conn in Conns(free)
  {
    if k > 0 {
      ListedOccurs(free[1..], k - 1);
      assert free[1..][k - 1] == free[k];
    }
  }

  lemma {:induction false} NewestFirstDrop(free: seq<Node>, clock: int, k: nat)
    requires NewestFirst(free, clock) && k <= |free|
    ensures NewestFirst(free[k..], clock)
    decreases k
  {
    if k > 0 {
      NewestFirstDrop(free[1..], free[0].atime, k - 1);
      assert free[1..][k - 1..] == free[k..];
      NewestFirstLater(free[k..], free[0].atime, clock);
    } else {
      assert free[0..] == free;
    }
  }

  lemma NewestFirstLater(free: seq<Node>, clock: int, clock': int)
    requires NewestFirst(free, clock) && clock <= clock'
    ensures NewestFirst(free, clock')
  {
  }

  /** Everything ever taken is in exactly one place. */
  lemma OnePlace(p: Limits, s: State)
    requires Inv(p, s)
    ensures Conns(s.core.free) !! s.borrowed && Conns(s.core.free) !! s.connecting && s.borrowed !! s.connecting
    ensures forall c: nat ::
      c < s.taken <==> c in Conns(s.core.free) + s.borrowed + s.connecting + s.failed + s.closed
  {
    forall c: nat
      ensures c in Conns(s.core.free) ==> c !in s.borrowed && c !in s.connecting
      ensures c in s.borrowed ==> c !in s.connecting
      ensures c < s.taken <==> c in Conns(s.core.free) + s.borrowed + s.connecting + s.failed + s.closed
    {
      assert Located(s, c);
    }
  }

  lemma GetPlaces(p: Limits, s: State, read: int, mallocOk: bool, c: nat)
    requires Located(s, c)
    ensures Located(AfterGet(p, s, read, mallocOk), c)
  {
    var free, k := s.core.free, Stale(p, s.core.free, read);
    OccursSplit(free, k, c);
    if k < |free| { assert free[k..][1..] == free[k + 1..]; }
  }

  lemma GetCounts(p: Limits, s: State, read: int, mallocOk: bool)
    requires Counted(p, s) && s.taken !in s.connecting && Conns(s.core.free) !! s.borrowed
    ensures Counted(p, AfterGet(p, s, read, mallocOk))
  {
    var k := Stale(p, s.core.free, read);
    if k < |s.core.free| { ListedOccurs(s.core.free, k); }
  }

  lemma GetKeeps(p: Limits, s: State, read: int, mallocOk: bool)
    requires Inv(p, s)
    ensures Inv(p, AfterGet(p, s, read, mallocOk))
  {
    GetKeepsCounts(p, s, read, mallocOk);
    GetKeepsOrder(p, s, read, mallocOk);
    var s' := AfterGet(p, s, read, mallocOk);
    forall c: nat ensures Located(s', c) {
      assert Located(s, c);
      GetPlaces(p, s, read, mallocOk, c);
    }
  }

  lemma GetKeepsCounts(p: Limits, s: State, read: int, mallocOk: bool)
    requires Inv(p, s)
    ensures Counted(p, AfterGet(p, s, read, mallocOk))
  {
    assert Located(s, s.taken);
    OnePlace(p, s);
    GetCounts(p, s, read, mallocOk);
  }

  lemma GetKeepsOrder(p: Limits, s: State, read: int, mallocOk: bool)
    requires NewestFirst(s.core.free, s.clock)
    ensures NewestFirst(AfterGet(p, s, read, mallocOk).core.free, s.clock)
  {
    var k := Stale(p, s.core.free, read);
    if k < |s.core.free| { NewestFirstDrop(s.core.free, s.clock, k + 1); }
  }

  lemma MovePlaces(p: Limits, s: State, step: Step, c: nat)
    requires Inv(p, s) && Enabled(s, step) && !step.Get?
    ensures Located(After(p, s, step), c)
  {
    assert Located(s, c);
    if step.Close? && !step.force { assert After(p, s, step).core.free[1..] == s.core.free; }
  }

  lemma MoveKeeps(p: Limits, s: State, step: Step)
    requires Inv(p, s) && Enabled(s, step) && !step.Get?
    ensures Inv(p, After(p, s, step))
    ensures |After(p, s, step).failed| == |s.failed| + if step.ConnectFailed? then 1 else 0
  {
    var s' := After(p, s, step);
    forall c: nat ensures Located(s', c) {
      MovePlaces(p, s, step, c);
    }
    match step
    case Tick(now) => NewestFirstLater(s.core.free, s.clock, now);
    case Get(read, mallocOk) =>
    case Connected(conn) => assert Located(s, conn); assert conn !in s.borrowed;
    case ConnectFailed(conn) => assert Located(s, conn); assert conn !in s.failed;
    case Close(conn, force) => assert !force ==> s'.core.free[1..] == s.core.free;
  }

  lemma StepKeeps(p: Limits, s: State, step: Step)
    requires Inv(p, s) && Enabled(s, step)
    ensures Inv(p, After(p, s, step))
    ensures |After(p, s, step).failed| == |s.failed| + if step.ConnectFailed? then 1 else 0
  {
    if step.Get? {
      GetKeeps(p, s, step.read, step.mallocOk);
    } else {
      MoveKeeps(p, s, step);
    }
  }

  predicate Possible(p: Limits, s: State, run: seq<Step>)
    decreases |run|
  {
    run != [] ==> Enabled(s, run[0]) && Possible(p, After(p, s, run[0]), run[1..])
  }

  function Run(p: Limits, s: State, run: seq<Step>): State
    decreases |run|
  {
    if run == [] then s else Run(p, After(p, s, run[0]), run[1..])
  }

  function Failures(run: seq<Step>): nat {
    if run == [] then 0 else (if run[0].ConnectFailed? then 1 else 0) + Failures(run[1..])
  }

  /** In every interleaving: the free count is the length of the free list, everything ever taken
      is in one place, and the total counts the live connections and every connect that failed. */
  lemma {:induction false} RunKeeps(p: Limits, s: State, run: seq<Step>)
    requires Inv(p, s) && Possible(p, s, run)
    ensures Inv(p, Run(p, s, run))
    ensures |Run(p, s, run).failed| == |s.failed| + Failures(run)
    decreases |run|
  {
    if run != [] {
      StepKeeps(p, s, run[0]);
      RunKeeps(p, After(p, s, run[0]), run[1..]);
    }
  }

  lemma RunFromStart(p: Limits, run: seq<Step>)
    requires Possible(p, START, run)
    ensures var s := Run(p, START, run);
      && s.core.freeCount == |s.core.free|
      && s.core.total == Live(s) + Failures(run)
      && (p.maxCount > 0 ==> Live(s) + Failures(run) <= p.maxCount)
      && Conns(s.core.free) !! s.borrowed && Conns(s.core.free) !! s.connecting && s.borrowed !! s.connecting
  {
    RunKeeps(p, START, run);
    OnePlace(p, Run(p, START, run));
  }

  // ----- what a get does -------------------------------------------------------------------------

  /** With the newest first, one stale connection at the head means that all are stale. */
  lemma {:induction false} AllOrNone(p: Limits, free: seq<Node>, clock: int, now: int)
    requires NewestFirst(free, clock)
    requires clock < now - p.maxIdle
    ensures Stale(p, free, now) == |free|
    decreases |free|
  {
    if free != [] { AllOrNone(p, free[1..], free[0].atime, now); }
  }

  /** A get reuses the head, idle no longer than allowed and held by nobody, or discards the whole
      list, every connection of which was idle too long. */
  lemma GetReusesHeadOrDiscardsAll(p: Limits, s: State, read: int, mallocOk: bool)
    requires Inv(p, s)
    ensures var s' := AfterGet(p, s, read, mallocOk); var free := s.core.free;
      if free != [] && read - free[0].atime <= p.maxIdle then
        && OutcomeOf(p, s.core, read, mallocOk, s.taken) == Reused(free[0].conn)
        && free[0].conn !in s.borrowed
        && s'.borrowed == s.borrowed + {free[0].conn}
        && s'.core.free == free[1..] && s'.core.total == s.core.total && s'.closed == s.closed
      else
        && s'.core.free == [] && s'.closed == s.closed + Conns(free) && s'.borrowed == s.borrowed
        && (forall i :: 0 <= i < |free| ==> read - free[i].atime > p.maxIdle)
        && OutcomeOf(p, s.core, read, mallocOk, s.taken) ==
             (if p.maxCount > 0 && |s.borrowed| + |s.connecting| + |s.failed| >= p.maxCount then NoSpace
              else if mallocOk then Opening(s.taken) else NoMemory)
  {
    var free := s.core.free;
    if free != [] && read - free[0].atime <= p.maxIdle {
      GetReusesHead(p, s, read, mallocOk);
    } else {
      assert Stale(p, free, read) == |free| by {
        if free != [] { AllOrNone(p, free[1..], free[0].atime, read); }
      }
      assert free[..|free|] == free;
    }
  }

  lemma GetReusesHead(p: Limits, s: State, read: int, mallocOk: bool)
    requires Inv(p, s) && s.core.free != [] && read - s.core.free[0].atime <= p.maxIdle
    ensures var s' := AfterGet(p, s, read, mallocOk); var free := s.core.free;
      && OutcomeOf(p, s.core, read, mallocOk, s.taken) == Reused(free[0].conn)
      && free[0].conn !in s.borrowed
      && s'.borrowed == s.borrowed + {free[0].conn}
      && s'.core.free == free[1..] && s'.core.total == s.core.total && s'.closed == s.closed
  {
    OnePlace(p, s);
    assert Stale(p, s.core.free, read) == 0;
    assert s.core.free[..0] == [] && Conns([]) == {};
  }

  /** A connection given back is the next one handed out iff it has not been idle too long; a forced
      close disconnects it and leaves the list alone. */
  lemma ReturnedIsReused(p: Limits, s: State, conn: nat, read: int, mallocOk: bool)
    requires Inv(p, s) && conn in s.borrowed
    ensures var s1 := After(p, s, Close(conn, false));
      && conn !in s1.borrowed && s1.closed == s.closed && s1.core.free[1..] == s.core.free
      && s1.core.total == s.core.total && s1.core.freeCount == s.core.freeCount + 1
      && (OutcomeOf(p, s1.core, read, mallocOk, s1.taken) == Reused(conn) <==> read - s.clock <= p.maxIdle)
    ensures var s2 := After(p, s, Close(conn, true));
      && conn !in s2.borrowed && conn in s2.closed && s2.core.free == s.core.free
      && s2.core.total == s.core.total - 1 && s2.core.freeCount == s.core.freeCount
  {
    var s1 := After(p, s, Close(conn, false));
    StepKeeps(p, s, Close(conn, false));
    GetReusesHeadOrDiscardsAll(p, s1, read, mallocOk);
    assert s1.core.free[0] == Node(conn, s.clock);
  }

  // ----- failed connects ---------------------------------------------------------------------------

  /** The total counts exactly the live connections iff no connect has failed. */
  lemma TotalIsLiveIff(p: Limits, run: seq<Step>)
    requires Possible(p, START, run)
    ensures var s := Run(p, START, run); s.core.total == Live(s) <==> Failures(run) == 0
  {
    RunFromStart(p, run);
  }

  /** With everything returned and idle too long, the next get may open a connection iff there is no
      limit or fewer connects have failed than the limit. */
  lemma IdlePoolOpensIff(p: Limits, run: seq<Step>, read: int)
    requires Possible(p, START, run)
    requires var s := Run(p, START, run);
      s.borrowed == s.connecting == {} && (s.core.free == [] || read - s.core.free[0].atime > p.maxIdle)
    ensures var s := Run(p, START, run);
      OutcomeOf(p, s.core, read, true, s.taken).Opening? <==> (p.maxCount <= 0 || Failures(run) < p.maxCount)
  {
    RunKeeps(p, START, run);
    GetReusesHeadOrDiscardsAll(p, Run(p, START, run), read, true);
  }

  /** Once as many connects have failed as the limit allows connections, no run serves anybody. */
  lemma {:induction false} Starved(p: Limits, s: State, run: seq<Step>)
    requires Inv(p, s) && 0 < p.maxCount <= |s.failed| && Possible(p, s, run)
    ensures var s' := Run(p, s, run); Live(s') == 0 && s'.taken == s.taken
    decreases |run|
  {
    assert Live(s) == 0;
    if run != [] {
      StepKeeps(p, s, run[0]);
      Starved(p, After(p, s, run[0]), run[1..]);
    }
  }

  /** A limit of one and a single refused connect: the pool never opens another connection. */
  lemma OneFailureStarves(p: Limits)
    requires p.maxCount == 1
    ensures var run := [Get(0, true), ConnectFailed(0)]; Possible(p, START, run) && var s := Run(p, START, run);
      s.core.total == 1 && Live(s) == 0 && OutcomeOf(p, s.core, 0, true, s.taken) == NoSpace
  {
    var run := [Get(0, true), ConnectFailed(0)];
    var s1 := After(p, START, run[0]);
    assert s1.connecting == {0};
    assert run[1..] == [ConnectFailed(0)] && run[1..][1..] == [];
    var s2 := After(p, s1, run[1]);
    assert s2.connecting == {};
    assert Possible(p, s1, run[1..]) && Run(p, s1, run[1..]) == s2;
  }

  // ----- the pool: managers by server -------------------------------------------------------------

  /** A manager, the server it was made for, and whether the hash table took it. */
  datatype Entry = Entry(server: nat, listed: bool, state: State)

  datatype Pool = Pool(registry: map<nat, nat>, entries: seq<Entry>)

  datatype PoolStep =
    | Find(server: nat, mallocOk: bool, lockOk: bool, insertOk: bool)
    | At(entry: nat, step: Step)

  datatype CloseResult = Closed | NoEntry | WrongManager

  /** The manager conn_pool_get_connection goes on with; none when memory or the lock fails. A
      failed hash_insert goes unnoticed. */
  function Found(pool: Pool, step: PoolStep): Option<nat>
    requires step.Find?
  {
    if step.server in pool.registry then Some(pool.registry[step.server])
    else if step.mallocOk && step.lockOk then Some(|pool.entries|) else None
  }

  function AfterFind(pool: Pool, step: PoolStep): Pool
    requires step.Find?
  {
    if step.server in pool.registry || !step.mallocOk || !step.lockOk then pool
    else Pool(if step.insertOk then pool.registry[step.server := |pool.entries|] else pool.registry,
              pool.entries + [Entry(step.server, step.insertOk, START)])
  }

  /** conn_pool_close_connection_ex looks the manager up by address and compares it with the one
      the connection came from. */
  function CloseResultOf(pool: Pool, entry: nat): CloseResult
    requires entry < |pool.entries|
  {
    var server := pool.entries[entry].server;
    if server !in pool.registry then NoEntry
    else if pool.registry[server] != entry then WrongManager
    else Closed
  }

  predicate PoolEnabled(pool: Pool, step: PoolStep) {
    step.At? ==> step.entry < |pool.entries| && Enabled(pool.entries[step.entry].state, step.step)
  }

  function PoolAfter(p: Limits, pool: Pool, step: PoolStep): Pool
    requires PoolEnabled(pool, step)
  {
    match step
    case Find(_, _, _, _) => AfterFind(pool, step)
    case At(entry, s) =>
      if s.Close? && CloseResultOf(pool, entry) != Closed then pool
      else var e := pool.entries[entry]; pool.(entries := pool.entries[entry := e.(state := After(p, e.state, s))])
  }

  /** An entry is reachable by its server iff the table took it; a manager the table did not take
      never gets a connection back. */
  ghost predicate EntryInv(p: Limits, pool: Pool, entry: nat)
    requires entry < |pool.entries|
  {
    var e := pool.entries[entry];
    && Inv(p, e.state)
    && (e.listed <==> e.server in pool.registry && pool.registry[e.server] == entry)
    && (!e.listed ==> e.state.core.free == [] && e.state.closed == {})
  }

  ghost predicate PoolInv(p: Limits, pool: Pool) {
    && (forall entry: nat :: entry < |pool.entries| ==> EntryInv(p, pool, entry))
    && (forall v :: v in pool.registry ==>
          pool.registry[v] < |pool.entries| && pool.entries[pool.registry[v]].server == v)
  }

  lemma PoolStepKeeps(p: Limits, pool: Pool, step: PoolStep)
    requires PoolInv(p, pool) && PoolEnabled(pool, step)
    ensures PoolInv(p, PoolAfter(p, pool, step))
  {
    var pool' := PoolAfter(p, pool, step);
    forall entry: nat | entry < |pool'.entries| ensures EntryInv(p, pool', entry) {
      if entry < |pool.entries| {
        assert EntryInv(p, pool, entry);
        if step.At? && step.entry == entry { StepKeeps(p, pool.entries[entry].state, step.step); }
      }
    }
  }

  ghost predicate PoolPossible(p: Limits, pool: Pool, run: seq<PoolStep>)
    decreases |run|
  {
    run != [] ==> PoolEnabled(pool, run[0]) && PoolPossible(p, PoolAfter(p, pool, run[0]), run[1..])
  }

  ghost function PoolRun(p: Limits, pool: Pool, run: seq<PoolStep>): Pool
    requires PoolPossible(p, pool, run)
    decreases |run|
  {
    if run == [] then pool else PoolRun(p, PoolAfter(p, pool, run[0]), run[1..])
  }

  /** Over every run of the whole pool every manager keeps its invariant and its limit. */
  lemma {:induction false} PoolRunKeeps(p: Limits, pool: Pool, run: seq<PoolStep>)
    requires PoolInv(p, pool) && PoolPossible(p, pool, run)
    ensures PoolInv(p, PoolRun(p, pool, run))
    decreases |run|
  {
    if run != [] {
      PoolStepKeeps(p, pool, run[0]);
      PoolRunKeeps(p, PoolAfter(p, pool, run[0]), run[1..]);
    }
  }

  /** A step at a manager is that step of its own protocol, except that nothing happens on a close at a
      manager the table did not take; the other managers and the table stay as they are. */
  lemma StepReaches(p: Limits, pool: Pool, entry: nat, s: Step)
    requires PoolInv(p, pool) && PoolEnabled(pool, At(entry, s))
    ensures var pool', e := PoolAfter(p, pool, At(entry, s)), pool.entries[entry];
      && pool'.registry == pool.registry && |pool'.entries| == |pool.entries|
      && (forall i :: 0 <= i < |pool.entries| && i != entry ==> pool'.entries[i] == pool.entries[i])
      && pool'.entries[entry] == e.(state := if s.Close? && !e.listed then e.state else After(p, e.state, s))
  {
    assert EntryInv(p, pool, entry);
  }

  /** From the empty pool on: a connection can be closed iff the table took its manager; otherwise
      every connection of that manager that was ever opened is still counted, and none is free. */
  lemma ClosableIffListed(p: Limits, run: seq<PoolStep>, entry: nat)
    requires PoolPossible(p, Pool(map[], []), run) && entry < |PoolRun(p, Pool(map[], []), run).entries|
    ensures var pool := PoolRun(p, Pool(map[], []), run); var e := pool.entries[entry];
      && (CloseResultOf(pool, entry) == Closed <==> e.listed)
      && Inv(p, e.state)
      && (!e.listed ==>
            && e.state.core.free == []
            && e.state.core.total == |e.state.borrowed| + |e.state.connecting| + |e.state.failed|)
  {
    PoolRunKeeps(p, Pool(map[], []), run);
    assert EntryInv(p, PoolRun(p, Pool(map[], []), run), entry);
  }

  /** ENOENT iff no manager of the server is listed, EINVAL iff another one is. */
  lemma CloseAnswers(p: Limits, pool: Pool, entry: nat)
    requires PoolInv(p, pool) && entry < |pool.entries|
    ensures var e, r := pool.entries[entry], CloseResultOf(pool, entry);
      && (r == Closed <==> e.listed)
      && (r == NoEntry <==> forall i :: 0 <= i < |pool.entries| && pool.entries[i].server == e.server ==>
            !pool.entries[i].listed)
      && (r == WrongManager <==>
            exists i :: 0 <= i < |pool.entries| && i != entry && pool.entries[i].server == e.server
              && pool.entries[i].listed)
  {
    var server := pool.entries[entry].server;
    assert EntryInv(p, pool, entry);
    forall i | 0 <= i < |pool.entries| && pool.entries[i].server == server
      ensures pool.entries[i].listed <==> server in pool.registry && pool.registry[server] == i
    {
      assert EntryInv(p, pool, i);
    }
    if server in pool.registry { assert pool.entries[pool.registry[server]].server == server; }
  }

  /** One manager the table did not take: its server is unknown to every later close. */
  lemma UnlistedCannotClose(p: Limits)
    ensures var run := [Find(7, true, true, false)]; PoolPossible(p, Pool(map[], []), run)
    ensures var pool := PoolRun(p, Pool(map[], []), [Find(7, true, true, false)]);
      |pool.entries| == 1 && CloseResultOf(pool, 0) == NoEntry
  {
  }

  /** A get is answered by the manager of its own server. */
  lemma FoundIsOwn(p: Limits, pool: Pool, step: PoolStep)
    requires PoolInv(p, pool) && step.Find?
    ensures var pool' := AfterFind(pool, step);
      && PoolInv(p, pool')
      && (Found(pool, step).Some? ==>
            var m := Found(pool, step).value; m < |pool'.entries| && pool'.entries[m].server == step.server)
      && (Found(pool, step).None? <==> step.server !in pool.registry && !(step.mallocOk && step.lockOk))
  {
    PoolStepKeeps(p, pool, step);
  }
}
