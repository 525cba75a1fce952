/** The database connection pool of db_manager.hpp: its critical sections as
    methods, and all interleavings of borrowers and the healer as runs of a
    state machine whose steps are those critical sections. */
module ConnectionPool {
  import opened Common

  type Handle = nat

  const SIZE_T: nat := 0x1_0000_0000_0000_0000
  const MAX_RETRIES: nat := 10

  /** The fields guarded by `pool_mutex`. */
  datatype Pool = Pool(idle: seq<Handle>, curConns: nat)

  function Increment(n: nat): nat { (n + 1) % SIZE_T }
  function Decrement(n: nat): nat { (n + SIZE_T - 1) % SIZE_T }

  /** `getConnection` once the wait has ended: the last idle connection if the
      ping succeeds, else the reconnected one if there is one. */
  function Taken(p: Pool, pingOk: bool, created: Option<Handle>): (Pool, Option<Handle>) {
    if p.idle == [] then (p, None)
    else
      var conn := p.idle[|p.idle| - 1];
      var popped := p.(idle := p.idle[..|p.idle| - 1]);
      if pingOk then (popped, Some(conn))
      else if created.Some? then (popped, created)
      else (popped.(curConns := Decrement(p.curConns)), None)
  }

  function Returned(p: Pool, conn: Handle): Pool {
    p.(idle := p.idle + [conn])
  }

  function Healed(p: Pool, conn: Handle): Pool {
    Pool(p.idle + [conn], Increment(p.curConns))
  }

  // ------------------------------------------------------------ the class

  class DbManager {
    var pool: seq<Handle>
    var curConns: nat
    const poolSize: nat

    ghost function Guarded(): Pool
      reads this
    {
      Pool(pool, curConns)
    }

    /** `initializePool`, for the given outcomes of `createConnection`: stops
        when the pool is full or after ten failures in all. */
    constructor (poolSize: nat, attempts: seq<Option<Handle>>)
      requires |attempts| >= poolSize + MAX_RETRIES
      ensures this.poolSize == poolSize && curConns == |pool| <= poolSize
      ensures exists k :: 0 <= k <= |attempts| && pool == Successes(attempts[..k])
                && (|pool| == poolSize || k - |pool| == MAX_RETRIES)
    {
      this.poolSize := poolSize;
      pool := [];
      curConns := 0;
      new;
      var retryCount, k := 0, 0;
      while |pool| < poolSize && retryCount < MAX_RETRIES
        invariant 0 <= k <= |attempts| && pool == Successes(attempts[..k])
        invariant k == |pool| + retryCount && |pool| <= poolSize && retryCount <= MAX_RETRIES
        decreases poolSize + MAX_RETRIES - k
      {
        var conn := attempts[k];
        assert attempts[..k + 1][..k] == attempts[..k];
        if conn.Some? {
          pool := pool + [conn.value];
        } else {
          retryCount := retryCount + 1;
        }
        k := k + 1;
      }
      curConns := |pool|;
    }

    /** The critical section of `getConnection`; `None` is the null pointer,
        which an empty pool gives after the wait has timed out. */
    method GetConnection(pingOk: bool, created: Option<Handle>) returns (conn: Option<Handle>)
      modifies this
      ensures (Guarded(), conn) == Taken(old(Guarded()), pingOk, created)
      ensures old(pool) == [] ==> conn == None && pool == old(pool) && curConns == old(curConns)
      ensures old(pool) != [] ==> pool + [old(pool)[|pool|]] == old(pool)
      ensures old(pool) != [] && pingOk ==> conn == Some(old(pool)[|pool|]) && curConns == old(curConns)
      ensures old(pool) != [] && !pingOk ==> conn == created
      ensures old(pool) != [] && !pingOk && created.Some? ==> curConns == old(curConns)
      ensures old(pool) != [] && !pingOk && created.None? && 0 < old(curConns) < SIZE_T ==>
                curConns == old(curConns) - 1
    {
      if pool == [] {
        return None;
      }
      conn := Some(pool[|pool| - 1]);
      pool := pool[..|pool| - 1];
      if !pingOk {
        conn := created;
        if conn.None? {
          curConns := Decrement(curConns);
        }
      }
    }

    method ReleaseConnection(conn: Option<Handle>)
      modifies this
      ensures Guarded() == if conn.None? then old(Guarded()) else Returned(old(Guarded()), conn.value)
      ensures curConns == old(curConns) && pool == old(pool) + if conn.Some? then [conn.value] else []
    {
      if conn.None? {
        return;
      }
      pool := pool + [conn.value];
    }

    /** The healer's first lock acquisition in a round. */
    method HealerIsDone() returns (done: bool)
      ensures done == (curConns >= poolSize)
    {
      done := curConns >= poolSize;
    }

    /** The healer's second lock acquisition. */
    method HealerAdds(conn: Handle)
      modifies this
      ensures Guarded() == Healed(old(Guarded()), conn)
      ensures pool == old(pool) + [conn] && (old(curConns) + 1 < SIZE_T ==> curConns == old(curConns) + 1)
    {
      pool := pool + [conn];
      curConns := Increment(curConns);
    }
  }

  function Successes(attempts: seq<Option<Handle>>): (conns: seq<Handle>) {
    if attempts == [] then []
    else
      var last := attempts[|attempts| - 1];
      Successes(attempts[..|attempts| - 1]) + if last.Some? then [last.value] else []
  }

  // ------------------------------------------------------------ interleavings

  datatype Borrower = Away | Waiting | Holding(conn: Handle)

  /** The healer between its two lock acquisitions. */
  datatype Healer = Resting | MayCreate | Created(conn: Handle)

  /** `open` is the ledger of connections opened and not yet closed, `next` a
      handle no connection has had. */
  datatype System = System(pool: Pool, borrowers: seq<Borrower>, healer: Healer, open: multiset<Handle>, next: Handle)

  datatype Step =
    | Request(b: nat)
    | TimeOut(b: nat)
    | Take(b: nat)
    | TakeReconnected(b: nat)
    | TakeLost(b: nat)
    | Release(b: nat)
    | HealerCheck
    | HealerCreates
    | HealerFails
    | HealerPushes

  predicate Enabled(poolSize: nat, s: System, step: Step) {
    match step
    case Request(b) => b < |s.borrowers| && s.borrowers[b].Away?
    case TimeOut(b) => b < |s.borrowers| && s.borrowers[b].Waiting? && s.pool.idle == []
    case Take(b) => b < |s.borrowers| && s.borrowers[b].Waiting? && s.pool.idle != []
    case TakeReconnected(b) => b < |s.borrowers| && s.borrowers[b].Waiting? && s.pool.idle != []
    case TakeLost(b) => b < |s.borrowers| && s.borrowers[b].Waiting? && s.pool.idle != []
    case Release(b) => b < |s.borrowers| && s.borrowers[b].Holding?
    case HealerCheck => s.healer.Resting?
    case HealerCreates => s.healer.MayCreate?
    case HealerFails => s.healer.MayCreate?
    case HealerPushes => s.healer.Created?
  }

  function After(conn: Option<Handle>): Borrower {
    if conn.Some? then Holding(conn.value) else Away
  }

  function Apply(poolSize: nat, s: System, step: Step): System
    requires Enabled(poolSize, s, step)
  {
    match step
    case Request(b) => s.(borrowers := s.borrowers[b := Waiting])
    case TimeOut(b) => s.(borrowers := s.borrowers[b := Away])
    case Take(b) =>
      var (pool, conn) := Taken(s.pool, true, None);
      s.(pool := pool, borrowers := s.borrowers[b := After(conn)])
    case TakeReconnected(b) =>
      var (pool, conn) := Taken(s.pool, false, Some(s.next));
      s.(pool := pool, borrowers := s.borrowers[b := After(conn)], next := s.next + 1,
         open := s.open - multiset{s.pool.idle[|s.pool.idle| - 1]} + multiset{s.next})
    case TakeLost(b) =>
      var (pool, conn) := Taken(s.pool, false, None);
      s.(pool := pool, borrowers := s.borrowers[b := After(conn)],
         open := s.open - multiset{s.pool.idle[|s.pool.idle| - 1]})
    case Release(b) =>
      s.(pool := Returned(s.pool, s.borrowers[b].conn), borrowers := s.borrowers[b := Away])
    case HealerCheck => s.(healer := if s.pool.curConns >= poolSize then Resting else MayCreate)
    case HealerCreates => s.(healer := Created(s.next), open := s.open + multiset{s.next}, next := s.next + 1)
    case HealerFails => s.(healer := Resting)
    case HealerPushes => s.(pool := Healed(s.pool, s.healer.conn), healer := Resting)
  }

  predicate IsRun(poolSize: nat, s: System, steps: seq<Step>)
    decreases |steps|
  {
    steps == [] || (Enabled(poolSize, s, steps[0]) && IsRun(poolSize, Apply(poolSize, s, steps[0]), steps[1..]))
  }

  function Reached(poolSize: nat, s: System, steps: seq<Step>): System
    requires IsRun(poolSize, s, steps)
    decreases |steps|
  {
    if steps == [] then s else Reached(poolSize, Apply(poolSize, s, steps[0]), steps[1..])
  }

  /** Every step of the machine does to the pool what the critical section does
      with the outcomes that the step stands for, and to the borrower what the
      section returned; the healer's steps leave borrowers alone, and only
      its last one touches the pool. */
  lemma StepIsSection(poolSize: nat, s: System, step: Step, ping: bool, created: Option<Handle>)
    requires Enabled(poolSize, s, step)
    ensures var s' := Apply(poolSize, s, step);
            match step
            case Request(b) => s'.pool == s.pool && s'.borrowers == s.borrowers[b := Waiting]
            case TimeOut(b) => Taken(s.pool, ping, created) == (s'.pool, None) && s'.borrowers == s.borrowers[b := Away]
            case Take(b) =>
              Taken(s.pool, true, created) == (s'.pool, Some(s'.borrowers[b].conn)) && s'.borrowers[b].Holding?
            case TakeReconnected(b) =>
              Taken(s.pool, false, Some(s.next)) == (s'.pool, Some(s.next)) && s'.borrowers[b] == Holding(s.next)
            case TakeLost(b) => Taken(s.pool, false, None) == (s'.pool, None) && s'.borrowers[b] == Away
            case Release(b) =>
              s'.pool == Returned(s.pool, s.borrowers[b].conn) && s'.borrowers == s.borrowers[b := Away]
            case HealerPushes => s'.pool == Healed(s.pool, s.healer.conn) && s'.borrowers == s.borrowers
            case _ => s'.pool == s.pool && s'.borrowers == s.borrowers
    ensures var s' := Apply(poolSize, s, step);
            |s'.borrowers| == |s.borrowers| && forall c :: 0 <= c < |s.borrowers| && !Concerns(step, c) ==>
                                                 s'.borrowers[c] == s.borrowers[c]
    ensures var s' := Apply(poolSize, s, step);
            match step
            case HealerCheck => s'.healer == if s.pool.curConns < poolSize then MayCreate else Resting
            case HealerCreates => s'.healer == Created(s.next)
            case HealerFails => s'.healer == Resting
            case HealerPushes => s'.healer == Resting
            case _ => s'.healer == s.healer
  {
  }

  predicate Concerns(step: Step, b: nat) {
    match step
    case Request(c) => b == c
    case TimeOut(c) => b == c
    case Take(c) => b == c
    case TakeReconnected(c) => b == c
    case TakeLost(c) => b == c
    case Release(c) => b == c
    case _ => false
  }

  /** The machine leaves out no outcome: a waiting borrower may find a live, a
      reconnected or a lost connection whenever one is idle, and gives up only
      when none is; everyone else may always go on. */
  lemma EveryOutcomePossible(poolSize: nat, s: System, b: nat)
    requires b < |s.borrowers|
    ensures Enabled(poolSize, s, Request(b)) <==> s.borrowers[b] == Away
    ensures Enabled(poolSize, s, Release(b)) <==> s.borrowers[b].Holding?
    ensures s.borrowers[b] == Waiting && s.pool.idle != [] ==>
              && Enabled(poolSize, s, Take(b)) && Enabled(poolSize, s, TakeReconnected(b))
              && Enabled(poolSize, s, TakeLost(b)) && !Enabled(poolSize, s, TimeOut(b))
    ensures s.borrowers[b] == Waiting && s.pool.idle == [] ==> Enabled(poolSize, s, TimeOut(b))
    ensures s.healer.Resting? <==> Enabled(poolSize, s, HealerCheck)
    ensures s.healer.MayCreate? <==> Enabled(poolSize, s, HealerCreates) && Enabled(poolSize, s, HealerFails)
    ensures s.healer.Created? <==> Enabled(poolSize, s, HealerPushes)
  {
  }

  // ------------------------------------------------------------ where the handles are

  function HeldBy(b: Borrower): multiset<Handle> {
    if b.Holding? then multiset{b.conn} else multiset{}
  }

  function Held(borrowers: seq<Borrower>): multiset<Handle> {
    if borrowers == [] then multiset{}
    else Held(borrowers[..|borrowers| - 1]) + HeldBy(borrowers[|borrowers| - 1])
  }

  function HealersOwn(h: Healer): multiset<Handle> {
    if h.Created? then multiset{h.conn} else multiset{}
  }

  function Places(s: System): multiset<Handle> {
    multiset(s.pool.idle) + Held(s.borrowers) + HealersOwn(s.healer)
  }

  /** Number of borrowed handles. */
  function HeldCount(borrowers: seq<Borrower>): nat {
    if borrowers == [] then 0
    else HeldCount(borrowers[..|borrowers| - 1]) + if borrowers[|borrowers| - 1].Holding? then 1 else 0
  }

  lemma {:induction false} HeldUpdate(borrowers: seq<Borrower>, b: nat, x: Borrower)
    requires b < |borrowers|
    ensures Held(borrowers[b := x]) + HeldBy(borrowers[b]) == Held(borrowers) + HeldBy(x)
    ensures HeldCount(borrowers[b := x]) + (if borrowers[b].Holding? then 1 else 0)
            == HeldCount(borrowers) + (if x.Holding? then 1 else 0)
    decreases |borrowers|
  {
    hide HeldBy;
    var n := |borrowers| - 1;
    var front, updated := borrowers[..n], borrowers[b := x];
    if b == n {
      assert updated[..n] == front;
      Exchange(Held(front), HeldBy(borrowers[n]), HeldBy(x), multiset{});
    } else {
      HeldUpdate(front, b, x);
      assert updated[..n] == front[b := x];
      AddBoth(Held(updated[..n]), HeldBy(front[b]), Held(front), HeldBy(x), HeldBy(borrowers[n]));
    }
  }

  lemma HeldSame(borrowers: seq<Borrower>, b: nat, x: Borrower)
    requires b < |borrowers| && !borrowers[b].Holding? && !x.Holding?
    ensures Held(borrowers[b := x]) == Held(borrowers)
    ensures HeldCount(borrowers[b := x]) == HeldCount(borrowers)
  {
    HeldUpdate(borrowers, b, x);
    AddNothing(Held(borrowers[b := x]));
    AddNothing(Held(borrowers));
  }

  lemma AddNothing(a: multiset<Handle>)
    ensures a + multiset{} == a
  {
  }

  lemma Exchange(a: multiset<Handle>, b: multiset<Handle>, c: multiset<Handle>, d: multiset<Handle>)
    ensures a + c + b + d == a + b + c + d
    ensures (a + c) + b == (a + b) + c
  {
  }

  lemma AddBoth(a: multiset<Handle>, b: multiset<Handle>, c: multiset<Handle>, d: multiset<Handle>, e: multiset<Handle>)
    requires a + b == c + d
    ensures (a + e) + b == (c + e) + d
  {
    assert (a + e) + b == (a + b) + e;
    assert (c + e) + d == (c + d) + e;
  }

  /** No handle is in two places, none is open without being somewhere,
      `cur_conns` counts the idle and the borrowed ones, and the healer acts
      only on a check that still holds. */
  predicate Inv(poolSize: nat, s: System) {
    && s.open == Places(s)
    && Fresh(s.open, s.next)
    && s.pool.curConns == |s.pool.idle| + HeldCount(s.borrowers)
    && s.pool.curConns <= poolSize < SIZE_T
    && (!s.healer.Resting? ==> s.pool.curConns < poolSize)
  }

  predicate Fresh(open: multiset<Handle>, next: Handle) {
    forall h :: h in open ==> open[h] == 1 && h < next
  }

  lemma LastIdle(idle: seq<Handle>)
    requires idle != []
    ensures multiset(idle) == multiset(idle[..|idle| - 1]) + multiset{idle[|idle| - 1]}
  {
    assert idle == idle[..|idle| - 1] + [idle[|idle| - 1]];
  }

  /** Moving the multiset `x` from one place to another. */
  lemma Moved(idle: multiset<Handle>, held: multiset<Handle>, idle': multiset<Handle>, held': multiset<Handle>,
              own: multiset<Handle>, x: multiset<Handle>)
    requires idle == idle' + x && held' == held + x
    ensures idle' + held' + own == idle + held + own
  {
  }

  /** Closing `x` and opening `y` in its stead. */
  lemma Replaced(idle: multiset<Handle>, held: multiset<Handle>, idle': multiset<Handle>, held': multiset<Handle>,
                 own: multiset<Handle>, x: multiset<Handle>, y: multiset<Handle>)
    requires idle == idle' + x && held' == held + y
    ensures idle' + held' + own == idle + held + own - x + y
  {
  }

  lemma StillFresh(open: multiset<Handle>, next: Handle, x: Handle)
    requires Fresh(open, next) && x in open
    ensures Fresh(open - multiset{x}, next)
    ensures Fresh(open - multiset{x} + multiset{next}, next + 1)
  {
  }

  lemma StepKeepsInv(poolSize: nat, s: System, step: Step)
    requires Inv(poolSize, s) && Enabled(poolSize, s, step)
    ensures Inv(poolSize, Apply(poolSize, s, step))
  {
    match step
    case Request(b) => BorrowerKeepsInv(poolSize, s, step, b, Waiting);
    case TimeOut(b) => BorrowerKeepsInv(poolSize, s, step, b, Away);
    case Take(b) => TakeKeepsInv(poolSize, s, b);
    case TakeReconnected(b) => ReconnectKeepsInv(poolSize, s, b);
    case TakeLost(b) => LossKeepsInv(poolSize, s, b);
    case Release(b) => ReleaseKeepsInv(poolSize, s, b);
    case HealerCreates => CreationKeepsInv(poolSize, s);
    case HealerPushes => PushKeepsInv(poolSize, s);
    case _ => CheckKeepsInv(poolSize, s, step);
  }

  lemma BorrowerKeepsInv(poolSize: nat, s: System, step: Step, b: nat, x: Borrower)
    requires Inv(poolSize, s) && Enabled(poolSize, s, step)
    requires (step == Request(b) && x == Waiting) || (step == TimeOut(b) && x == Away)
    ensures Inv(poolSize, Apply(poolSize, s, step))
  {
    hide Fresh, HeldCount, Held;
    HeldSame(s.borrowers, b, x);
  }

  lemma TakeKeepsInv(poolSize: nat, s: System, b: nat)
    requires Inv(poolSize, s) && Enabled(poolSize, s, Take(b))
    ensures Inv(poolSize, Apply(poolSize, s, Take(b)))
  {
    hide Fresh, HeldCount, Held;
    var conn := s.pool.idle[|s.pool.idle| - 1];
    var s' := Apply(poolSize, s, Take(b));
    LastIdle(s.pool.idle);
    HeldUpdate(s.borrowers, b, Holding(conn));
    assert Held(s'.borrowers) == Held(s.borrowers) + multiset{conn};
    Moved(multiset(s.pool.idle), Held(s.borrowers), multiset(s'.pool.idle), Held(s'.borrowers),
          HealersOwn(s.healer), multiset{conn});
  }

  lemma ReconnectKeepsInv(poolSize: nat, s: System, b: nat)
    requires Inv(poolSize, s) && Enabled(poolSize, s, TakeReconnected(b))
    ensures Inv(poolSize, Apply(poolSize, s, TakeReconnected(b)))
  {
    hide Fresh, HeldCount, Held;
    var conn := s.pool.idle[|s.pool.idle| - 1];
    var s' := Apply(poolSize, s, TakeReconnected(b));
    LastIdle(s.pool.idle);
    HeldUpdate(s.borrowers, b, Holding(s.next));
    assert Held(s'.borrowers) == Held(s.borrowers) + multiset{s.next};
    Replaced(multiset(s.pool.idle), Held(s.borrowers), multiset(s'.pool.idle), Held(s'.borrowers),
             HealersOwn(s.healer), multiset{conn}, multiset{s.next});
    IdleIsOpen(poolSize, s, conn);
    StillFresh(s.open, s.next, conn);
  }

  lemma IdleIsOpen(poolSize: nat, s: System, conn: Handle)
    requires s.open == Places(s) && conn in s.pool.idle
    ensures conn in s.open
  {
    hide Held;
    assert conn in multiset(s.pool.idle);
  }

  lemma LossKeepsInv(poolSize: nat, s: System, b: nat)
    requires Inv(poolSize, s) && Enabled(poolSize, s, TakeLost(b))
    ensures Inv(poolSize, Apply(poolSize, s, TakeLost(b)))
  {
    hide Fresh, Places, Decrement, Increment, HeldCount, Held;
    CountSteps(s.pool.curConns);
    HeldSame(s.borrowers, b, Away);
    LossPlaces(poolSize, s, b);
    IdleIsOpen(poolSize, s, s.pool.idle[|s.pool.idle| - 1]);
    StillFresh(s.open, s.next, s.pool.idle[|s.pool.idle| - 1]);
  }

  lemma LossPlaces(poolSize: nat, s: System, b: nat)
    requires Enabled(poolSize, s, TakeLost(b))
    ensures Places(Apply(poolSize, s, TakeLost(b)))
            == Places(s) - multiset{s.pool.idle[|s.pool.idle| - 1]}
  {
    hide HeldCount, Held, HealersOwn, Decrement;
    var conn := s.pool.idle[|s.pool.idle| - 1];
    LastIdle(s.pool.idle);
    HeldSame(s.borrowers, b, Away);
    Removed(multiset(s.pool.idle), multiset(s.pool.idle[..|s.pool.idle| - 1]), Held(s.borrowers),
            HealersOwn(s.healer), multiset{conn});
  }

  lemma Removed(idle: multiset<Handle>, idle': multiset<Handle>, held: multiset<Handle>, own: multiset<Handle>,
                x: multiset<Handle>)
    requires idle == idle' + x
    ensures idle' + held + own == idle + held + own - x
  {
  }

  /** The unsigned counter wraps in neither direction. */
  lemma CountSteps(n: nat)
    ensures 1 <= n < SIZE_T ==> Decrement(n) == n - 1
    ensures n + 1 < SIZE_T ==> Increment(n) == n + 1
  {
  }

  lemma ReleaseKeepsInv(poolSize: nat, s: System, b: nat)
    requires Inv(poolSize, s) && Enabled(poolSize, s, Release(b))
    ensures Inv(poolSize, Apply(poolSize, s, Release(b)))
  {
    hide Fresh, HeldCount, Held;
    var conn := s.borrowers[b].conn;
    var s' := Apply(poolSize, s, Release(b));
    HeldUpdate(s.borrowers, b, Away);
    assert Held(s.borrowers) == Held(s'.borrowers) + multiset{conn};
    assert multiset(s'.pool.idle) == multiset(s.pool.idle) + multiset{conn};
    Moved(multiset(s'.pool.idle), Held(s'.borrowers), multiset(s.pool.idle), Held(s.borrowers),
          HealersOwn(s.healer), multiset{conn});
  }

  lemma CheckKeepsInv(poolSize: nat, s: System, step: Step)
    requires Inv(poolSize, s) && Enabled(poolSize, s, step)
    requires step.HealerCheck? || step.HealerFails?
    ensures Inv(poolSize, Apply(poolSize, s, step))
  {
    hide HeldCount, Held, Fresh;
  }

  lemma CreationKeepsInv(poolSize: nat, s: System)
    requires Inv(poolSize, s) && Enabled(poolSize, s, HealerCreates)
    ensures Inv(poolSize, Apply(poolSize, s, HealerCreates))
  {
    hide HeldCount, Held, Fresh;
    FreshAdded(s.open, s.next);
  }

  lemma PushKeepsInv(poolSize: nat, s: System)
    requires Inv(poolSize, s) && Enabled(poolSize, s, HealerPushes)
    ensures Inv(poolSize, Apply(poolSize, s, HealerPushes))
  {
    hide HeldCount, Held, Fresh, Places, Increment, Decrement;
    CountSteps(s.pool.curConns);
    PushPlaces(poolSize, s);
  }

  lemma PushPlaces(poolSize: nat, s: System)
    requires Enabled(poolSize, s, HealerPushes)
    ensures Places(Apply(poolSize, s, HealerPushes)) == Places(s)
  {
    hide Held, Increment;
    var idle, held, x := multiset(s.pool.idle), Held(s.borrowers), multiset{s.healer.conn};
    assert multiset(s.pool.idle + [s.healer.conn]) == idle + x;
    AddNothing(idle + x + held);
    Commute(idle, held, x);
  }

  lemma Commute(a: multiset<Handle>, b: multiset<Handle>, c: multiset<Handle>)
    ensures a + c + b == a + b + c
  {
  }

  lemma FreshAdded(open: multiset<Handle>, next: Handle)
    requires Fresh(open, next)
    ensures Fresh(open + multiset{next}, next + 1)
  {
  }

  // ------------------------------------------------------------ whole runs

  /** What `initializePool` leaves, with nobody served yet. */
  predicate Initial(poolSize: nat, s: System) {
    && s.pool.curConns == |s.pool.idle| <= poolSize < SIZE_T
    && (forall b :: 0 <= b < |s.borrowers| ==> s.borrowers[b].Away?)
    && s.healer.Resting?
    && s.open == multiset(s.pool.idle) && Fresh(s.open, s.next)
  }

  lemma {:induction false} NobodyHolds(borrowers: seq<Borrower>)
    requires forall b :: 0 <= b < |borrowers| ==> !borrowers[b].Holding?
    ensures Held(borrowers) == multiset{} && HeldCount(borrowers) == 0
    decreases |borrowers|
  {
    if borrowers != [] {
      NobodyHolds(borrowers[..|borrowers| - 1]);
    }
  }

  lemma {:induction false} RunKeepsInv(poolSize: nat, s: System, steps: seq<Step>)
    requires Inv(poolSize, s) && IsRun(poolSize, s, steps)
    ensures Inv(poolSize, Reached(poolSize, s, steps))
    decreases |steps|
  {
    hide Inv, Apply, Enabled;
    if steps != [] {
      StepKeepsInv(poolSize, s, steps[0]);
      RunKeepsInv(poolSize, Apply(poolSize, s, steps[0]), steps[1..]);
    }
  }

  lemma {:induction false} HeldSize(borrowers: seq<Borrower>)
    ensures |Held(borrowers)| == HeldCount(borrowers)
    decreases |borrowers|
  {
    if borrowers != [] {
      HeldSize(borrowers[..|borrowers| - 1]);
    }
  }

  lemma {:induction false} HolderHolds(borrowers: seq<Borrower>, b: nat)
    requires b < |borrowers| && borrowers[b].Holding?
    ensures Held(borrowers)[borrowers[b].conn] >= 1
    decreases |borrowers|
  {
    if b < |borrowers| - 1 {
      HolderHolds(borrowers[..|borrowers| - 1], b);
    }
  }

  lemma {:induction false} TwoHolders(borrowers: seq<Borrower>, b: nat, c: nat)
    requires b < c < |borrowers| && borrowers[b].Holding? && borrowers[b] == borrowers[c]
    ensures Held(borrowers)[borrowers[b].conn] >= 2
    decreases |borrowers|
  {
    if c < |borrowers| - 1 {
      TwoHolders(borrowers[..|borrowers| - 1], b, c);
    } else {
      HolderHolds(borrowers[..c], b);
    }
  }

  /** However borrowers and healer interleave: the counter counts the idle and
      the borrowed handles, every open connection is in exactly one place and
      every closed one in none, and no more than the pool size are open. */
  lemma AnyInterleaving(poolSize: nat, start: System, steps: seq<Step>)
    requires Initial(poolSize, start) && IsRun(poolSize, start, steps)
    ensures var s := Reached(poolSize, start, steps);
            && s.pool.curConns == |s.pool.idle| + HeldCount(s.borrowers)
            && s.open == Places(s) && (forall h :: Places(s)[h] <= 1)
            && |s.open| <= poolSize
  {
    NobodyHolds(start.borrowers);
    RunKeepsInv(poolSize, start, steps);
    var s := Reached(poolSize, start, steps);
    PlacesSize(s);
    hide Places, Held, HeldCount, IsRun, Reached;
    forall h ensures Places(s)[h] <= 1 {
      assert h !in s.open ==> s.open[h] == 0;
    }
  }

  lemma PlacesSize(s: System)
    ensures |Places(s)| == |s.pool.idle| + HeldCount(s.borrowers) + if s.healer.Created? then 1 else 0
  {
    HeldSize(s.borrowers);
    hide Held, HeldCount;
  }

  /** In particular no two borrowers ever use one connection, and none uses a
      connection that is back in the pool. */
  lemma NoSharing(poolSize: nat, start: System, steps: seq<Step>, b: nat, c: nat)
    requires Initial(poolSize, start) && IsRun(poolSize, start, steps)
    requires var s := Reached(poolSize, start, steps);
             b < c < |s.borrowers| && s.borrowers[b].Holding? && s.borrowers[c].Holding?
    ensures var s := Reached(poolSize, start, steps);
            s.borrowers[b].conn != s.borrowers[c].conn && s.borrowers[b].conn !in s.pool.idle
  {
    AnyInterleaving(poolSize, start, steps);
    var s := Reached(poolSize, start, steps);
    hide IsRun, Reached, Held;
    var conn := s.borrowers[b].conn;
    HolderHolds(s.borrowers, b);
    if conn == s.borrowers[c].conn {
      TwoHolders(s.borrowers, b, c);
    }
    assert conn in s.pool.idle ==> multiset(s.pool.idle)[conn] >= 1;
    assert Places(s)[conn] == multiset(s.pool.idle)[conn] + Held(s.borrowers)[conn] + HealersOwn(s.healer)[conn];
    assert Places(s)[conn] <= 1;
  }

  // ------------------------------------------------------------ recovery

  function Count(steps: seq<Step>, what: Step -> bool): nat {
    if steps == [] then 0 else (if what(steps[0]) then 1 else 0) + Count(steps[1..], what)
  }

  function IsPush(step: Step): bool { step.HealerPushes? }
  function IsLoss(step: Step): bool { step.TakeLost? }
  function IsCheck(step: Step): bool { step.HealerCheck? }
  function IsFailure(step: Step): bool { step.HealerFails? }

  lemma ConnectionsAfterStep(poolSize: nat, s: System, step: Step)
    requires Inv(poolSize, s) && Enabled(poolSize, s, step)
    ensures Apply(poolSize, s, step).pool.curConns + (if IsLoss(step) then 1 else 0)
            == s.pool.curConns + if IsPush(step) then 1 else 0
  {
    hide Places, Fresh, HeldCount, Increment, Decrement;
    CountSteps(s.pool.curConns);
  }

  /** In every run the counter grows by the healer's additions and shrinks by the
      losses, and by nothing else. */
  lemma {:induction false} ConnectionsCounted(poolSize: nat, s: System, steps: seq<Step>)
    requires Inv(poolSize, s) && IsRun(poolSize, s, steps)
    ensures Reached(poolSize, s, steps).pool.curConns + Count(steps, IsLoss)
            == s.pool.curConns + Count(steps, IsPush)
    decreases |steps|
  {
    hide Inv, Apply, Enabled;
    if steps != [] {
      StepKeepsInv(poolSize, s, steps[0]);
      ConnectionsAfterStep(poolSize, s, steps[0]);
      ConnectionsCounted(poolSize, Apply(poolSize, s, steps[0]), steps[1..]);
    }
  }

  /** The connections counted, and the one the healer is about to add. */
  function Planned(s: System): nat {
    s.pool.curConns + if s.healer.Resting? then 0 else 1
  }

  function Capped(n: nat, poolSize: nat): nat {
    if n < poolSize then n else poolSize
  }

  lemma PlannedBound(poolSize: nat, s: System)
    requires Inv(poolSize, s)
    ensures Planned(s) <= poolSize
  {
    hide Places, Fresh, HeldCount;
  }

  lemma PlannedAfterStep(poolSize: nat, s: System, step: Step)
    requires Inv(poolSize, s) && Enabled(poolSize, s, step) && !IsLoss(step) && !IsFailure(step)
    ensures Planned(Apply(poolSize, s, step)) == Capped(Planned(s) + if IsCheck(step) then 1 else 0, poolSize)
  {
    hide Places, Fresh, HeldCount, Increment, Decrement;
    CountSteps(s.pool.curConns);
  }

  /** The database accepts every connection, and nobody loses one for good. */
  predicate Smooth(steps: seq<Step>) {
    forall step :: step in steps ==> !IsLoss(step) && !IsFailure(step)
  }

  lemma SmoothParts(steps: seq<Step>)
    requires Smooth(steps) && steps != []
    ensures !IsLoss(steps[0]) && !IsFailure(steps[0]) && Smooth(steps[1..])
  {
  }

  lemma {:induction false} ChecksAddUp(poolSize: nat, s: System, steps: seq<Step>)
    requires Inv(poolSize, s) && IsRun(poolSize, s, steps)
    requires Smooth(steps)
    ensures Planned(Reached(poolSize, s, steps)) == Capped(Planned(s) + Count(steps, IsCheck), poolSize)
    decreases |steps|
  {
    hide Inv, Apply, Enabled, Planned, Smooth;
    if steps == [] {
      PlannedBound(poolSize, s);
    } else {
      SmoothParts(steps);
      StepKeepsInv(poolSize, s, steps[0]);
      PlannedAfterStep(poolSize, s, steps[0]);
      ChecksAddUp(poolSize, Apply(poolSize, s, steps[0]), steps[1..]);
    }
  }

  /** However borrowers come in between: as long as the database accepts
      connections and nobody loses one, every check of the healer adds one
      connection until the pool has its full size, and none after that. */
  lemma HealerRefills(poolSize: nat, s: System, steps: seq<Step>)
    requires Inv(poolSize, s) && s.healer.Resting? && IsRun(poolSize, s, steps)
    requires Smooth(steps)
    ensures var s' := Reached(poolSize, s, steps);
            s'.healer.Resting? ==> s'.pool.curConns == Capped(s.pool.curConns + Count(steps, IsCheck), poolSize)
    ensures var s' := Reached(poolSize, s, steps);
            !s'.healer.Resting? ==> s'.pool.curConns + 1 == Capped(s.pool.curConns + Count(steps, IsCheck), poolSize)
  {
    hide Inv, Smooth, Reached, IsRun, Count;
    ChecksAddUp(poolSize, s, steps);
  }

  function HealerRounds(n: nat): seq<Step> {
    if n == 0 then [] else [HealerCheck, HealerCreates, HealerPushes] + HealerRounds(n - 1)
  }

  /** From every reachable state with a resting healer, the missing number of
      rounds can run, and fills the pool without touching a borrower. */
  lemma {:induction false} HealerCanRefill(poolSize: nat, s: System, n: nat)
    requires Inv(poolSize, s) && s.healer.Resting? && s.pool.curConns + n == poolSize
    ensures IsRun(poolSize, s, HealerRounds(n))
    ensures var s' := Reached(poolSize, s, HealerRounds(n));
            && s'.pool.curConns == poolSize && s'.borrowers == s.borrowers && s'.healer.Resting?
            && s.pool.idle <= s'.pool.idle && |s'.pool.idle| == |s.pool.idle| + n
            && Apply(poolSize, s', HealerCheck).healer.Resting?
    decreases n
  {
    if n > 0 {
      OneRound(poolSize, s, HealerRounds(n - 1));
      hide Inv;
      HealerCanRefill(poolSize, HealedOnce(s), n - 1);
    }
  }

  /** These runs are among those of `HealerRefills`. */
  lemma {:induction false} RoundsAreSmooth(n: nat)
    ensures Smooth(HealerRounds(n))
  {
    if n > 0 {
      RoundsAreSmooth(n - 1);
    }
  }

  function HealedOnce(s: System): System {
    s.(pool := Healed(s.pool, s.next), healer := Resting, open := s.open + multiset{s.next}, next := s.next + 1)
  }

  lemma OneRound(poolSize: nat, s: System, rest: seq<Step>)
    requires Inv(poolSize, s) && s.healer.Resting? && s.pool.curConns < poolSize
    ensures Inv(poolSize, HealedOnce(s)) && HealedOnce(s).pool.curConns == s.pool.curConns + 1
    ensures var steps := [HealerCheck, HealerCreates, HealerPushes] + rest;
            && IsRun(poolSize, s, steps) == IsRun(poolSize, HealedOnce(s), rest)
            && (IsRun(poolSize, HealedOnce(s), rest) ==>
                  Reached(poolSize, s, steps) == Reached(poolSize, HealedOnce(s), rest))
  {
    var s1 := Apply(poolSize, s, HealerCheck);
    var s2 := Apply(poolSize, s1, HealerCreates);
    RoundEffect(poolSize, s);
    hide Inv, Apply, HealedOnce;
    FirstStep(poolSize, s2, HealerPushes, rest);
    FirstStep(poolSize, s1, HealerCreates, [HealerPushes] + rest);
    FirstStep(poolSize, s, HealerCheck, [HealerCreates] + ([HealerPushes] + rest));
    assert [HealerCheck, HealerCreates, HealerPushes] + rest
           == [HealerCheck] + ([HealerCreates] + ([HealerPushes] + rest));
  }

  lemma RoundEffect(poolSize: nat, s: System)
    requires Inv(poolSize, s) && s.healer.Resting? && s.pool.curConns < poolSize
    ensures Inv(poolSize, HealedOnce(s)) && HealedOnce(s).pool.curConns == s.pool.curConns + 1
    ensures var s1 := Apply(poolSize, s, HealerCheck);
            && Enabled(poolSize, s1, HealerCreates)
            && var s2 := Apply(poolSize, s1, HealerCreates);
               Enabled(poolSize, s2, HealerPushes) && Apply(poolSize, s2, HealerPushes) == HealedOnce(s)
  {
    hide Places, Fresh, HeldCount, Increment;
    var s1 := Apply(poolSize, s, HealerCheck);
    var s2 := Apply(poolSize, s1, HealerCreates);
    StepKeepsInv(poolSize, s, HealerCheck);
    StepKeepsInv(poolSize, s1, HealerCreates);
    StepKeepsInv(poolSize, s2, HealerPushes);
    CountSteps(s.pool.curConns);
  }

  lemma FirstStep(poolSize: nat, s: System, step: Step, rest: seq<Step>)
    requires Enabled(poolSize, s, step)
    ensures IsRun(poolSize, s, [step] + rest) == IsRun(poolSize, Apply(poolSize, s, step), rest)
    ensures IsRun(poolSize, s, [step] + rest) ==>
              Reached(poolSize, s, [step] + rest) == Reached(poolSize, Apply(poolSize, s, step), rest)
  {
    hide Apply, Enabled;
    assert ([step] + rest)[1..] == rest;
  }
}
