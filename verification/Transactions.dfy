/**
 Nested transactions on one connected session: a reference count and a rollback mark on the
 connection, a committed flag on every transaction object, and a driver that holds work
 back while autocommit is off.
 */
module Transactions {
  import opened Base

  /** One unit of modifying work, told apart by its number. */
  type Work = int

  // ---------------------------------------------------------------- the driver

  datatype Driver = Driver(autocommit: bool, pending: seq<Work>, durable: seq<Work>, discarded: seq<Work>) {

    function Execute(ws: seq<Work>): Driver {
      if autocommit then this.(durable := durable + ws) else this.(pending := pending + ws)
    }

    /** SQLSetConnectAttr on SQL_ATTR_AUTOCOMMIT: switching it on commits what is pending. */
    function SetAutocommit(on: bool): Driver {
      if on then Driver(true, [], durable + pending, discarded) else this.(autocommit := false)
    }

    /** SQLEndTran with SQL_COMMIT or SQL_ROLLBACK. */
    function EndTran(commit: bool): Driver {
      if commit then this.(pending := [], durable := durable + pending)
      else this.(pending := [], discarded := discarded + pending)
    }
  }

  // ---------------------------------------------------------------- the session as a state machine

  /** `handles` holds the live transaction objects and whether each has been committed. */
  datatype Session = Session(transactions: nat, mark: bool, driver: Driver, handles: map<nat, bool>)

  datatype Step =
    | Begin(id: nat)
    | Commit(id: nat)
    | Rollback(id: nat)
    | Destroy(id: nat)
    | Execute(work: seq<Work>)

  const FRESH := Session(0, false, Driver(true, [], [], []), map[])

  predicate Enabled(s: Session, step: Step) {
    match step
    case Begin(id) => id !in s.handles
    case Execute(_) => true
    case _ => step.id in s.handles
  }

  function Unref(s: Session): Session {
    if s.transactions > 0 then s.(transactions := s.transactions - 1) else s
  }

  function Apply(s: Session, step: Step): Session
    requires Enabled(s, step)
  {
    match step
    case Begin(id) =>
      var d := if s.transactions == 0 then s.driver.SetAutocommit(false) else s.driver;
      Session(s.transactions + 1, s.mark, d, s.handles[id := false])
    case Commit(id) =>
      if s.handles[id] then s
      else
        var t := Unref(s).(handles := s.handles[id := true]);
        if t.transactions == 0 then t.(driver := t.driver.EndTran(true)) else t
    case Rollback(id) =>
      if s.handles[id] then s else s.(mark := true)
    case Destroy(id) =>
      var t := if s.handles[id] then s else Unref(s.(mark := true));
      var u := t.(handles := s.handles - {id});
      if u.transactions != 0 then u
      else
        var v := if u.mark then u.(driver := u.driver.EndTran(false), mark := false) else u;
        v.(driver := v.driver.SetAutocommit(true))
    case Execute(ws) => s.(driver := s.driver.Execute(ws))
  }

  predicate EnabledRun(s: Session, steps: seq<Step>)
    decreases |steps|
  {
    steps == [] || (Enabled(s, steps[0]) && EnabledRun(Apply(s, steps[0]), steps[1..]))
  }

  function Run(s: Session, steps: seq<Step>): Session
    requires EnabledRun(s, steps)
    decreases |steps|
  {
    if steps == [] then s else Run(Apply(s, steps[0]), steps[1..])
  }

  function WorkOf(steps: seq<Step>): seq<Work> {
    if steps == [] then []
    else Made(steps[0]) + WorkOf(steps[1..])
  }

  // ---------------------------------------------------------------- what every reachable state keeps

  function Uncommitted(handles: map<nat, bool>): set<nat> {
    set id | id in handles && !handles[id]
  }

  ghost predicate Inv(s: Session) {
    && s.transactions == |Uncommitted(s.handles)|
    && (s.transactions > 0 ==> !s.driver.autocommit)
    && (s.handles == map[] ==> s.driver.autocommit && !s.mark)
    && (s.driver.autocommit ==> s.driver.pending == [])
  }

  lemma BeginKeepsInv(s: Session, id: nat)
    requires Inv(s) && Enabled(s, Begin(id))
    ensures Inv(Apply(s, Begin(id)))
  {
    assert Uncommitted(Apply(s, Begin(id)).handles) == Uncommitted(s.handles) + {id};
  }

  lemma CommitKeepsInv(s: Session, id: nat)
    requires Inv(s) && Enabled(s, Commit(id))
    ensures Inv(Apply(s, Commit(id)))
  {
    assert Uncommitted(Apply(s, Commit(id)).handles) == Uncommitted(s.handles) - {id};
  }

  lemma DestroyKeepsInv(s: Session, id: nat)
    requires Inv(s) && Enabled(s, Destroy(id))
    ensures Inv(Apply(s, Destroy(id)))
  {
    assert Uncommitted(Apply(s, Destroy(id)).handles) == Uncommitted(s.handles) - {id};
  }

  lemma InvStep(s: Session, step: Step)
    requires Inv(s) && Enabled(s, step)
    ensures Inv(Apply(s, step))
  {
    match step
    case Begin(id) => BeginKeepsInv(s, id);
    case Commit(id) => CommitKeepsInv(s, id);
    case Destroy(id) => DestroyKeepsInv(s, id);
    case Rollback(id) =>
    case Execute(_) =>
  }

  lemma {:induction false} InvRun(s: Session, steps: seq<Step>)
    requires Inv(s) && EnabledRun(s, steps)
    ensures Inv(Run(s, steps))
    decreases |steps|
  {
    if steps != [] {
      InvStep(s, steps[0]);
      InvRun(Apply(s, steps[0]), steps[1..]);
    }
  }

  /** In every reachable state the count is the number of live uncommitted objects, and the modes follow it. */
  lemma ReachableInv(steps: seq<Step>)
    requires EnabledRun(FRESH, steps)
    ensures Inv(Run(FRESH, steps))
  {
    assert Uncommitted(map[]) == {};
    InvRun(FRESH, steps);
  }

  /** The guard against underflow is never what stops the count: an uncommitted object is always counted. */
  lemma GuardNeverNeeded(s: Session, id: nat)
    requires Inv(s) && id in s.handles && !s.handles[id]
    ensures s.transactions > 0
  {
    assert id in Uncommitted(s.handles);
  }

  /** How often a unit of work occurs, and how often the driver holds it in any of its three places. */
  function Count(ws: seq<Work>, w: Work): nat {
    if ws == [] then 0 else (if ws[0] == w then 1 else 0) + Count(ws[1..], w)
  }

  function Held(d: Driver, w: Work): nat {
    Count(d.durable, w) + Count(d.pending, w) + Count(d.discarded, w)
  }

  lemma {:induction false} CountConcat(a: seq<Work>, b: seq<Work>, w: Work)
    ensures Count(a + b, w) == Count(a, w) + Count(b, w)
  {
    if a == [] {
      assert a + b == b;
    } else {
      assert (a + b)[1..] == a[1..] + b;
      CountConcat(a[1..], b, w);
    }
  }

  function Made(step: Step): seq<Work> { if step.Execute? then step.work else [] }

  lemma DriverConserves(d: Driver, ws: seq<Work>, on: bool, w: Work)
    ensures Held(d.Execute(ws), w) == Held(d, w) + Count(ws, w)
    ensures Held(d.SetAutocommit(on), w) == Held(d, w)
    ensures Held(d.EndTran(on), w) == Held(d, w)
  {
    CountConcat(d.durable, ws, w);
    CountConcat(d.pending, ws, w);
    CountConcat(d.durable, d.pending, w);
    CountConcat(d.discarded, d.pending, w);
  }

  lemma DestroyConserves(s: Session, id: nat, w: Work)
    requires id in s.handles
    ensures Held(Apply(s, Destroy(id)).driver, w) == Held(s.driver, w)
  {
    var d := Apply(s, Destroy(id)).driver;
    DriverConserves(s.driver, [], true, w);
    DriverConserves(s.driver, [], false, w);
    DriverConserves(s.driver.EndTran(false), [], true, w);
    assert d == s.driver || d == s.driver.SetAutocommit(true) || d == s.driver.EndTran(false).SetAutocommit(true);
  }

  lemma StepConserves(s: Session, step: Step, w: Work)
    requires Enabled(s, step)
    ensures Held(Apply(s, step).driver, w) == Held(s.driver, w) + Count(Made(step), w)
  {
    match step
    case Begin(id) =>
      DriverConserves(s.driver, [], false, w);
    case Commit(id) =>
      DriverConserves(s.driver, [], true, w);
    case Rollback(id) =>
    case Destroy(id) =>
      DestroyConserves(s, id, w);
    case Execute(ws) =>
      DriverConserves(s.driver, ws, true, w);
  }

  /** No work is lost or made twice: on every run it is durable, pending or discarded, once. */
  lemma {:induction false} WorkConserved(s: Session, steps: seq<Step>, w: Work)
    requires EnabledRun(s, steps)
    ensures Held(Run(s, steps).driver, w) == Held(s.driver, w) + Count(WorkOf(steps), w)
    decreases |steps|
  {
    if steps != [] {
      StepConserves(s, steps[0], w);
      WorkConserved(Apply(s, steps[0]), steps[1..], w);
      CountConcat(Made(steps[0]), WorkOf(steps[1..]), w);
    }
  }

  // ---------------------------------------------------------------- the fate of a transaction's work

  /** Every state after a step of the run still has a transaction open. */
  predicate StaysOpen(s: Session, steps: seq<Step>)
    requires EnabledRun(s, steps)
    decreases |steps|
  {
    && s.transactions > 0
    && (steps == [] || StaysOpen(Apply(s, steps[0]), steps[1..]))
  }

  /** While the count stays above zero, in any interleaving, work only gathers. */
  lemma {:induction false} OpenRunGathers(s: Session, steps: seq<Step>)
    requires Inv(s) && EnabledRun(s, steps) && StaysOpen(s, steps)
    ensures var e := Run(s, steps).driver;
      && e.durable == s.driver.durable && e.discarded == s.driver.discarded
      && e.pending == s.driver.pending + WorkOf(steps)
    ensures Run(s, steps).transactions > 0
    decreases |steps|
  {
    if steps != [] {
      InvStep(s, steps[0]);
      OpenRunGathers(Apply(s, steps[0]), steps[1..]);
    }
  }

  /** Only the commit or the destruction of an uncommitted object closes, and it decides for the whole. */
  lemma ClosingStepDecides(s: Session, steps: seq<Step>, last: Step)
    requires Inv(s) && EnabledRun(s, steps) && StaysOpen(s, steps)
    requires Enabled(Run(s, steps), last) && Apply(Run(s, steps), last).transactions == 0
    ensures last.Commit? || last.Destroy?
    ensures Run(s, steps).handles[last.id] == false
    ensures var f, all := Apply(Run(s, steps), last).driver, s.driver.pending + WorkOf(steps);
      && f.pending == []
      && f.durable == (if last.Commit? then s.driver.durable + all else s.driver.durable)
      && f.discarded == (if last.Commit? then s.driver.discarded else s.driver.discarded + all)
  {
    OpenRunGathers(s, steps);
  }

  /** A rollback mark set by hand does not hold back a later commit. */
  lemma MarkDoesNotHoldBackCommit(w: Work)
    ensures var steps := [Begin(0), Execute([w]), Rollback(0), Commit(0)];
      EnabledRun(FRESH, steps) && Run(FRESH, steps).mark && Run(FRESH, steps).driver.durable == [w]
  {
    var s1 := Apply(FRESH, Begin(0));
    var s2 := Apply(s1, Execute([w]));
    var s3 := Apply(s2, Rollback(0));
    var s4 := Apply(s3, Commit(0));
    assert EnabledRun(s3, [Commit(0)]) && Run(s3, [Commit(0)]) == s4;
    assert EnabledRun(s2, [Rollback(0), Commit(0)]) && Run(s2, [Rollback(0), Commit(0)]) == s4;
    assert EnabledRun(s1, [Execute([w]), Rollback(0), Commit(0)]);
    assert Run(s1, [Execute([w]), Rollback(0), Commit(0)]) == s4;
  }

  /** Nor does an inner object destroyed uncommitted: its work becomes durable with the outer one's. */
  lemma AbandonedInnerIsCommitted(w: Work)
    ensures var steps := [Begin(0), Begin(1), Execute([w]), Destroy(1), Commit(0)];
      EnabledRun(FRESH, steps) && Run(FRESH, steps).driver.durable == [w]
  {
    var s1 := Apply(FRESH, Begin(0));
    var t2 := Apply(s1, Begin(1));
    var t3 := Apply(t2, Execute([w]));
    var t4 := Apply(t3, Destroy(1));
    var t5 := Apply(t4, Commit(0));
    assert EnabledRun(t4, [Commit(0)]) && Run(t4, [Commit(0)]) == t5;
    assert EnabledRun(t3, [Destroy(1), Commit(0)]) && Run(t3, [Destroy(1), Commit(0)]) == t5;
    assert EnabledRun(t2, [Execute([w]), Destroy(1), Commit(0)]);
    assert Run(t2, [Execute([w]), Destroy(1), Commit(0)]) == t5;
    assert EnabledRun(s1, [Begin(1), Execute([w]), Destroy(1), Commit(0)]);
    assert Run(s1, [Begin(1), Execute([w]), Destroy(1), Commit(0)]) == t5;
  }

  /** Destroying an uncommitted object rolls pending work back exactly when it was the only one open. */
  lemma DestroyRollsBackIff(s: Session, id: nat)
    requires Inv(s) && id in s.handles && !s.handles[id] && s.driver.pending != []
    ensures var d := Apply(s, Destroy(id)).driver;
      d.discarded == s.driver.discarded + s.driver.pending <==> s.transactions == 1
    ensures Apply(s, Destroy(id)).driver.durable == s.driver.durable
  {
    GuardNeverNeeded(s, id);
  }

  /** Committing makes pending work durable exactly when it was the only one open, marked or not. */
  lemma CommitMakesDurableIff(s: Session, id: nat)
    requires Inv(s) && id in s.handles && !s.handles[id] && s.driver.pending != []
    ensures var d := Apply(s, Commit(id)).driver;
      d.durable == s.driver.durable + s.driver.pending <==> s.transactions == 1
    ensures Apply(s, Commit(id)).driver.discarded == s.driver.discarded
  {
    GuardNeverNeeded(s, id);
  }

  /**
   Work run between the closing commit and the destruction of the committed object is in no
   transaction, yet autocommit is still off: the destructor discards it exactly when a mark
   was left behind, and otherwise commits it by switching autocommit on.
   */
  lemma WorkAfterCommit(s: Session, id: nat)
    requires Inv(s) && s.transactions == 0 && id in s.handles
    ensures s.handles[id]
    ensures var d := Apply(s, Destroy(id)).driver;
      && d.autocommit && d.pending == []
      && d.durable == (if s.mark then s.driver.durable else s.driver.durable + s.driver.pending)
      && d.discarded == (if s.mark then s.driver.discarded + s.driver.pending else s.driver.discarded)
  {
    if !s.handles[id] {
      GuardNeverNeeded(s, id);
    }
  }

  // ---------------------------------------------------------------- committed objects, and the mark

  lemma {:induction false} RunInTwo(s: Session, a: seq<Step>, b: seq<Step>)
    ensures EnabledRun(s, a + b) <==> EnabledRun(s, a) && EnabledRun(Run(s, a), b)
    ensures EnabledRun(s, a + b) ==> Run(s, a + b) == Run(Run(s, a), b)
    decreases |a|
  {
    if a == [] {
      assert a + b == b;
    } else {
      assert (a + b)[0] == a[0] && (a + b)[1..] == a[1..] + b;
      if Enabled(s, a[0]) {
        RunInTwo(Apply(s, a[0]), a[1..], b);
      }
    }
  }

  /** Wherever it stands in a run, a commit or rollback on a committed object might as well be left out. */
  lemma CommittedIsInert(s: Session, before: seq<Step>, step: Step, after: seq<Step>)
    requires EnabledRun(s, before) && (step.Commit? || step.Rollback?)
    requires var mid := Run(s, before); step.id in mid.handles && mid.handles[step.id]
    ensures EnabledRun(s, before + ([step] + after)) <==> EnabledRun(s, before + after)
    ensures EnabledRun(s, before + after) ==> Run(s, before + ([step] + after)) == Run(s, before + after)
  {
    var mid := Run(s, before);
    RunInTwo(s, before, [step] + after);
    RunInTwo(s, before, after);
    assert ([step] + after)[1..] == after;
    assert Apply(mid, step) == mid;
  }

  /** The steps that set the mark: a rollback of an uncommitted object, or its end while others are open. */
  predicate Marks(s: Session, step: Step) {
    && (step.Rollback? || (step.Destroy? && s.transactions > 1))
    && step.id in s.handles && !s.handles[step.id]
  }

  /** The steps that clear it: the end of an object that leaves none open. */
  predicate Clears(s: Session, step: Step) {
    step.Destroy? && step.id in s.handles && s.transactions == if s.handles[step.id] then 0 else 1
  }

  /** The states that a run goes through. */
  ghost predicate Trace(states: seq<Session>, steps: seq<Step>) {
    && |states| == |steps| + 1
    && forall i :: 0 <= i < |steps| ==> Enabled(states[i], steps[i]) && states[i + 1] == Apply(states[i], steps[i])
  }

  lemma {:induction false} TraceOf(s: Session, steps: seq<Step>) returns (states: seq<Session>)
    requires EnabledRun(s, steps)
    ensures Trace(states, steps) && states[0] == s && states[|steps|] == Run(s, steps)
    decreases |steps|
  {
    if steps == [] {
      return [s];
    }
    var rest := TraceOf(Apply(s, steps[0]), steps[1..]);
    states := [s] + rest;
    forall i | 0 <= i < |steps|
      ensures Enabled(states[i], steps[i]) && states[i + 1] == Apply(states[i], steps[i])
    {
      if i > 0 {
        assert states[i] == rest[i - 1] && states[i + 1] == rest[i] && steps[i] == steps[1..][i - 1];
      }
    }
  }

  lemma MarkStep(s: Session, step: Step)
    requires Inv(s) && Enabled(s, step)
    ensures Inv(Apply(s, step)) && !(Marks(s, step) && Clears(s, step))
    ensures Apply(s, step).mark <==> Marks(s, step) || (s.mark && !Clears(s, step))
  {
    InvStep(s, step);
    if !step.Execute? && !step.Begin? && !s.handles[step.id] {
      GuardNeverNeeded(s, step.id);
    }
  }

  /** Some step before the n-th set the mark and no step behind that one cleared it. */
  ghost predicate MarkLeft(states: seq<Session>, steps: seq<Step>, n: nat)
    requires Trace(states, steps) && n <= |steps|
  {
    exists k :: 0 <= k < n && Marks(states[k], steps[k]) && forall j :: k < j < n ==> !Clears(states[j], steps[j])
  }

  /**
   On every run from a fresh connection the mark is set exactly when some step set it and none
   since has cleared it: no commit, no beginning and no work touches it.
   */
  lemma {:induction false} MarkedIff(states: seq<Session>, steps: seq<Step>, n: nat)
    requires Trace(states, steps) && n <= |steps| && states[0] == FRESH
    ensures Inv(states[n])
    ensures states[n].mark <==> MarkLeft(states, steps, n)
  {
    if n == 0 {
      assert Uncommitted(map[]) == {};
    } else {
      MarkedIff(states, steps, n - 1);
      MarkStep(states[n - 1], steps[n - 1]);
      if MarkLeft(states, steps, n - 1) && !Clears(states[n - 1], steps[n - 1]) {
        var k :| 0 <= k < n - 1 && Marks(states[k], steps[k]) && forall j :: k < j < n - 1 ==> !Clears(states[j], steps[j]);
        assert forall j :: k < j < n ==> !Clears(states[j], steps[j]);
      }
    }
  }

  // ---------------------------------------------------------------- the classes

  class Connection {
    var transactions: nat
    var mark: bool
    var driver: Driver
    ghost var handles: map<nat, bool>

    ghost function View(): Session
      reads this
    {
      Session(transactions, mark, driver, handles)
    }

    constructor ()
      ensures View() == FRESH
    {
      transactions, mark, driver := 0, false, Driver(true, [], [], []);
      handles := map[];
    }

    method RefTransaction()
      modifies this`transactions
      ensures transactions == old(transactions) + 1
    {
      transactions := transactions + 1;
    }

    method UnrefTransaction() returns (left: nat)
      modifies this`transactions
      ensures transactions == left == Unref(old(View())).transactions
      ensures left == if old(transactions) > 0 then old(transactions) - 1 else 0
    {
      if transactions > 0 {
        transactions := transactions - 1;
      }
      left := transactions;
    }

    method ExecuteWork(ws: seq<Work>)
      requires Inv(View())
      modifies this`driver
      ensures View() == Apply(old(View()), Execute(ws)) && Inv(View())
      ensures old(driver.autocommit) ==> driver == old(driver).(durable := old(driver.durable) + ws)
      ensures !old(driver.autocommit) ==> driver == old(driver).(pending := old(driver.pending) + ws)
    {
      InvStep(View(), Execute(ws));
      driver := driver.Execute(ws);
    }
  }

  class Transaction {
    const conn: Connection
    var committed: bool
    ghost const id: nat

    ghost predicate Valid()
      reads this, conn
    {
      Inv(conn.View()) && id in conn.handles && conn.handles[id] == committed
    }

    constructor (conn: Connection, ghost id: nat)
      requires Inv(conn.View()) && id !in conn.handles
      modifies conn
      ensures Valid() && this.conn == conn && this.id == id
      ensures conn.View() == Apply(old(conn.View()), Begin(id))
      ensures !committed && conn.transactions == old(conn.transactions) + 1 && conn.mark == old(conn.mark)
      ensures conn.handles == old(conn.handles)[id := false]
      ensures conn.driver == old(conn.driver).(autocommit := old(conn.driver.autocommit) && old(conn.transactions) > 0)
    {
      this.conn := conn;
      this.id := id;
      committed := false;
      new;
      InvStep(conn.View(), Begin(id));
      if conn.transactions == 0 {
        conn.driver := conn.driver.SetAutocommit(false);
      }
      conn.RefTransaction();
      conn.handles := conn.handles[id := false];
    }

    method Commit()
      requires Valid()
      modifies this, conn
      ensures Valid() && committed
      ensures conn.View() == Apply(old(conn.View()), Step.Commit(id))
      ensures old(committed) ==> conn.View() == old(conn.View())
      ensures !old(committed) ==>
        && conn.transactions == old(conn.transactions) - 1 && conn.mark == old(conn.mark)
        && conn.handles == old(conn.handles)[id := true]
        && if old(conn.transactions) > 1 then conn.driver == old(conn.driver)
           else
             && conn.driver.pending == [] && conn.driver.durable == old(conn.driver.durable + conn.driver.pending)
             && conn.driver.discarded == old(conn.driver.discarded) && conn.driver.autocommit == old(conn.driver.autocommit)
    {
      InvStep(conn.View(), Step.Commit(id));
      if !committed {
        GuardNeverNeeded(conn.View(), id);
      }
      if committed {
        assert conn.handles[id := true] == conn.handles;
        return;
      }
      committed := true;
      var left := conn.UnrefTransaction();
      if left == 0 {
        conn.driver := conn.driver.EndTran(true);
      }
      conn.handles := conn.handles[id := true];
    }

    method Rollback()
      requires Valid()
      modifies conn`mark
      ensures Valid()
      ensures conn.View() == Apply(old(conn.View()), Step.Rollback(id))
      ensures old(committed) ==> conn.View() == old(conn.View())
      ensures !old(committed) ==> conn.mark && conn.View().(mark := old(conn.mark)) == old(conn.View())
    {
      InvStep(conn.View(), Step.Rollback(id));
      if committed {
        return;
      }
      conn.mark := true;
    }

    /** The destructor. The object is not used afterwards, so it is no longer among the handles. */
    method Destroy()
      requires Valid()
      modifies conn
      ensures Inv(conn.View())
      ensures conn.View() == Apply(old(conn.View()), Step.Destroy(id))
      ensures conn.handles == old(conn.handles) - {id}
      ensures conn.transactions == old(conn.transactions) - if old(committed) then 0 else 1
      ensures conn.transactions > 0 ==> conn.driver == old(conn.driver) && conn.mark == (old(conn.mark) || !old(committed))
      ensures conn.transactions == 0 ==> !conn.mark && conn.driver.autocommit && conn.driver.pending == []
      ensures conn.transactions == 0 ==>
        if old(conn.mark) || !old(committed) then
          && conn.driver.durable == old(conn.driver.durable)
          && conn.driver.discarded == old(conn.driver.discarded + conn.driver.pending)
        else
          && conn.driver.durable == old(conn.driver.durable + conn.driver.pending)
          && conn.driver.discarded == old(conn.driver.discarded)
    {
      InvStep(conn.View(), Step.Destroy(id));
      if !committed {
        GuardNeverNeeded(conn.View(), id);
      }
      if !committed {
        conn.mark := true;
        var _ := conn.UnrefTransaction();
      }
      if conn.transactions == 0 {
        if conn.mark {
          conn.driver := conn.driver.EndTran(false);
          conn.mark := false;
        }
        conn.driver := conn.driver.SetAutocommit(true);
      }
      conn.handles := conn.handles - {id};
    }
  }

  // ---------------------------------------------------------------- transact

  ghost predicate AllOrNothing(s: Session, e: Session, done: seq<Work>, raises: bool) {
    && Inv(e) && e.handles == s.handles && e.transactions == s.transactions
    && (s.transactions == 0 ==>
          && e.driver.autocommit && e.driver.pending == [] && !e.mark
          && e.driver.durable == (if raises then s.driver.durable else s.driver.durable + (s.driver.pending + done))
          && e.driver.discarded == (if raises then s.driver.discarded + (s.driver.pending + done) else s.driver.discarded))
    && (s.transactions > 0 ==>
          && e.driver == s.driver.(pending := s.driver.pending + done)
          && e.mark == (s.mark || raises))
  }

  lemma TransactIsAllOrNothing(s: Session, id: nat, done: seq<Work>, raises: bool)
    requires Inv(s) && id !in s.handles
    ensures var s2 := Apply(Apply(s, Begin(id)), Execute(done));
      AllOrNothing(s, Apply(if raises then s2 else Apply(s2, Commit(id)), Destroy(id)), done, raises)
  {
    var s1 := Apply(s, Begin(id));
    InvStep(s, Begin(id));
    var s2 := Apply(s1, Execute(done));
    InvStep(s1, Execute(done));
    assert s1.handles - {id} == s.handles;
    if raises {
      InvStep(s2, Destroy(id));
    } else {
      InvStep(s2, Commit(id));
      var s3 := Apply(s2, Commit(id));
      assert s3.handles - {id} == s.handles;
      InvStep(s3, Destroy(id));
    }
  }

  /**
   `transact` and `just_transact`: `done` is the work the driver did before it returned or
   raised. With no transaction open the batch is all or nothing; inside one it joins the rest.
   */
  method Transact(conn: Connection, done: seq<Work>, raises: bool, ghost id: nat) returns (r: Outcome<()>)
    requires Inv(conn.View()) && id !in conn.handles
    modifies conn
    ensures r.Raised? <==> raises
    ensures AllOrNothing(old(conn.View()), conn.View(), done, raises)
    ensures old(conn.handles) == map[] ==> old(conn.driver.pending) == []
  {
    TransactIsAllOrNothing(conn.View(), id, done, raises);
    var transaction := new Transaction(conn, id);
    conn.ExecuteWork(done);
    if raises {
      transaction.Destroy();
      return Raised;
    }
    transaction.Commit();
    transaction.Destroy();
    r := Done(());
  }
}
