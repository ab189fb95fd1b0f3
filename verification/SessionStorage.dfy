/** Sessions and storage together: the gate's steps, and what the storage calls
    they make do to the tables. */
module SessionStorage {
  import opened Results
  import opened PageCache
  import opened Sessions
  import opened StorageRuns
  import Tables

  datatype Joint = Joint(s: State, d: Db)

  /** A statement that a session runs under the storage lock. */
  predicate IsQuery(st: Statement) {
    st.Create? || st.Open? || st.Insert?
  }

  ghost predicate AnyOpen(d: Db) {
    exists n :: n in d && d[n].inTxn
  }

  /** What a session in the storage does to the tables before it leaves: a
      select or a failing statement nothing, begin all tables or, if it meets one
      that is in a transaction, some of them. */
  ghost predicate Effect(j: Joint, i: nat, op: Op, j': Joint)
    requires i < |j.s.ss|
  {
    match op
    case Query(select) => j'.d == j.d || (!select && exists st: Statement :: IsQuery(st) && Runs(j.d, st, j'.d))
    case Begin =>
      if AnyOpen(j.d) then j'.s == Left(j.s, i, op, false) && exists names :: Between(j.d, j'.d, Begun(j.d), names)
      else j'.s == Left(j.s, i, op, true) && Runs(j.d, Statement.Begin, j'.d)
    case End(_) => Runs(j.d, Commit, j'.d) || Runs(j.d, Rollback, j'.d)
  }

  /** One step of session i. */
  ghost predicate JointStep(j: Joint, i: nat, j': Joint) {
    && Step(j.s, i, j'.s)
    && if j.s.ss[i].pc.InStorage? then Effect(j, i, j.s.ss[i].pc.op, j') else j'.d == j.d
  }

  ghost predicate JointNext(j: Joint, j': Joint) {
    exists i: nat :: JointStep(j, i, j') || (Spurious(j.s, i, j'.s) && j'.d == j.d)
  }

  /** A table is in a transaction only if a session is. */
  ghost predicate JointInv(j: Joint) {
    && Inv(j.s)
    && (AnyOpen(j.d) ==> exists i :: 0 <= i < |j.s.ss| && j.s.ss[i].inTxn)
  }

  lemma JointStart(j: Joint)
    requires Init(j.s) && !AnyOpen(j.d)
    ensures JointInv(j)
  {
    InitInv(j.s);
  }

  /** While begin is in the storage, no session is in a transaction. */
  lemma BeginAlone(s: State, i: nat)
    requires Inv(s) && i < |s.ss| && s.ss[i].pc == InStorage(Op.Begin)
    ensures forall k :: 0 <= k < |s.ss| ==> !s.ss[k].inTxn
  {
    assert Local(s, i);
    forall k | 0 <= k < |s.ss| ensures !s.ss[k].inTxn {
      assert Local(s, k);
    }
  }

  /** begin always finds every table outside a transaction, and succeeds. */
  lemma BeginSucceeds(j: Joint, i: nat, j': Joint)
    requires JointInv(j) && JointStep(j, i, j') && j.s.ss[i].pc == InStorage(Op.Begin)
    ensures !AnyOpen(j.d) && j'.s == Left(j.s, i, Op.Begin, true) && Runs(j.d, Statement.Begin, j'.d)
    ensures j'.s.ss[i].inTxn
  {
    hide Inv, Runs, Between;
    BeginAlone(j.s, i);
  }

  /** Only storage calls open and close transactions. */
  lemma SameTxn(s: State, i: nat, s': State)
    requires Step(s, i, s') && (s.ss[i].pc.InStorage? ==> s.ss[i].pc.op.Query?)
    ensures |s'.ss| == |s.ss| && forall k :: 0 <= k < |s.ss| ==> s'.ss[k].inTxn == s.ss[k].inTxn
  {
    hide Passes, Reads, Claims;
  }

  lemma QueryOpens(d: Db, st: Statement, d': Db)
    requires IsQuery(st) && Runs(d, st, d') && AnyOpen(d')
    ensures AnyOpen(d)
  {
    hide Tables.Fresh, Fitting;
    var n :| n in d' && d'[n].inTxn;
    assert n in d && d[n].inTxn;
  }

  lemma EndCloses(d: Db, d': Db)
    requires Runs(d, Commit, d') || Runs(d, Rollback, d')
    ensures !AnyOpen(d')
  {
  }

  lemma JointKeeps(j: Joint, j': Joint)
    requires JointInv(j) && JointNext(j, j')
    ensures JointInv(j')
  {
    hide Inv, Step, Spurious, Runs, Between, AnyOpen, Left;
    var i: nat :| JointStep(j, i, j') || (Spurious(j.s, i, j'.s) && j'.d == j.d);
    if JointStep(j, i, j') {
      StepKeeps(j.s, i, j'.s);
      var pc := Counter(j.s, i, j'.s);
      if pc.InStorage? && pc.op.Begin? {
        BeginSucceeds(j, i, j');
      } else if pc.InStorage? && pc.op.End? {
        EndCloses(j.d, j'.d);
      } else {
        SameTxn(j.s, i, j'.s);
        if j'.d != j.d && AnyOpen(j'.d) {
          var st: Statement :| IsQuery(st) && Runs(j.d, st, j'.d);
          QueryOpens(j.d, st, j'.d);
        }
      }
    } else {
      SpuriousKeeps(j.s, i, j'.s);
      SpuriousTxn(j.s, i, j'.s);
    }
  }

  lemma Counter(s: State, i: nat, s': State) returns (pc: Pc)
    requires Step(s, i, s')
    ensures i < |s.ss| && pc == s.ss[i].pc
  {
    pc := s.ss[i].pc;
  }

  lemma SpuriousTxn(s: State, i: nat, s': State)
    requires Spurious(s, i, s')
    ensures |s'.ss| == |s.ss| && forall k :: 0 <= k < |s.ss| ==> s'.ss[k].inTxn == s.ss[k].inTxn
  {
  }

  ghost predicate IsJointRun(js: seq<Joint>) {
    js != [] && forall k :: 0 <= k < |js| - 1 ==> JointNext(js[k], js[k + 1])
  }

  lemma {:induction false} JointRunInv(js: seq<Joint>, k: nat)
    requires IsJointRun(js) && JointInv(js[0]) && k < |js|
    ensures JointInv(js[k])
  {
    hide JointInv, JointNext;
    if k > 0 {
      JointRunInv(js, k - 1);
      JointKeeps(js[k - 1], js[k]);
    }
  }

  /** In every run from sessions and tables at rest, whatever the clients do, a
      begin that reaches the storage succeeds. */
  lemma BeginNeverFails(js: seq<Joint>, k: nat, i: nat)
    requires IsJointRun(js) && Init(js[0].s) && !AnyOpen(js[0].d)
    requires k + 1 < |js| && JointStep(js[k], i, js[k + 1]) && js[k].s.ss[i].pc == InStorage(Op.Begin)
    ensures !AnyOpen(js[k].d) && js[k + 1].s.ss[i].inTxn && Runs(js[k].d, Statement.Begin, js[k + 1].d)
  {
    hide IsJointRun, JointInv, JointStep, Runs, AnyOpen, Init;
    JointStart(js[0]);
    JointRunInv(js, k);
    BeginSucceeds(js[k], i, js[k + 1]);
  }

  // ------------------------------------------------------------------
  // Isolation of the tables
  // ------------------------------------------------------------------

  /** No session but o is past the gate. */
  ghost predicate Alone(s: State, o: nat) {
    forall k :: 0 <= k < |s.ss| && k != o ==> !s.ss[k].pc.AtLock? && !s.ss[k].pc.InStorage?
  }

  lemma AloneKeeps(s: State, s': State, o: nat)
    requires Inv(s) && Sessions.Next(s, s') && s.owner == Some(o) && Alone(s, o)
    ensures Alone(s', o)
  {
    NextKeeps(s, s');
    forall k | 0 <= k < |s'.ss| && k != o ensures !s'.ss[k].pc.AtLock? && !s'.ss[k].pc.InStorage? {
      if s'.ss[k].pc.AtLock? {
        GateClosed(s, s', o, k);
      }
      NotEntered(s, s', k);
    }
  }

  lemma NotEntered(s: State, s': State, k: nat)
    requires Sessions.Next(s, s') && k < |s.ss| == |s'.ss| && !s.ss[k].pc.AtLock? && !s.ss[k].pc.InStorage?
    ensures !s'.ss[k].pc.InStorage?
  {
    hide Passes, Reads, Claims;
  }

  /** A transaction that opens with nobody between gate and lock has the tables
      to itself: as long as it lasts, only its own session changes them. */
  lemma {:induction false} OnlyOwnChanges(js: seq<Joint>, o: nat, k: nat, i: nat)
    requires IsJointRun(js) && JointInv(js[0]) && Alone(js[0].s, o)
    requires forall m :: 0 <= m < |js| ==> js[m].s.owner == Some(o)
    requires k + 1 < |js| && JointStep(js[k], i, js[k + 1]) && js[k + 1].d != js[k].d
    ensures i == o
  {
    hide JointNext, Inv, Step, AnyOpen, Effect;
    AloneAt(js, o, k);
    var pc := Counter(js[k].s, i, js[k + 1].s);
  }

  lemma {:induction false} AloneAt(js: seq<Joint>, o: nat, k: nat)
    requires IsJointRun(js) && JointInv(js[0]) && Alone(js[0].s, o) && k < |js|
    requires forall m :: 0 <= m < |js| ==> js[m].s.owner == Some(o)
    ensures Alone(js[k].s, o)
  {
    hide JointNext, Inv, Alone, AnyOpen;
    if k > 0 {
      AloneAt(js, o, k - 1);
      JointRunInv(js, k - 1);
      NextOf(js[k - 1], js[k]);
      AloneKeeps(js[k - 1].s, js[k].s, o);
    }
  }

  lemma NextOf(j: Joint, j': Joint)
    requires JointNext(j, j')
    ensures Sessions.Next(j.s, j'.s)
  {
    hide Step, Spurious, Effect;
  }

  /** When begin leaves the storage, being alone is being alone at the lock. */
  lemma OpenedAlone(j: Joint, o: nat, j': Joint)
    requires JointInv(j) && JointStep(j, o, j') && j.s.ss[o].pc == InStorage(Op.Begin)
    ensures j'.s.owner == Some(o) && j'.s.ss[o].inTxn
    ensures Alone(j'.s, o) <==> forall k :: 0 <= k < |j'.s.ss| && k != o ==> !j'.s.ss[k].pc.AtLock?
  {
    BeginSucceeds(j, o, j');
    hide Effect, AnyOpen, Runs, Begun;
    assert Local(j.s, o);
    forall k | 0 <= k < |j'.s.ss| && k != o ensures !j'.s.ss[k].pc.InStorage? {
      assert Local(j.s, k);
    }
  }

  /** What follows Sessions.Trace: session 0's statement ends, session 1 ends its
      transaction. */
  function Aftermath(k: nat): State {
    var idle := Session(Idle, false);
    match k
    case 0 => State([idle, Session(Idle, true)], None, Some(1), None, {})
    case 1 => State([idle, Session(AtLock(End(false)), true)], None, Some(1), None, {})
    case 2 => State([idle, Session(InStorage(End(false)), true)], None, Some(1), Some(1), {})
    case _ => State([idle, Session(RelLock(false), false)], None, Some(1), None, {})
  }

  lemma AftermathSteps(k: nat)
    requires k < 4
    ensures if k == 0 then Step(Trace(9), 0, Aftermath(0)) else Step(Aftermath(k - 1), 1, Aftermath(k))
  {
    if k == 0 {
      assert Aftermath(0) == Left(Trace(9), 0, Query(false), true);
    } else if k == 1 {
      assert Aftermath(1) == Called(Aftermath(0), 1, EndTxn);
    } else if k == 2 {
      assert Aftermath(2) == Entered(Aftermath(1), 1, End(false));
    } else {
      assert Aftermath(3) == Left(Aftermath(2), 1, End(false), true);
    }
  }

  /** The states of both, with the tables d0 outside the transaction, d1 when it
      has begun and d2 after the insert. */
  function LostRun(d0: Db, d1: Db, d2: Db): seq<Joint> {
    [Joint(Trace(7), d0), Joint(Trace(8), d1), Joint(Trace(9), d1), Joint(Aftermath(0), d2),
     Joint(Aftermath(1), d2), Joint(Aftermath(2), d2), Joint(Aftermath(3), d0)]
  }

  /** Otherwise an insert can be lost after its client was told that it
      succeeded: session 0 has passed the gate, session 1 begins, the insert runs
      and returns, session 1 rolls back. */
  lemma AcknowledgedInsertLost(before: TableState, vals: Row, n: Name)
    requires Settled(before) && Fitting(before, vals) && PagesAfter(before, vals) <= MAX_PAGES
    ensures var a := before.(inTxn := true);
      var live := Tables.After(before.live, Tables.CellFor(before.columns, vals), before.pages);
      var b := a.(live := live, pages := PagesAfter(before, vals));
      && IsJointRun(LostRun(map[n := before], map[n := a], map[n := b]))
      && Runs(map[n := a], Insert(n, vals, Done), map[n := b])
    ensures Aftermath(0).ss[0] == Session(Idle, false)
  {
    hide Fitting, Tables.After, Tables.CellFor, Tables.NextFree;
    var a := before.(inTxn := true);
    var live := Tables.After(before.live, Tables.CellFor(before.columns, vals), before.pages);
    var b := a.(live := live, pages := PagesAfter(before, vals));
    FittingOpen(before, vals);
    assert Inserts(a, b, vals, Done);
    var d0, d1, d2 := map[n := before], map[n := a], map[n := b];
    assert d2 == d1[n := d2[n]];
    assert Runs(d1, Insert(n, vals, Done), d2);
    assert Begun(d0) == d1 && RolledBack(d2) == d0;
    LostSteps(n, d0, d1, d2, vals);
  }

  lemma FittingOpen(a: TableState, vals: Row)
    requires Fitting(a, vals)
    ensures Fitting(a.(inTxn := true), vals)
  {
  }

  lemma LostSteps(n: Name, d0: Db, d1: Db, d2: Db, vals: Row)
    requires !AnyOpen(d0) && Runs(d0, Statement.Begin, d1) && Runs(d1, Insert(n, vals, Done), d2) && Runs(d2, Rollback, d0)
    ensures IsJointRun(LostRun(d0, d1, d2))
  {
    hide Runs, AnyOpen, JointStep, JointNext, IsJointRun, Trace, Aftermath;
    BeginStep(d0, d1);
    InsertStep(n, d1, d2, vals);
    EndSteps(d2, d0);
    Seven(LostRun(d0, d1, d2));
  }

  lemma BeginStep(d0: Db, d1: Db)
    requires !AnyOpen(d0) && Runs(d0, Statement.Begin, d1)
    ensures JointStep(Joint(Trace(7), d0), 1, Joint(Trace(8), d1))
    ensures JointStep(Joint(Trace(8), d1), 0, Joint(Trace(9), d1))
  {
    hide Runs, AnyOpen, Step;
    TraceSteps(7);
    TraceSteps(8);
    assert Trace(8) == Left(Trace(7), 1, Op.Begin, true);
  }

  lemma InsertStep(n: Name, d1: Db, d2: Db, vals: Row)
    requires Runs(d1, Insert(n, vals, Done), d2)
    ensures JointStep(Joint(Trace(9), d1), 0, Joint(Aftermath(0), d2))
  {
    hide Runs, AnyOpen, Step;
    AftermathSteps(0);
    assert IsQuery(Insert(n, vals, Done));
  }

  lemma EndSteps(d2: Db, d0: Db)
    requires Runs(d2, Rollback, d0)
    ensures JointStep(Joint(Aftermath(0), d2), 1, Joint(Aftermath(1), d2))
    ensures JointStep(Joint(Aftermath(1), d2), 1, Joint(Aftermath(2), d2))
    ensures JointStep(Joint(Aftermath(2), d2), 1, Joint(Aftermath(3), d0))
  {
    hide Runs, AnyOpen, Step;
    AftermathSteps(1);
    AftermathSteps(2);
    AftermathSteps(3);
  }

  lemma Seven(js: seq<Joint>)
    requires |js| == 7
    requires JointStep(js[0], 1, js[1]) && JointStep(js[1], 0, js[2]) && JointStep(js[2], 0, js[3])
    requires JointStep(js[3], 1, js[4]) && JointStep(js[4], 1, js[5]) && JointStep(js[5], 1, js[6])
    ensures IsJointRun(js)
  {
    hide JointStep, Spurious;
  }
}
