/** What the calls of a session come to, over whole runs of any number of
    sessions: every call is served in the storage, and a transaction that is
    ended frees the slot and wakes whoever waits for it. */
module SessionCalls {
  import opened Results
  import opened Sessions

  /** The session is not in a call. */
  predicate Returned(x: Session) {
    x.pc.Idle? || x.pc.Gone?
  }

  ghost predicate IsTrace(tr: seq<State>, i: nat) {
    IsRun(tr) && Init(tr[0]) && i < |tr[0].ss| && forall l :: 0 <= l < |tr| ==> |tr[l].ss| == |tr[0].ss|
  }

  /** Between k and m the session does not return. */
  ghost predicate InCall(tr: seq<State>, i: nat, k: nat, m: nat)
    requires IsTrace(tr, i) && m < |tr|
  {
    forall l :: k <= l < m ==> !Returned(tr[l].ss[i])
  }

  lemma TraceStep(tr: seq<State>, i: nat, k: nat)
    requires IsTrace(tr, i) && k + 1 < |tr|
    ensures Inv(tr[k]) && Sessions.Next(tr[k], tr[k + 1])
  {
    hide Inv, Sessions.Next;
    InitInv(tr[0]);
    RunInv(tr, k);
  }

  /** Another session's step leaves a session as it is, or wakes it. */
  lemma OthersStep(s: State, s': State, i: nat)
    requires Sessions.Next(s, s') && i < |s.ss| == |s'.ss|
    ensures s'.ss[i] == s.ss[i] || s'.ss[i] == Wake(s.ss[i]) || Step(s, i, s')
  {
    hide Step;
    var j: nat :| Step(s, j, s') || Spurious(s, j, s');
    if Spurious(s, j, s') {
    } else if j != i {
      OtherStep(s, j, s', i);
    }
  }

  // ------------------------------------------------------------------
  // Every call is served
  // ------------------------------------------------------------------

  /** On the way to the storage for op. */
  predicate Waiting(pc: Pc, op: Op) {
    pc == Lock(op) || pc == Check(op) || pc == Asleep(op) || pc == Woken(op) || pc == AtLock(op)
  }

  lemma WaitStep(s: State, s': State, i: nat, op: Op)
    requires Sessions.Next(s, s') && i < |s.ss| == |s'.ss| && Waiting(s.ss[i].pc, op)
    ensures Waiting(s'.ss[i].pc, op) || s'.ss[i].pc == InStorage(op)
    ensures s'.ss[i].inTxn == s.ss[i].inTxn
  {
    OthersStep(s, s', i);
    hide Passes, Reads;
  }

  /** No call returns before its operation was in the storage. */
  lemma {:induction false} CallServed(tr: seq<State>, i: nat, op: Op, k: nat, m: nat) returns (n: nat)
    requires IsTrace(tr, i) && k < m < |tr|
    requires Waiting(tr[k].ss[i].pc, op) && Returned(tr[m].ss[i])
    ensures k < n < m && tr[n].ss[i].pc == InStorage(op) && tr[n].ss[i].inTxn == tr[k].ss[i].inTxn
    decreases m - k
  {
    hide Inv, Sessions.Next;
    TraceStep(tr, i, k);
    WaitStep(tr[k], tr[k + 1], i, op);
    if tr[k + 1].ss[i].pc == InStorage(op) {
      n := k + 1;
    } else {
      n := CallServed(tr, i, op, k + 1, m);
    }
  }

  // ------------------------------------------------------------------
  // The bounds of a transaction
  // ------------------------------------------------------------------

  /** A session is in a transaction from the return of begin to the return of
      its commit or rollback from the storage. */
  lemma TxnChanges(s: State, s': State, i: nat)
    requires Inv(s) && Sessions.Next(s, s') && i < |s.ss| == |s'.ss|
    ensures !s.ss[i].inTxn && s'.ss[i].inTxn ==>
      s.ss[i].pc == InStorage(Begin) && s'.ss[i].pc == Idle && s'.owner == Some(i)
    ensures s.ss[i].inTxn && !s'.ss[i].inTxn ==> s.ss[i].pc.InStorage? && s.ss[i].pc.op.End?
    ensures s.ss[i].pc.InStorage? && s.ss[i].pc.op.End? && s'.ss[i] != s.ss[i] ==> s.ss[i].inTxn && !s'.ss[i].inTxn
  {
    assert Local(s, i);
    OthersStep(s, s', i);
    hide Passes;
  }

  /** Whoever was in a transaction and is not any more, or has disconnected, has
      ended it in the storage. */
  lemma {:induction false} TransactionClosed(tr: seq<State>, i: nat, k: nat, m: nat) returns (n: nat)
    requires IsTrace(tr, i) && k < m < |tr|
    requires tr[k].ss[i].inTxn && (!tr[m].ss[i].inTxn || tr[m].ss[i].pc.Gone?)
    ensures k <= n < m && tr[n].ss[i].pc.InStorage? && tr[n].ss[i].pc.op.End?
    decreases m - k
  {
    GoneOutside(tr, i, m);
    hide Inv, Sessions.Next;
    TraceStep(tr, i, k);
    TxnChanges(tr[k], tr[k + 1], i);
    if !tr[k + 1].ss[i].inTxn {
      n := k;
    } else {
      n := TransactionClosed(tr, i, k + 1, m);
    }
  }

  lemma GoneOutside(tr: seq<State>, i: nat, m: nat)
    requires IsTrace(tr, i) && m < |tr|
    ensures tr[m].ss[i].pc.Gone? ==> !tr[m].ss[i].inTxn
  {
    InitInv(tr[0]);
    RunInv(tr, m);
    assert Local(tr[m], i);
  }

  // ------------------------------------------------------------------
  // The end of a transaction
  // ------------------------------------------------------------------

  /** From the storage call of commit or rollback to its return. */
  predicate Ending(pc: Pc, g: bool) {
    pc == InStorage(End(g)) || pc == RelLock(g) || pc == RelHeld(g) || pc == RelNotify(g) || pc == RelUnlock(g)
  }

  function Phase(pc: Pc): nat {
    match pc
    case InStorage(_) => 0
    case RelLock(_) => 1
    case RelHeld(_) => 2
    case RelNotify(_) => 3
    case RelUnlock(_) => 4
    case _ => 5
  }

  lemma EndStep(s: State, s': State, i: nat, g: bool)
    requires Inv(s) && Sessions.Next(s, s') && i < |s.ss| == |s'.ss| && Ending(s.ss[i].pc, g)
    ensures s'.ss[i] == s.ss[i] || Phase(s'.ss[i].pc) == Phase(s.ss[i].pc) + 1
    ensures Ending(s'.ss[i].pc, g) || s'.ss[i] == Session(if g then Gone else Idle, false)
    ensures s.ss[i].pc.RelHeld? && s'.ss[i].pc.RelNotify? ==> s.owner == Some(i) && s'.owner == None
    ensures s.ss[i].pc.RelNotify? && s'.ss[i].pc.RelUnlock? ==>
      forall j :: 0 <= j < |s.ss| && s.ss[j].pc.Asleep? ==> s'.ss[j].pc == Woken(s.ss[j].pc.op)
  {
    assert Local(s, i);
    OthersStep(s, s', i);
    hide Passes;
  }

  /** As long as the call has not returned it is somewhere on this way. */
  lemma {:induction false} StaysEnding(tr: seq<State>, i: nat, g: bool, k: nat, m: nat, l: nat)
    requires IsTrace(tr, i) && k <= l < m < |tr| && InCall(tr, i, k, m) && Ending(tr[k].ss[i].pc, g)
    ensures Ending(tr[l].ss[i].pc, g)
    decreases l
  {
    hide Inv, Sessions.Next, Ending;
    if l > k {
      StaysEnding(tr, i, g, k, m, l - 1);
      TraceStep(tr, i, l - 1);
      EndStep(tr[l - 1], tr[l], i, g);
    }
  }

  /** The step on which the session leaves phase p. */
  lemma {:induction false} Crossing(tr: seq<State>, i: nat, g: bool, k: nat, m: nat, p: nat) returns (n: nat)
    requires IsTrace(tr, i) && k < m < |tr|
    requires forall l :: k <= l < m ==> Ending(tr[l].ss[i].pc, g)
    requires Phase(tr[k].ss[i].pc) <= p < Phase(tr[m].ss[i].pc)
    ensures k <= n < m && Phase(tr[n].ss[i].pc) == p && Phase(tr[n + 1].ss[i].pc) == p + 1
    decreases m - k
  {
    hide Inv, Sessions.Next, Ending, Phase;
    TraceStep(tr, i, k);
    EndStep(tr[k], tr[k + 1], i, g);
    if Phase(tr[k + 1].ss[i].pc) <= p {
      n := Crossing(tr, i, g, k + 1, m, p);
    } else {
      n := k;
    }
  }

  /** When a commit, a rollback or the rollback of a dropped session returns,
      its session is not in a transaction and does not own the slot; at h it
      freed the slot, and at n, after that, everyone asleep was woken. */
  lemma TransactionEnds(tr: seq<State>, i: nat, g: bool, k: nat, m: nat) returns (h: nat, n: nat)
    requires IsTrace(tr, i) && k < m < |tr| && InCall(tr, i, k, m)
    requires tr[k].ss[i].pc == InStorage(End(g)) && Returned(tr[m].ss[i])
    ensures tr[m].ss[i] == Session(if g then Gone else Idle, false) && tr[m].owner != Some(i)
    ensures k < h < n < m
    ensures tr[h].owner == Some(i) && tr[h + 1].owner == None
    ensures forall j :: 0 <= j < |tr[n].ss| && tr[n].ss[j].pc.Asleep? ==> tr[n + 1].ss[j].pc == Woken(tr[n].ss[j].pc.op)
  {
    hide Ending, Phase, IsTrace, InCall, Returned;
    TraceSizes(tr, i);
    Phases(tr[k].ss[i], g);
    Phases(tr[m].ss[i], g);
    forall l | k <= l < m ensures Ending(tr[l].ss[i].pc, g) {
      StaysEnding(tr, i, g, k, m, l);
    }
    h := Crossing(tr, i, g, k, m, 2);
    n := Crossing(tr, i, g, h + 1, m, 3);
    Released(tr, i, g, h);
    Notified(tr, i, g, n);
    EndsReturned(tr, i, g, m);
    NotOwner(tr, i, m);
  }

  lemma TraceSizes(tr: seq<State>, i: nat)
    requires IsTrace(tr, i)
    ensures forall l :: 0 <= l < |tr| ==> i < |tr[l].ss|
  {
  }

  lemma Phases(x: Session, g: bool)
    ensures x.pc == InStorage(End(g)) ==> Ending(x.pc, g) && Phase(x.pc) == 0
    ensures Returned(x) ==> Phase(x.pc) == 5
  {
  }

  lemma EndsReturned(tr: seq<State>, i: nat, g: bool, m: nat)
    requires IsTrace(tr, i) && 0 < m < |tr| && Ending(tr[m - 1].ss[i].pc, g) && Returned(tr[m].ss[i])
    ensures tr[m].ss[i] == Session(if g then Gone else Idle, false)
  {
    hide Inv, Sessions.Next;
    TraceStep(tr, i, m - 1);
    EndStep(tr[m - 1], tr[m], i, g);
  }

  lemma Released(tr: seq<State>, i: nat, g: bool, h: nat)
    requires IsTrace(tr, i) && h + 1 < |tr| && Ending(tr[h].ss[i].pc, g)
    requires Phase(tr[h].ss[i].pc) == 2 && Phase(tr[h + 1].ss[i].pc) == 3
    ensures tr[h].owner == Some(i) && tr[h + 1].owner == None
  {
    hide Inv, Sessions.Next;
    TraceStep(tr, i, h);
    EndStep(tr[h], tr[h + 1], i, g);
  }

  lemma Notified(tr: seq<State>, i: nat, g: bool, n: nat)
    requires IsTrace(tr, i) && n + 1 < |tr| && Ending(tr[n].ss[i].pc, g)
    requires Phase(tr[n].ss[i].pc) == 3 && Phase(tr[n + 1].ss[i].pc) == 4
    ensures forall j :: 0 <= j < |tr[n].ss| && tr[n].ss[j].pc.Asleep? ==> tr[n + 1].ss[j].pc == Woken(tr[n].ss[j].pc.op)
  {
    hide Inv, Sessions.Next;
    TraceStep(tr, i, n);
    EndStep(tr[n], tr[n + 1], i, g);
  }

  lemma NotOwner(tr: seq<State>, i: nat, m: nat)
    requires IsTrace(tr, i) && m < |tr| && Returned(tr[m].ss[i]) && !tr[m].ss[i].inTxn
    ensures tr[m].owner != Some(i)
  {
    InitInv(tr[0]);
    RunInv(tr, m);
    assert Local(tr[m], i);
  }

  // ------------------------------------------------------------------
  // What a client can rely on
  // ------------------------------------------------------------------

  /** What a call is for. */
  function OpOf(c: Call): Op {
    match c
    case Select => Query(true)
    case Update => Query(false)
    case StartTxn => Begin
    case EndTxn => End(false)
    case Disconnect => End(true)
  }

  /** Calls that are answered without the storage: begin in a transaction,
      commit or rollback outside one, and disconnecting outside one. */
  predicate AnsweredAtOnce(x: Session, c: Call) {
    (c.StartTxn? && x.inTxn) || ((c.EndTxn? || c.Disconnect?) && !x.inTxn)
  }

  lemma CallStarts(s: State, i: nat, c: Call)
    requires i < |s.ss| && s.ss[i].pc.Idle?
    ensures |Called(s, i, c).ss| == |s.ss|
    ensures AnsweredAtOnce(s.ss[i], c) && !c.Disconnect? ==> Called(s, i, c) == s
    ensures AnsweredAtOnce(s.ss[i], c) && c.Disconnect? ==> Called(s, i, c).ss[i] == Session(Gone, false)
    ensures !AnsweredAtOnce(s.ss[i], c) ==> Waiting(Called(s, i, c).ss[i].pc, OpOf(c))
    ensures !AnsweredAtOnce(s.ss[i], c) ==> Called(s, i, c).ss[i].inTxn == s.ss[i].inTxn
  {
  }

  /** A call made at k that returns at m was served in the storage at n, in the
      transaction it was made in. Commit, rollback and disconnecting leave the
      session outside a transaction and without the slot. */
  lemma CallAnswered(tr: seq<State>, i: nat, c: Call, k: nat, m: nat) returns (n: nat)
    requires IsTrace(tr, i) && k + 1 < m < |tr|
    requires tr[k].ss[i].pc.Idle? && tr[k + 1] == Called(tr[k], i, c) && !AnsweredAtOnce(tr[k].ss[i], c)
    requires InCall(tr, i, k + 1, m) && Returned(tr[m].ss[i])
    ensures k < n < m && tr[n].ss[i] == Session(InStorage(OpOf(c)), tr[k].ss[i].inTxn)
    ensures c.EndTxn? || c.Disconnect? ==>
      tr[m].ss[i] == Session(if c.EndTxn? then Idle else Gone, false) && tr[m].owner != Some(i)
  {
    hide Waiting, Called, Init, IsRun;
    CallStarts(tr[k], i, c);
    n := CallServed(tr, i, OpOf(c), k + 1, m);
    if c.EndTxn? || c.Disconnect? {
      var _, _ := TransactionEnds(tr, i, c.Disconnect?, n, m);
    }
  }
}
