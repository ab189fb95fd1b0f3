/** The transaction gate: any number of sessions, a mutex-guarded owner slot
    with a condition variable, and a readers-writer lock on the storage.
    Sessions are numbered; the number is the session id. */
module Sessions {
  import opened Results

  /** What a session is doing for its client. End is commit, rollback or the
      rollback of a dropped session; gone tells the last. */
  datatype Op = Query(select: bool) | Begin | End(gone: bool)

  /** Program counter of a session. */
  datatype Pc =
    | Idle
    | Lock(op: Op)         // about to lock txn_owner
    | Check(op: Op)        // holds txn_owner, about to test it
    | Asleep(op: Op)       // in Condvar::wait, not notified
    | Woken(op: Op)        // notified, about to lock txn_owner again
    | AtLock(op: Op)       // past the gate, about to lock the storage
    | InStorage(op: Op)    // holds the storage lock
    | RelLock(gone: bool)  // release_txn_gate: about to lock txn_owner
    | RelHeld(gone: bool)
    | RelNotify(gone: bool)
    | RelUnlock(gone: bool)
    | Gone

  datatype Session = Session(pc: Pc, inTxn: bool)

  datatype State = State(ss: seq<Session>, mutex: Option<nat>, owner: Option<nat>, writer: Option<nat>, readers: set<nat>)

  datatype Call = Select | Update | StartTxn | EndTxn | Disconnect

  function At(s: State, i: nat, pc: Pc): State
    requires i < |s.ss|
  {
    s.(ss := s.ss[i := s.ss[i].(pc := pc)])
  }

  /** A client call; begin inside and commit outside a transaction fail at once. */
  function Called(s: State, i: nat, c: Call): State
    requires i < |s.ss|
  {
    match c
    case Select => At(s, i, Lock(Query(true)))
    case Update => At(s, i, Lock(Query(false)))
    case StartTxn => if s.ss[i].inTxn then s else At(s, i, Lock(Begin))
    case EndTxn => if s.ss[i].inTxn then At(s, i, AtLock(End(false))) else s
    case Disconnect => if s.ss[i].inTxn then At(s, i, AtLock(End(true))) else At(s, i, Gone)
  }

  /** Only a select outside a transaction takes the lock in read mode. */
  predicate Reads(x: Session, op: Op) {
    op.Query? && op.select && !x.inTxn
  }

  /** Whether the gate lets the session through. */
  predicate Passes(s: State, i: nat, op: Op) {
    s.owner.None? || (op.Query? && s.owner == Some(i))
  }

  /** The test under the mutex: through, with the claim for begin, or to sleep. */
  function Checked(s: State, i: nat, op: Op): State
    requires i < |s.ss|
  {
    if !Passes(s, i, op) then At(s, i, Asleep(op)).(mutex := None)
    else At(s, i, AtLock(op)).(mutex := None, owner := if op.Begin? then Some(i) else s.owner)
  }

  function Entered(s: State, i: nat, op: Op): State
    requires i < |s.ss|
  {
    if Reads(s.ss[i], op) then At(s, i, InStorage(op)).(readers := s.readers + {i})
    else At(s, i, InStorage(op)).(writer := Some(i))
  }

  predicate CanEnter(s: State, i: nat, op: Op)
    requires i < |s.ss|
  {
    s.writer.None? && (Reads(s.ss[i], op) || s.readers == {})
  }

  /** The storage call returns; ok is its result, which matters to begin only. */
  function Left(s: State, i: nat, op: Op, ok: bool): State
    requires i < |s.ss|
  {
    var u := if Reads(s.ss[i], op) then s.(readers := s.readers - {i}) else s.(writer := None);
    match op
    case Query(_) => At(u, i, Idle)
    case Begin => if ok then u.(ss := u.ss[i := Session(Idle, true)]) else At(u, i, RelLock(false))
    case End(g) => u.(ss := u.ss[i := Session(RelLock(g), false)])
  }

  function Wake(x: Session): Session {
    if x.pc.Asleep? then x.(pc := Woken(x.pc.op)) else x
  }

  /** notify_all */
  function WakeAll(ss: seq<Session>): (r: seq<Session>)
    ensures |r| == |ss| && forall j :: 0 <= j < |ss| ==> r[j] == Wake(ss[j])
  {
    seq(|ss|, j requires 0 <= j < |ss| => Wake(ss[j]))
  }

  /** One step of session i. A sleeping session does not step by itself. */
  ghost predicate Step(s: State, i: nat, s': State) {
    && i < |s.ss|
    && match s.ss[i].pc
       case Idle => exists c: Call :: s' == Called(s, i, c)
       case Lock(op) => s.mutex.None? && s' == At(s, i, Check(op)).(mutex := Some(i))
       case Woken(op) => s.mutex.None? && s' == At(s, i, Check(op)).(mutex := Some(i))
       case Check(op) => s' == Checked(s, i, op)
       case Asleep(_) => false
       case AtLock(op) => CanEnter(s, i, op) && s' == Entered(s, i, op)
       case InStorage(op) => s' == Left(s, i, op, true) || s' == Left(s, i, op, false)
       case RelLock(g) => s.mutex.None? && s' == At(s, i, RelHeld(g)).(mutex := Some(i))
       case RelHeld(g) => s' == At(s, i, RelNotify(g)).(owner := if s.owner == Some(i) then None else s.owner)
       case RelNotify(g) => s' == At(s, i, RelUnlock(g)).(ss := WakeAll(s.ss)[i := s.ss[i].(pc := RelUnlock(g))])
       case RelUnlock(g) => s' == At(s, i, if g then Gone else Idle).(mutex := None)
       case Gone => false
  }

  /** A condition variable may also wake a sleeper for no reason. */
  ghost predicate Spurious(s: State, i: nat, s': State) {
    i < |s.ss| && s.ss[i].pc.Asleep? && s' == At(s, i, Woken(s.ss[i].pc.op))
  }

  ghost predicate Next(s: State, s': State) {
    exists i: nat :: Step(s, i, s') || Spurious(s, i, s')
  }

  ghost predicate Init(s: State) {
    && (forall i :: 0 <= i < |s.ss| ==> s.ss[i] == Session(Idle, false))
    && s.mutex.None? && s.owner.None? && s.writer.None? && s.readers == {}
  }

  // ------------------------------------------------------------------
  // The invariant
  // ------------------------------------------------------------------

  predicate HoldsMutex(pc: Pc) {
    pc.Check? || pc.RelHeld? || pc.RelNotify? || pc.RelUnlock?
  }

  /** From the claim of begin to the clearing of the slot. */
  predicate Claims(x: Session) {
    || x.inTxn
    || (x.pc.AtLock? && x.pc.op.Begin?)
    || (x.pc.InStorage? && x.pc.op.Begin?)
    || x.pc.RelLock? || x.pc.RelHeld?
  }

  /** Which operations go with which program counters. */
  predicate Shape(x: Session) {
    match x.pc
    case Lock(op) => !op.End? && (op.Begin? ==> !x.inTxn)
    case Check(op) => !op.End? && (op.Begin? ==> !x.inTxn)
    case Asleep(op) => !op.End? && !x.inTxn
    case Woken(op) => !op.End? && !x.inTxn
    case AtLock(op) => (op.Begin? ==> !x.inTxn) && (op.End? ==> x.inTxn)
    case InStorage(op) => (op.Begin? ==> !x.inTxn) && (op.End? ==> x.inTxn)
    case Idle => true
    case _ => !x.inTxn
  }

  /** Someone holds the mutex with a notification still to send. */
  predicate Notifying(s: State) {
    s.mutex.Some? && s.mutex.value < |s.ss| && s.ss[s.mutex.value].pc.RelNotify?
  }

  ghost predicate Local(s: State, i: nat)
    requires i < |s.ss|
  {
    var x := s.ss[i];
    && Shape(x)
    && (s.mutex == Some(i) <==> HoldsMutex(x.pc))
    && (s.owner == Some(i) <==> Claims(x))
    && (s.writer == Some(i) <==> x.pc.InStorage? && !Reads(x, x.pc.op))
    && (i in s.readers <==> x.pc.InStorage? && Reads(x, x.pc.op))
    && (x.pc.Asleep? ==> s.owner.Some? || Notifying(s))
  }

  ghost predicate Inv(s: State) {
    && (s.mutex.Some? ==> s.mutex.value < |s.ss|)
    && (s.owner.Some? ==> s.owner.value < |s.ss|)
    && (s.writer.Some? ==> s.writer.value < |s.ss| && s.readers == {})
    && (forall r :: r in s.readers ==> r < |s.ss|)
    && forall i :: 0 <= i < |s.ss| ==> Local(s, i)
  }

  lemma InitInv(s: State)
    requires Init(s)
    ensures Inv(s)
  {
  }

  /** A move outside the locks that takes nothing and gives nothing back. */
  lemma QuietMove(s: State, i: nat, pc: Pc)
    requires Inv(s) && i < |s.ss| && Shape(s.ss[i].(pc := pc))
    requires s.ss[i].pc.Idle? && !HoldsMutex(pc) && !pc.InStorage? && !pc.Asleep?
    requires Claims(s.ss[i].(pc := pc)) == Claims(s.ss[i])
    ensures Inv(At(s, i, pc))
  {
    hide Claims, Reads;
    assert Local(s, i);
    forall j | 0 <= j < |s.ss| ensures Local(At(s, i, pc), j) {
      assert Local(s, j);
    }
  }

  lemma CallKeeps(s: State, i: nat, s': State)
    requires Inv(s) && Step(s, i, s') && s.ss[i].pc.Idle?
    ensures Inv(s')
  {
    hide Inv, At;
    var c: Call :| s' == Called(s, i, c);
    match c
    case Select => QuietMove(s, i, Lock(Query(true)));
    case Update => QuietMove(s, i, Lock(Query(false)));
    case StartTxn => if !s.ss[i].inTxn { QuietMove(s, i, Lock(Begin)); }
    case EndTxn => if s.ss[i].inTxn { QuietMove(s, i, AtLock(End(false))); }
    case Disconnect => if s.ss[i].inTxn { QuietMove(s, i, AtLock(End(true))); } else { QuietMove(s, i, Gone); }
  }

  lemma MutexKeeps(s: State, i: nat, s': State)
    requires Inv(s) && Step(s, i, s')
    requires s.ss[i].pc.Lock? || s.ss[i].pc.Woken? || s.ss[i].pc.RelLock? || s.ss[i].pc.RelUnlock?
    ensures Inv(s')
  {
    hide Reads;
    assert Local(s, i);
    forall j | 0 <= j < |s'.ss| ensures Local(s', j) {
      assert Local(s, j);
    }
  }

  lemma EnterKeeps(s: State, i: nat, s': State)
    requires Inv(s) && Step(s, i, s') && s.ss[i].pc.AtLock?
    ensures Inv(s')
  {
    assert Local(s, i);
    forall j | 0 <= j < |s'.ss| ensures Local(s', j) {
      assert Local(s, j);
    }
  }

  lemma CheckKeeps(s: State, i: nat, s': State)
    requires Inv(s) && Step(s, i, s') && s.ss[i].pc.Check?
    ensures Inv(s')
  {
    assert Local(s, i);
    forall j | 0 <= j < |s'.ss| ensures Local(s', j) {
      assert Local(s, j);
    }
  }

  lemma LeaveKeeps(s: State, i: nat, s': State)
    requires Inv(s) && Step(s, i, s') && s.ss[i].pc.InStorage?
    ensures Inv(s')
  {
    assert Local(s, i);
    forall j | 0 <= j < |s'.ss| ensures Local(s', j) {
      assert Local(s, j);
    }
  }

  lemma ReleaseKeeps(s: State, i: nat, s': State)
    requires Inv(s) && Step(s, i, s') && (s.ss[i].pc.RelHeld? || s.ss[i].pc.RelNotify?)
    ensures Inv(s')
  {
    assert Local(s, i);
    forall j | 0 <= j < |s'.ss| ensures Local(s', j) {
      assert Local(s, j);
    }
  }

  lemma StepKeeps(s: State, i: nat, s': State)
    requires Inv(s) && Step(s, i, s')
    ensures Inv(s') && |s'.ss| == |s.ss|
  {
    hide Inv, Local;
    SameSessions(s, i, s');
    match s.ss[i].pc
    case Idle => CallKeeps(s, i, s');
    case Check(_) => CheckKeeps(s, i, s');
    case AtLock(_) => EnterKeeps(s, i, s');
    case InStorage(_) => LeaveKeeps(s, i, s');
    case RelHeld(_) => ReleaseKeeps(s, i, s');
    case RelNotify(_) => ReleaseKeeps(s, i, s');
    case Lock(_) => MutexKeeps(s, i, s');
    case Woken(_) => MutexKeeps(s, i, s');
    case RelLock(_) => MutexKeeps(s, i, s');
    case RelUnlock(_) => MutexKeeps(s, i, s');
    case _ =>
  }

  lemma SameSessions(s: State, i: nat, s': State)
    requires Step(s, i, s')
    ensures |s'.ss| == |s.ss| && !s.ss[i].pc.Asleep? && !s.ss[i].pc.Gone?
  {
    hide Claims, Passes;
  }

  lemma SpuriousKeeps(s: State, i: nat, s': State)
    requires Inv(s) && Spurious(s, i, s')
    ensures Inv(s') && |s'.ss| == |s.ss|
  {
    assert Local(s, i);
    forall j | 0 <= j < |s'.ss| ensures Local(s', j) {
      assert Local(s, j);
    }
  }

  /** Every step of every session keeps the invariant. */
  lemma NextKeeps(s: State, s': State)
    requires Inv(s) && Next(s, s')
    ensures Inv(s') && |s'.ss| == |s.ss|
  {
    hide Inv, Step, Spurious;
    var i: nat :| Step(s, i, s') || Spurious(s, i, s');
    if Spurious(s, i, s') {
      SpuriousKeeps(s, i, s');
    } else {
      StepKeeps(s, i, s');
    }
  }

  // ------------------------------------------------------------------
  // Safety
  // ------------------------------------------------------------------

  ghost predicate IsRun(tr: seq<State>) {
    tr != [] && forall k :: 0 <= k < |tr| - 1 ==> Next(tr[k], tr[k + 1])
  }

  lemma {:induction false} RunInv(tr: seq<State>, k: nat)
    requires IsRun(tr) && Inv(tr[0]) && k < |tr|
    ensures Inv(tr[k]) && |tr[k].ss| == |tr[0].ss|
  {
    hide Inv, Next;
    if k > 0 {
      RunInv(tr, k - 1);
      NextKeeps(tr[k - 1], tr[k]);
    }
  }

  /** At most one session is in a transaction; it owns the slot. */
  ghost predicate OneTransaction(s: State) {
    && (forall i :: 0 <= i < |s.ss| && s.ss[i].inTxn ==> s.owner == Some(i))
    && (forall i, j :: 0 <= i < |s.ss| && 0 <= j < |s.ss| && s.ss[i].inTxn && s.ss[j].inTxn ==> i == j)
  }

  /** A select outside a transaction, in the storage. */
  predicate Selecting(x: Session) {
    x.pc == InStorage(Query(true)) && !x.inTxn
  }

  /** No session holds the owner mutex and the storage lock together; whoever
      shares the storage is selecting outside a transaction, so that inserts,
      begin, commit, rollback and a transaction's own statements are alone. */
  ghost predicate LocksApart(s: State) {
    && (forall i :: 0 <= i < |s.ss| && s.ss[i].pc.InStorage? ==> s.mutex != Some(i))
    && (forall i, j :: 0 <= i < |s.ss| && 0 <= j < |s.ss| && i != j && s.ss[i].pc.InStorage? && s.ss[j].pc.InStorage? ==>
         Selecting(s.ss[i]) && Selecting(s.ss[j]))
  }

  /** Whenever the mutex is free and nobody owns the slot, nobody is asleep. */
  ghost predicate NoLostWakeup(s: State) {
    s.mutex.None? && s.owner.None? ==> forall i :: 0 <= i < |s.ss| ==> !s.ss[i].pc.Asleep?
  }

  lemma InvSafe(s: State)
    requires Inv(s)
    ensures OneTransaction(s) && LocksApart(s) && NoLostWakeup(s)
  {
    forall i | 0 <= i < |s.ss| ensures Local(s, i) && (s.ss[i].inTxn ==> s.owner == Some(i)) {
    }
    forall i | 0 <= i < |s.ss| && s.ss[i].pc.InStorage? ensures s.mutex != Some(i) && (s.writer == Some(i) || i in s.readers) {
      assert Local(s, i);
    }
    forall i, j | 0 <= i < |s.ss| && 0 <= j < |s.ss| && i != j && s.ss[i].pc.InStorage? && s.ss[j].pc.InStorage?
      ensures Selecting(s.ss[i]) && Selecting(s.ss[j])
    {
      assert Local(s, i) && Local(s, j);
    }
    forall i | 0 <= i < |s.ss| && s.mutex.None? && s.owner.None? ensures !s.ss[i].pc.Asleep? {
      assert Local(s, i);
    }
  }

  lemma WriterWrites(s: State, w: nat)
    requires Inv(s) && s.writer == Some(w)
    ensures w < |s.ss| && s.ss[w].pc.InStorage? && !Selecting(s.ss[w])
  {
    assert Local(s, w);
  }

  /** Selects do not wait for each other. */
  lemma SelectsShare(s: State, i: nat) returns (s': State)
    requires Inv(s) && i < |s.ss| && s.ss[i].pc == AtLock(Query(true)) && !s.ss[i].inTxn
    requires forall j :: 0 <= j < |s.ss| && s.ss[j].pc.InStorage? ==> Selecting(s.ss[j])
    ensures Step(s, i, s') && |s'.ss| == |s.ss| && Selecting(s'.ss[i])
    ensures forall j :: 0 <= j < |s.ss| && j != i ==> s'.ss[j] == s.ss[j]
  {
    if s.writer.Some? {
      WriterWrites(s, s.writer.value);
      assert false;
    }
    s' := Entered(s, i, Query(true));
  }

  /** In every reachable state of any number of sessions. */
  lemma GateSafe(tr: seq<State>, k: nat)
    requires IsRun(tr) && Init(tr[0]) && k < |tr|
    ensures OneTransaction(tr[k]) && LocksApart(tr[k]) && NoLostWakeup(tr[k])
  {
    hide Inv, Init, OneTransaction, LocksApart, NoLostWakeup, IsRun;
    InitInv(tr[0]);
    RunInv(tr, k);
    InvSafe(tr[k]);
  }

  // ------------------------------------------------------------------
  // Progress
  // ------------------------------------------------------------------

  ghost predicate CanStep(s: State, i: nat) {
    exists s' :: Step(s, i, s')
  }

  /** The session is in the middle of a call. */
  predicate Busy(x: Session) {
    !x.pc.Idle? && !x.pc.Gone?
  }

  /** Everybody in a call waits for a transaction whose client is silent. */
  ghost predicate WaitingForOwner(s: State) {
    && s.owner.Some? && s.owner.value < |s.ss|
    && s.ss[s.owner.value] == Session(Idle, true)
    && forall i :: 0 <= i < |s.ss| && Busy(s.ss[i]) ==> s.ss[i].pc.Asleep?
  }

  lemma CanMove(s: State, i: nat)
    requires i < |s.ss| && Busy(s.ss[i]) && !s.ss[i].pc.Asleep?
    requires s.ss[i].pc.Lock? || s.ss[i].pc.Woken? || s.ss[i].pc.RelLock? ==> s.mutex.None?
    requires s.ss[i].pc.AtLock? ==> CanEnter(s, i, s.ss[i].pc.op)
    ensures CanStep(s, i)
  {
    hide At, Checked, Entered, Left, WakeAll, CanEnter;
    match s.ss[i].pc
    case Lock(op) => assert Step(s, i, At(s, i, Check(op)).(mutex := Some(i)));
    case Woken(op) => assert Step(s, i, At(s, i, Check(op)).(mutex := Some(i)));
    case Check(op) => assert Step(s, i, Checked(s, i, op));
    case AtLock(op) => assert Step(s, i, Entered(s, i, op));
    case InStorage(op) => assert Step(s, i, Left(s, i, op, true));
    case RelLock(g) => assert Step(s, i, At(s, i, RelHeld(g)).(mutex := Some(i)));
    case RelHeld(g) => assert Step(s, i, At(s, i, RelNotify(g)).(owner := if s.owner == Some(i) then None else s.owner));
    case RelNotify(g) => assert Step(s, i, At(s, i, RelUnlock(g)).(ss := WakeAll(s.ss)[i := s.ss[i].(pc := RelUnlock(g))]));
    case RelUnlock(g) => assert Step(s, i, At(s, i, if g then Gone else Idle).(mutex := None));
  }

  /** Whoever can move, if anyone holds a lock or needs only free ones. */
  lemma SomeoneMoves(s: State, i: nat) returns (j: nat)
    requires Inv(s) && i < |s.ss| && Busy(s.ss[i]) && !s.ss[i].pc.Asleep?
    ensures j < |s.ss| && Busy(s.ss[j]) && CanStep(s, j)
  {
    hide CanStep, Claims, Shape, Reads;
    assert Local(s, i);
    if s.mutex.Some? {
      j := s.mutex.value;
    } else if s.writer.Some? {
      j := s.writer.value;
    } else if s.readers != {} {
      j :| j in s.readers;
    } else {
      j := i;
    }
    assert Local(s, j);
    CanMove(s, j);
  }

  /** No deadlock: some session inside a call can step, unless all of them
      sleep until the owner of the transaction hears from its client. */
  lemma Progress(s: State)
    requires Inv(s) && exists i :: 0 <= i < |s.ss| && Busy(s.ss[i])
    ensures (exists j :: 0 <= j < |s.ss| && Busy(s.ss[j]) && CanStep(s, j)) <==> !WaitingForOwner(s)
  {
    hide CanStep;
    if i: nat :| i < |s.ss| && Busy(s.ss[i]) && !s.ss[i].pc.Asleep? {
      var j := SomeoneMoves(s, i);
      assert !WaitingForOwner(s);
    } else {
      var i :| 0 <= i < |s.ss| && Busy(s.ss[i]);
      assert Local(s, i);
      assert !Notifying(s);
      var o := s.owner.value;
      assert Local(s, o);
      forall j | 0 <= j < |s.ss| && Busy(s.ss[j]) ensures !CanStep(s, j) {
        SleepersStay(s, j);
      }
    }
  }

  lemma SleepersStay(s: State, j: nat)
    requires j < |s.ss| && s.ss[j].pc.Asleep?
    ensures !CanStep(s, j)
  {
  }

  // ------------------------------------------------------------------
  // The gate and the lock are two steps
  // ------------------------------------------------------------------

  /** Session o owns the slot all along. */
  ghost predicate OwnedThroughout(tr: seq<State>, o: nat) {
    forall k :: 0 <= k < |tr| ==> tr[k].owner == Some(o)
  }

  /** Session j enters the storage at step k. */
  ghost predicate Enters(tr: seq<State>, j: nat, k: nat) {
    && k + 1 < |tr| && j < |tr[k].ss| && j < |tr[k + 1].ss|
    && tr[k].ss[j].pc.AtLock? && tr[k + 1].ss[j].pc.InStorage?
  }

  /** While someone else owns the slot, nobody gets past the gate. */
  lemma GateClosed(s: State, s': State, o: nat, j: nat)
    requires Inv(s) && Next(s, s') && s.owner == Some(o) && j != o && j < |s.ss| == |s'.ss|
    requires s'.ss[j].pc.AtLock?
    ensures s.ss[j].pc.AtLock?
  {
    assert Local(s, j);
    hide Inv, Local;
    var i: nat :| Step(s, i, s') || Spurious(s, i, s');
    if Step(s, i, s') && i == j {
      OwnStep(s, j, s', o);
    } else if Step(s, i, s') {
      OtherStep(s, i, s', j);
    }
  }

  lemma OwnStep(s: State, j: nat, s': State, o: nat)
    requires Step(s, j, s') && Local(s, j) && s.owner == Some(o) && j != o && j < |s'.ss|
    ensures !s'.ss[j].pc.AtLock?
  {
  }

  /** A step of one session only ever wakes another. */
  lemma OtherStep(s: State, i: nat, s': State, j: nat)
    requires Step(s, i, s') && i != j && j < |s.ss| == |s'.ss|
    ensures s'.ss[j] == s.ss[j] || s'.ss[j] == Wake(s.ss[j])
  {
    hide Passes, Reads, Claims;
  }

  lemma {:induction false} PassedBefore(tr: seq<State>, o: nat, j: nat, k: nat, m: nat)
    requires IsRun(tr) && Inv(tr[0]) && OwnedThroughout(tr, o) && j != o
    requires m <= k < |tr| && j < |tr[0].ss| && j < |tr[k].ss| && tr[k].ss[j].pc.AtLock?
    ensures j < |tr[m].ss| && tr[m].ss[j].pc.AtLock?
    decreases k
  {
    hide Inv, Next;
    RunInv(tr, m);
    if m < k {
      RunInv(tr, k - 1);
      RunInv(tr, k);
      assert Next(tr[k - 1], tr[k]);
      GateClosed(tr[k - 1], tr[k], o, j);
      PassedBefore(tr, o, j, k - 1, m);
    }
  }

  /** A foreign statement that touches the storage while o owns the slot had
      passed the gate before, and each session does so at most once. */
  lemma ForeignEntries(tr: seq<State>, o: nat, j: nat, k: nat, m: nat)
    requires IsRun(tr) && Inv(tr[0]) && OwnedThroughout(tr, o) && j != o && j < |tr[0].ss|
    requires Enters(tr, j, k)
    ensures tr[0].ss[j].pc.AtLock?
    ensures Enters(tr, j, m) ==> m == k
  {
    hide Inv, Next;
    PassedBefore(tr, o, j, k, 0);
    if Enters(tr, j, m) {
      if m < k {
        PassedBefore(tr, o, j, k, m + 1);
      } else if k < m {
        PassedBefore(tr, o, j, m, k + 1);
      }
    }
  }

  /** From s on, no other session touches the storage as long as o stays in
      its transaction. */
  ghost predicate Isolated(s: State, o: nat) {
    forall tr: seq<State>, j: nat, k: nat ::
      IsRun(tr) && tr[0] == s && OwnedThroughout(tr, o) && j != o ==> !Enters(tr, j, k)
  }

  /** Exactly when the transaction that begin has just opened is isolated: no
      other session stands between the gate and the lock. */
  lemma IsolationExact(s: State, o: nat, s': State)
    requires Inv(s) && Step(s, o, s')
    requires s.ss[o].pc == InStorage(Begin) && s' == Left(s, o, Begin, true)
    ensures s'.ss[o].inTxn && s'.owner == Some(o)
    ensures Isolated(s', o) <==> forall j :: 0 <= j < |s'.ss| && j != o ==> !s'.ss[j].pc.AtLock?
  {
    assert Local(s, o);
    StepKeeps(s, o, s');
    hide Inv, Local, Step;
    if j :| 0 <= j < |s'.ss| && j != o && s'.ss[j].pc.AtLock? {
      Intruder(s', o, j);
    } else {
      forall tr: seq<State>, j: nat, k: nat | IsRun(tr) && tr[0] == s' && OwnedThroughout(tr, o) && j != o
        ensures !Enters(tr, j, k)
      {
        if Enters(tr, j, k) {
          RunInv(tr, k);
          ForeignEntries(tr, o, j, k, k);
        }
      }
    }
  }

  lemma Intruder(s: State, o: nat, j: nat)
    requires j < |s.ss| && j != o && s.ss[j].pc.AtLock? && s.owner == Some(o)
    requires s.writer.None? && s.readers == {}
    ensures !Isolated(s, o)
  {
    var op := s.ss[j].pc.op;
    var e := Entered(s, j, op);
    assert Step(s, j, e);
    var tr := [s, e];
    assert Next(tr[0], tr[1]);
    assert IsRun(tr) && OwnedThroughout(tr, o) && Enters(tr, j, 0);
  }

  /** Session 0 passes the gate with an insert; session 1 begins; then the insert runs. */
  function Trace(k: nat): State {
    var idle, past := Session(Idle, false), Session(AtLock(Query(false)), false);
    match k
    case 0 => State([idle, idle], None, None, None, {})
    case 1 => State([Session(Lock(Query(false)), false), idle], None, None, None, {})
    case 2 => State([Session(Check(Query(false)), false), idle], Some(0), None, None, {})
    case 3 => State([past, idle], None, None, None, {})
    case 4 => State([past, Session(Lock(Begin), false)], None, None, None, {})
    case 5 => State([past, Session(Check(Begin), false)], Some(1), None, None, {})
    case 6 => State([past, Session(AtLock(Begin), false)], None, Some(1), None, {})
    case 7 => State([past, Session(InStorage(Begin), false)], None, Some(1), Some(1), {})
    case 8 => State([past, Session(Idle, true)], None, Some(1), None, {})
    case _ => State([Session(InStorage(Query(false)), false), Session(Idle, true)], None, Some(1), Some(0), {})
  }

  lemma TraceSteps(k: nat)
    requires k < 9
    ensures Step(Trace(k), if 3 <= k < 8 then 1 else 0, Trace(k + 1))
  {
    var s := Trace(k);
    if k == 0 {
      assert Trace(1) == Called(s, 0, Update);
    } else if k == 3 {
      assert Trace(4) == Called(s, 1, StartTxn);
    } else if k == 7 {
      assert Trace(8) == Left(s, 1, Begin, true);
    }
  }

  /** The gate alone does not isolate: an insert that passed it before the
      claim runs inside the transaction. */
  lemma InsertInsideTransaction()
    ensures exists tr: seq<State> ::
      && IsRun(tr) && Init(tr[0]) && |tr| == 10 && |tr[8].ss| == |tr[9].ss| == 2
      && tr[8].owner == Some(1) && tr[8].ss[1].inTxn
      && tr[9].ss[0].pc == InStorage(Query(false)) && tr[9].ss[1].inTxn
  {
    hide Step;
    var tr := seq(10, k requires 0 <= k => Trace(k));
    forall k | 0 <= k < |tr| - 1 ensures Next(tr[k], tr[k + 1]) {
      TraceSteps(k);
    }
    assert IsRun(tr) && Init(tr[0]);
    assert tr[8] == Trace(8) && tr[9] == Trace(9);
  }
}
