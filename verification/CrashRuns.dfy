/** Whole lives of a table's files: commits, rollbacks, crashes at any point,
    and reopenings that may crash too. */
module CrashRuns {
  import opened Bytes
  import opened WalLog
  import opened Media
  import opened Crash
  import opened CommitAtomicity

  /** An open handle with its transaction number, or files no process has open. */
  datatype Db = Live(m: Medium, txn: nat) | Down(m: Medium)

  datatype Event =
    | Commit(ws: seq<Write>)
    | CommitCrash(ws: seq<Write>, done: nat, left: Medium)
    | Rollback
    | IdleCrash(left: Medium)
    | Reopen
    | ReopenCrash(done: nat, left: Medium)

  ghost predicate Next(s: Db, e: Event, s': Db) {
    match e
    case Commit(ws) =>
      && s.Live? && s.txn < TWO64 && Writable(ws)
      && s' == Live(ExecAll(s.m, CommitOps(s.txn, ws)), s.txn + 1)
    case CommitCrash(ws, k, c) =>
      && s.Live? && s.txn < TWO64 && Writable(ws)
      && k <= |CommitOps(s.txn, ws)| && CrashesTo(ExecAll(s.m, CommitOps(s.txn, ws)[..k]), c)
      && s' == Down(c)
    case Rollback => s.Live? && s' == Live(Exec(s.m, WalTruncate), s.txn)
    case IdleCrash(c) => s.Live? && CrashesTo(s.m, c) && s' == Down(c)
    case Reopen => s.Down? && s' == Live(ExecAll(s.m, RecoveryOps(s.m.log)), 0)
    case ReopenCrash(k, c) =>
      && s.Down? && k <= |RecoveryOps(s.m.log)| && CrashesTo(ExecAll(s.m, RecoveryOps(s.m.log)[..k]), c)
      && s' == Down(c)
  }

  /** A commit starts on a log that holds nothing of its transaction. */
  ghost predicate Guarded(s: Db, e: Event) {
    (e.Commit? || e.CommitCrash?) && s.Live? ==> CleanTail(s.m.log, s.txn)
  }

  /** What the event may do to the committed pages: a commit is all or
      nothing, and all once its marker is durable; nothing else changes them. */
  ghost predicate Allowed(v: seq<Page>, e: Event, v': seq<Page>) {
    match e
    case Commit(ws) => v' == Replay(v, ws)
    case CommitCrash(ws, k, _) => v' == Replay(v, ws) || (v' == v && k < MarkerSynced(ws))
    case _ => v' == v
  }

  /** The committed pages of a state are v. */
  ghost predicate Holds(s: Db, v: seq<Page>) {
    if s.Live? then Idle(s.m, v) else Recoverable(s.m, v)
  }

  lemma IdleCrashes(m: Medium, v: seq<Page>, c: Medium)
    requires Idle(m, v) && CrashesTo(m, c)
    ensures Recoverable(c, v)
  {
    hide Recovered, Replay;
    OnlySurvivor(v, c.db);
    NoReplay(v);
    if c.log != m.logSynced {
      NothingInPrefix(c.log, m.log);
    }
  }

  /** Every guarded event keeps the files in a state with well-defined
      committed pages, and changes those only as allowed. */
  lemma StepHolds(s: Db, e: Event, s': Db, v: seq<Page>) returns (v': seq<Page>)
    requires Holds(s, v) && Next(s, e, s') && Guarded(s, e)
    ensures Holds(s', v') && Allowed(v, e, v')
  {
    hide Idle, Recoverable, CleanTail, CommitOps, RecoveryOps, Replay, ExecAll, CrashesTo;
    v' := v;
    match e
    case Commit(ws) =>
      CommitDone(s.m, v, s.txn, ws);
      v' := Replay(v, ws);
    case CommitCrash(ws, k, c) =>
      if k < MarkerSynced(ws) {
        CrashBeforeSync(s.m, v, s.txn, ws, k, c);
        if !Recoverable(c, v) {
          v' := Replay(v, ws);
        }
      } else {
        CrashAfterSync(s.m, v, s.txn, ws, k, c);
        v' := Replay(v, ws);
      }
    case Rollback =>
      TruncateIdle(s.m, v);
    case IdleCrash(c) =>
      IdleCrashes(s.m, v, c);
    case Reopen =>
      RecoveryDone(s.m, v);
    case ReopenCrash(k, c) =>
      CrashInRecovery(s.m, v, k, c);
  }

  lemma TruncateIdle(m: Medium, v: seq<Page>)
    requires Idle(m, v)
    ensures Idle(Exec(m, WalTruncate), v)
  {
    EmptyLog();
  }

  ghost predicate IsRun(ss: seq<Db>, es: seq<Event>) {
    && |ss| == |es| + 1
    && forall i :: 0 <= i < |es| ==> Next(ss[i], es[i], ss[i + 1]) && Guarded(ss[i], es[i])
  }

  /** vs are the committed pages along a run. */
  ghost predicate Explains(ss: seq<Db>, es: seq<Event>, vs: seq<seq<Page>>) {
    && |ss| == |vs| == |es| + 1
    && (forall i :: 0 <= i < |ss| ==> Holds(ss[i], vs[i]))
    && (forall i :: 0 <= i < |es| ==> Allowed(vs[i], es[i], vs[i + 1]))
  }

  /** Atomicity and durability over every run, however long and however it crashes. */
  lemma {:induction false} RunHolds(ss: seq<Db>, es: seq<Event>, v: seq<Page>) returns (vs: seq<seq<Page>>)
    requires IsRun(ss, es) && Holds(ss[0], v)
    ensures Explains(ss, es, vs) && vs[0] == v
    decreases |es|
  {
    hide Holds, Next, Guarded, Allowed;
    if es == [] {
      vs := [v];
    } else {
      var n := |es| - 1;
      var before := RunHolds(ss[..n + 1], es[..n], v);
      var last := StepHolds(ss[n], es[n], ss[n + 1], before[n]);
      vs := before + [last];
      assert ss[..n + 1][n] == ss[n];
      forall i | 0 <= i < |ss| ensures Holds(ss[i], vs[i]) {
        if i <= n {
          assert ss[..n + 1][i] == ss[i];
        }
      }
      forall i | 0 <= i < |es| ensures Allowed(vs[i], es[i], vs[i + 1]) {
        if i < n {
          assert es[..n][i] == es[i];
        }
      }
    }
  }

  /** Commits keep the guard for themselves: after a complete commit, a
      rollback, or a reopening that replayed something, the log is empty. */
  lemma GuardRestored(s: Db, e: Event, s': Db, v: seq<Page>)
    requires Holds(s, v) && Next(s, e, s') && Guarded(s, e)
    requires e.Commit? || e.Rollback? || (e.Reopen? && Recovered(s.m.log) != [])
    ensures s'.Live? && s'.m.log == [] && forall t: nat :: CleanTail(s'.m.log, t)
  {
    hide Idle, Recoverable, CleanTail, CommitOps, RecoveryOps, Replay, ExecAll, Recovered;
    EmptyLog();
    match e
    case Commit(ws) => CommitDone(s.m, v, s.txn, ws);
    case Rollback =>
    case Reopen => RecoveryDone(s.m, v);
  }

  // ------------------------------------------------------------------
  // Without the guard
  // ------------------------------------------------------------------

  lemma StaleLog(txn: nat, w: Write)
    requires txn < TWO64 && w.page < TWO32
    ensures Records(PageBytes(txn, w)) == [PageRecord(txn, w)]
    ensures Recovered(PageBytes(txn, w)) == []
  {
    OnePageLog(txn, w, {txn});
    ParsePage(txn, w);
    hide PageBytes;
    var x := PageBytes(txn, w);
    assert x == x + [];
    RecordsCons(x, []);
    ShortLog([]);
    var rs := [PageRecord(txn, w)];
    assert Records(x) == rs && Committed(rs) == {};
    hide Records;
    RedoNone(rs, {});
  }

  /** A first transaction writes page 1 and crashes with its page record
      logged but not its marker; reopening keeps that record. A second
      transaction, again number 0, writes page 0 and crashes with its marker
      durable. The files now recover to a mixture of the two. */
  lemma StaleRecordMixes()
    ensures var z, x := ZeroPage(), OnePage(1);
      var v: seq<Page> := [z, z];
      var stale := PageBytes(0, Write(1, x));
      var c1 := Medium(v, v, [], stale, stale);
      var ws := [Write(0, x)];
      var log := stale + Batch(0, ws);
      var c2 := Medium(v, v, [], log, log);
      && Next(Live(Medium(v, v, [], [], []), 0), CommitCrash([Write(1, x)], 1, c1), Down(c1))
      && Next(Down(c1), Reopen, Live(c1, 0))
      && Next(Live(c1, 0), CommitCrash(ws, MarkerSynced(ws), c2), Down(c2))
      && Next(Down(c2), Reopen, Live(Medium([x, x], [x, x], [], [], log), 0))
      && [x, x] != v && [x, x] != Replay(v, ws)
  {
    hide PageBytes, Batch, Next, Replay, OnePage, ZeroPage;
    var z, x := ZeroPage(), OnePage(1);
    var v: seq<Page> := [z, z];
    PagesDiffer();
    FirstCrash(v, Write(1, x));
    SecondCrash(v, Write(1, x), [Write(0, x)]);
    MixedPages(v, x, z);
  }

  lemma FirstCrash(v: seq<Page>, w: Write)
    requires w.page < TWO32
    ensures var stale := PageBytes(0, w);
      var c := Medium(v, v, [], stale, stale);
      && Next(Live(Medium(v, v, [], [], []), 0), CommitCrash([w], 1, c), Down(c))
      && Next(Down(c), Reopen, Live(c, 0))
  {
    hide PageBytes, CommitBytes, Recovered;
    var stale := PageBytes(0, w);
    var c0 := Medium(v, v, [], [], []);
    assert Writable([w]);
    assert CommitOps(0, [w])[..1] == [WalAppend(stale)];
    ExecTwo(c0, WalAppend(stale), WalSync);
    assert [] + stale == stale;
    StaleLog(0, w);
  }

  lemma SecondCrash(v: seq<Page>, w: Write, ws: seq<Write>)
    requires w.page < TWO32 && Writable(ws)
    ensures var stale := PageBytes(0, w);
      var log, db := stale + Batch(0, ws), Replay(v, [w] + ws);
      var c := Medium(v, v, [], log, log);
      && Next(Live(Medium(v, v, [], stale, stale), 0), CommitCrash(ws, MarkerSynced(ws), c), Down(c))
      && Next(Down(c), Reopen, Live(Medium(db, db, [], [], log), 0))
  {
    hide PageBytes, Batch, Recovered, CommitOps, RecoveryOps, Replay;
    var stale := PageBytes(0, w);
    var c0 := Medium(v, v, [], stale, stale);
    var log := stale + Batch(0, ws);
    var c := Medium(v, v, [], log, log);
    CommitPrefixApply(c0, 0, ws, 0);
    assert ws[..0] == [];
    NoReplay(v);
    MixedRecovery(w, ws);
    var n := |ws| + 3;
    RecoveryPrefix(c, n);
    assert RecoveryOps(log)[..n] == RecoveryOps(log);
  }

  lemma MixedRecovery(w1: Write, ws: seq<Write>)
    requires w1.page < TWO32 && Writable(ws)
    ensures Recovered(PageBytes(0, w1) + Batch(0, ws)) == [w1] + ws
  {
    StaleLog(0, w1);
    OnePageLog(0, w1, {0});
    BatchRecovers(PageBytes(0, w1), 0, ws);
    assert {} + {0} == {0};
  }

  lemma MixedPages(v: seq<Page>, x: Page, z: Page)
    requires v == [z, z] && x != z
    ensures Replay(v, [Write(1, x)] + [Write(0, x)]) == [x, x]
    ensures Replay(v, [Write(0, x)]) == [x, z]
  {
    var a, b := Write(1, x), Write(0, x);
    assert [a] + [b] == [a, b] && [a, b][1..] == [b] && [b][1..] == [];
    assert Replay(v, [b]) == Replay(WriteAt(v, b), []);
    assert WriteAt(v, b) == [x, z];
    assert WriteAt(v, a) == [z, x] && WriteAt(WriteAt(v, a), b) == [x, x];
    assert Replay(v, [a, b]) == Replay(WriteAt(v, a), [b]);
    assert Replay(WriteAt(v, a), [b]) == Replay(WriteAt(WriteAt(v, a), b), []);
  }

  lemma ByteThenZeros(x: byte)
    ensures FromLE([x] + Zeros(7)) == x
  {
    ZeroLE(7);
    assert ([x] + Zeros(7))[1..] == Zeros(7);
  }

  lemma ZeroNumber(n: nat)
    ensures ToLE(0, n) == Zeros(n)
    decreases n
  {
    if n > 0 {
      ZeroNumber(n - 1);
      assert Zeros(n) == [0] + Zeros(n - 1);
    }
  }

  /** Shifted up by one, a record of transaction 0 shows its type as the number. */
  lemma ShiftedNumber(p: seq<byte>, b: seq<byte>, kind: byte)
    requires |p| == |b| == RECORD_SIZE && b[1..] == p[..RECORD_SIZE - 1]
    requires p[0] == kind && p[1..9] == Zeros(8)
    ensures b[1..9] == [kind] + Zeros(7)
  {
    forall i | 0 <= i < 8 ensures b[1..9][i] == ([kind] + Zeros(7))[i] {
      assert b[1..9][i] == b[1..][i] == p[i];
      if i > 0 {
        assert p[1..9][i - 1] == p[i];
      }
    }
  }

  /** The first shifted record is a page record of transaction 1. */
  lemma ShiftedFirst(w: Write)
    ensures var a := Parse([1] + PageBytes(0, w)[..RECORD_SIZE - 1]); a.PageRecord? && a.txn == 1
  {
    hide FromLE, ToLE;
    ZeroNumber(8);
    ByteThenZeros(1);
    var p := PageBytes(0, w);
    assert p[0] == 1 && p[1..9] == ToLE(0, 8);
    var b: seq<byte> := [1] + p[..RECORD_SIZE - 1];
    ShiftedNumber(p, b, 1);
  }

  /** The second one, if it is a commit record, is one of transaction 2. */
  lemma ShiftedSecond(w: Write)
    ensures var b := Parse([PageBytes(0, w)[RECORD_SIZE - 1]] + CommitBytes(0)[..RECORD_SIZE - 1]);
      b.Unknown? || b.txn == 2
  {
    hide FromLE, PageBytes;
    ZeroNumber(8);
    ByteThenZeros(2);
    var c := CommitBytes(0);
    assert c[0] == 2 && c[1..9] == ToLE(0, 8);
    var b := [PageBytes(0, w)[RECORD_SIZE - 1]] + c[..RECORD_SIZE - 1];
    ShiftedNumber(c, b, 2);
  }

  /** A torn byte left in the log shifts every later record: a commit whose
      marker is durable is then not recovered at all. */
  lemma TornTailLosesCommit(w: Write)
    requires w.page < TWO32
    ensures Recovered([1] + Batch(0, [w])) == []
  {
    hide PageBytes, CommitBytes, Parse, Records;
    var p, c := PageBytes(0, w), CommitBytes(0);
    var a: seq<byte>, b := [1] + p[..RECORD_SIZE - 1], [p[RECORD_SIZE - 1]] + c[..RECORD_SIZE - 1];
    var tail := c[RECORD_SIZE - 1..];
    OneBatch(0, w);
    assert [1] + (p + c) == a + (b + tail);
    RecordsCons(a, b + tail);
    RecordsCons(b, tail);
    ShortLog(tail);
    ShiftedFirst(w);
    ShiftedSecond(w);
    var rs := [Parse(a), Parse(b)];
    assert [Parse(a)] + ([Parse(b)] + []) == rs;
    NothingOf(rs);
  }

  lemma NothingOf(rs: seq<Record>)
    requires |rs| == 2 && rs[0].PageRecord? && rs[0].txn == 1 && (rs[1].Unknown? || rs[1].txn == 2)
    ensures Redo(rs, Committed(rs)) == []
  {
    if rs[1].PageRecord? {
      assert Committed(rs) == {};
    } else {
      assert forall t :: t in Committed(rs) ==> t == 2;
    }
    RedoNone(rs, Committed(rs));
  }

  /** A first commit crashes with one byte of its first record on disk;
      reopening keeps that byte. A second commit, again number 0, crashes with
      its marker durable. Reopening finds the old pages: a durable commit is lost. */
  lemma TornTailRun(v: seq<Page>, w: Write)
    requires w.page < TWO32
    ensures var c1 := Medium(v, v, [], [1], [1]);
      var log := [1] + Batch(0, [w]);
      var c2 := Medium(v, v, [], log, log);
      && Next(Live(Medium(v, v, [], [], []), 0), CommitCrash([w], 1, c1), Down(c1))
      && Next(Down(c1), Reopen, Live(c1, 0))
      && Next(Live(c1, 0), CommitCrash([w], MarkerSynced([w]), c2), Down(c2))
      && Next(Down(c2), Reopen, Live(c2, 0))
  {
    hide PageBytes, CommitBytes, Batch, Recovered, CommitOps, Replay;
    var c0, c1 := Medium(v, v, [], [], []), Medium(v, v, [], [1], [1]);
    var log := [1] + Batch(0, [w]);
    var c2 := Medium(v, v, [], log, log);
    assert Writable([w]);
    NoReplay(v);
    CommitPrefixLog(c0, 0, [w], 1);
    assert [w][..1] == [w];
    OneRecord(w);
    assert [] + Pages(0, [w]) == Pages(0, [w]);
    ShortRecovers([1]);
    CommitPrefixApply(c1, 0, [w], 0);
    assert [w][..0] == [];
    TornTailLosesCommit(w);
    RecoveryNothing(c1);
    RecoveryNothing(c2);
  }

  lemma OneRecord(w: Write)
    ensures [1] <= Pages(0, [w])
  {
    assert Pages(0, [w]) == PageBytes(0, w) + Pages(0, []);
  }

  lemma ShortRecovers(log: seq<byte>)
    requires |log| < RECORD_SIZE
    ensures Recovered(log) == []
  {
    ShortLog(log);
  }

  lemma RecoveryNothing(c: Medium)
    requires Recovered(c.log) == []
    ensures ExecAll(c, RecoveryOps(c.log)) == c
  {
  }

  // ------------------------------------------------------------------
  // The guard along a run
  // ------------------------------------------------------------------

  /** A reopening that leaves no bytes behind: it replays something or finds
      an empty log. */
  ghost predicate LeavesNothing(s: Db, e: Event) {
    e.Reopen? && s.Down? ==> s.m.log == [] || Recovered(s.m.log) != []
  }

  /** Without any premise on the commits themselves: in a life in which no
      reopening leaves a tail without anything to replay, every commit finds
      the log it needs, and the committed pages are well defined throughout. */
  lemma {:induction false} LifeHolds(ss: seq<Db>, es: seq<Event>, v: seq<Page>) returns (vs: seq<seq<Page>>)
    requires |ss| == |es| + 1 && Holds(ss[0], v) && (ss[0].Live? ==> ss[0].m.log == [])
    requires forall i :: 0 <= i < |es| ==> Next(ss[i], es[i], ss[i + 1]) && LeavesNothing(ss[i], es[i])
    ensures Explains(ss, es, vs) && vs[0] == v
    ensures ss[|es|].Live? ==> ss[|es|].m.log == []
    decreases |es|
  {
    hide Holds, Next, Allowed, Recovered, Guarded;
    if es == [] {
      vs := [v];
    } else {
      var n := |es| - 1;
      assert ss[..n + 1][n] == ss[n];
      forall i | 0 <= i < |es[..n]|
        ensures Next(ss[..n + 1][i], es[..n][i], ss[..n + 1][i + 1]) && LeavesNothing(ss[..n + 1][i], es[..n][i])
      {
        assert ss[..n + 1][i] == ss[i] && es[..n][i] == es[i] && ss[..n + 1][i + 1] == ss[i + 1];
      }
      var before := LifeHolds(ss[..n + 1], es[..n], v);
      EmptyGuards(ss[n], es[n]);
      assert Holds(ss[..n + 1][n], before[n]);
      LogEmptied(ss[n], es[n], ss[n + 1], before[n]);
      var last := StepHolds(ss[n], es[n], ss[n + 1], before[n]);
      vs := before + [last];
      forall i | 0 <= i < |ss| ensures Holds(ss[i], vs[i]) {
        if i <= n {
          assert ss[..n + 1][i] == ss[i];
        }
      }
      forall i | 0 <= i < |es| ensures Allowed(vs[i], es[i], vs[i + 1]) {
        if i < n {
          assert es[..n][i] == es[i];
        }
      }
    }
  }

  lemma EmptyGuards(s: Db, e: Event)
    requires s.Live? ==> s.m.log == []
    ensures Guarded(s, e)
  {
    hide CleanTail;
    EmptyLog();
  }

  lemma LogEmptied(s: Db, e: Event, s': Db, v: seq<Page>)
    requires Holds(s, v) && Next(s, e, s') && Guarded(s, e) && LeavesNothing(s, e)
    requires s.Live? ==> s.m.log == []
    ensures s'.Live? ==> s'.m.log == []
  {
    hide Idle, Recoverable, CleanTail, CommitOps, RecoveryOps, Replay, ExecAll, Recovered;
    EmptyLog();
    match e
    case Commit(ws) => CommitDone(s.m, v, s.txn, ws);
    case Reopen => RecoveryDone(s.m, v);
    case _ =>
  }
}
