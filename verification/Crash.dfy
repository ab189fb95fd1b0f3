/** Crash atomicity of commit, and recovery that may itself crash. */
module Crash {
  import opened Bytes
  import opened Cells
  import opened WalLog
  import opened Media

  /** What a commit may append to: whole records, none of them this
      transaction's, and nothing to replay. */
  ghost predicate CleanTail(log: seq<byte>, txn: nat) {
    && |log| % RECORD_SIZE == 0
    && Recovered(log) == []
    && forall r :: r in Records(log) && !r.Unknown? ==> r.txn != txn
  }

  /** Between two operations: the page file is v and durable, and whatever log
      a crash leaves behind, replaying it changes nothing. */
  ghost predicate Idle(m: Medium, v: seq<Page>) {
    && m.db == v && m.dbSynced == v && m.pending == []
    && Recovered(m.log) == []
    && Replay(v, Recovered(m.logSynced)) == v
  }

  /** After a crash: everything is durable and replaying the log gives v. */
  ghost predicate Recoverable(c: Medium, v: seq<Page>) {
    && c.dbSynced == c.db && c.pending == [] && c.logSynced == c.log
    && Replay(c.db, Recovered(c.log)) == v
  }

  // ------------------------------------------------------------------
  // Logs
  // ------------------------------------------------------------------

  lemma {:induction false} RecordsPrefix(a: seq<byte>, b: seq<byte>)
    requires a <= b
    ensures Records(a) <= Records(b)
  {
    if |a| >= RECORD_SIZE {
      hide Parse;
      assert a[..RECORD_SIZE] == b[..RECORD_SIZE];
      assert a[RECORD_SIZE..] <= b[RECORD_SIZE..];
      RecordsPrefix(a[RECORD_SIZE..], b[RECORD_SIZE..]);
    }
  }

  /** A log with nothing to replay has no prefix with something to replay. */
  lemma NothingInPrefix(a: seq<byte>, b: seq<byte>)
    requires a <= b && Recovered(b) == []
    ensures Recovered(a) == []
  {
    hide Records;
    RecordsPrefix(a, b);
    RedoEmpty(Records(b), Committed(Records(b)));
    RedoNone(Records(a), Committed(Records(a)));
  }

  /** The log during a commit, cut anywhere: either the marker is missing and
      nothing is recovered, or it is there and exactly the batch is. */
  lemma CommitLogCut(w: seq<byte>, txn: nat, ws: seq<Write>, log: seq<byte>)
    requires CleanTail(w, txn) && txn < TWO64 && Writable(ws)
    requires log <= w + Batch(txn, ws)
    ensures log < w + Batch(txn, ws) ==> Recovered(log) == []
    ensures log == w + Batch(txn, ws) ==> Recovered(log) == ws
  {
    var b := Batch(txn, ws);
    BatchRecords(txn, ws);
    if |log| <= |w| {
      assert log == w[..|log|];
      NothingInPrefix(log, w);
    } else {
      var x := log[|w|..];
      assert log == w + x && x == b[..|x|];
      hide Records, Batch, Redo;
      RecordsAppend(w, x);
      if x == b {
        BatchRecovers(w, txn, ws);
      } else {
        var done := Committed(Records(w));
        assert b + [] == b && txn !in done;
        TornBatch(txn, ws, [], |x|, done);
        CommittedAppend(Records(w), Records(x));
        RedoAppend(Records(w), Records(x), done);
        assert done + {} == done;
      }
    }
  }

  /** Recovery of two logs end to end. */
  lemma RecoveredAppend(w: seq<byte>, x: seq<byte>)
    requires |w| % RECORD_SIZE == 0
    ensures var done := Committed(Records(w)) + Committed(Records(x));
      Recovered(w + x) == Redo(Records(w), done) + Redo(Records(x), done)
  {
    hide Records, Redo, Committed;
    RecordsAppend(w, x);
    CommittedAppend(Records(w), Records(x));
    RedoAppend(Records(w), Records(x), Committed(Records(w)) + Committed(Records(x)));
  }

  lemma BatchRecovers(w: seq<byte>, txn: nat, ws: seq<Write>)
    requires |w| % RECORD_SIZE == 0 && txn < TWO64 && Writable(ws)
    ensures Recovered(w + Batch(txn, ws)) == Redo(Records(w), Committed(Records(w)) + {txn}) + ws
    ensures CleanTail(w, txn) ==> Recovered(w + Batch(txn, ws)) == ws
  {
    var done := Committed(Records(w)) + {txn};
    BatchRedo(txn, ws, done);
    RecoveredAppend(w, Batch(txn, ws));
    if CleanTail(w, txn) {
      RedoEmpty(Records(w), Committed(Records(w)));
      hide Records, Batch, Redo, Committed;
      RedoNone(Records(w), done);
    }
  }

  // ------------------------------------------------------------------
  // Commit
  // ------------------------------------------------------------------

  /** Index of the operation after which the commit marker is durable. */
  function MarkerSynced(ws: seq<Write>): nat {
    |ws| + 2
  }

  function Logged(m: Medium, txn: nat, ws: seq<Write>): Medium {
    var log := m.log + Batch(txn, ws);
    m.(log := log, logSynced := log)
  }

  lemma CommitLogs(m: Medium, txn: nat, ws: seq<Write>)
    ensures ExecAll(m, LogOps(txn, ws)) == Logged(m, txn, ws)
    ensures ExecAll(m, LogOps(txn, ws)[..|ws| + 1]) == m.(log := m.log + Batch(txn, ws))
  {
    hide ExecAll, CommitBytes, Pages, AppendOps;
    var a, b, c := AppendOps(txn, ws), WalAppend(CommitBytes(txn)), WalSync;
    var m1 := m.(log := m.log + Pages(txn, ws));
    ExecAppends(m, txn, ws);
    AppendAssoc(m.log, Pages(txn, ws), CommitBytes(txn));
    ExecAllAppend(m, a, [b, c]);
    ExecAllAppend(m, a, [b]);
    ExecTwo(m1, b, c);
    assert LogOps(txn, ws)[..|ws| + 1] == a + [b];
  }

  /** The medium after the first k operations of a commit: while it logs. */
  lemma CommitPrefixLog(m: Medium, txn: nat, ws: seq<Write>, k: nat)
    requires k < MarkerSynced(ws)
    ensures var r := ExecAll(m, CommitOps(txn, ws)[..k]);
      && (k <= |ws| ==> r == m.(log := m.log + Pages(txn, ws[..k])))
      && (k == |ws| + 1 ==> r == m.(log := m.log + Batch(txn, ws)))
  {
    hide ExecAll, CommitBytes, PageBytes, Pages, Batch, ApplyOps;
    var ops := CommitOps(txn, ws);
    if k <= |ws| {
      assert ops[..k] == AppendOps(txn, ws[..k]);
      ExecAppends(m, txn, ws[..k]);
    } else {
      CommitLogs(m, txn, ws);
      assert ops[..k] == LogOps(txn, ws)[..|ws| + 1];
    }
  }

  /** While it applies the pages. */
  lemma CommitPrefixApply(m: Medium, txn: nat, ws: seq<Write>, j: nat)
    requires j <= |ws| && m.pending == []
    ensures ExecAll(m, CommitOps(txn, ws)[..|ws| + 2 + j])
      == Logged(m, txn, ws).(db := Replay(m.db, ws[..j]), pending := ws[..j])
  {
    hide ExecAll, CommitBytes, PageBytes, Pages, Batch, Replay, AppendOps;
    CommitLogs(m, txn, ws);
    ExecAllAppend(m, LogOps(txn, ws), ApplyOps(ws[..j]));
    ExecApplies(Logged(m, txn, ws), ws[..j]);
    assert CommitOps(txn, ws)[..|ws| + 2 + j] == LogOps(txn, ws) + ApplyOps(ws[..j]);
    assert [] + ws[..j] == ws[..j];
  }

  /** At its end. */
  lemma CommitPrefixEnd(m: Medium, txn: nat, ws: seq<Write>, k: nat)
    requires 2 * |ws| + 3 <= k <= 2 * |ws| + 4 && m.pending == []
    ensures var log, db := m.log + Batch(txn, ws), Replay(m.db, ws);
      ExecAll(m, CommitOps(txn, ws)[..k]) == Medium(db, db, [], if k == 2 * |ws| + 3 then log else [], log)
  {
    hide ExecAll, CommitBytes, PageBytes, Pages, Batch, Replay, AppendOps, ApplyOps;
    var n, ops := |ws|, CommitOps(txn, ws);
    CommitPrefixApply(m, txn, ws, n);
    assert ws[..n] == ws;
    var applied := ExecAll(m, ops[..2 * n + 2]);
    ExecTwo(applied, DbSync, WalTruncate);
    if k == 2 * n + 3 {
      assert ops[..k] == ops[..2 * n + 2] + [DbSync];
      ExecAllAppend(m, ops[..2 * n + 2], [DbSync]);
    } else {
      assert ops[..k] == ops[..2 * n + 2] + [DbSync, WalTruncate];
      ExecAllAppend(m, ops[..2 * n + 2], [DbSync, WalTruncate]);
    }
  }

  lemma CoversSelf(ws: seq<Write>, j: nat)
    requires j <= |ws|
    ensures Covers(ws, ws[..j])
  {
    forall w | w in ws[..j] ensures Touches(ws, w.page) {
      assert w in ws;
    }
  }

  lemma ReplayTwice(db: seq<Page>, ws: seq<Write>)
    ensures Replay(Replay(db, ws), ws) == Replay(db, ws)
  {
    CoversSelf(ws, |ws|);
    assert ws[..|ws|] == ws;
    Absorbed(db, ws, ws);
  }

  /** A crash before the marker is durable leaves the old pages or, if the
      marker got through by itself, the new ones. */
  lemma CrashBeforeSync(m: Medium, v: seq<Page>, txn: nat, ws: seq<Write>, k: nat, c: Medium)
    requires Idle(m, v) && CleanTail(m.log, txn) && txn < TWO64 && Writable(ws)
    requires k < MarkerSynced(ws) && CrashesTo(ExecAll(m, CommitOps(txn, ws)[..k]), c)
    ensures Recoverable(c, v) || Recoverable(c, Replay(v, ws))
  {
    hide CommitOps, Batch, Replay, Recovered, CleanTail;
    CommitPrefixLog(m, txn, ws, k);
    var full := m.log + Batch(txn, ws);
    if c.log != m.logSynced {
      PagesInBatch(txn, ws, k);
      assert c.log <= full;
      CommitLogCut(m.log, txn, ws, c.log);
      if c.log < full {
        NoReplay(v);
      }
    }
  }

  lemma NoReplay(v: seq<Page>)
    ensures Replay(v, []) == v
  {
  }

  lemma PagesInBatch(txn: nat, ws: seq<Write>, k: nat)
    ensures k <= |ws| ==> Pages(txn, ws[..k]) <= Batch(txn, ws)
  {
    if k <= |ws| {
      assert ws == ws[..k] + ws[k..];
      PagesAppend(txn, ws[..k], ws[k..]);
    }
  }

  /** Once the marker is durable, any crash leaves the new pages. */
  lemma CrashAfterSync(m: Medium, v: seq<Page>, txn: nat, ws: seq<Write>, k: nat, c: Medium)
    requires Idle(m, v) && CleanTail(m.log, txn) && txn < TWO64 && Writable(ws)
    requires MarkerSynced(ws) <= k <= |CommitOps(txn, ws)|
    requires CrashesTo(ExecAll(m, CommitOps(txn, ws)[..k]), c)
    ensures Recoverable(c, Replay(v, ws))
  {
    hide CommitOps, Batch, Replay, Recovered, CleanTail;
    var n, full := |ws|, m.log + Batch(txn, ws);
    CommitLogCut(m.log, txn, ws, full);
    if k <= 2 * n + 2 {
      var j := k - n - 2;
      CommitPrefixApply(m, txn, ws, j);
      CoversSelf(ws, j);
      SurvivorsAbsorbed(v, ws[..j], c.db, ws);
      assert c.log == full;
    } else {
      CommitPrefixEnd(m, txn, ws, k);
      assert c.db == Replay(v, ws) by { OnlySurvivor(Replay(v, ws), c.db); }
      ReplayTwice(v, ws);
      if c.log != full {
        assert c.log == [];
        EmptyLog();
        NoReplay(Replay(v, ws));
      }
    }
  }

  lemma OnlySurvivor(d: seq<Page>, r: seq<Page>)
    requires Survives(d, [], r)
    ensures r == d
  {
  }

  lemma EmptyLog()
    ensures Recovered([]) == [] && forall t: nat :: CleanTail([], t)
  {
  }

  /** A commit that runs to its end. */
  lemma CommitDone(m: Medium, v: seq<Page>, txn: nat, ws: seq<Write>)
    requires Idle(m, v) && CleanTail(m.log, txn) && txn < TWO64 && Writable(ws)
    ensures var e := ExecAll(m, CommitOps(txn, ws)); Idle(e, Replay(v, ws)) && e.log == []
  {
    hide CommitOps, Batch, Replay, Recovered, CleanTail;
    var ops := CommitOps(txn, ws);
    CommitPrefixEnd(m, txn, ws, |ops|);
    assert ops[..|ops|] == ops;
    var full := m.log + Batch(txn, ws);
    CommitLogCut(m.log, txn, ws, full);
    ReplayTwice(v, ws);
    EmptyLog();
  }

  // ------------------------------------------------------------------
  // Recovery
  // ------------------------------------------------------------------

  lemma RecoveryPrefix(c: Medium, k: nat)
    requires k <= |RecoveryOps(c.log)| && c.pending == []
    ensures var ws, n, r := Recovered(c.log), |Recovered(c.log)|, ExecAll(c, RecoveryOps(c.log)[..k]);
      && |RecoveryOps(c.log)| == (if ws == [] then 0 else n + 2)
      && (k <= n ==> r == c.(db := Replay(c.db, ws[..k]), pending := ws[..k]))
      && (k > n ==> r == Medium(Replay(c.db, ws), Replay(c.db, ws), [], if k == n + 1 then c.log else [], c.logSynced))
  {
    hide Recovered, Replay;
    var ws, n := Recovered(c.log), |Recovered(c.log)|;
    var ops := RecoveryOps(c.log);
    if k <= n {
      assert ops[..k] == ApplyOps(ws[..k]) by {
        if ws == [] {
          assert k == 0;
        }
      }
      ExecApplies(c, ws[..k]);
    } else {
      ExecApplies(c, ws);
      var m := ExecAll(c, ApplyOps(ws));
      ExecTwo(m, DbSync, WalTruncate);
      if k == n + 1 {
        assert ops[..k] == ApplyOps(ws) + [DbSync];
        ExecAllAppend(c, ApplyOps(ws), [DbSync]);
      } else {
        assert ops[..k] == ApplyOps(ws) + [DbSync, WalTruncate];
        ExecAllAppend(c, ApplyOps(ws), [DbSync, WalTruncate]);
      }
    }
  }

  lemma SameLength(a: seq<byte>, b: seq<byte>)
    ensures a <= b && b <= a ==> a == b
  {
  }

  /** A crash inside recovery loses nothing: what is left recovers to the same pages. */
  lemma CrashInRecovery(c: Medium, v: seq<Page>, k: nat, c': Medium)
    requires Recoverable(c, v) && k <= |RecoveryOps(c.log)|
    requires CrashesTo(ExecAll(c, RecoveryOps(c.log)[..k]), c')
    ensures Recoverable(c', v)
  {
    hide RecoveryOps, Replay, Recovered;
    RecoveryPrefix(c, k);
    var ws, n := Recovered(c.log), |Recovered(c.log)|;
    if k <= n {
      SameLength(c.log, c'.log);
      CoversSelf(ws, k);
      SurvivorsAbsorbed(c.db, ws[..k], c'.db, ws);
    } else {
      OnlySurvivor(v, c'.db);
      ReplayTwice(c.db, ws);
      if c'.log != c.log {
        EmptyLog();
        NoReplay(v);
      }
    }
  }

  /** A recovery that runs to its end restores v; the log is left alone only
      if it held nothing to replay. */
  lemma RecoveryDone(c: Medium, v: seq<Page>)
    requires Recoverable(c, v)
    ensures var e := ExecAll(c, RecoveryOps(c.log));
      && e.db == v
      && Idle(e, v)
      && e.log == if Recovered(c.log) != [] then [] else c.log
  {
    hide RecoveryOps, Replay, Recovered;
    var ops := RecoveryOps(c.log);
    RecoveryPrefix(c, |ops|);
    assert ops[..|ops|] == ops;
    EmptyLog();
    NoReplay(c.db);
    ReplayTwice(c.db, Recovered(c.log));
  }

  /** Crashed recoveries, one after the other. */
  ghost predicate Interrupted(c: Medium, attempts: seq<(nat, Medium)>, e: Medium)
    decreases |attempts|
  {
    if attempts == [] then e == c
    else
      var (k, c') := attempts[0];
      && k <= |RecoveryOps(c.log)|
      && CrashesTo(ExecAll(c, RecoveryOps(c.log)[..k]), c')
      && Interrupted(c', attempts[1..], e)
  }

  /** However often recovery is interrupted, the next complete one gives the
      file that a single uninterrupted one would have given. */
  lemma {:induction false} RecoveryIsIdempotent(c: Medium, attempts: seq<(nat, Medium)>, e: Medium)
    requires c.dbSynced == c.db && c.pending == [] && c.logSynced == c.log
    requires Interrupted(c, attempts, e)
    ensures ExecAll(e, RecoveryOps(e.log)).db == ExecAll(c, RecoveryOps(c.log)).db
    decreases |attempts|
  {
    hide RecoveryOps, Replay, Recovered;
    var v := Replay(c.db, Recovered(c.log));
    RecoveryDone(c, v);
    if attempts != [] {
      var (k, c') := attempts[0];
      CrashInRecovery(c, v, k, c');
      RecoveryDone(c', v);
      RecoveryIsIdempotent(c', attempts[1..], e);
    }
  }
}
