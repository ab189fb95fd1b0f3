/** The two files of a table as a crash sees them, and the I/O sequences of
    commit, rollback and recovery. */
module Media {
  import opened Bytes
  import opened Cells
  import opened WalLog

  // ------------------------------------------------------------------
  // Page files
  // ------------------------------------------------------------------

  /** A whole-page write; a gap beyond the end of the file reads as zeros. */
  function WriteAt(db: seq<Page>, w: Write): seq<Page> {
    if w.page < |db| then db[w.page := w.data]
    else db + seq(w.page - |db|, _ => ZeroPage()) + [w.data]
  }

  function Replay(db: seq<Page>, ws: seq<Write>): seq<Page>
    decreases |ws|
  {
    if ws == [] then db else Replay(WriteAt(db, ws[0]), ws[1..])
  }

  lemma {:induction false} ReplayAppend(db: seq<Page>, a: seq<Write>, b: seq<Write>)
    ensures Replay(db, a + b) == Replay(Replay(db, a), b)
    decreases |a|
  {
    if a == [] {
      assert a + b == b;
    } else {
      assert (a + b)[1..] == a[1..] + b;
      ReplayAppend(WriteAt(db, a[0]), a[1..], b);
    }
  }

  /** Page i of a file; zeros beyond its end. */
  function At(db: seq<Page>, i: nat): Page {
    if i < |db| then db[i] else ZeroPage()
  }

  /** The last write to page i, or d. */
  function Last(ws: seq<Write>, i: nat, d: Page): Page
    decreases |ws|
  {
    if ws == [] then d else Last(ws[1..], i, if ws[0].page == i then ws[0].data else d)
  }

  /** The length of a file of n pages after the writes. */
  function Reach(ws: seq<Write>, n: nat): nat
    decreases |ws|
  {
    if ws == [] then n else Reach(ws[1..], if ws[0].page < n then n else ws[0].page + 1)
  }

  lemma {:induction false} ReplayIs(db: seq<Page>, ws: seq<Write>, i: nat)
    ensures |Replay(db, ws)| == Reach(ws, |db|)
    ensures At(Replay(db, ws), i) == Last(ws, i, At(db, i))
    decreases |ws|
  {
    if ws != [] {
      ReplayIs(WriteAt(db, ws[0]), ws[1..], i);
    }
  }

  ghost predicate Touches(ws: seq<Write>, i: nat) {
    exists w :: w in ws && w.page == i
  }

  lemma {:induction false} LastTouched(ws: seq<Write>, i: nat, d: Page, e: Page)
    ensures Touches(ws, i) ==> Last(ws, i, d) == Last(ws, i, e)
    ensures !Touches(ws, i) ==> Last(ws, i, d) == d
    decreases |ws|
  {
    if ws != [] {
      var d', e' := if ws[0].page == i then ws[0].data else d, if ws[0].page == i then ws[0].data else e;
      LastTouched(ws[1..], i, d', e');
      if ws[0].page != i && Touches(ws, i) {
        var w :| w in ws && w.page == i;
        assert w in ws[1..];
      }
      assert ws[0] in ws;
      assert forall w :: w in ws[1..] ==> w in ws;
    }
  }

  lemma {:induction false} ReachBounds(ws: seq<Write>, n: nat, b: nat)
    ensures Reach(ws, n) >= n
    ensures forall w :: w in ws ==> w.page < Reach(ws, n)
    ensures n <= b && (forall w :: w in ws ==> w.page < b) ==> Reach(ws, n) <= b
    decreases |ws|
  {
    if ws != [] {
      var m := if ws[0].page < n then n else ws[0].page + 1;
      ReachBounds(ws[1..], m, b);
      assert ws[0] in ws;
      assert forall w :: w in ws[1..] ==> w in ws;
      forall w | w in ws ensures w.page < Reach(ws, n) {
        assert w == ws[0] || w in ws[1..];
      }
    }
  }

  ghost predicate Covers(ws: seq<Write>, p: seq<Write>) {
    forall w :: w in p ==> Touches(ws, w.page)
  }

  lemma CoversTouch(ws: seq<Write>, p: seq<Write>, i: nat)
    requires Covers(ws, p) && Touches(p, i)
    ensures Touches(ws, i)
  {
  }

  lemma SamePages(a: seq<Page>, b: seq<Page>)
    requires |a| == |b| && forall i: nat :: At(a, i) == At(b, i)
    ensures a == b
  {
    forall i | 0 <= i < |a| ensures a[i] == b[i] {
      assert At(a, i) == At(b, i);
    }
  }

  /** Earlier writes to pages that are written again leave no trace. */
  lemma Absorbed(db: seq<Page>, p: seq<Write>, ws: seq<Write>)
    requires Covers(ws, p)
    ensures Replay(Replay(db, p), ws) == Replay(db, ws)
  {
    hide Replay, Last, Reach;
    var a, b := Replay(Replay(db, p), ws), Replay(db, ws);
    var n := |db|;
    ReplayIs(db, p, 0);
    ReplayIs(Replay(db, p), ws, 0);
    ReplayIs(db, ws, 0);
    ReachBounds(ws, n, 0);
    ReachBounds(ws, Reach(p, n), Reach(ws, n));
    ReachBounds(ws, n, Reach(ws, Reach(p, n)));
    forall w | w in p ensures w.page < Reach(ws, n) {
      assert Touches(ws, w.page);
    }
    ReachBounds(p, n, Reach(ws, n));
    forall i: nat ensures At(a, i) == At(b, i) {
      ReplayIs(db, p, i);
      ReplayIs(Replay(db, p), ws, i);
      ReplayIs(db, ws, i);
      LastTouched(ws, i, Last(p, i, At(db, i)), At(db, i));
      LastTouched(p, i, At(db, i), At(db, i));
      if Touches(p, i) {
        CoversTouch(ws, p, i);
      }
    }
    SamePages(a, b);
  }

  /** r is the file d after some of the pending writes, in order, and not others. */
  ghost predicate Survives(d: seq<Page>, pending: seq<Write>, r: seq<Page>)
    decreases |pending|
  {
    if pending == [] then r == d
    else Survives(d, pending[1..], r) || Survives(WriteAt(d, pending[0]), pending[1..], r)
  }

  /** The writes at the chosen places, in order. */
  function Chosen(ws: seq<Write>, keep: seq<bool>): seq<Write>
    requires |keep| == |ws|
  {
    if ws == [] then [] else (if keep[0] then [ws[0]] else []) + Chosen(ws[1..], keep[1..])
  }

  ghost predicate SomeChoice(d: seq<Page>, ws: seq<Write>, r: seq<Page>) {
    exists keep: seq<bool> :: |keep| == |ws| && r == Replay(d, Chosen(ws, keep))
  }

  lemma ChoiceUnfolds(d: seq<Page>, ws: seq<Write>, r: seq<Page>)
    requires ws != []
    ensures SomeChoice(d, ws, r) <==> SomeChoice(d, ws[1..], r) || SomeChoice(WriteAt(d, ws[0]), ws[1..], r)
  {
    hide Chosen, Replay, WriteAt;
    if keep: seq<bool> :| |keep| == |ws| - 1 && r == Replay(d, Chosen(ws[1..], keep)) {
      ChosenCons(d, ws, false, keep);
    }
    if keep: seq<bool> :| |keep| == |ws| - 1 && r == Replay(WriteAt(d, ws[0]), Chosen(ws[1..], keep)) {
      ChosenCons(d, ws, true, keep);
    }
    if keep: seq<bool> :| |keep| == |ws| && r == Replay(d, Chosen(ws, keep)) {
      assert keep == [keep[0]] + keep[1..];
      ChosenCons(d, ws, keep[0], keep[1..]);
    }
  }

  /** Any choice of the pending writes may survive, and nothing else. */
  lemma {:induction false} SurvivesExact(d: seq<Page>, pending: seq<Write>, r: seq<Page>)
    ensures Survives(d, pending, r) <==> SomeChoice(d, pending, r)
    decreases |pending|
  {
    if pending == [] {
      assert Chosen(pending, []) == [];
    } else {
      hide SomeChoice, WriteAt;
      ChoiceUnfolds(d, pending, r);
      SurvivesExact(d, pending[1..], r);
      SurvivesExact(WriteAt(d, pending[0]), pending[1..], r);
    }
  }

  lemma ChosenCons(d: seq<Page>, ws: seq<Write>, b: bool, keep: seq<bool>)
    requires ws != [] && |keep| == |ws| - 1
    ensures Replay(d, Chosen(ws, [b] + keep)) == Replay(if b then WriteAt(d, ws[0]) else d, Chosen(ws[1..], keep))
  {
    assert ([b] + keep)[1..] == keep;
    var c := Chosen(ws[1..], keep);
    assert [] + c == c && ([ws[0]] + c)[1..] == c;
  }

  /** Whichever writes survive, replaying all of them gives the same file. */
  lemma {:induction false} SurvivorsAbsorbed(d: seq<Page>, pending: seq<Write>, r: seq<Page>, ws: seq<Write>)
    requires Survives(d, pending, r) && Covers(ws, pending)
    ensures Replay(r, ws) == Replay(d, ws)
    decreases |pending|
  {
    if pending != [] {
      assert forall w :: w in pending[1..] ==> w in pending;
      if Survives(d, pending[1..], r) {
        SurvivorsAbsorbed(d, pending[1..], r, ws);
      } else {
        var w := pending[0];
        SurvivorsAbsorbed(WriteAt(d, w), pending[1..], r, ws);
        assert w in pending;
        Absorbed(d, [w], ws);
        assert Replay(d, [w]) == Replay(WriteAt(d, w), []);
      }
    }
  }

  // ------------------------------------------------------------------
  // I/O operations
  // ------------------------------------------------------------------

  datatype IoOp =
    | WalAppend(bytes: seq<byte>)
    | WalSync
    | WalTruncate
    | DbWrite(w: Write)
    | DbSync

  /** The files: current contents, what the last sync made durable, and the
      page writes since. */
  datatype Medium = Medium(db: seq<Page>, dbSynced: seq<Page>, pending: seq<Write>, log: seq<byte>, logSynced: seq<byte>)

  function Exec(m: Medium, op: IoOp): Medium {
    match op
    case WalAppend(b) => m.(log := m.log + b)
    case WalSync => m.(logSynced := m.log)
    case WalTruncate => m.(log := [])
    case DbWrite(w) => m.(db := WriteAt(m.db, w), pending := m.pending + [w])
    case DbSync => m.(dbSynced := m.db, pending := [])
  }

  function ExecAll(m: Medium, ops: seq<IoOp>): Medium
    decreases |ops|
  {
    if ops == [] then m else ExecAll(Exec(m, ops[0]), ops[1..])
  }

  lemma {:induction false} ExecAllAppend(m: Medium, a: seq<IoOp>, b: seq<IoOp>)
    ensures ExecAll(m, a + b) == ExecAll(ExecAll(m, a), b)
    decreases |a|
  {
    if a == [] {
      assert a + b == b;
    } else {
      assert (a + b)[1..] == a[1..] + b;
      ExecAllAppend(Exec(m, a[0]), a[1..], b);
    }
  }

  /** A crash: any of the pending page writes may be on disk, and of the log
      either what was last synced or a prefix of its current contents that is
      not shorter than the synced part it extends. */
  ghost predicate CrashesTo(m: Medium, c: Medium) {
    && Survives(m.dbSynced, m.pending, c.db)
    && c.dbSynced == c.db && c.pending == []
    && c.logSynced == c.log
    && (c.log == m.logSynced || (c.log <= m.log && (m.logSynced <= m.log ==> m.logSynced <= c.log)))
  }

  function AppendOps(txn: nat, ws: seq<Write>): (ops: seq<IoOp>)
    ensures |ops| == |ws|
  {
    seq(|ws|, i requires 0 <= i < |ws| => WalAppend(PageBytes(txn, ws[i])))
  }

  function ApplyOps(ws: seq<Write>): (ops: seq<IoOp>)
    ensures |ops| == |ws|
  {
    seq(|ws|, i requires 0 <= i < |ws| => DbWrite(ws[i]))
  }

  /** The log and sync half of a commit. */
  function LogOps(txn: nat, ws: seq<Write>): (ops: seq<IoOp>)
    ensures |ops| == |ws| + 2
  {
    AppendOps(txn, ws) + [WalAppend(CommitBytes(txn)), WalSync]
  }

  /** Pager::commit: log the pages, log and sync the commit record, write the
      pages, sync them, empty the log. */
  function CommitOps(txn: nat, ws: seq<Write>): (ops: seq<IoOp>)
    ensures |ops| == 2 * |ws| + 4
  {
    LogOps(txn, ws) + ApplyOps(ws) + [DbSync, WalTruncate]
  }

  /** Pager::open: replay what the log has committed, sync, empty the log. */
  function RecoveryOps(log: seq<byte>): (ops: seq<IoOp>)
    ensures |ops| == if Recovered(log) == [] then 0 else |Recovered(log)| + 2
  {
    if Recovered(log) == [] then [] else ApplyOps(Recovered(log)) + [DbSync, WalTruncate]
  }

  lemma {:induction false} ExecAppends(m: Medium, txn: nat, ws: seq<Write>)
    ensures ExecAll(m, AppendOps(txn, ws)) == m.(log := m.log + Pages(txn, ws))
    decreases |ws|
  {
    hide PageBytes;
    if ws == [] {
      assert m.log + [] == m.log;
    } else {
      var ops := AppendOps(txn, ws);
      assert ops[1..] == AppendOps(txn, ws[1..]);
      ExecAppends(Exec(m, ops[0]), txn, ws[1..]);
      AppendAssoc(m.log, PageBytes(txn, ws[0]), Pages(txn, ws[1..]));
    }
  }

  lemma {:induction false} ExecApplies(m: Medium, ws: seq<Write>)
    ensures ExecAll(m, ApplyOps(ws)) == m.(db := Replay(m.db, ws), pending := m.pending + ws)
    decreases |ws|
  {
    if ws == [] {
      assert m.pending + [] == m.pending;
    } else {
      var ops := ApplyOps(ws);
      assert ops[1..] == ApplyOps(ws[1..]);
      ExecApplies(Exec(m, ops[0]), ws[1..]);
      assert m.pending + [ws[0]] + ws[1..] == m.pending + ws;
    }
  }

  lemma ExecTwo(m: Medium, a: IoOp, b: IoOp)
    ensures ExecAll(m, [a]) == Exec(m, a)
    ensures ExecAll(m, [a, b]) == Exec(Exec(m, a), b)
  {
    assert [a][1..] == [] && [a, b][1..] == [b] && [b][1..] == [];
    assert ExecAll(Exec(m, a), [b]) == ExecAll(Exec(Exec(m, a), b), []);
  }
}
