/** Crashes seen from a table: the rows that reopening finds. */
module TableCrash {
  import opened Bytes
  import opened WalLog
  import opened Media
  import opened Crash
  import opened CrashRuns
  import opened PageCache
  import opened PagerCrash
  import opened Rows
  import TreeOrder
  import opened TreeRuns
  import opened Tables
  import opened TableStores

  /** The files c hold the table s: opening them finds its rows. */
  ghost predicate Holding(c: Medium, cols: seq<Column>, s: Snapshot) {
    TableOk(Replay(c.db, WalLog.Recovered(c.log)), s.t.page, cols, s)
  }

  /** A commit, by a transaction or by a single statement, that crashes
      anywhere, followed by any number of crashed recoveries: the files hold the
      rows of before or all rows of the view, and the latter once the marker is
      durable. */
  lemma CommitOfRows(disk: seq<Page>, view: seq<Page>, txn: nat, ops: seq<IoOp>,
                     cols: seq<Column>, durable: Snapshot, live: Snapshot, root: nat,
                     m: Medium, k: nat, c: Medium, attempts: seq<(nat, Medium)>, e: Medium)
    requires CommitsTo(disk, view, txn, ops) && k <= |ops|
    requires TableOk(disk, durable.t.page, cols, durable) && TableOk(view, root, cols, live)
    requires Idle(m, disk) && CleanTail(m.log, txn) && txn < TWO64
    requires CrashesTo(ExecAll(m, ops[..k]), c) && Interrupted(c, attempts, e)
    ensures Holding(e, cols, durable) || Holding(e, cols, live)
    ensures k >= MarkerAt(ops) ==> Holding(e, cols, live)
  {
    hide Replay, Recovered, CleanTail, CommitsTo, Idle, ExecAll, RecoveryOps, TableOk, CrashesTo;
    CommitCrashes(disk, view, txn, ops, m, k, c);
    CommitSurvivesRecoveries(disk, view, txn, ops, m, k, c, attempts, e);
    TableRoot(disk, durable.t.page, cols, durable);
    TableRoot(view, root, cols, live);
  }

  /** At every moment of an open table, whatever its log holds, opening its
      files again finds the table of the last commit; with nothing dirty, that
      is the table a scan shows. */
  lemma Reopens(t: Table)
    requires t.Valid()
    ensures TableOk(Replay(t.pager.disk, WalLog.Recovered(t.pager.wal.file)), t.durable.t.page, t.columns, t.durable)
    ensures t.pager.Clean() ==> t.live == t.durable && t.DurableRows() == t.Rows()
  {
    hide TableOk, Contents, Recovered;
    NoReplay(t.pager.disk);
    if t.pager.Clean() {
      CleanView(t.pager.disk, t.pager.fileLength, t.pager.pages, t.pager.dirty);
      PagesDetermineTable(t.pager.disk, t.durable.t.page, t.columns, t.durable, t.rootPage, t.columns, t.live);
    }
  }

  lemma NewPageDirty(disk: seq<Page>, fileLength: nat, pages: seq<Slot>, dirty: seq<bool>, i: nat)
    requires Consistent(disk, fileLength, pages, dirty) && |disk| <= i < fileLength
    ensures i < |dirty| && dirty[i]
  {
  }

  /** With nothing dirty, the view is the file. */
  lemma CleanView(disk: seq<Page>, fileLength: nat, pages: seq<Slot>, dirty: seq<bool>)
    requires Consistent(disk, fileLength, pages, dirty) && forall i :: 0 <= i < |dirty| ==> !dirty[i]
    ensures ViewOf(disk, fileLength, pages) == disk
  {
    if |disk| < fileLength {
      NewPageDirty(disk, fileLength, pages, dirty, |disk|);
      assert false;
    }
    assert ViewOf(disk, fileLength, pages) == disk;
  }

  // ------------------------------------------------------------------
  // Whole lives of a table
  // ------------------------------------------------------------------

  type Row = seq<Value>

  /** An event, and for a commit the rows inserted since the last one and the
      index that they make. */
  datatype Step = Step(event: Event, vals: seq<Row>, live: Snapshot)

  /** The pages that opening the files, or the open handle, finds. */
  ghost function PagesOf(s: Db): seq<Page> {
    if s.Live? then s.m.db else Replay(s.m.db, WalLog.Recovered(s.m.log))
  }

  /** The rows found there. */
  ghost predicate Shows(s: Db, cols: seq<Column>, t: Snapshot) {
    TableOk(PagesOf(s), t.t.page, cols, t)
  }

  /** From s the insertions of these rows, in this order, lead to e. */
  ghost predicate Reached(cols: seq<Column>, s: Snapshot, vals: seq<Row>, e: Snapshot)
    decreases |vals|
  {
    if vals == [] then e == s
    else exists free: nat, next: Snapshot ::
      Taken(cols, s, vals[0], free, next) && Reached(cols, next, vals[1..], e)
  }

  /** One insertion that reaches the chain, wholly or half way. */
  ghost predicate Taken(cols: seq<Column>, s: Snapshot, vals: Row, free: nat, e: Snapshot) {
    && Shaped(s, free) && Conforms(cols, vals) && |RowBytes(cols, vals)| <= MAX_ROW
    && (e == After(s, CellFor(cols, vals), free) || e == Torn(s, CellFor(cols, vals), free))
  }

  function RowBag(cols: seq<Column>, s: Snapshot): multiset<Row> {
    multiset(Contents(cols, TreeOrder.Cat(s.ch)))
  }

  lemma TakenRow(cols: seq<Column>, s: Snapshot, vals: Row, free: nat, e: Snapshot)
    requires Taken(cols, s, vals, free, e)
    ensures RowBag(cols, e) == RowBag(cols, s) + multiset{vals}
  {
    hide Shaped, After, Torn, Conforms, RowBytes, ParseRow, TreeOrder.Cat, ValueRow;
    var c := CellFor(cols, vals);
    var p := ContentsAfter(cols, s, c, free);
    SameChain(s, c, free);
    StoredRow(cols, vals);
    InsertAtBag(Contents(cols, TreeOrder.Cat(s.ch)), p, vals);
  }

  lemma {:induction false} ReachedRows(cols: seq<Column>, s: Snapshot, vals: seq<Row>, e: Snapshot)
    requires Reached(cols, s, vals, e)
    ensures RowBag(cols, e) == RowBag(cols, s) + multiset(vals)
    decreases |vals|
  {
    hide RowBag, Taken;
    if vals != [] {
      var free: nat, next :| Taken(cols, s, vals[0], free, next) && Reached(cols, next, vals[1..], e);
      TakenRow(cols, s, vals[0], free, next);
      ReachedRows(cols, next, vals[1..], e);
      assert vals == [vals[0]] + vals[1..];
    }
  }

  predicate IsCommit(e: Event) {
    e.Commit? || e.CommitCrash?
  }

  /** What a commit writes is the index reached from the one in the file. */
  ghost predicate Writes(cols: seq<Column>, s: Db, st: Step) {
    IsCommit(st.event) && s.Live? ==>
      && TableOk(Replay(s.m.db, st.event.ws), st.live.t.page, cols, st.live)
      && exists cur: Snapshot :: TableOk(s.m.db, cur.t.page, cols, cur) && Reached(cols, cur, st.vals, st.live)
  }

  ghost predicate IsLife(ss: seq<Db>, steps: seq<Step>, cols: seq<Column>) {
    && |ss| == |steps| + 1
    && forall i :: 0 <= i < |steps| ==>
         Next(ss[i], steps[i].event, ss[i + 1]) && Guarded(ss[i], steps[i].event) && Writes(cols, ss[i], steps[i])
  }

  /** Whether a commit took effect, as far as its progress decides it. */
  ghost predicate Decided(e: Event, took: bool) {
    match e
    case Commit(_) => took
    case CommitCrash(ws, k, _) => k >= MarkerSynced(ws) ==> took
    case _ => !took
  }

  /** One event: the table stays, or a commit gives it all its rows. */
  lemma LifeStep(cols: seq<Column>, s: Db, st: Step, s': Db, v: seq<Page>, cur: Snapshot)
    returns (v': seq<Page>, next: Snapshot, took: bool)
    requires Holds(s, v) && TableOk(v, cur.t.page, cols, cur)
    requires Next(s, st.event, s') && Guarded(s, st.event) && Writes(cols, s, st)
    ensures Holds(s', v') && TableOk(v', next.t.page, cols, next) && Decided(st.event, took)
    ensures if took then next == st.live && RowBag(cols, next) == RowBag(cols, cur) + multiset(st.vals) else next == cur
  {
    hide Next, Holds, Guarded, TableOk, Reached, RowBag, Replay;
    v' := StepHolds(s, st.event, s', v);
    next, took := cur, false;
    if IsCommit(st.event) && v' == Replay(v, st.event.ws) {
      CommitsLive(s, st.event, s', v);
      var c0: Snapshot :| TableOk(s.m.db, c0.t.page, cols, c0) && Reached(cols, c0, st.vals, st.live);
      PagesDetermineTable(v, cur.t.page, cols, cur, c0.t.page, cols, c0);
      ReachedRows(cols, cur, st.vals, st.live);
      next, took := st.live, true;
    }
  }

  lemma CommitsLive(s: Db, e: Event, s': Db, v: seq<Page>)
    requires Next(s, e, s') && IsCommit(e) && Holds(s, v)
    ensures s.Live? && s.m.db == v
  {
    hide ExecAll, CommitOps, CrashesTo, Recovered;
  }

  lemma HoldsPages(s: Db, v: seq<Page>)
    requires Holds(s, v)
    ensures PagesOf(s) == v
  {
    hide Recovered, Replay;
  }

  /** The rows of the commits that took effect. */
  function Gathered(steps: seq<Step>, took: seq<bool>): seq<Row>
    requires |steps| == |took|
  {
    if steps == [] then []
    else Gathered(steps[..|steps| - 1], took[..|steps| - 1]) + if took[|steps| - 1] then steps[|steps| - 1].vals else []
  }

  /** Over a whole life of a table, commits and statements that crash at any
      point, crashed and repeated recoveries included: at every point its files
      show the table of the last commit that took effect; a commit takes effect
      as a whole or not at all, and for certain once it completes or its marker
      is durable; and the rows are exactly those of the commits that did. */
  lemma {:induction false} LifeOfTable(ss: seq<Db>, steps: seq<Step>, cols: seq<Column>, v: seq<Page>, s0: Snapshot)
    returns (vs: seq<seq<Page>>, ts: seq<Snapshot>, took: seq<bool>)
    requires IsLife(ss, steps, cols) && Holds(ss[0], v) && TableOk(v, s0.t.page, cols, s0)
    ensures |vs| == |ts| == |ss| && |took| == |steps| && ts[0] == s0
    ensures Holds(ss[|steps|], vs[|steps|]) && TableOk(vs[|steps|], ts[|steps|].t.page, cols, ts[|steps|])
    ensures forall i :: 0 <= i < |ss| ==> Shows(ss[i], cols, ts[i])
    ensures forall i :: 0 <= i < |steps| ==> Decided(steps[i].event, took[i])
    ensures forall i :: 0 <= i < |steps| ==> ts[i + 1] == if took[i] then steps[i].live else ts[i]
    ensures RowBag(cols, ts[|steps|]) == RowBag(cols, s0) + multiset(Gathered(steps, took))
    decreases |steps|
  {
    hide Next, Holds, Guarded, TableOk, Writes, RowBag, Decided;
    HoldsPages(ss[0], v);
    if steps == [] {
      vs, ts, took := [v], [s0], [];
    } else {
      var n := |steps| - 1;
      LifePrefix(ss, steps, cols);
      var vs0, ts0, took0 := LifeOfTable(ss[..n + 1], steps[..n], cols, v, s0);
      assert ss[..n + 1][n] == ss[n];
      var v', next, t := LifeStep(cols, ss[n], steps[n], ss[n + 1], vs0[n], ts0[n]);
      HoldsPages(ss[n + 1], v');
      vs, ts, took := vs0 + [v'], ts0 + [next], took0 + [t];
      assert took[..n] == took0;
      forall i | 0 <= i < |ss| ensures Shows(ss[i], cols, ts[i]) {
        if i <= n {
          assert ss[..n + 1][i] == ss[i] && ts[i] == ts0[i];
        }
      }
      forall i | 0 <= i < |steps|
        ensures Decided(steps[i].event, took[i]) && ts[i + 1] == if took[i] then steps[i].live else ts[i]
      {
        if i < n {
          assert steps[..n][i] == steps[i] && took[i] == took0[i] && ts[i] == ts0[i] && ts[i + 1] == ts0[i + 1];
        }
      }
    }
  }

  lemma LifePrefix(ss: seq<Db>, steps: seq<Step>, cols: seq<Column>)
    requires IsLife(ss, steps, cols) && steps != []
    ensures IsLife(ss[..|steps|], steps[..|steps| - 1], cols)
  {
    hide Next, Guarded, Writes;
    var n := |steps| - 1;
    forall i | 0 <= i < n
      ensures Next(ss[..n + 1][i], steps[..n][i].event, ss[..n + 1][i + 1])
      ensures Guarded(ss[..n + 1][i], steps[..n][i].event) && Writes(cols, ss[..n + 1][i], steps[..n][i])
    {
      assert ss[..n + 1][i] == ss[i] && ss[..n + 1][i + 1] == ss[i + 1] && steps[..n][i] == steps[i];
    }
  }
}
