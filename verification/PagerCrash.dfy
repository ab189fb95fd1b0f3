/** Crashes of the pager's commit: what reopening the files gives, in terms of
    the cache at the moment the commit began. */
module PagerCrash {
  import opened Bytes
  import opened WalLog
  import opened Media
  import opened Crash
  import opened PageCache

  lemma DirtyWritable(pages: seq<Slot>, dirty: seq<bool>)
    requires |pages| == |dirty| == MAX_PAGES
    ensures Writable(DirtyWrites(pages, dirty, MAX_PAGES))
  {
    DirtyWritesPages(pages, dirty, MAX_PAGES);
  }

  /** The pages that opening finds in what a crash left. */
  ghost function Reopened(c: Medium): seq<Page> {
    Replay(c.db, Recovered(c.log))
  }

  /** The writes of a commit, and what they make of the file. */
  lemma CommitWrites(disk: seq<Page>, view: seq<Page>, txn: nat, ops: seq<IoOp>) returns (ws: seq<Write>)
    requires CommitsTo(disk, view, txn, ops)
    ensures Writable(ws) && ops == CommitOps(txn, ws) && Replay(disk, ws) == view
    ensures |ops| == 2 * |ws| + 4
  {
    hide Replay, CommitOps, DirtyWrites;
    var fileLength: nat, pages, dirty :|
      && Consistent(disk, fileLength, pages, dirty)
      && view == ViewOf(disk, fileLength, pages)
      && ops == CommitOps(txn, DirtyWrites(pages, dirty, MAX_PAGES));
    ws := DirtyWrites(pages, dirty, MAX_PAGES);
    DirtyWritable(pages, dirty);
    DirtyMakesView(disk, fileLength, pages, dirty);
  }

  /** The operation after which the marker of a commit is durable. */
  function MarkerAt(ops: seq<IoOp>): nat {
    |ops| / 2
  }

  /** The I/O of a commit, operation by operation: the page records, the commit
      record, the log sync that makes it durable, then the same pages written to
      the file in the same order, the file sync, and only then an empty log. */
  lemma CommitShape(disk: seq<Page>, view: seq<Page>, txn: nat, ops: seq<IoOp>)
    requires CommitsTo(disk, view, txn, ops)
    ensures var n := MarkerAt(ops);
      && 2 <= n && |ops| == 2 * n
      && ops[n - 2] == WalAppend(CommitBytes(txn)) && ops[n - 1] == WalSync
      && ops[|ops| - 2] == DbSync && ops[|ops| - 1] == WalTruncate
      && var logged, written := ops[..n - 2], ops[n..|ops| - 2];
         forall i :: 0 <= i < n - 2 ==> written[i].DbWrite? && logged[i] == WalAppend(PageBytes(txn, written[i].w))
  {
    hide PageBytes, CommitBytes, CommitsTo;
    var ws := CommitWrites(disk, view, txn, ops);
    var n := MarkerAt(ops);
    assert ops[..n - 2] == AppendOps(txn, ws);
    assert ops[n..|ops| - 2] == ApplyOps(ws);
  }

  /** A commit that crashes after any number of its operations leaves, when the
      files are opened again, either exactly the pages of before or exactly the
      pages the transaction saw; the latter for certain once the marker is
      durable. */
  lemma CommitCrashes(disk: seq<Page>, view: seq<Page>, txn: nat, ops: seq<IoOp>, m: Medium, k: nat, c: Medium)
    requires CommitsTo(disk, view, txn, ops) && k <= |ops|
    requires Idle(m, disk) && CleanTail(m.log, txn) && txn < TWO64
    requires CrashesTo(ExecAll(m, ops[..k]), c)
    ensures Reopened(c) == disk || Reopened(c) == view
    ensures k >= MarkerAt(ops) ==> Reopened(c) == view
  {
    hide Replay, Recovered, CommitOps, CleanTail, CommitsTo, Idle, ExecAll;
    var ws := CommitWrites(disk, view, txn, ops);
    if k < MarkerSynced(ws) {
      CrashBeforeSync(m, disk, txn, ws, k, c);
    } else {
      CrashAfterSync(m, disk, txn, ws, k, c);
    }
  }

  /** The same through any number of interrupted recoveries. */
  lemma CommitSurvivesRecoveries(disk: seq<Page>, view: seq<Page>, txn: nat, ops: seq<IoOp>,
                                 m: Medium, k: nat, c: Medium, attempts: seq<(nat, Medium)>, e: Medium)
    requires CommitsTo(disk, view, txn, ops) && k <= |ops|
    requires Idle(m, disk) && CleanTail(m.log, txn) && txn < TWO64
    requires CrashesTo(ExecAll(m, ops[..k]), c) && Interrupted(c, attempts, e)
    ensures Reopened(e) == Reopened(c)
    ensures Reopened(e) == disk || Reopened(e) == view
  {
    hide Replay, Recovered, CleanTail, CommitsTo, Idle, ExecAll, RecoveryOps;
    CommitCrashes(disk, view, txn, ops, m, k, c);
    StillRecoverable(c, attempts, e);
  }

  lemma {:induction false} StillRecoverable(c: Medium, attempts: seq<(nat, Medium)>, e: Medium)
    requires c.dbSynced == c.db && c.pending == [] && c.logSynced == c.log
    requires Interrupted(c, attempts, e)
    ensures Reopened(e) == Reopened(c)
    decreases |attempts|
  {
    hide Replay, Recovered, RecoveryOps, ExecAll;
    if attempts != [] {
      var (k, c') := attempts[0];
      CrashInRecovery(c, Reopened(c), k, c');
      StillRecoverable(c', attempts[1..], e);
    }
  }
}
