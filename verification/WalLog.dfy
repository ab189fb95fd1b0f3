/** The redo log as bytes: fixed-size records, and what recovery makes of them. */
module WalLog {
  import opened Bytes
  import opened Cells

  type Page = s: seq<byte> | |s| == PAGE_SIZE witness Zeros(PAGE_SIZE)

  function ZeroPage(): Page {
    Zeros(PAGE_SIZE)
  }

  const RECORD_TYPE_PAGE: byte := 1
  const RECORD_TYPE_COMMIT: byte := 2
  const RECORD_SIZE: int := 4109

  /** One page write. */
  datatype Write = Write(page: nat, data: Page)

  datatype Record = PageRecord(txn: nat, write: Write) | CommitRecord(txn: nat) | Unknown

  /** The 4109 bytes of a page record. */
  function PageBytes(txn: nat, w: Write): (b: seq<byte>)
    ensures |b| == RECORD_SIZE
  {
    [RECORD_TYPE_PAGE] + ToLE(txn, 8) + ToLE(w.page, 4) + w.data
  }

  /** The 4109 bytes of a commit record: page number and data are zero. */
  function CommitBytes(txn: nat): (b: seq<byte>)
    ensures |b| == RECORD_SIZE
  {
    [RECORD_TYPE_COMMIT] + ToLE(txn, 8) + ToLE(0, 4) + ZeroPage()
  }

  function Parse(b: seq<byte>): Record
    requires |b| == RECORD_SIZE
  {
    if b[0] == RECORD_TYPE_COMMIT then CommitRecord(FromLE(b[1..9]))
    else if b[0] == RECORD_TYPE_PAGE then PageRecord(FromLE(b[1..9]), Write(FromLE(b[9..13]), b[13..]))
    else Unknown
  }

  lemma ParsePage(txn: nat, w: Write)
    requires txn < TWO64 && w.page < TWO32
    ensures Parse(PageBytes(txn, w)) == PageRecord(txn, w)
  {
    hide FromLE, ToLE, Pow256;
    Widths();
    FitsLE(txn, 8);
    FitsLE(w.page, 4);
    var b := PageBytes(txn, w);
    assert b[1..9] == ToLE(txn, 8) && b[9..13] == ToLE(w.page, 4) && b[13..] == w.data;
  }

  lemma ParseCommit(txn: nat)
    requires txn < TWO64
    ensures Parse(CommitBytes(txn)) == CommitRecord(txn)
  {
    hide FromLE, ToLE, Pow256;
    Widths();
    FitsLE(txn, 8);
    assert CommitBytes(txn)[1..9] == ToLE(txn, 8);
  }

  /** The whole records of a log; a torn tail is ignored. */
  function Records(log: seq<byte>): seq<Record> {
    if |log| < RECORD_SIZE then [] else [Parse(log[..RECORD_SIZE])] + Records(log[RECORD_SIZE..])
  }

  lemma RecordsCons(b: seq<byte>, tail: seq<byte>)
    requires |b| == RECORD_SIZE
    ensures Records(b + tail) == [Parse(b)] + Records(tail)
  {
    hide Parse;
    assert (b + tail)[..RECORD_SIZE] == b && (b + tail)[RECORD_SIZE..] == tail;
  }

  /** A log of whole records followed by anything. */
  lemma {:induction false} RecordsAppend(a: seq<byte>, b: seq<byte>)
    requires |a| % RECORD_SIZE == 0
    ensures Records(a + b) == Records(a) + Records(b)
  {
    if a == [] {
      assert a + b == b;
    } else {
      assert (a + b)[..RECORD_SIZE] == a[..RECORD_SIZE];
      assert (a + b)[RECORD_SIZE..] == a[RECORD_SIZE..] + b;
      RecordsAppend(a[RECORD_SIZE..], b);
    }
  }

  function Committed(rs: seq<Record>): set<nat> {
    set r | r in rs && r.CommitRecord? :: r.txn
  }

  function RedoOne(r: Record, txns: set<nat>): seq<Write> {
    if r.PageRecord? && r.txn in txns then [r.write] else []
  }

  /** The page writes of the given transactions, in log order. */
  function Redo(rs: seq<Record>, txns: set<nat>): seq<Write> {
    if rs == [] then [] else RedoOne(rs[0], txns) + Redo(rs[1..], txns)
  }

  lemma RedoCons(rs: seq<Record>, txns: set<nat>)
    ensures rs == [] ==> Redo(rs, txns) == []
    ensures rs != [] ==> Redo(rs, txns) == RedoOne(rs[0], txns) + Redo(rs[1..], txns)
  {
    hide RedoOne;
  }

  lemma {:induction false} RedoAppend(a: seq<Record>, b: seq<Record>, txns: set<nat>)
    ensures Redo(a + b, txns) == Redo(a, txns) + Redo(b, txns)
  {
    hide *;
    RedoCons(a, txns);
    if a == [] {
      assert a + b == b;
      assert [] + Redo(b, txns) == Redo(b, txns);
    } else {
      RedoAppend(a[1..], b, txns);
      RedoCons(a + b, txns);
      assert (a + b)[1..] == a[1..] + b;
      AppendAssoc(RedoOne(a[0], txns), Redo(a[1..], txns), Redo(b, txns));
    }
  }

  lemma {:induction false} RedoNone(rs: seq<Record>, txns: set<nat>)
    requires forall r :: r in rs && r.PageRecord? ==> r.txn !in txns
    ensures Redo(rs, txns) == []
  {
    if rs != [] {
      assert rs[0] in rs;
      RedoNone(rs[1..], txns);
    }
  }

  lemma {:induction false} RedoEmpty(rs: seq<Record>, txns: set<nat>)
    requires Redo(rs, txns) == []
    ensures forall r :: r in rs && r.PageRecord? ==> r.txn !in txns
  {
    if rs != [] {
      RedoEmpty(rs[1..], txns);
    }
  }

  /** What recover returns. */
  function Recovered(log: seq<byte>): seq<Write> {
    Redo(Records(log), Committed(Records(log)))
  }

  // ------------------------------------------------------------------
  // Logs written by one handle
  // ------------------------------------------------------------------

  /** The page records of one transaction. */
  function Pages(txn: nat, ws: seq<Write>): seq<byte> {
    if ws == [] then [] else PageBytes(txn, ws[0]) + Pages(txn, ws[1..])
  }

  function PageRecords(txn: nat, ws: seq<Write>): (rs: seq<Record>)
    ensures |rs| == |ws|
  {
    if ws == [] then [] else [PageRecord(txn, ws[0])] + PageRecords(txn, ws[1..])
  }

  ghost predicate Writable(ws: seq<Write>) {
    forall w :: w in ws ==> w.page < TWO32
  }

  lemma {:induction false} PagesAppend(txn: nat, a: seq<Write>, b: seq<Write>)
    ensures Pages(txn, a + b) == Pages(txn, a) + Pages(txn, b)
  {
    hide PageBytes;
    if a == [] {
      assert a + b == b;
    } else {
      PagesAppend(txn, a[1..], b);
      PagesCons(txn, a);
      PagesCons(txn, a + b);
      assert (a + b)[1..] == a[1..] + b;
      AppendAssoc(PageBytes(txn, a[0]), Pages(txn, a[1..]), Pages(txn, b));
    }
  }

  lemma PagesCons(txn: nat, ws: seq<Write>)
    requires ws != []
    ensures Pages(txn, ws) == PageBytes(txn, ws[0]) + Pages(txn, ws[1..])
  {
    hide PageBytes;
  }

  lemma {:induction false} PagesSize(txn: nat, ws: seq<Write>)
    ensures |Pages(txn, ws)| == RECORD_SIZE * |ws|
  {
    if ws != [] {
      PagesSize(txn, ws[1..]);
    }
  }

  /** However many bytes of the page records survive, they parse to a prefix of them. */
  lemma {:induction false} PagesCut(txn: nat, ws: seq<Write>, n: nat)
    requires txn < TWO64 && Writable(ws) && n <= |Pages(txn, ws)|
    ensures n / RECORD_SIZE <= |ws|
    ensures Records(Pages(txn, ws)[..n]) == PageRecords(txn, ws[..n / RECORD_SIZE])
  {
    PagesSize(txn, ws);
    if n >= RECORD_SIZE {
      hide PageBytes, Parse, Records;
      assert ws[0] in ws;
      ParsePage(txn, ws[0]);
      var b, tail := PageBytes(txn, ws[0]), Pages(txn, ws[1..]);
      PagesSize(txn, ws[1..]);
      TakeAppend(b, tail, n);
      RecordsCons(b, tail[..n - RECORD_SIZE]);
      PagesCut(txn, ws[1..], n - RECORD_SIZE);
      var k := n / RECORD_SIZE;
      assert (n - RECORD_SIZE) / RECORD_SIZE == k - 1;
      assert ws[..k][1..] == ws[1..][..k - 1];
    }
  }

  lemma {:induction false} PageRecordsMembers(txn: nat, ws: seq<Write>)
    ensures forall r :: r in PageRecords(txn, ws) ==> r.PageRecord? && r.txn == txn
    ensures Committed(PageRecords(txn, ws)) == {}
  {
    if ws != [] {
      PageRecordsMembers(txn, ws[1..]);
    }
  }

  lemma {:induction false} RedoPages(txn: nat, ws: seq<Write>, txns: set<nat>)
    ensures Redo(PageRecords(txn, ws), txns) == if txn in txns then ws else []
  {
    if ws != [] {
      RedoPages(txn, ws[1..], txns);
    }
  }

  /** All page records and the commit record of one transaction. */
  function Batch(txn: nat, ws: seq<Write>): seq<byte> {
    Pages(txn, ws) + CommitBytes(txn)
  }

  lemma BatchRecords(txn: nat, ws: seq<Write>)
    requires txn < TWO64 && Writable(ws)
    ensures |Batch(txn, ws)| == RECORD_SIZE * (|ws| + 1)
    ensures Records(Batch(txn, ws)) == PageRecords(txn, ws) + [CommitRecord(txn)]
  {
    hide Records, Parse, PageBytes, CommitBytes, PageRecords, Pages;
    PagesSize(txn, ws);
    WholePages(txn, ws);
    RecordsAppend(Pages(txn, ws), CommitBytes(txn));
    CommitOnly(txn);
  }

  lemma WholePages(txn: nat, ws: seq<Write>)
    requires txn < TWO64 && Writable(ws)
    ensures Records(Pages(txn, ws)) == PageRecords(txn, ws)
  {
    hide Records, Parse, PageBytes, PageRecords, Pages;
    PagesSize(txn, ws);
    PagesCut(txn, ws, RECORD_SIZE * |ws|);
    assert Pages(txn, ws)[..RECORD_SIZE * |ws|] == Pages(txn, ws) && ws[..|ws|] == ws;
  }

  lemma CommitOnly(txn: nat)
    requires txn < TWO64
    ensures Records(CommitBytes(txn)) == [CommitRecord(txn)]
  {
    hide Records, Parse, CommitBytes;
    ParseCommit(txn);
    var c := CommitBytes(txn);
    assert c == c + [];
    RecordsCons(c, []);
    ShortLog([]);
  }

  /** The log of a handle that starts at transaction txn and commits one batch
      after the other without truncating. */
  function Log(txn: nat, batches: seq<seq<Write>>): seq<byte>
    decreases |batches|
  {
    if batches == [] then [] else Batch(txn, batches[0]) + Log(txn + 1, batches[1..])
  }

  function Concat(batches: seq<seq<Write>>): seq<Write> {
    if batches == [] then [] else batches[0] + Concat(batches[1..])
  }

  /** How many batches survive whole when only n bytes do. */
  function Survivors(batches: seq<seq<Write>>, n: nat): (k: nat)
    ensures k <= |batches|
    decreases |batches|
  {
    if batches == [] || n < RECORD_SIZE * (|batches[0]| + 1) then 0
    else 1 + Survivors(batches[1..], n - RECORD_SIZE * (|batches[0]| + 1))
  }

  ghost predicate AllWritable(batches: seq<seq<Write>>) {
    forall ws :: ws in batches ==> Writable(ws)
  }

  ghost predicate CommitsAre(rs: seq<Record>, lo: nat, hi: nat) {
    forall t: nat :: t in Committed(rs) <==> lo <= t < hi
  }

  /** The surviving records: whole batches, then page records of one more. */
  lemma {:induction false} LogCut(txn: nat, batches: seq<seq<Write>>, n: nat, known: set<nat>)
    requires txn + |batches| <= TWO64 && AllWritable(batches) && n <= |Log(txn, batches)|
    requires forall t :: t in known ==> t < txn
    ensures var rs, k := Records(Log(txn, batches)[..n]), Survivors(batches, n);
      && CommitsAre(rs, txn, txn + k)
      && Redo(rs, known + Committed(rs)) == Concat(batches[..k])
    decreases |batches|, 1
  {
    if batches != [] && |Batch(txn, batches[0])| <= n {
      LogCutRest(txn, batches, n, known);
    } else {
      LogCutFirst(txn, batches, n, known);
    }
  }

  /** The cut is inside the first batch. */
  lemma LogCutFirst(txn: nat, batches: seq<seq<Write>>, n: nat, known: set<nat>)
    requires txn + |batches| <= TWO64 && AllWritable(batches) && n <= |Log(txn, batches)|
    requires forall t :: t in known ==> t < txn
    requires batches != [] ==> n < |Batch(txn, batches[0])|
    ensures var rs, k := Records(Log(txn, batches)[..n]), Survivors(batches, n);
      && CommitsAre(rs, txn, txn + k)
      && Redo(rs, known + Committed(rs)) == Concat(batches[..k])
  {
    hide Parse, Batch, Records, Redo, Committed;
    assert batches[..0] == [];
    if batches != [] {
      var ws := batches[0];
      assert ws in batches;
      BatchRecords(txn, ws);
      TornBatch(txn, ws, Log(txn + 1, batches[1..]), n, known);
      assert known + {} == known;
    } else {
      NothingLogged(known);
      assert Log(txn, batches)[..n] == [];
      assert known + {} == known;
    }
  }

  lemma NothingLogged(txns: set<nat>)
    ensures Records([]) == [] && Committed([]) == {} && Redo([], txns) == []
  {
  }

  lemma {:induction false} LogCutRest(txn: nat, batches: seq<seq<Write>>, n: nat, known: set<nat>)
    requires txn + |batches| <= TWO64 && AllWritable(batches) && n <= |Log(txn, batches)|
    requires forall t :: t in known ==> t < txn
    requires batches != [] && |Batch(txn, batches[0])| <= n
    ensures var rs, k := Records(Log(txn, batches)[..n]), Survivors(batches, n);
      && CommitsAre(rs, txn, txn + k)
      && Redo(rs, known + Committed(rs)) == Concat(batches[..k])
    decreases |batches|, 0
  {
    hide Parse, CommitBytes, PageBytes, Records, Committed, Batch, Redo, PageRecords;
    var ws := batches[0];
    assert ws in batches;
    BatchRecords(txn, ws);
    var m := n - |Batch(txn, ws)|;
    LogCut(txn + 1, batches[1..], m, known + {txn});
    WholeBatch(txn, ws, Log(txn + 1, batches[1..]), m, known);
    var k := Survivors(batches, n);
    assert batches[..k][1..] == batches[1..][..k - 1];
  }

  /** The records of one batch: they commit its transaction and replay its writes. */
  lemma BatchRedo(txn: nat, ws: seq<Write>, done: set<nat>)
    requires txn < TWO64 && Writable(ws) && txn in done
    ensures Committed(Records(Batch(txn, ws))) == {txn}
    ensures Redo(Records(Batch(txn, ws)), done) == ws
  {
    hide Records, Batch, PageRecords, Redo, Committed;
    var p, c := PageRecords(txn, ws), [CommitRecord(txn)];
    BatchRecords(txn, ws);
    PageRecordsMembers(txn, ws);
    CommittedAppend(p, c);
    OneCommit(txn, done);
    RedoAppend(p, c, done);
    RedoPages(txn, ws, done);
  }

  lemma OneCommit(txn: nat, done: set<nat>)
    ensures Committed([CommitRecord(txn)]) == {txn} && Redo([CommitRecord(txn)], done) == []
  {
  }

  /** A whole batch at the head of a log commits its writes. */
  lemma WholeBatch(txn: nat, ws: seq<Write>, rest: seq<byte>, m: nat, known: set<nat>)
    requires txn < TWO64 && Writable(ws) && m <= |rest|
    ensures var b := Batch(txn, ws);
      var all, rs := Records((b + rest)[..|b| + m]), Records(rest[..m]);
      && Committed(all) == {txn} + Committed(rs)
      && Redo(all, known + Committed(all)) == ws + Redo(rs, known + {txn} + Committed(rs))
  {
    hide Records, Batch, PageRecords, Redo, Committed;
    var b, head, rs := Batch(txn, ws), Records(Batch(txn, ws)), Records(rest[..m]);
    BatchRecords(txn, ws);
    TakeAppend(b, rest, |b| + m);
    RecordsAppend(b, rest[..m]);
    CommittedAppend(head, rs);
    var txns := known + {txn} + Committed(rs);
    BatchRedo(txn, ws, txns);
    RedoAppend(head, rs, txns);
    assert known + ({txn} + Committed(rs)) == txns;
  }

  lemma CommittedAppend(a: seq<Record>, b: seq<Record>)
    ensures Committed(a + b) == Committed(a) + Committed(b)
  {
  }

  /** Less than a whole batch: nothing is committed. */
  lemma TornBatch(txn: nat, ws: seq<Write>, rest: seq<byte>, n: nat, known: set<nat>)
    requires txn < TWO64 && Writable(ws) && n < |Batch(txn, ws)|
    requires txn !in known
    ensures var rs := Records((Batch(txn, ws) + rest)[..n]); Committed(rs) == {} && Redo(rs, known) == []
  {
    hide Parse, CommitBytes, PageBytes, Records, Committed, Redo, Pages;
    PagesSize(txn, ws);
    var p, log := Pages(txn, ws), Batch(txn, ws) + rest;
    var k := if n <= |p| then n else |p|;
    PagesCut(txn, ws, k);
    var rs := PageRecords(txn, ws[..k / RECORD_SIZE]);
    PageRecordsMembers(txn, ws[..k / RECORD_SIZE]);
    if n <= |p| {
      assert log[..n] == p[..n];
    } else {
      var tail := CommitBytes(txn)[..n - |p|];
      assert log[..n] == p + tail;
      RecordsAppend(p, tail);
      assert p[..|p|] == p;
      ShortLog(tail);
      assert rs + [] == rs;
    }
    RedoNone(rs, known);
  }

  lemma ShortLog(log: seq<byte>)
    requires |log| < RECORD_SIZE
    ensures Records(log) == []
  {
  }

  /** The filter is exact: whatever byte the log is cut at, recovery returns
      the page records of exactly the transactions whose commit record
      survives whole, in the order they were appended. */
  lemma RecoverExact(txn: nat, batches: seq<seq<Write>>, n: nat)
    requires txn + |batches| <= TWO64 && AllWritable(batches) && n <= |Log(txn, batches)|
    ensures Recovered(Log(txn, batches)[..n]) == Concat(batches[..Survivors(batches, n)])
  {
    LogCut(txn, batches, n, {});
    assert {} + Committed(Records(Log(txn, batches)[..n])) == Committed(Records(Log(txn, batches)[..n]));
  }

  // ------------------------------------------------------------------
  // Any log, from its bytes alone
  // ------------------------------------------------------------------

  /** The i-th 4109 bytes. */
  function Block(log: seq<byte>, i: nat): (b: seq<byte>)
    requires i < |log| / RECORD_SIZE
    ensures |b| == RECORD_SIZE
  {
    log[RECORD_SIZE * i..RECORD_SIZE * i + RECORD_SIZE]
  }

  predicate CommitsFor(log: seq<byte>, j: nat, txn: seq<byte>) {
    j < |log| / RECORD_SIZE && Block(log, j)[0] == 2 && Block(log, j)[1..9] == txn
  }

  /** Block i is a page record, and somewhere in the log there is a commit
      record with the same eight bytes of transaction number. */
  ghost predicate Replayable(log: seq<byte>, i: nat)
    requires i < |log| / RECORD_SIZE
  {
    Block(log, i)[0] == 1 && exists j: nat :: CommitsFor(log, j, Block(log, i)[1..9])
  }

  /** The page numbers and pages, as they stand in the replayable ones of the
      first n blocks. */
  ghost function Replays(log: seq<byte>, n: nat): seq<Write>
    requires n <= |log| / RECORD_SIZE
  {
    if n == 0 then []
    else
      var b := Block(log, n - 1);
      Replays(log, n - 1) + if Replayable(log, n - 1) then [Write(Num4(b, 9), b[13..])] else []
  }

  lemma {:induction false} RecordsAre(log: seq<byte>)
    ensures |Records(log)| == |log| / RECORD_SIZE
    ensures forall i: nat :: i < |log| / RECORD_SIZE ==> Records(log)[i] == Parse(Block(log, i))
  {
    if |log| >= RECORD_SIZE {
      hide Parse;
      var rest := log[RECORD_SIZE..];
      RecordsAre(rest);
      assert |log| / RECORD_SIZE == |rest| / RECORD_SIZE + 1;
      forall i: nat | i < |log| / RECORD_SIZE ensures Records(log)[i] == Parse(Block(log, i)) {
        if i > 0 {
          assert Block(rest, i - 1) == Block(log, i);
        } else {
          assert Block(log, 0) == log[..RECORD_SIZE];
        }
      }
    }
  }

  lemma SameBytes(a: seq<byte>, b: seq<byte>)
    requires |a| == |b|
    ensures FromLE(a) == FromLE(b) <==> a == b
  {
    BackLE(a);
    BackLE(b);
  }

  lemma CommitBlock(log: seq<byte>, j: nat, txn: seq<byte>)
    requires j < |log| / RECORD_SIZE && |txn| == 8
    ensures Parse(Block(log, j)) == CommitRecord(FromLE(txn)) <==> CommitsFor(log, j, txn)
  {
    hide FromLE, Block;
    SameBytes(Block(log, j)[1..9], txn);
  }

  lemma CommittedRaw(log: seq<byte>, txn: seq<byte>)
    requires |txn| == 8
    ensures FromLE(txn) in Committed(Records(log)) <==> exists j: nat :: CommitsFor(log, j, txn)
  {
    hide FromLE, Records, Parse, Block, CommitsFor;
    RecordsAre(log);
    var rs := Records(log);
    forall j: nat | j < |rs| ensures rs[j] == CommitRecord(FromLE(txn)) <==> CommitsFor(log, j, txn) {
      CommitBlock(log, j, txn);
    }
    if FromLE(txn) in Committed(rs) {
      var j: nat :| j < |rs| && rs[j] == CommitRecord(FromLE(txn));
    }
    if j: nat :| CommitsFor(log, j, txn) {
      CommitInside(log, j, txn);
      assert rs[j] in rs;
    }
  }

  lemma CommitInside(log: seq<byte>, j: nat, txn: seq<byte>)
    requires CommitsFor(log, j, txn)
    ensures j < |log| / RECORD_SIZE
  {
  }

  lemma OneReplay(log: seq<byte>, i: nat)
    requires i < |log| / RECORD_SIZE
    ensures RedoOne(Parse(Block(log, i)), Committed(Records(log)))
      == if Replayable(log, i) then [Write(Num4(Block(log, i), 9), Block(log, i)[13..])] else []
  {
    hide FromLE, Records, Block, CommitsFor, Committed;
    CommittedRaw(log, Block(log, i)[1..9]);
    FourBytes(Block(log, i), 9);
  }

  lemma {:induction false} ReplaysPrefix(log: seq<byte>, n: nat)
    requires n <= |log| / RECORD_SIZE == |Records(log)|
    ensures Redo(Records(log)[..n], Committed(Records(log))) == Replays(log, n)
    decreases n
  {
    hide Records, Committed, Replayable, FromLE, Redo, RedoOne, Parse, Block;
    var rs, txns := Records(log), Committed(Records(log));
    if n > 0 {
      RecordsAre(log);
      ReplaysPrefix(log, n - 1);
      assert rs[..n] == rs[..n - 1] + [rs[n - 1]];
      RedoAppend(rs[..n - 1], [rs[n - 1]], txns);
      RedoSingle(rs[n - 1], txns);
      OneReplay(log, n - 1);
    } else {
      RedoCons(rs[..0], txns);
    }
  }

  lemma RedoSingle(r: Record, txns: set<nat>)
    ensures Redo([r], txns) == RedoOne(r, txns)
  {
    assert [r][1..] == [] && RedoOne(r, txns) + [] == RedoOne(r, txns);
    assert Redo([], txns) == [];
  }

  /** recover, for any bytes at all: the records are the whole blocks of 4109
      bytes; a page record is returned exactly if some commit record anywhere in
      the log carries the same transaction number; unknown types and a torn
      tail are ignored, and the order is that of the log. */
  lemma RecoveredRaw(log: seq<byte>)
    ensures Recovered(log) == Replays(log, |log| / RECORD_SIZE)
  {
    hide Records, Replays, Redo, Committed;
    RecordsAre(log);
    ReplaysPrefix(log, |log| / RECORD_SIZE);
    assert Records(log)[..|log| / RECORD_SIZE] == Records(log);
  }
}
