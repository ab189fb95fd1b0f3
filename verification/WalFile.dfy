/** The write-ahead log file of one table. */
module WalFile {
  import opened Bytes
  import opened WalLog
  import opened Media

  class Wal {
    /** The file as the process sees it. */
    var file: seq<byte>
    var txnId: nat

    constructor (file: seq<byte>)
      ensures this.file == file && txnId == 0
    {
      this.file := file;
      txnId := 0;
    }

    method AppendPage(page: nat, data: Page) returns (ghost op: IoOp)
      modifies this
      ensures op == WalAppend(PageBytes(txnId, Write(page, data)))
      ensures file == old(file) + PageBytes(txnId, Write(page, data)) && txnId == old(txnId)
    {
      var rec := new byte[RECORD_SIZE](_ => 0);
      rec[0] := RECORD_TYPE_PAGE;
      Copy(rec, 1, ToLE(txnId, 8));
      Copy(rec, 9, ToLE(page, 4));
      Copy(rec, 13, data);
      assert rec[..][1..9] == rec[1..9] && rec[..][9..13] == rec[9..13] && rec[..][13..] == rec[13..];
      IsPageRecord(rec[..], txnId, Write(page, data));
      hide PageBytes, ToLE;
      file := file + rec[..];
      op := WalAppend(rec[..]);
    }

    /** The marker, and the sync that makes the transaction durable. */
    method AppendCommit() returns (ghost ops: seq<IoOp>)
      modifies this
      ensures ops == [WalAppend(CommitBytes(old(txnId))), WalSync]
      ensures file == old(file) + CommitBytes(old(txnId)) && txnId == old(txnId) + 1
    {
      var rec := new byte[RECORD_SIZE](_ => 0);
      rec[0] := RECORD_TYPE_COMMIT;
      Copy(rec, 1, ToLE(txnId, 8));
      assert rec[..][1..9] == rec[1..9];
      IsCommitRecord(rec[..], txnId);
      hide CommitBytes, ToLE;
      file := file + rec[..];
      ops := [WalAppend(rec[..]), WalSync];
      txnId := txnId + 1;
    }

    method Truncate() returns (ghost op: IoOp)
      modifies this
      ensures op == WalTruncate && file == [] && txnId == old(txnId)
    {
      file := [];
      op := WalTruncate;
    }

    /** Collect the committed transactions and all page records, then keep the
        records of the committed ones. */
    method Recover() returns (records: seq<Write>)
      ensures records == Recovered(file)
    {
      hide Parse, Redo;
      var committed: set<nat> := {};
      var pages: seq<(nat, Write)> := [];
      var at := 0;
      while at + RECORD_SIZE <= |file|
        invariant 0 <= at <= |file| && at % RECORD_SIZE == 0
        invariant committed == Committed(Records(file[..at]))
        invariant pages == PagesOf(Records(file[..at]))
      {
        var r := Parse(file[at..at + RECORD_SIZE]);
        NextRecord(file, at);
        RecordAdded(Records(file[..at]), r);
        match r {
          case CommitRecord(txn) => committed := committed + {txn};
          case PageRecord(txn, w) => pages := pages + [(txn, w)];
          case Unknown =>
        }
        at := at + RECORD_SIZE;
      }
      TailIgnored(file, at);
      records := Keep(pages, committed);
      KeepIsRedo(Records(file), committed);
    }
  }

  lemma FourZeros()
    ensures ToLE(0, 4) == [0, 0, 0, 0]
  {
    assert ToLE(0, 1) == [0];
    assert ToLE(0, 2) == [0, 0];
    assert ToLE(0, 3) == [0, 0, 0];
  }

  lemma IsPageRecord(rec: seq<byte>, txn: nat, w: Write)
    requires |rec| == RECORD_SIZE && rec[0] == RECORD_TYPE_PAGE && rec[1..9] == ToLE(txn, 8)
    requires rec[9..13] == ToLE(w.page, 4) && rec[13..] == w.data
    ensures rec == PageBytes(txn, w)
  {
    hide ToLE;
    assert rec == rec[..1] + rec[1..9] + rec[9..13] + rec[13..];
    assert rec[..1] == [RECORD_TYPE_PAGE];
  }

  lemma IsCommitRecord(rec: seq<byte>, txn: nat)
    requires |rec| == RECORD_SIZE && rec[0] == RECORD_TYPE_COMMIT && rec[1..9] == ToLE(txn, 8)
    requires forall i :: 9 <= i < |rec| ==> rec[i] == 0
    ensures rec == CommitBytes(txn)
  {
    FourZeros();
    assert rec[9..13] == ToLE(0, 4);
    hide ToLE;
    assert rec[13..] == ZeroPage();
    assert rec == rec[..1] + rec[1..9] + rec[9..13] + rec[13..];
    assert rec[..1] == [RECORD_TYPE_COMMIT];
  }

  /** The page records of a list, with their transactions. */
  function PagesOf(rs: seq<Record>): seq<(nat, Write)> {
    if rs == [] then []
    else (if rs[0].PageRecord? then [(rs[0].txn, rs[0].write)] else []) + PagesOf(rs[1..])
  }

  /** The final filter of recover. */
  function Keep(ps: seq<(nat, Write)>, txns: set<nat>): seq<Write> {
    if ps == [] then [] else (if ps[0].0 in txns then [ps[0].1] else []) + Keep(ps[1..], txns)
  }

  lemma {:induction false} PagesOfAppend(a: seq<Record>, b: seq<Record>)
    ensures PagesOf(a + b) == PagesOf(a) + PagesOf(b)
  {
    if a == [] {
      assert a + b == b;
    } else {
      PagesOfAppend(a[1..], b);
      assert (a + b)[1..] == a[1..] + b;
    }
  }

  lemma {:induction false} KeepIsRedo(rs: seq<Record>, txns: set<nat>)
    ensures Keep(PagesOf(rs), txns) == Redo(rs, txns)
  {
    if rs != [] {
      KeepIsRedo(rs[1..], txns);
      var tail := PagesOf(rs[1..]);
      if rs[0].PageRecord? {
        assert PagesOf(rs)[0] == (rs[0].txn, rs[0].write) && PagesOf(rs)[1..] == tail;
      } else {
        assert PagesOf(rs) == tail;
      }
    }
  }

  lemma RecordAdded(rs: seq<Record>, r: Record)
    ensures Committed(rs + [r]) == Committed(rs) + if r.CommitRecord? then {r.txn} else {}
    ensures PagesOf(rs + [r]) == PagesOf(rs) + if r.PageRecord? then [(r.txn, r.write)] else []
  {
    PagesOfAppend(rs, [r]);
    CommittedAppend(rs, [r]);
    assert Committed([r]) == if r.CommitRecord? then {r.txn} else {};
    assert PagesOf([r]) == (if r.PageRecord? then [(r.txn, r.write)] else []) + PagesOf([]);
  }

  lemma NextRecord(log: seq<byte>, at: nat)
    requires at % RECORD_SIZE == 0 && at + RECORD_SIZE <= |log|
    ensures Records(log[..at + RECORD_SIZE]) == Records(log[..at]) + [Parse(log[at..at + RECORD_SIZE])]
  {
    hide Parse, Records;
    var x := log[at..at + RECORD_SIZE];
    assert log[..at + RECORD_SIZE] == log[..at] + x;
    RecordsAppend(log[..at], x);
    assert x == x + [];
    RecordsCons(x, []);
    ShortLog([]);
  }

  lemma TailIgnored(log: seq<byte>, at: nat)
    requires at % RECORD_SIZE == 0 && at <= |log| < at + RECORD_SIZE
    ensures Records(log) == Records(log[..at])
  {
    hide Parse, Records;
    assert log == log[..at] + log[at..];
    RecordsAppend(log[..at], log[at..]);
    ShortLog(log[at..]);
  }
}
