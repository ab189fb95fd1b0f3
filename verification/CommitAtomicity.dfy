/** Exactly which logs a commit may append to. */
module CommitAtomicity {
  import opened Bytes
  import opened Cells
  import opened WalLog
  import opened Media
  import opened Crash

  // ------------------------------------------------------------------
  // Logs that a commit does not find empty
  // ------------------------------------------------------------------

  /** Every cut of the log of every commit appended to w replays to nothing or
      to the batch, and the whole log to the batch. */
  ghost predicate CommitAtomic(w: seq<byte>, txn: nat) {
    forall db: seq<Page>, ws: seq<Write>, log: seq<byte> ::
      Writable(ws) && w <= log && log <= w + Batch(txn, ws) ==>
        && (Replay(db, Recovered(log)) == db || Replay(db, Recovered(log)) == Replay(db, ws))
        && (log == w + Batch(txn, ws) ==> Replay(db, Recovered(log)) == Replay(db, ws))
  }

  function OnePage(b: byte): Page {
    seq(PAGE_SIZE, _ => b)
  }

  lemma PagesDiffer()
    ensures OnePage(1) != ZeroPage()
  {
    assert OnePage(1)[0] == 1 && ZeroPage()[0] == 0;
  }

  /** Replaying anything at all changes some file. */
  lemma SomeFileChanges(stale: seq<Write>) returns (db: seq<Page>)
    requires stale != []
    ensures Replay(db, stale) != db
  {
    hide Replay, Last, Reach, OnePage;
    PagesDiffer();
    var p := stale[0].page;
    assert Touches(stale, p);
    var x := Last(stale, p, ZeroPage());
    var other := if x == ZeroPage() then OnePage(1) else ZeroPage();
    db := seq(p + 1, _ => other);
    ReplayIs(db, stale, p);
    LastTouched(stale, p, At(db, p), ZeroPage());
  }

  /** A log that already has something to replay. */
  lemma ReplaysOldPages(w: seq<byte>, txn: nat)
    requires Recovered(w) != []
    ensures !CommitAtomic(w, txn)
  {
    hide Replay, Recovered, Batch;
    var db := SomeFileChanges(Recovered(w));
    NoReplay(db);
    assert Writable([]) && w <= w <= w + Batch(txn, []);
  }

  /** A page record of an unfinished transaction of the same number: the next
      commit adopts it. */
  lemma AdoptsStalePage(w: seq<byte>, txn: nat, r: Record)
    requires |w| % RECORD_SIZE == 0 && txn < TWO64
    requires r in Records(w) && r.PageRecord? && r.txn == txn
    ensures !CommitAtomic(w, txn)
  {
    hide Records, Batch, Committed, Replay;
    BatchRecovers(w, txn, []);
    var done := Committed(Records(w)) + {txn};
    var stale := Redo(Records(w), done);
    assert stale + [] == stale;
    Adopted(Records(w), done, r);
    var db := SomeFileChanges(stale);
    NoReplay(db);
    var log := w + Batch(txn, []);
    assert Writable([]) && w <= log <= log;
  }

  lemma Adopted(rs: seq<Record>, done: set<nat>, r: Record)
    requires r in rs && r.PageRecord? && r.txn in done
    ensures Redo(rs, done) != []
  {
    if Redo(rs, done) == [] {
      RedoEmpty(rs, done);
      assert false;
    }
  }

  /** A leftover marker of the same number: the page records of the next
      transaction count as committed one by one. */
  lemma CommitsTooEarly(w: seq<byte>, txn: nat)
    requires |w| % RECORD_SIZE == 0 && txn < TWO64 && Recovered(w) == []
    requires txn in Committed(Records(w))
    ensures !CommitAtomic(w, txn)
  {
    hide PageBytes, Batch, Records, Redo, Recovered, Committed, Replay, OnePage, Parse;
    var a, b := Write(0, OnePage(1)), Write(1, OnePage(1));
    var ws, x := [a, b], PageBytes(txn, a);
    var log, full := w + x, w + Batch(txn, ws);
    FirstRecord(txn, a, b);
    TooEarly(w, txn, a);
    OneOfTwo(a, b);
    assert Writable(ws) && w <= log && log <= full;
  }

  /** One page record behind the leftover marker is replayed. */
  lemma TooEarly(w: seq<byte>, txn: nat, a: Write)
    requires |w| % RECORD_SIZE == 0 && txn < TWO64 && a.page < TWO32 && Recovered(w) == []
    requires txn in Committed(Records(w))
    ensures Recovered(w + PageBytes(txn, a)) == [a]
  {
    OnePageLog(txn, a, Committed(Records(w)));
    RecoveredAppend(w, PageBytes(txn, a));
    hide PageBytes, Records, Redo;
    assert Committed(Records(w)) + {} == Committed(Records(w));
    assert [] + [a] == [a];
  }

  lemma OnePageLog(txn: nat, a: Write, done: set<nat>)
    requires txn < TWO64 && a.page < TWO32 && txn in done
    ensures var x := PageBytes(txn, a); Committed(Records(x)) == {} && Redo(Records(x), done) == [a]
  {
    hide PageBytes;
    var x := PageBytes(txn, a);
    ParsePage(txn, a);
    assert x == x + [];
    RecordsCons(x, []);
    ShortLog([]);
    assert Records(x) == [PageRecord(txn, a)];
  }

  lemma FirstRecord(txn: nat, a: Write, b: Write)
    ensures PageBytes(txn, a) <= Batch(txn, [a, b])
  {
    assert Pages(txn, [a, b]) == PageBytes(txn, a) + Pages(txn, [a, b][1..]);
  }

  lemma OneOfTwo(a: Write, b: Write)
    requires a == Write(0, OnePage(1)) && b == Write(1, OnePage(1))
    ensures var db: seq<Page> := [ZeroPage(), ZeroPage()]; Replay(db, [a]) != db && Replay(db, [a]) != Replay(db, [a, b])
  {
    var db: seq<Page> := [ZeroPage(), ZeroPage()];
    PagesDiffer();
    assert [a, b][1..] == [b];
    assert Replay(db, [a]) == WriteAt(db, a);
    assert Replay(db, [a, b]) == Replay(WriteAt(db, a), [b]);
    assert Replay(WriteAt(db, a), [b]) == WriteAt(WriteAt(db, a), b);
    assert WriteAt(db, a)[0] == OnePage(1) && WriteAt(db, a)[1] == ZeroPage();
    assert WriteAt(WriteAt(db, a), b)[1] == OnePage(1);
  }

  // ------------------------------------------------------------------
  // Torn tails
  // ------------------------------------------------------------------

  /** A page whose first bytes do not tell v. */
  function Probe(v: byte): Page {
    seq(PAGE_SIZE, i requires 0 <= i => if i < 13 then 7 else v)
  }

  /** The records that a torn tail makes of a commit of Probe(v) to page 0. */
  function First(tail: seq<byte>, txn: nat, v: byte): (a: seq<byte>)
    requires 0 < |tail| < RECORD_SIZE
    ensures |a| == RECORD_SIZE
  {
    tail + PageBytes(txn, Write(0, Probe(v)))[..RECORD_SIZE - |tail|]
  }

  function Second(tail: seq<byte>, txn: nat, v: byte): (b: seq<byte>)
    requires 0 < |tail| < RECORD_SIZE
    ensures |b| == RECORD_SIZE
  {
    PageBytes(txn, Write(0, Probe(v)))[RECORD_SIZE - |tail|..] + CommitBytes(txn)[..RECORD_SIZE - |tail|]
  }

  lemma Reframed<T>(w: seq<T>, t: seq<T>, p: seq<T>, c: seq<T>, n: nat)
    requires n <= |p| && n <= |c|
    ensures (w + t) + (p + c) == w + ((t + p[..n]) + ((p[n..] + c[..n]) + c[n..]))
  {
  }

  lemma TornRecords(w: seq<byte>, tail: seq<byte>, txn: nat, v: byte)
    requires |w| % RECORD_SIZE == 0 && 0 < |tail| < RECORD_SIZE
    ensures Records((w + tail) + Batch(txn, [Write(0, Probe(v))]))
      == Records(w) + [Parse(First(tail, txn, v)), Parse(Second(tail, txn, v))]
  {
    hide Records, Parse, PageBytes, CommitBytes, Probe;
    var p, c := PageBytes(txn, Write(0, Probe(v))), CommitBytes(txn);
    OneBatch(txn, Write(0, Probe(v)));
    Reframed(w, tail, p, c, RECORD_SIZE - |tail|);
    var a, b, rest := First(tail, txn, v), Second(tail, txn, v), c[RECORD_SIZE - |tail|..];
    RecordsAppend(w, a + (b + rest));
    RecordsCons(a, b + rest);
    RecordsCons(b, rest);
    ShortLog(rest);
    assert [Parse(a)] + ([Parse(b)] + []) == [Parse(a), Parse(b)];
  }

  lemma OneBatch(txn: nat, w: Write)
    ensures Batch(txn, [w]) == PageBytes(txn, w) + CommitBytes(txn)
  {
    hide PageBytes, CommitBytes;
    assert Pages(txn, [w]) == PageBytes(txn, w) + Pages(txn, []);
  }

  /** Same kind of record, same transaction, same page. */
  ghost predicate SameHead(a: Record, b: Record) {
    match a
    case PageRecord(t, w) => b.PageRecord? && b.txn == t && b.write.page == w.page
    case CommitRecord(_) => a == b
    case Unknown => b.Unknown?
  }

  lemma ParseHead(a: seq<byte>, b: seq<byte>)
    requires |a| == |b| == RECORD_SIZE && a[..13] == b[..13]
    ensures SameHead(Parse(a), Parse(b))
  {
    hide FromLE;
    assert a[0] == a[..13][0] && b[0] == b[..13][0];
    assert a[1..9] == a[..13][1..9] && b[1..9] == b[..13][1..9];
    assert a[9..13] == a[..13][9..13] && b[9..13] == b[..13][9..13];
  }

  /** The bytes of the page record, one by one. */
  lemma ProbeBytes(txn: nat, v: byte)
    ensures var p := PageBytes(txn, Write(0, Probe(v)));
      && p[0] == RECORD_TYPE_PAGE && p[12] == 0
      && (forall i :: 13 <= i < RECORD_SIZE ==> p[i] == Probe(v)[i - 13])
      && p[..13] == [RECORD_TYPE_PAGE] + ToLE(txn, 8) + ToLE(0, 4)
  {
    hide Probe;
    FourZeroBytes();
  }

  lemma FourZeroBytes()
    ensures ToLE(0, 4) == [0, 0, 0, 0]
  {
    assert ToLE(0, 1) == [0];
    assert ToLE(0, 2) == [0, 0];
    assert ToLE(0, 3) == [0, 0, 0];
  }

  /** Neither shifted record carries the page, and what they commit does not
      depend on v. */
  lemma FirstShifted(tail: seq<byte>, txn: nat, v: byte)
    requires 0 < |tail| < RECORD_SIZE && (v == 7 || v == 8)
    ensures SameHead(Parse(First(tail, txn, 7)), Parse(First(tail, txn, v)))
    ensures var r := Parse(First(tail, txn, v)); r.PageRecord? ==> r.write.data != Probe(v)
  {
    hide PageBytes, FromLE, ToLE;
    ProbeBytes(txn, 7);
    ProbeBytes(txn, v);
    var t, a := |tail|, First(tail, txn, v);
    var p7, p := PageBytes(txn, Write(0, Probe(7))), PageBytes(txn, Write(0, Probe(v)));
    forall i | 0 <= i < 13 ensures First(tail, txn, 7)[i] == a[i] {
      assert i >= t ==> p7[..13][i - t] == p[..13][i - t];
    }
    assert First(tail, txn, 7)[..13] == a[..13];
    ParseHead(First(tail, txn, 7), a);
    var i := if t >= 13 then t - 13 else t - 1;
    assert a[13..][i] == a[13 + i] == if t >= 13 then p[0] else p[12];
  }

  lemma SecondShifted(tail: seq<byte>, txn: nat, v: byte)
    requires 0 < |tail| < RECORD_SIZE && (v == 7 || v == 8)
    ensures SameHead(Parse(Second(tail, txn, 7)), Parse(Second(tail, txn, v)))
    ensures var r := Parse(Second(tail, txn, v)); r.PageRecord? ==> r.write.data != Probe(v)
  {
    hide PageBytes, FromLE, ToLE, CommitBytes;
    ProbeBytes(txn, 7);
    ProbeBytes(txn, v);
    var q, b := RECORD_SIZE - |tail|, Second(tail, txn, v);
    var p7, p := PageBytes(txn, Write(0, Probe(7))), PageBytes(txn, Write(0, Probe(v)));
    if q >= 13 {
      assert b[0] == p[q] && Second(tail, txn, 7)[0] == p7[q];
    } else {
      forall i | 0 <= i < 13 ensures Second(tail, txn, 7)[i] == b[i] {
        assert q + i < 13 ==> p7[..13][q + i] == p[..13][q + i];
      }
      assert Second(tail, txn, 7)[..13] == b[..13];
      ParseHead(Second(tail, txn, 7), b);
      CommitHead(txn);
      assert b[13..][PAGE_SIZE - q] == b[RECORD_SIZE - q] == CommitBytes(txn)[0];
    }
  }

  lemma CommitHead(txn: nat)
    ensures CommitBytes(txn)[0] == RECORD_TYPE_COMMIT
  {
  }

  lemma {:induction false} LastAppend(a: seq<Write>, b: seq<Write>, i: nat, d: Page)
    ensures Last(a + b, i, d) == Last(b, i, Last(a, i, d))
    decreases |a|
  {
    if a == [] {
      assert a + b == b;
    } else {
      assert (a + b)[1..] == a[1..] + b;
      LastAppend(a[1..], b, i, if a[0].page == i then a[0].data else d);
    }
  }

  /** What is on a page in the end comes from the old records or from one of
      the two new ones. */
  lemma LastOfThree(rs: seq<Record>, a: Record, b: Record, done: set<nat>, i: nat, d: Page)
    ensures var x := Last(Redo(rs + [a, b], done), i, d);
      || x == Last(Redo(rs, done), i, d)
      || (a.PageRecord? && x == a.write.data)
      || (b.PageRecord? && x == b.write.data)
  {
    hide Redo, Last;
    RedoAppend(rs, [a, b], done);
    RedoPair(a, b, done);
    LastAppend(Redo(rs, done), RedoOne(a, done) + RedoOne(b, done), i, d);
    LastAppend(RedoOne(a, done), RedoOne(b, done), i, Last(Redo(rs, done), i, d));
    LastOne(a, done, i, Last(Redo(rs, done), i, d));
    LastOne(b, done, i, Last(RedoOne(a, done), i, Last(Redo(rs, done), i, d)));
  }

  lemma LastOne(r: Record, done: set<nat>, i: nat, d: Page)
    ensures var x := Last(RedoOne(r, done), i, d); x == d || (r.PageRecord? && x == r.write.data)
  {
    if RedoOne(r, done) != [] {
      assert RedoOne(r, done)[1..] == [];
    }
  }

  lemma RedoPair(a: Record, b: Record, done: set<nat>)
    ensures Redo([a, b], done) == RedoOne(a, done) + RedoOne(b, done)
  {
    hide RedoOne;
    assert [a, b][1..] == [b] && [b][1..] == [];
    assert Redo([b], done) == RedoOne(b, done) + [];
    assert RedoOne(b, done) + [] == RedoOne(b, done);
  }

  lemma SameCommits(rs: seq<Record>, a: Record, b: Record, a': Record, b': Record)
    requires SameHead(a, a') && SameHead(b, b')
    ensures Committed(rs + [a, b]) == Committed(rs + [a', b'])
  {
    CommittedAppend(rs, [a, b]);
    CommittedAppend(rs, [a', b']);
    assert Committed([a, b]) == Committed([a', b']);
  }

  /** After an atomic commit of Probe(v) over an empty file, page 0 is Probe(v). */
  lemma ProbeRecovered(w: seq<byte>, txn: nat, v: byte)
    requires CommitAtomic(w, txn)
    ensures Last(Recovered(w + Batch(txn, [Write(0, Probe(v))])), 0, ZeroPage()) == Probe(v)
  {
    hide Recovered, Batch, Replay, Last, Probe;
    var ws := [Write(0, Probe(v))];
    var log := w + Batch(txn, ws);
    assert Writable(ws) && w <= log <= log;
    ReplayIs([], Recovered(log), 0);
    ReplayIs([], ws, 0);
    assert Replay([], Recovered(log)) == Replay([], ws);
    LastSingle(ws[0], ZeroPage());
  }

  lemma LastSingle(w: Write, d: Page)
    ensures Last([w], w.page, d) == w.data
  {
    assert [w][1..] == [];
  }

  /** Where the page comes from behind a torn tail: only from the old records. */
  lemma ProbeFromOld(w: seq<byte>, tail: seq<byte>, txn: nat, v: byte)
    requires |w| % RECORD_SIZE == 0 && 0 < |tail| < RECORD_SIZE && (v == 7 || v == 8)
    requires CommitAtomic(w + tail, txn)
    ensures var done := Committed(Records(w) + [Parse(First(tail, txn, 7)), Parse(Second(tail, txn, 7))]);
      Last(Redo(Records(w), done), 0, ZeroPage()) == Probe(v)
  {
    hide Records, Parse, Batch, Redo, Last, Probe, Committed, CommitAtomic, SameHead;
    var a, b := Parse(First(tail, txn, v)), Parse(Second(tail, txn, v));
    FirstShifted(tail, txn, v);
    SecondShifted(tail, txn, v);
    ProbeRecovered(w + tail, txn, v);
    TornRecords(w, tail, txn, v);
    SameCommits(Records(w), Parse(First(tail, txn, 7)), Parse(Second(tail, txn, 7)), a, b);
    var done := Committed(Records(w) + [a, b]);
    LastOfThree(Records(w), a, b, done, 0, ZeroPage());
  }

  lemma ProbesDiffer()
    ensures Probe(7) != Probe(8)
  {
    assert Probe(7)[13] == 7 && Probe(8)[13] == 8;
  }

  /** Behind a torn record no commit is atomic. */
  lemma TornNotAtomic(w: seq<byte>, txn: nat)
    requires |w| % RECORD_SIZE != 0
    ensures !CommitAtomic(w, txn)
  {
    hide Records, Parse, Redo, Last, Committed, CommitAtomic;
    var n := |w| - |w| % RECORD_SIZE;
    var whole, tail := w[..n], w[n..];
    assert whole + tail == w;
    ProbesDiffer();
    if CommitAtomic(w, txn) {
      ProbeFromOld(whole, tail, txn, 7);
      ProbeFromOld(whole, tail, txn, 8);
      assert false;
    }
  }

  /** Exactly when a commit is atomic, for every log: the log consists of whole
      records, holds nothing to replay, and none of its records carries the
      number of the transaction. */
  lemma CommitAtomicExact(w: seq<byte>, txn: nat)
    requires txn < TWO64
    ensures CommitAtomic(w, txn) <==> CleanTail(w, txn)
  {
    hide Records, Recovered, Batch, Replay;
    if CleanTail(w, txn) {
      forall db: seq<Page>, ws: seq<Write>, log: seq<byte> |
        Writable(ws) && w <= log && log <= w + Batch(txn, ws)
        ensures Replay(db, Recovered(log)) == db || Replay(db, Recovered(log)) == Replay(db, ws)
        ensures log == w + Batch(txn, ws) ==> Replay(db, Recovered(log)) == Replay(db, ws)
      {
        CommitLogCut(w, txn, ws, log);
        NoReplay(db);
      }
    } else if |w| % RECORD_SIZE != 0 {
      TornNotAtomic(w, txn);
    } else if Recovered(w) != [] {
      ReplaysOldPages(w, txn);
    } else {
      SameNumber(w, txn);
    }
  }

  lemma SameNumber(w: seq<byte>, txn: nat)
    requires |w| % RECORD_SIZE == 0 && Recovered(w) == [] && txn < TWO64 && !CleanTail(w, txn)
    ensures !CommitAtomic(w, txn)
  {
    hide Records, Recovered, CommitAtomic;
    var r :| r in Records(w) && !r.Unknown? && r.txn == txn;
    if r.PageRecord? {
      AdoptsStalePage(w, txn, r);
    } else {
      CommitsTooEarly(w, txn);
    }
  }
}
