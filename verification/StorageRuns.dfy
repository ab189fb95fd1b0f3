/** What statements do to the open tables, and what whole runs of them keep. */
module StorageRuns {
  import opened Bytes
  import opened Cells
  import opened PageCache
  import opened Rows
  import opened TreeOrder
  import TreeAlign
  import TreeChain
  import opened TreeRuns
  import opened TreeReach
  import opened Tables

  type Name = seq<byte>
  type Row = seq<Value>

  /** What a table is to its users: the index in the file and the index the next
      statement sees, each with its number of pages, and whether a transaction
      is open on it. */
  datatype TableState = TableState(columns: seq<Column>, durable: Snapshot, filePages: nat,
                                   live: Snapshot, pages: nat, inTxn: bool)

  type Db = map<Name, TableState>

  function Scan(cols: seq<Column>, s: Snapshot): seq<Row> {
    Contents(cols, Cat(s.ch))
  }

  /** The rows of a table as a scan returns them. */
  function RowsOfTable(a: TableState): seq<Row> {
    Scan(a.columns, a.live)
  }

  /** Nothing is pending. */
  predicate Settled(a: TableState) {
    !a.inTxn && a.live == a.durable && a.pages == a.filePages
  }

  /** How an insertion ends: stored; refused without a trace; or refused with
      the pages running out half way, the row already on the chain. */
  datatype Ending = Done | Refused | HalfDone

  /** The row passes the checks of insert. */
  ghost predicate Checked(a: TableState, vals: Row) {
    Conforms(a.columns, vals) && |RowBytes(a.columns, vals)| <= MAX_ROW
  }

  /** The pages of the table once it has taken the row in. */
  ghost function PagesAfter(a: TableState, vals: Row): nat {
    NextFree(a.live, CellFor(a.columns, vals), a.pages)
  }

  /** An insertion into one table. It is refused exactly if the row fails the
      checks, or its leaf has to split and all pages are in use. */
  ghost predicate Inserts(a: TableState, b: TableState, vals: Row, end: Ending) {
    match end
    case Refused =>
      b == a && (Checked(a, vals) ==> a.pages == MAX_PAGES < PagesAfter(a, vals))
    case Done =>
      && Fitting(a, vals) && PagesAfter(a, vals) <= MAX_PAGES
      && var live, pages := After(a.live, CellFor(a.columns, vals), a.pages), PagesAfter(a, vals);
         b == if a.inTxn then a.(live := live, pages := pages)
              else a.(live := live, pages := pages, durable := live, filePages := pages)
    case HalfDone =>
      && Fitting(a, vals) && a.pages < MAX_PAGES < PagesAfter(a, vals)
      && b == a.(live := Torn(a.live, CellFor(a.columns, vals), a.pages), pages := MAX_PAGES)
  }

  /** A row that passes the checks, for a table that is well formed. */
  ghost predicate Fitting(a: TableState, vals: Row) {
    Shaped(a.live, a.pages) && Checked(a, vals)
  }

  /** Every insertion into a well-formed table has exactly one ending and one
      outcome; three free pages and a checked row make it succeed, and so does
      a leaf with room. */
  lemma InsertDecided(a: TableState, vals: Row) returns (b: TableState, end: Ending)
    requires Shaped(a.live, a.pages) && a.pages <= MAX_PAGES
    ensures Inserts(a, b, vals, end)
    ensures forall b', end' :: Inserts(a, b', vals, end') ==> b' == b && end' == end
    ensures end.Done? <==> Checked(a, vals) && PagesAfter(a, vals) <= MAX_PAGES
    ensures Checked(a, vals) && (a.pages + 3 <= MAX_PAGES || RoomFor(a.live, CellFor(a.columns, vals))) ==> end.Done?
  {
    hide Shaped, Conforms, RowBytes, CellFor, After, Torn, NextFree, RoomFor;
    var c := CellFor(a.columns, vals);
    RoomForGrowth(a.live, c, a.pages);
    RoomTakesNoPage(a.live, c, a.pages);
    var live, pages := After(a.live, c, a.pages), PagesAfter(a, vals);
    if !Checked(a, vals) {
      b, end := a, Refused;
    } else if pages <= MAX_PAGES {
      b, end := a.(live := live, pages := pages), Done;
      if !a.inTxn {
        b := b.(durable := live, filePages := pages);
      }
    } else if a.pages < MAX_PAGES {
      b, end := a.(live := Torn(a.live, c, a.pages), pages := MAX_PAGES), HalfDone;
    } else {
      b, end := a, Refused;
    }
  }

  datatype Statement =
    | Create(name: Name, columns: seq<Column>)
    | Open(name: Name, columns: seq<Column>, index: Snapshot, pages: nat)
    | Insert(name: Name, values: Row, end: Ending)
    | Begin
    | Commit
    | Rollback

  /** The table that create makes: an empty leaf on its last page. */
  function NewTable(cols: seq<Column>, root: nat): TableState {
    TableState(cols, Fresh(root), root + 1, Fresh(root), root + 1, false)
  }

  function BegunTable(a: TableState): TableState {
    a.(inTxn := true)
  }

  function CommittedTable(a: TableState): TableState {
    a.(durable := a.live, filePages := a.pages, inTxn := false)
  }

  function RolledBackTable(a: TableState): TableState {
    a.(live := a.durable, pages := a.filePages, inTxn := false)
  }

  function Begun(d: Db): Db {
    map n | n in d :: BegunTable(d[n])
  }

  function Committed(d: Db): Db {
    map n | n in d :: CommittedTable(d[n])
  }

  function RolledBack(d: Db): Db {
    map n | n in d :: RolledBackTable(d[n])
  }

  /** On the way from d to target, with the tables of names still to do. */
  ghost predicate Between(d: Db, e: Db, target: Db, names: set<Name>) {
    && d.Keys == e.Keys == target.Keys && names <= d.Keys
    && forall n :: n in d ==> e[n] == if n in names then d[n] else target[n]
  }

  lemma BetweenNext(d: Db, e: Db, target: Db, names: set<Name>, n: Name)
    requires Between(d, e, target, names) && n in names
    ensures n in d && n in e && n in target && e[n] == d[n]
    ensures Between(d, e[n := target[n]], target, names - {n})
  {
  }

  lemma BetweenEnds(d: Db, e: Db, target: Db)
    ensures d.Keys == target.Keys ==> Between(d, d, target, d.Keys)
    ensures Between(d, e, target, {}) ==> e == target
  {
    if Between(d, e, target, {}) {
      assert e == target;
    }
  }

  ghost predicate Runs(d: Db, s: Statement, d': Db) {
    match s
    case Create(n, cols) =>
      && n !in d && n in d' && d' == d[n := d'[n]]
      && exists root: nat :: 0 < root < MAX_PAGES && d'[n] == NewTable(cols, root)
    case Open(n, cols, index, pages) => d' == d[n := TableState(cols, index, pages, index, pages, false)]
    case Insert(n, vals, end) =>
      n in d && n in d' && d' == d[n := d'[n]] && Inserts(d[n], d'[n], vals, end)
    case Begin => (forall n :: n in d ==> !d[n].inTxn) && d' == Begun(d)
    case Commit => d' == Committed(d)
    case Rollback => d' == RolledBack(d)
  }

  ghost predicate IsRun(ds: seq<Db>, ss: seq<Statement>) {
    |ds| == |ss| + 1 && forall i :: 0 <= i < |ss| ==> Runs(ds[i], ss[i], ds[i + 1])
  }

  // ------------------------------------------------------------------
  // Every insertion is decided
  // ------------------------------------------------------------------

  /** Both indexes are well formed, on their pages. */
  ghost predicate WellFormed(a: TableState) {
    && Shaped(a.live, a.pages) && a.pages <= MAX_PAGES
    && Shaped(a.durable, a.filePages) && a.filePages <= MAX_PAGES
  }

  lemma InsertWellFormed(a: TableState, b: TableState, vals: Row, end: Ending)
    requires WellFormed(a) && Inserts(a, b, vals, end)
    ensures WellFormed(b)
  {
    hide Shaped, Checked, CellFor, After, Torn, NextFree;
    var c := CellFor(a.columns, vals);
    if end.Done? {
      ShapeAfter(a.live, c, a.pages);
    } else if end.HalfDone? {
      ShapeTorn(a.live, c, a.pages);
    }
  }

  lemma FreshShaped(root: nat)
    requires 0 < root
    ensures Shaped(Fresh(root), root + 1)
  {
    hide Loose, TreeChain.Index;
    StartIsIndex(root);
    IndexIsLoose(Start(root).t, Start(root).ch, 0, root + 1);
    assert Loose(Start(root).t, Start(root).ch, 0, root + 1);
  }

  lemma {:induction false} RunWellFormed(ds: seq<Db>, ss: seq<Statement>, i: nat)
    requires IsRun(ds, ss) && i < |ds| && forall n :: n in ds[0] ==> WellFormed(ds[0][n])
    requires forall s :: s in ss && s.Open? ==> Shaped(s.index, s.pages) && s.pages <= MAX_PAGES
    ensures forall n :: n in ds[i] ==> WellFormed(ds[i][n])
  {
    hide Shaped, Inserts, Fresh;
    if i > 0 {
      RunWellFormed(ds, ss, i - 1);
      assert Runs(ds[i - 1], ss[i - 1], ds[i]) && ss[i - 1] in ss;
      match ss[i - 1]
      case Create(n, cols) =>
        var root: nat :| 0 < root < MAX_PAGES && ds[i][n] == NewTable(cols, root);
        FreshShaped(root);
      case Insert(n, vals, end) => InsertWellFormed(ds[i - 1][n], ds[i][n], vals, end);
      case _ =>
    }
  }

  /** In every state that statements can reach, an insertion has exactly one
      outcome, and it succeeds exactly if the row passes the checks and the
      pages suffice. */
  lemma EveryInsertDecided(ds: seq<Db>, ss: seq<Statement>, i: nat, n: Name, vals: Row) returns (b: TableState, end: Ending)
    requires IsRun(ds, ss) && ds[0] == map[] && i < |ds| && n in ds[i]
    requires forall s :: s in ss && s.Open? ==> Shaped(s.index, s.pages) && s.pages <= MAX_PAGES
    ensures Inserts(ds[i][n], b, vals, end)
    ensures forall b', end' :: Inserts(ds[i][n], b', vals, end') ==> b' == b && end' == end
    ensures end.Done? <==> Checked(ds[i][n], vals) && PagesAfter(ds[i][n], vals) <= MAX_PAGES
  {
    hide Inserts, Shaped, Checked, PagesAfter, IsRun;
    RunWellFormed(ds, ss, i);
    b, end := InsertDecided(ds[i][n], vals);
  }

  // ------------------------------------------------------------------
  // Rollback
  // ------------------------------------------------------------------

  /** Statements between begin and the end of the transaction that leave table n open. */
  predicate Inner(s: Statement, n: Name) {
    s.Create? || s.Insert? || (s.Open? && s.name != n)
  }

  /** Inside a transaction the file of a table that was open at its start does not change. */
  lemma {:induction false} FileUntouched(ds: seq<Db>, ss: seq<Statement>, n: Name, i: nat)
    requires IsRun(ds, ss) && n in ds[0] && ds[0][n].inTxn && i < |ds|
    requires forall k :: 0 <= k < |ss| ==> Inner(ss[k], n)
    ensures n in ds[i] && ds[i][n].inTxn && ds[i][n].durable == ds[0][n].durable && ds[i][n].filePages == ds[0][n].filePages
      && ds[i][n].columns == ds[0][n].columns
  {
    hide Contents, Fitting, After, Torn, NextFree, CellFor;
    if i > 0 {
      FileUntouched(ds, ss, n, i - 1);
      assert Runs(ds[i - 1], ss[i - 1], ds[i]) && Inner(ss[i - 1], n);
    }
  }

  /** Rollback takes a table that was open at begin back to what its file held
      then, whatever was inserted, torn or created in between; that is the state
      of begin, rows, order and root page, exactly if nothing was pending. */
  lemma RollbackRestores(before: Db, ds: seq<Db>, ss: seq<Statement>, end: Db, n: Name)
    requires ds != [] && Runs(before, Begin, ds[0]) && IsRun(ds, ss) && Runs(ds[|ss|], Rollback, end)
    requires forall k :: 0 <= k < |ss| ==> Inner(ss[k], n)
    requires n in before
    ensures n in end && end[n] == before[n].(live := before[n].durable, pages := before[n].filePages)
    ensures end[n] == before[n] <==> Settled(before[n])
  {
    hide Contents, Inserts;
    FileUntouched(ds, ss, n, |ss|);
  }

  // ------------------------------------------------------------------
  // Conservation
  // ------------------------------------------------------------------

  /** The rows of a table by count: in the file, and as scanned. */
  datatype Ledger = Ledger(durable: multiset<Row>, live: multiset<Row>, inTxn: bool)

  function LedgerOf(a: TableState): Ledger {
    Ledger(multiset(Scan(a.columns, a.durable)), multiset(RowsOfTable(a)), a.inTxn)
  }

  /** What a statement books for table n: an insertion that is stored, or stopped
      half way, adds its row once; begin, commit and rollback move the whole
      balance; nothing else does. */
  function Enter(l: Ledger, s: Statement, n: Name): Ledger {
    match s
    case Create(m, _) => if m == n then Ledger(multiset{}, multiset{}, false) else l
    case Open(m, cols, index, _) =>
      if m == n then Ledger(multiset(Scan(cols, index)), multiset(Scan(cols, index)), false) else l
    case Insert(m, vals, end) =>
      if m != n || end.Refused? then l
      else if end.HalfDone? || l.inTxn then l.(live := l.live + multiset{vals})
      else l.(live := l.live + multiset{vals}, durable := l.live + multiset{vals})
    case Begin => l.(inTxn := true)
    case Commit => l.(durable := l.live, inTxn := false)
    case Rollback => l.(live := l.durable, inTxn := false)
  }

  function Book(l: Ledger, ss: seq<Statement>, n: Name): Ledger
    decreases |ss|
  {
    if ss == [] then l else Book(Enter(l, ss[0], n), ss[1..], n)
  }

  /** One insertion that reaches the chain adds exactly its row. */
  lemma RowAdded(cols: seq<Column>, s: Snapshot, vals: Row, free: nat)
    requires Shaped(s, free) && Conforms(cols, vals) && |RowBytes(cols, vals)| <= MAX_ROW
    ensures multiset(Scan(cols, After(s, CellFor(cols, vals), free))) == multiset(Scan(cols, s)) + multiset{vals}
    ensures multiset(Scan(cols, Torn(s, CellFor(cols, vals), free))) == multiset(Scan(cols, s)) + multiset{vals}
  {
    hide Shaped, After, Torn, Conforms, RowBytes, ParseRow, Cat, InsertAt, ValueRow;
    var c := CellFor(cols, vals);
    var p := ContentsAfter(cols, s, c, free);
    SameChain(s, c, free);
    StoredRow(cols, vals);
    InsertAtBag(Scan(cols, s), p, vals);
  }

  lemma InsertBooked(a: TableState, b: TableState, n: Name, vals: Row, end: Ending)
    requires Inserts(a, b, vals, end)
    ensures LedgerOf(b) == Enter(LedgerOf(a), Insert(n, vals, end), n)
  {
    hide Fitting, After, Torn, NextFree, Scan, CellFor;
    if !end.Refused? {
      FittingRow(a, vals);
    }
  }

  lemma FittingRow(a: TableState, vals: Row)
    requires Fitting(a, vals)
    ensures var c := CellFor(a.columns, vals);
      && multiset(Scan(a.columns, After(a.live, c, a.pages))) == multiset(RowsOfTable(a)) + multiset{vals}
      && multiset(Scan(a.columns, Torn(a.live, c, a.pages))) == multiset(RowsOfTable(a)) + multiset{vals}
  {
    hide Shaped, After, Torn, Scan, CellFor, Conforms, RowBytes;
    RowAdded(a.columns, a.live, vals, a.pages);
  }

  lemma StatementBooked(d: Db, s: Statement, d': Db, n: Name)
    requires Runs(d, s, d') && n in d
    ensures n in d' && LedgerOf(d'[n]) == Enter(LedgerOf(d[n]), s, n)
  {
    hide Scan, Inserts, Fresh;
    match s
    case Create(m, cols) =>
    case Insert(m, vals, end) => if m == n { InsertBooked(d[n], d'[n], n, vals, end); }
    case _ =>
  }

  /** Conservation over whole histories, transactions, rollbacks, reopenings and
      insertions out of pages included: at every point file and scan hold
      exactly the rows that the statements so far have booked. */
  lemma {:induction false} HistoryBalances(ds: seq<Db>, ss: seq<Statement>, n: Name)
    requires IsRun(ds, ss) && n in ds[0]
    ensures n in ds[|ss|] && LedgerOf(ds[|ss|][n]) == Book(LedgerOf(ds[0][n]), ss, n)
    decreases |ss|
  {
    hide LedgerOf, Runs, Enter;
    if ss != [] {
      StatementBooked(ds[0], ss[0], ds[1], n);
      HistoryBalances(ds[1..], ss[1..], n);
    }
  }

  /** A new table starts with an empty ledger. */
  lemma CreateBooked(d: Db, n: Name, cols: seq<Column>, d': Db)
    requires Runs(d, Create(n, cols), d')
    ensures LedgerOf(d'[n]) == Ledger(multiset{}, multiset{}, false)
  {
    hide Cat, TreeChain.Index;
    var root: nat :| 0 < root < MAX_PAGES && d'[n] == NewTable(cols, root);
    FreshSorted(cols, root);
    assert Contents(cols, []) == [];
  }

  /** The insertions into table n that reach its chain. */
  function InsertedInto(ss: seq<Statement>, n: Name): seq<Row> {
    if ss == [] then []
    else (if ss[0].Insert? && ss[0].name == n && !ss[0].end.Refused? then [ss[0].values] else []) + InsertedInto(ss[1..], n)
  }

  lemma {:induction false} InnerBooks(l: Ledger, ss: seq<Statement>, n: Name)
    requires l.inTxn && forall k :: 0 <= k < |ss| ==> Inner(ss[k], n) && (ss[k].Create? ==> ss[k].name != n)
    ensures Book(l, ss, n) == l.(live := l.live + multiset(InsertedInto(ss, n)))
    decreases |ss|
  {
    if ss != [] {
      assert Inner(ss[0], n);
      forall k | 0 <= k < |ss[1..]| ensures Inner(ss[1..][k], n) && (ss[1..][k].Create? ==> ss[1..][k].name != n) {
        assert Inner(ss[k + 1], n);
      }
      InnerBooks(Enter(l, ss[0], n), ss[1..], n);
    }
  }

  /** A transaction that commits leaves in the file the rows of begin and those
      its insertions put on the chain, none lost, none altered. */
  lemma CommitKeeps(before: Db, ds: seq<Db>, ss: seq<Statement>, end: Db, n: Name)
    requires ds != [] && Runs(before, Begin, ds[0]) && IsRun(ds, ss) && Runs(ds[|ss|], Commit, end)
    requires forall k :: 0 <= k < |ss| ==> Inner(ss[k], n) && (ss[k].Create? ==> ss[k].name != n)
    requires n in before
    ensures n in end && Settled(end[n])
    ensures multiset(RowsOfTable(end[n])) == multiset(RowsOfTable(before[n])) + multiset(InsertedInto(ss, n))
  {
    hide Scan, Inserts, InsertedInto, Inner, Book;
    HistoryBalances(ds, ss, n);
    InnerBooks(LedgerOf(ds[0][n]), ss, n);
  }

  // ------------------------------------------------------------------
  // Order
  // ------------------------------------------------------------------

  /** The rows of an index, sorted by key, each under the key of its columns. */
  ghost predicate Sorted(cols: seq<Column>, s: Snapshot) {
    && TreeChain.InOrder(s.t, s.ch) && StrictlySorted(Cat(s.ch))
    && forall i :: 0 <= i < |Cat(s.ch)| ==> Cat(s.ch)[i].key == KeyOf(cols, ValueRow(cols, Cat(s.ch)[i]))
  }

  ghost predicate Ordered(a: TableState) {
    Sorted(a.columns, a.durable) && Sorted(a.columns, a.live)
  }

  lemma FreshSorted(cols: seq<Column>, root: nat)
    requires 0 < root
    ensures Sorted(cols, Fresh(root)) && Cat(Fresh(root).ch) == []
  {
    hide TreeChain.InOrder, TreeChain.Index;
    StartIsIndex(root);
  }

  lemma SortedAfter(cols: seq<Column>, s: Snapshot, vals: Row, free: nat)
    requires Shaped(s, free) && Sorted(cols, s) && TreeAlign.Absent(Cat(s.ch), KeyOf(cols, vals))
    requires Conforms(cols, vals) && |RowBytes(cols, vals)| <= MAX_ROW
    ensures Sorted(cols, After(s, CellFor(cols, vals), free))
  {
    hide Shaped, TreeChain.InOrder, StrictlySorted, TreeAlign.Absent, Cat, RowBytes, Conforms, ParseRow, After,
      LowerBound, KeyOf, ValueRow;
    var c := CellFor(cols, vals);
    OrderAfter(s, c, free);
    StoredRow(cols, vals);
    var old0, new0 := Cat(s.ch), Cat(After(s, c, free).ch);
    var p := LowerBound(KeysOf(old0), c.key);
    forall i | 0 <= i < |new0| ensures new0[i].key == KeyOf(cols, ValueRow(cols, new0[i])) {
      assert new0[i] == if i < p then old0[i] else if i == p then c else old0[i - 1];
    }
  }

  /** No insertion repeats a key of its table or stops half way, and tables that
      are opened are sorted. */
  ghost predicate Orderly(d: Db, s: Statement) {
    match s
    case Insert(n, vals, end) =>
      && !end.HalfDone?
      && (n in d && end.Done? ==> TreeAlign.Absent(Cat(d[n].live.ch), KeyOf(d[n].columns, vals)))
    case Open(_, cols, index, _) => Sorted(cols, index)
    case _ => true
  }

  ghost predicate AllOrdered(d: Db) {
    forall n :: n in d ==> Ordered(d[n])
  }

  lemma InsertOrdered(a: TableState, b: TableState, vals: Row, end: Ending)
    requires Inserts(a, b, vals, end) && Ordered(a) && !end.HalfDone?
    requires end.Done? ==> TreeAlign.Absent(Cat(a.live.ch), KeyOf(a.columns, vals))
    ensures Ordered(b)
  {
    hide Shaped, After, Conforms, RowBytes, Sorted, Cat, TreeAlign.Absent, KeyOf;
    if end.Done? {
      SortedAfter(a.columns, a.live, vals, a.pages);
    }
  }

  lemma StatementOrdered(d: Db, s: Statement, d': Db)
    requires Runs(d, s, d') && AllOrdered(d) && Orderly(d, s)
    ensures AllOrdered(d')
  {
    hide Sorted, Inserts, Cat, TreeAlign.Absent, KeyOf;
    match s
    case Create(n, cols) =>
      var root: nat :| 0 < root < MAX_PAGES && d'[n] == NewTable(cols, root);
      FreshSorted(cols, root);
    case Insert(n, vals, end) =>
      InsertOrdered(d[n], d'[n], vals, end);
    case _ =>
  }

  /** Over every run of statements on any tables, transactions and reopenings
      included, that never repeats a key: every scan returns its rows in
      strictly ascending key order. */
  lemma ScansSorted(ds: seq<Db>, ss: seq<Statement>, i: nat, n: Name)
    requires IsRun(ds, ss) && AllOrdered(ds[0]) && i < |ds| && n in ds[i]
    requires forall k :: 0 <= k < |ss| ==> Orderly(ds[k], ss[k])
    ensures var rows := RowsOfTable(ds[i][n]);
      forall j, k :: 0 <= j < k < |rows| ==> KeyOf(ds[i][n].columns, rows[j]) < KeyOf(ds[i][n].columns, rows[k])
  {
    hide Runs, Orderly, KeyOf, ValueRow, TreeChain.InOrder, Cat;
    RunOrdered(ds, ss, i);
    assert Ordered(ds[i][n]);
  }

  lemma {:induction false} RunOrdered(ds: seq<Db>, ss: seq<Statement>, i: nat)
    requires IsRun(ds, ss) && AllOrdered(ds[0]) && i < |ds|
    requires forall k :: 0 <= k < |ss| ==> Orderly(ds[k], ss[k])
    ensures AllOrdered(ds[i])
  {
    hide Runs, Orderly, AllOrdered;
    if i > 0 {
      RunOrdered(ds, ss, i - 1);
      StatementOrdered(ds[i - 1], ss[i - 1], ds[i]);
    }
  }
}
