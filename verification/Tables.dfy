/** One table: its pager, columns and root page, with the tree and the leaf
    chain that its pages hold. */
module Tables {
  import opened Bytes
  import opened Cells
  import Split
  import opened Results
  import opened WalLog
  import opened PageCache
  import Codec
  import opened Rows
  import opened Metadata
  import opened TreeModel
  import opened TreeOrder
  import TreeAlign
  import opened TreePages
  import TreeLeaves
  import opened TreeChain
  import opened TreeReach
  import opened TreeRuns
  import opened Nodes
  import opened BTree
  import opened BTreeScan

  /** max_row_data_size: half a leaf, less slot and key. */
  const MAX_ROW: int := 2030

  /** The limit is the largest size of which any two rows share a leaf. */
  lemma MaxRowExact(m: nat)
    ensures (forall a: Cell, b: Cell :: |a.row| <= m && |b.row| <= m ==> TotalCost([a, b]) <= LEAF_CAPACITY) <==> m <= MAX_ROW
  {
    hide DataBytes;
    forall a: Cell, b: Cell ensures TotalCost([a, b]) == Cost(a) + Cost(b) {
      TwoCost(a, b);
    }
    var c := Cell(0, Zeros(m));
    assert TotalCost([c, c]) == 2 * (12 + m);
  }

  /** The index of a table: search tree and leaf chain. */
  datatype Snapshot = Snapshot(t: Tree, ch: seq<LeafRec>)

  /** The index of a new table, on page root. */
  function Fresh(root: nat): Snapshot {
    Snapshot(Start(root).t, Start(root).ch)
  }

  ghost predicate Shaped(s: Snapshot, free: nat) {
    exists h: nat :: Loose(s.t, s.ch, h, free)
  }

  /** Every stored row decodes under the columns. */
  ghost predicate Decodable(cols: seq<Column>, cs: seq<Cell>) {
    forall i :: 0 <= i < |cs| ==> ParseRow(cs[i].row, 0, cols).Some?
  }

  /** The pages v hold a table: metadata on page 0, search tree and leaf chain
      on other pages. */
  ghost predicate TableOk(v: seq<Page>, root: nat, cols: seq<Column>, s: Snapshot) {
    && 0 < |v| <= MAX_PAGES
    && MetaFits(cols) && Codec.Holds(v[0], 0, MetaBytes(root, cols))
    && s.t.page == root && Represents(v, s.t) && ChainStored(v, s.ch)
    && Shaped(s, |v|)
    && Decodable(cols, Cat(s.ch))
  }

  lemma TableRoot(v: seq<Page>, root: nat, cols: seq<Column>, s: Snapshot)
    requires TableOk(v, root, cols, s)
    ensures s.t.page == root
  {
  }

  /** The rows of a table, in the order of a scan. */
  function Contents(cols: seq<Column>, cs: seq<Cell>): (rows: seq<seq<Value>>)
    ensures |rows| == |cs|
    ensures forall i :: 0 <= i < |rows| ==> rows[i] == ValueRow(cols, cs[i])
  {
    seq(|cs|, i requires 0 <= i < |cs| => ValueRow(cols, cs[i]))
  }

  function ValueRow(cols: seq<Column>, c: Cell): seq<Value> {
    match ParseRow(c.row, 0, cols)
    case Some(vals) => vals
    case None => []
  }

  /** The key of a row: its first integer column, or 0. */
  function KeyOf(cols: seq<Column>, vals: seq<Value>): i64 {
    if cols == [] || vals == [] then 0
    else if cols[0].dataType.Integer? && vals[0].IntegerValue? then vals[0].n
    else KeyOf(cols[1..], vals[1..])
  }

  /** Column i holds an integer. */
  predicate IntegerAt(cols: seq<Column>, vals: seq<Value>, i: nat) {
    i < |cols| && i < |vals| && cols[i].dataType.Integer? && vals[i].IntegerValue?
  }

  predicate FirstInteger(cols: seq<Column>, vals: seq<Value>, i: nat) {
    IntegerAt(cols, vals, i) && forall j :: 0 <= j < i ==> !IntegerAt(cols, vals, j)
  }

  lemma OneFirst(cols: seq<Column>, vals: seq<Value>, i: nat, j: nat)
    requires FirstInteger(cols, vals, i) && FirstInteger(cols, vals, j)
    ensures i == j
  {
  }

  /** The key is the value of the leftmost of these columns. */
  lemma {:induction false} KeyOfIs(cols: seq<Column>, vals: seq<Value>, i: nat)
    requires forall j :: 0 <= j < i ==> !IntegerAt(cols, vals, j)
    ensures IntegerAt(cols, vals, i) ==> KeyOf(cols, vals) == vals[i].n
    ensures i >= |cols| || i >= |vals| ==> KeyOf(cols, vals) == 0
    decreases i
  {
    if i > 0 && cols != [] && vals != [] {
      assert !IntegerAt(cols, vals, 0);
      forall j | 0 <= j < i - 1 ensures !IntegerAt(cols[1..], vals[1..], j) {
        assert !IntegerAt(cols, vals, j + 1);
      }
      KeyOfIs(cols[1..], vals[1..], i - 1);
      assert IntegerAt(cols, vals, i) ==> IntegerAt(cols[1..], vals[1..], i - 1);
    }
  }

  /** extract_key */
  method ExtractKey(cols: seq<Column>, vals: seq<Value>) returns (key: i64)
    ensures key == KeyOf(cols, vals)
    ensures forall i: nat :: FirstInteger(cols, vals, i) ==> key == vals[i].n
    ensures (forall i: nat :: !IntegerAt(cols, vals, i)) ==> key == 0
  {
    var n := Shorter(cols, vals);
    for i := 0 to n
      invariant forall j :: 0 <= j < i ==> !IntegerAt(cols, vals, j)
    {
      if cols[i].dataType.Integer? && vals[i].IntegerValue? {
        KeyOfIs(cols, vals, i);
        assert FirstInteger(cols, vals, i) && IntegerAt(cols, vals, i);
        key := vals[i].n;
        forall k: nat | FirstInteger(cols, vals, k) ensures key == vals[k].n {
          OneFirst(cols, vals, i, k);
        }
        return;
      }
    }
    KeyOfIs(cols, vals, n);
    key := 0;
  }

  /** The type check of insert. */
  method TypeCheck(cols: seq<Column>, vals: seq<Value>) returns (ok: bool)
    requires |cols| == |vals|
    ensures ok <==> Conforms(cols, vals)
  {
    for i := 0 to |cols|
      invariant forall j :: 0 <= j < i ==> Fits(cols[j].dataType, vals[j])
    {
      match (cols[i].dataType, vals[i]) {
        case (Integer, IntegerValue(_)) =>
        case (Text, TextValue(_)) =>
        case _ =>
          assert !Fits(cols[i].dataType, vals[i]);
          return false;
      }
    }
    ok := true;
  }

  /** The cell a row is stored as. */
  function CellFor(cols: seq<Column>, vals: seq<Value>): Cell {
    Cell(KeyOf(cols, vals), RowBytes(cols, vals))
  }

  lemma {:induction false} FieldsShort(cols: seq<Column>, vals: seq<Value>)
    requires Conforms(cols, vals)
    ensures forall i :: 0 <= i < |vals| && vals[i].TextValue? ==> |vals[i].s| <= |RowBytes(cols, vals)|
    decreases |cols|
  {
    if cols != [] {
      assert Fits(cols[0].dataType, vals[0]);
      forall i | 0 <= i < |cols[1..]| ensures Fits(cols[1..][i].dataType, vals[1..][i]) {
        assert Fits(cols[i + 1].dataType, vals[i + 1]);
      }
      FieldsShort(cols[1..], vals[1..]);
      forall i | 0 <= i < |vals| && vals[i].TextValue? ensures |vals[i].s| <= |RowBytes(cols, vals)| {
        if i > 0 {
          assert vals[1..][i - 1] == vals[i];
        }
      }
    }
  }

  /** A row that was checked and fits decodes to itself. */
  lemma StoredRow(cols: seq<Column>, vals: seq<Value>)
    requires Conforms(cols, vals) && |RowBytes(cols, vals)| <= MAX_ROW
    ensures ParseRow(CellFor(cols, vals).row, 0, cols) == Some(vals)
    ensures ValueRow(cols, CellFor(cols, vals)) == vals
  {
    hide RowBytes, ParseRow, Conforms;
    FieldsShort(cols, vals);
    RoundTripExact(cols, vals);
  }

  // ------------------------------------------------------------------
  // One insertion
  // ------------------------------------------------------------------

  /** The index after an insertion into a store of free pages. */
  ghost function After(s: Snapshot, c: Cell, free: nat): Snapshot {
    if Wf(s.t) && TargetLeaf(s.t, c.key) in s.ch
    then Snapshot(InsertRoot(s.t, c, free).0, ChainAfter(s.t, s.ch, c, free))
    else s
  }

  /** The index after one that ran out of pages half way: the chain has taken
      the row in, the search tree has lost what the missing page should hold. */
  ghost function Torn(s: Snapshot, c: Cell, free: nat): Snapshot {
    if Wf(s.t) && TargetLeaf(s.t, c.key) in s.ch
    then Snapshot(StuntedRoot(s.t, c, free, MAX_PAGES), ChainAfter(s.t, s.ch, c, free))
    else s
  }

  /** The number of pages a successful insertion needs. */
  ghost function NextFree(s: Snapshot, c: Cell, free: nat): nat {
    if Wf(s.t) then InsertRoot(s.t, c, free).1 else free
  }

  /** The leaf that takes c in has room for it, or splits into fitting halves. */
  ghost predicate Accepts(s: Snapshot, c: Cell) {
    Wf(s.t) ==> Splittable(s.t, c)
  }

  /** A row is accepted exactly if its leaf has room or the right half of the
      split fits a page; the left half always does. */
  lemma AcceptsExact(s: Snapshot, c: Cell)
    requires Wf(s.t) && Cost(c) <= LEAF_CAPACITY && TotalCost(LeafFor(s.t, c.key).cells) <= LEAF_CAPACITY
    ensures var u := LeafFor(s.t, c.key);
      var all := InsertCell(u.cells, c);
      Accepts(s, c) <==> Spacious(u, c) || TotalCost(all[Split.SplitPoint(all)..]) <= LEAF_CAPACITY
  {
    hide InsertCell, Split.SplitPoint, DataBytes;
    var u := LeafFor(s.t, c.key);
    if !Spacious(u, c) {
      Split.LeftHalfFits(u.cells, c);
    }
  }

  lemma ShapedWf(s: Snapshot, c: Cell, free: nat)
    requires Shaped(s, free)
    ensures 0 < free && Wf(s.t) && Unshared(s.t) && Owns(s.t, free) && Reaches(s.t, s.ch, free)
    ensures TargetLeaf(s.t, c.key) in s.ch
  {
    hide Uses, Reaches, TargetLeaf, Balanced, Wf;
    var h: nat :| Loose(s.t, s.ch, h, free);
    ReachTarget(s.t, s.ch, free, c.key);
  }

  lemma ShapeAfter(s: Snapshot, c: Cell, free: nat)
    requires Shaped(s, free)
    ensures Shaped(After(s, c, free), NextFree(s, c, free))
  {
    ShapedWf(s, c, free);
    hide Loose, InsertRoot, ChainAfter, TargetLeaf;
    var h: nat :| Loose(s.t, s.ch, h, free);
    var h' := LooseStep(s.t, s.ch, h, c, free);
  }

  lemma ShapeTorn(s: Snapshot, c: Cell, free: nat)
    requires Shaped(s, free) && free < MAX_PAGES < NextFree(s, c, free)
    ensures Shaped(Torn(s, c, free), MAX_PAGES) && Torn(s, c, free).t.page == s.t.page
  {
    ShapedWf(s, c, free);
    hide Loose, InsertRoot, ChainAfter, TargetLeaf, StuntedRoot;
    var h: nat :| Loose(s.t, s.ch, h, free);
    LooseStunted(s.t, s.ch, h, c, free, MAX_PAGES);
  }

  /** Three free pages are always enough. */
  lemma RoomForGrowth(s: Snapshot, c: Cell, free: nat)
    requires Shaped(s, free) && free <= MAX_PAGES
    ensures NextFree(s, c, free) <= free + 3
  {
    hide Owns, Balanced, InsertRoot, Reaches;
    var h: nat :| Loose(s.t, s.ch, h, free);
    ThreePagesSuffice(s.t, c, h, free);
  }

  /** The leaf for the key has enough free bytes. */
  ghost predicate RoomFor(s: Snapshot, c: Cell) {
    Wf(s.t) && Spacious(LeafFor(s.t, c.key), c)
  }

  /** Exactly then an insertion takes no page. */
  lemma RoomTakesNoPage(s: Snapshot, c: Cell, free: nat)
    requires Shaped(s, free)
    ensures free <= NextFree(s, c, free)
    ensures NextFree(s, c, free) == free <==> RoomFor(s, c)
  {
    hide Insert, LeafFor, TargetLeaf, InsertCell, Split.SplitPoint;
    ShapedWf(s, c, free);
    LeafForIsTarget(s.t, c.key);
    PiecesPages(TargetLeaf(s.t, c.key), c, free);
    TargetSplits(s.t, c, free);
    InsertWf(s.t, c, free);
  }

  lemma SameChain(s: Snapshot, c: Cell, free: nat)
    ensures Torn(s, c, free).ch == After(s, c, free).ch
  {
    hide StuntedRoot, InsertRoot, ChainAfter, TargetLeaf, Wf;
  }

  /** One insertion, stored or torn, adds one row to the scan, at some place. */
  lemma ContentsAfter(cols: seq<Column>, s: Snapshot, c: Cell, free: nat) returns (p: nat)
    requires Shaped(s, free)
    ensures p <= |Cat(s.ch)| && Cat(After(s, c, free).ch) == InsertAt(Cat(s.ch), p, c)
    ensures Contents(cols, Cat(After(s, c, free).ch)) == InsertAt(Contents(cols, Cat(s.ch)), p, ValueRow(cols, c))
  {
    hide Cat, ChainAfter, TargetLeaf, ValueRow, InsertRoot, Wf, Shaped, Reaches, Owns;
    ShapedWf(s, c, free);
    p := ChainGainsOne(s.t, s.ch, c, free);
    InsertAtIs(Contents(cols, Cat(s.ch)), p, ValueRow(cols, c), Contents(cols, Cat(After(s, c, free).ch)));
  }

  lemma DecodableAfter(cols: seq<Column>, s: Snapshot, c: Cell, free: nat)
    requires Shaped(s, free)
    requires Decodable(cols, Cat(s.ch)) && ParseRow(c.row, 0, cols).Some?
    ensures Decodable(cols, Cat(After(s, c, free).ch))
  {
    hide Cat, ChainAfter, TargetLeaf, ParseRow, After, Shaped, Wf;
    var p := ContentsAfter(cols, s, c, free);
    var a, b := Cat(s.ch), Cat(After(s, c, free).ch);
    forall i | 0 <= i < |b| ensures ParseRow(b[i].row, 0, cols).Some? {
      assert b[i] == if i < p then a[i] else if i == p then c else a[i - 1];
    }
  }

  /** With a key the table does not have yet, the row goes to its sorted place
      and tree and chain stay in step. */
  lemma OrderAfter(s: Snapshot, c: Cell, free: nat)
    requires Shaped(s, free) && InOrder(s.t, s.ch) && StrictlySorted(Cat(s.ch))
    requires TreeAlign.Absent(Cat(s.ch), c.key) && Cost(c) <= LEAF_CAPACITY
    ensures var e := After(s, c, free);
      InOrder(e.t, e.ch) && StrictlySorted(Cat(e.ch)) && Cat(e.ch) == InsertCell(Cat(s.ch), c)
  {
    ShapedWf(s, c, free);
    hide Loose, Index, InsertRoot, ChainAfter, TargetLeaf, StrictlySorted, Cat, InsertCell, Wf, Separated, Leaves,
      Sorted, Reaches;
    var h: nat :| Loose(s.t, s.ch, h, free);
    LooseInOrder(s.t, s.ch, h, free);
    DistinctStep(s.t, s.ch, h, c, free);
  }

  // ------------------------------------------------------------------
  // The pages after an insertion
  // ------------------------------------------------------------------

  /** The only leaf on the path is the one that is reached. */
  lemma {:induction false} PathLeaf(v: seq<Page>, t: Tree, key: i64, p: nat)
    requires Wf(t) && Represents(v, t) && OnPath(t, key, p) && p < |v| && NodeOf(v[p]).LeafNode?
    ensures p == LeafFor(t, key).page
    decreases t
  {
    if t.Node? {
      hide NodeOf, LowerBound;
      var i := ChildIdx(t, key);
      KidHeld(v, t, i);
      assert NodeOf(v[t.page]).InternalNode?;
      PathLeaf(v, t.kids[i], key, p);
    }
  }

  lemma LeafUntouched(v0: seq<Page>, v1: seq<Page>, t: Tree, key: i64, x: LeafRec)
    requires Wf(t) && Represents(v0, t) && OnlyPath(v0, v1, t, key)
    requires HasLeaf(v0, x) && x.page != TargetLeaf(t, key).page
    ensures HasLeaf(v1, x)
  {
    hide NodeOf, TargetLeaf, LeafFor, Represents, OnPath;
    LeafForIsTarget(t, key);
    if OnPath(t, key, x.page) {
      PathLeaf(v0, t, key, x.page);
    }
  }

  /** Every leaf of the new chain is on its page. */
  lemma ChainStoredAfter(v0: seq<Page>, v1: seq<Page>, s: Snapshot, c: Cell)
    requires Shaped(s, |v0|) && Wf(s.t) && Represents(v0, s.t) && ChainStored(v0, s.ch)
    requires OnlyPath(v0, v1, s.t, c.key) && PiecesStored(v1, s.t, c, |v0|)
    ensures ChainStored(v1, After(s, c, |v0|).ch)
  {
    hide HasLeaf, OnlyPath, Represents, TreeLeaves.Pieces, TargetLeaf, Linked, Leaves, Owns, Wf, Shaped, Cat,
      InsertRoot;
    ShapedWf(s, c, |v0|);
    var x, ch := TargetLeaf(s.t, c.key), s.ch;
    var j := IndexOf(ch, x);
    var ch' := ch[..j] + TreeLeaves.Pieces(x, c, |v0|) + ch[j + 1..];
    forall y | y in ch' ensures HasLeaf(v1, y) {
      if y !in TreeLeaves.Pieces(x, c, |v0|) {
        assert y in ch[..j] || y in ch[j + 1..];
        var k :| 0 <= k < |ch| && k != j && ch[k] == y;
        assert ch[k].page != ch[j].page;
        LeafUntouched(v0, v1, s.t, c.key, y);
      }
    }
  }

  /** Page 0 is never written by an insertion into the tree. */
  lemma MetaUntouched(v0: seq<Page>, v1: seq<Page>, t: Tree, key: i64, free: nat)
    requires Wf(t) && Owns(t, free) && OnlyPath(v0, v1, t, key) && 0 < |v0|
    ensures 0 < |v1| && v1[0] == v0[0]
  {
    hide Uses, OnPath;
    OffPath(v0, v1, t, key);
    assert Uses(t, 0) == 0;
  }

  /** The pages v1 took the row in; the metadata page is as it was. */
  lemma SameRoot(v0: seq<Page>, v1: seq<Page>, root: nat, cols: seq<Column>, s: Snapshot, c: Cell)
    requires TableOk(v0, root, cols, s) && Wf(s.t)
    requires Inserted(v0, v1, s.t, c) && PiecesStored(v1, s.t, c, |v0|)
    requires |v1| <= MAX_PAGES && ParseRow(c.row, 0, cols).Some?
    ensures 0 < |v1| && v1[0] == v0[0]
    ensures var e := After(s, c, |v0|);
      && Shaped(e, |v1|) && Represents(v1, e.t) && ChainStored(v1, e.ch) && Decodable(cols, Cat(e.ch))
      && (e.t.page == root ==> TableOk(v1, root, cols, e))
  {
    hide Represents, Shaped, Decodable, InsertRoot, ChainAfter, TargetLeaf, ParseRow, Codec.Holds, MetaBytes, Cat, Wf,
      ChainStored, PiecesStored, OnlyPath, Owns, Reaches;
    ShapedWf(s, c, |v0|);
    ShapeAfter(s, c, |v0|);
    DecodableAfter(cols, s, c, |v0|);
    MetaUntouched(v0, v1, s.t, c.key, |v0|);
    ChainStoredAfter(v0, v1, s, c);
  }

  /** The same with a moved root, once the metadata names it. */
  lemma NewRootStored(v0: seq<Page>, v1: seq<Page>, root: nat, cols: seq<Column>, s: Snapshot, c: Cell, meta: Page)
    requires TableOk(v0, root, cols, s) && Wf(s.t)
    requires Inserted(v0, v1, s.t, c) && PiecesStored(v1, s.t, c, |v0|)
    requires 0 < |v1| <= MAX_PAGES && ParseRow(c.row, 0, cols).Some?
    requires Codec.Holds(meta, 0, MetaBytes(After(s, c, |v0|).t.page, cols))
    ensures TableOk(v1[0 := meta], After(s, c, |v0|).t.page, cols, After(s, c, |v0|))
  {
    hide Represents, Shaped, Decodable, After, Uses, ParseRow, Codec.Holds, MetaBytes, Cat, Wf, Loose, Inserted,
      PiecesStored, ChainStored, Reaches;
    SameRoot(v0, v1, root, cols, s, c);
    var e := After(s, c, |v0|);
    ShapedWf(e, c, |v1|);
    assert Uses(e.t, 0) == 0;
    RepresentsFrame(v1, v1[0 := meta], e.t);
    ChainBesideMeta(v1, e, |v1|, meta);
  }

  lemma ChainBesideMeta(v: seq<Page>, s: Snapshot, free: nat, meta: Page)
    requires 0 < |v| && Reaches(s.t, s.ch, free) && ChainStored(v, s.ch)
    ensures ChainStored(v[0 := meta], s.ch)
  {
    hide NodeOf, Leaves, Linked;
    forall x | x in s.ch ensures HasLeaf(v[0 := meta], x) {
      assert HasLeaf(v, x);
    }
  }

  /** The pages v1 are used up, and the insertion stopped half way: they still
      hold a table, with the row in its chain. */
  lemma TornStored(v0: seq<Page>, v1: seq<Page>, root: nat, cols: seq<Column>, s: Snapshot, c: Cell)
    requires TableOk(v0, root, cols, s) && Wf(s.t)
    requires HalfInserted(v0, v1, s.t, c) && OnlyPath(v0, v1, s.t, c.key) && PiecesStored(v1, s.t, c, |v0|)
    requires NextFree(s, c, |v0|) > MAX_PAGES && ParseRow(c.row, 0, cols).Some?
    ensures TableOk(v1, root, cols, Torn(s, c, |v0|))
  {
    hide Represents, Shaped, Decodable, InsertRoot, ChainAfter, TargetLeaf, ParseRow, Codec.Holds, MetaBytes, Cat, Wf,
      ChainStored, PiecesStored, OnlyPath, Owns, Reaches, StuntedRoot, NextFree;
    ShapedWf(s, c, |v0|);
    ShapeTorn(s, c, |v0|);
    DecodableAfter(cols, s, c, |v0|);
    SameChain(s, c, |v0|);
    MetaUntouched(v0, v1, s.t, c.key, |v0|);
    ChainStoredAfter(v0, v1, s, c);
  }

  /** A table of rows of at most 1350 bytes accepts every further such row, and
      stays one. */
  lemma SmallRowsAccepted(v: seq<Page>, root: nat, cols: seq<Column>, s: Snapshot, c: Cell)
    requires TableOk(v, root, cols, s)
    requires Split.CostsAtMost(Cat(s.ch), 1362) && Cost(c) <= 1362
    ensures Accepts(s, c)
    ensures Split.CostsAtMost(Cat(After(s, c, |v|).ch), 1362) && Split.CostsAtMost(Cat(Torn(s, c, |v|).ch), 1362)
  {
    hide Represents, Shaped, Cat, Codec.Holds, MetaBytes, Decodable, After, Torn, Splittable, Cost, Owns, TargetLeaf,
      Wf, ChainStored, Linked, DistinctPages, PagesBelow, Leaves;
    ShapedWf(s, c, |v|);
    SmallSplittable(v, s.t, s.ch, c);
    SameChain(s, c, |v|);
    var p := ContentsAfter(cols, s, c, |v|);
    var a, b := Cat(s.ch), Cat(After(s, c, |v|).ch);
    forall x | x in b ensures Cost(x) <= 1362 {
      var i :| 0 <= i < |b| && b[i] == x;
      assert b[i] == if i < p then a[i] else if i == p then c else a[i - 1];
    }
  }

  // ------------------------------------------------------------------
  // Metadata
  // ------------------------------------------------------------------

  lemma {:induction false} CutParses(row: seq<byte>, off: nat, cols: seq<Column>)
    ensures ParseRow(row, off, CutAll(cols)) == ParseRow(row, off, cols)
    decreases |cols|
  {
    hide ParseField, Cut;
    if cols != [] {
      assert CutAll(cols)[1..] == CutAll(cols[1..]);
      match ParseField(row, off, cols[0].dataType)
      case None =>
      case Some((_, o)) => CutParses(row, o, cols[1..]);
    }
  }

  lemma {:induction false} CutBytes(cols: seq<Column>)
    ensures ColumnsBytes(CutAll(cols)) == ColumnsBytes(cols)
  {
    hide Codec.Chunk;
    if cols != [] {
      assert CutAll(cols)[1..] == CutAll(cols[1..]);
      CutBytes(cols[1..]);
      assert Cut(Cut(cols[0].name)) == Cut(cols[0].name);
    }
  }

  /** What opening reads from page 0, and that it is the same table. */
  lemma MetaOnPage(v: seq<Page>, root: nat, cols: seq<Column>, s: Snapshot)
    requires TableOk(v, root, cols, s)
    ensures ParseMeta(v[0]) == Some(Ok((root, CutAll(cols))))
    ensures TableOk(v, root, CutAll(cols), s)
    ensures Contents(CutAll(cols), Cat(s.ch)) == Contents(cols, Cat(s.ch))
  {
    hide Represents, Shaped, Codec.Holds, Cat, ParseRow, ParseMeta, ToLE, Cut;
    PageInRange(v, s.t);
    MetaRead(v[0], root, cols);
    CutBytes(cols);
    var cs := Cat(s.ch);
    forall i | 0 <= i < |cs| ensures ParseRow(cs[i].row, 0, CutAll(cols)) == ParseRow(cs[i].row, 0, cols) {
      CutParses(cs[i].row, 0, cols);
    }
    assert Contents(CutAll(cols), cs) == Contents(cols, cs);
  }

  // ------------------------------------------------------------------
  // What the pages determine
  // ------------------------------------------------------------------

  /** The same pages never hold two trees from one root. */
  lemma {:induction false} SameTree(v: seq<Page>, t: Tree, u: Tree)
    requires Represents(v, t) && Represents(v, u) && t.page == u.page
    ensures t == u
    decreases t
  {
    hide NodeOf;
    if t.Node? && u.Node? {
      assert PagesOf(t.kids) == PagesOf(u.kids);
      forall i | 0 <= i < |t.kids| ensures t.kids[i] == u.kids[i] {
        assert PagesOf(t.kids)[i] == PagesOf(u.kids)[i];
        SameTree(v, t.kids[i], u.kids[i]);
      }
      assert t.kids == u.kids;
    }
  }

  /** Nor two chains from one leaf. */
  lemma {:induction false} SameChainUpTo(v: seq<Page>, a: seq<LeafRec>, b: seq<LeafRec>, i: nat)
    requires ChainStored(v, a) && ChainStored(v, b) && Linked(a) && Linked(b) && NonZero(a) && NonZero(b)
    requires b != [] && i < |a| && a[0] == b[0]
    ensures i < |b| && a[i] == b[i]
  {
    hide NodeOf;
    if i > 0 {
      SameChainUpTo(v, a, b, i - 1);
      assert a[i - 1].next == PageAfter(a, i - 1) && b[i - 1].next == PageAfter(b, i - 1);
      assert a[i] in a && HasLeaf(v, a[i]);
      assert i < |b| ==> b[i] in b && HasLeaf(v, b[i]);
    }
  }

  lemma SameChains(v: seq<Page>, a: seq<LeafRec>, b: seq<LeafRec>)
    requires ChainStored(v, a) && ChainStored(v, b) && Linked(a) && Linked(b) && NonZero(a) && NonZero(b)
    requires a != [] && b != [] && a[0] == b[0]
    ensures a == b
  {
    hide ChainStored, Linked, NonZero;
    SameChainUpTo(v, a, b, |a| - 1);
    SameChainUpTo(v, b, a, |b| - 1);
    forall i | 0 <= i < |a| ensures a[i] == b[i] {
      SameChainUpTo(v, a, b, i);
    }
  }

  /** The pages determine the table: root, search tree, chain, and columns up
      to the cut of long names. */
  lemma PagesDetermineTable(v: seq<Page>, root: nat, cols: seq<Column>, s: Snapshot, root': nat, cols': seq<Column>, s': Snapshot)
    requires TableOk(v, root, cols, s) && TableOk(v, root', cols', s')
    ensures root == root' && s == s' && CutAll(cols) == CutAll(cols')
  {
    hide Represents, ChainStored, Shaped, Codec.Holds, ParseMeta, Decodable, Linked, Leaves, Owns, Wf, DistinctPages,
      PagesBelow;
    MetaOnPage(v, root, cols, s);
    MetaOnPage(v, root', cols', s');
    SameTree(v, s.t, s'.t);
    ShapedWf(s, Cell(0, []), |v|);
    ShapedWf(s', Cell(0, []), |v|);
    SameChains(v, s.ch, s'.ch);
  }
}
