/** Key order: when the tree keeps its leaves in chain order, and that it then
    inserts in sorted position. */
module TreeOrder {
  import opened Bytes
  import opened Cells
  import Split
  import InternalPage
  import opened TreeModel
  import opened TreeLeaves

  /** All cells of a list of leaves. */
  function Cat(ls: seq<LeafRec>): seq<Cell> {
    if ls == [] then [] else ls[0].cells + Cat(ls[1..])
  }

  lemma {:induction false} CatAppend(a: seq<LeafRec>, b: seq<LeafRec>)
    ensures Cat(a + b) == Cat(a) + Cat(b)
  {
    if a == [] {
      assert a + b == b;
    } else {
      CatAppend(a[1..], b);
      assert (a + b)[1..] == a[1..] + b;
      AppendAssoc(a[0].cells, Cat(a[1..]), Cat(b));
    }
  }

  /** The cells of the tree, left to right. */
  function Flat(t: Tree): seq<Cell> {
    Cat(Leaves(t))
  }

  function FlatF(ts: seq<Tree>): seq<Cell> {
    Cat(LeavesF(ts))
  }

  /** The cells around child i. */
  lemma FlatAround(ts: seq<Tree>, i: nat)
    requires i < |ts|
    ensures FlatF(ts) == FlatF(ts[..i]) + Flat(ts[i]) + FlatF(ts[i + 1..])
  {
    hide Cat, Leaves, LeavesF;
    LeavesAround(ts, i);
    CatAppend(LeavesF(ts[..i]) + Leaves(ts[i]), LeavesF(ts[i + 1..]));
    CatAppend(LeavesF(ts[..i]), Leaves(ts[i]));
  }

  ghost predicate Sorted(cs: seq<Cell>) {
    forall i, j :: 0 <= i < j < |cs| ==> cs[i].key <= cs[j].key
  }

  ghost predicate StrictlySorted(cs: seq<Cell>) {
    forall i, j :: 0 <= i < j < |cs| ==> cs[i].key < cs[j].key
  }

  /** Every separator is the first key of the subtree to its right, and no
      child is empty. */
  ghost predicate Separated(t: Tree) {
    t.Node? ==>
      && |t.kids| == |t.keys| + 1
      && (forall u :: u in t.kids ==> Separated(u) && Flat(u) != [])
      && (forall j :: 0 <= j < |t.keys| ==> t.keys[j] == Flat(t.kids[j + 1])[0].key)
  }

  /** Separators bound both neighbours: left of a separator nothing is larger,
      right of it nothing is smaller. */
  lemma SeparatorBounds(t: Tree, j: nat)
    requires Wf(t) && t.Node? && Separated(t) && Sorted(Flat(t)) && j < |t.keys|
    ensures forall c :: c in FlatF(t.kids[..j + 1]) ==> c.key <= t.keys[j]
    ensures forall c :: c in FlatF(t.kids[j + 1..]) ==> t.keys[j] <= c.key
  {
    hide Cat, Leaves, LeavesF;
    var a, b := FlatF(t.kids[..j + 1]), FlatF(t.kids[j + 1..]);
    LeavesOfNode(t);
    FlatSplit(t.kids, j + 1);
    assert Flat(t) == a + b;
    FlatFirst(t.kids[j + 1..]);
    assert b[0].key == t.keys[j];
    assert (a + b)[|a|] == b[0];
    forall c | c in a ensures c.key <= t.keys[j] {
      var x :| 0 <= x < |a| && a[x] == c;
      assert (a + b)[x] == c;
    }
    forall c | c in b ensures t.keys[j] <= c.key {
      var x :| 0 <= x < |b| && b[x] == c;
      assert (a + b)[|a| + x] == c;
    }
  }

  lemma FlatSplit(ts: seq<Tree>, i: nat)
    requires i <= |ts|
    ensures FlatF(ts) == FlatF(ts[..i]) + FlatF(ts[i..])
  {
    hide Cat, Leaves, LeavesF;
    LeavesFAppend(ts[..i], ts[i..]);
    assert ts == ts[..i] + ts[i..];
    CatAppend(LeavesF(ts[..i]), LeavesF(ts[i..]));
  }

  lemma FlatFirst(ts: seq<Tree>)
    requires ts != [] && Flat(ts[0]) != []
    ensures FlatF(ts) != [] && FlatF(ts)[0] == Flat(ts[0])[0]
  {
    hide Cat, Leaves;
    CatAppend(Leaves(ts[0]), LeavesF(ts[1..]));
  }

  /** The cells around the child the descent takes: smaller before, none smaller after. */
  lemma DescentBounds(t: Tree, key: i64)
    requires Wf(t) && t.Node? && Separated(t) && Sorted(Flat(t))
    ensures var i := ChildIdx(t, key);
      && Flat(t) == FlatF(t.kids[..i]) + Flat(t.kids[i]) + FlatF(t.kids[i + 1..])
      && (forall c :: c in FlatF(t.kids[..i]) ==> c.key < key)
      && (forall c :: c in FlatF(t.kids[i + 1..]) ==> key <= c.key)
      && (i > 0 ==> Flat(t.kids[i]) != [] && Flat(t.kids[i])[0].key == t.keys[i - 1] < key)
  {
    hide Cat, Leaves, LeavesF, LowerBound;
    var i := ChildIdx(t, key);
    LeavesOfNode(t);
    FlatAround(t.kids, i);
    if i > 0 {
      SeparatorBounds(t, i - 1);
      assert t.kids[i] in t.kids;
    }
    if i < |t.keys| {
      SeparatorBounds(t, i);
    }
    if i == |t.keys| {
      assert t.kids[i + 1..] == [];
      EmptyFlat();
    }
    if i == 0 {
      assert t.kids[..i] == [];
      EmptyFlat();
    }
  }

  lemma EmptyFlat()
    ensures FlatF([]) == []
  {
  }

  lemma SortedPart(a: seq<Cell>, b: seq<Cell>, d: seq<Cell>)
    requires Sorted(a + b + d)
    ensures Sorted(b)
  {
    forall i, j | 0 <= i < j < |b| ensures b[i].key <= b[j].key {
      assert (a + b + d)[|a| + i] == b[i] && (a + b + d)[|a| + j] == b[j];
    }
  }

  lemma MiddleBound(a: seq<Cell>, b: seq<Cell>, d: seq<Cell>, key: i64)
    requires forall x :: x in a ==> x.key < key
    requires forall x :: x in d ==> key <= x.key
    ensures LowerBound(KeysOf(a + b + d), key) == |a| + LowerBound(KeysOf(b), key)
  {
    hide LowerBound;
    var s := a + b + d;
    var q := LowerBound(KeysOf(b), key);
    var p := |a| + q;
    forall i | 0 <= i < p ensures KeysOf(s)[i] < key {
      if i < |a| {
        assert s[i] == a[i] && a[i] in a;
      } else {
        assert s[i] == b[i - |a|];
        assert KeysOf(b)[i - |a|] < key;
      }
    }
    if p < |s| {
      if q < |b| {
        assert s[p] == b[q];
      } else {
        assert s[p] == d[0] && d[0] in d;
      }
    }
    LowerBoundIs(KeysOf(s), key, p);
  }

  lemma InsertAtMiddle<T>(a: seq<T>, b: seq<T>, d: seq<T>, q: nat, x: T)
    requires q <= |b|
    ensures InsertAt(a + b + d, |a| + q, x) == a + InsertAt(b, q, x) + d
  {
    var s := a + b + d;
    assert s[..|a| + q] == a + b[..q] && s[|a| + q..] == b[q..] + d;
  }

  /** Inserting between smaller cells and cells that are not smaller. */
  lemma InsertMiddle(a: seq<Cell>, b: seq<Cell>, d: seq<Cell>, c: Cell)
    requires forall x :: x in a ==> x.key < c.key
    requires forall x :: x in d ==> c.key <= x.key
    ensures InsertCell(a + b + d, c) == a + InsertCell(b, c) + d
  {
    hide LowerBound, InsertAt;
    MiddleBound(a, b, d, c.key);
    InsertAtMiddle(a, b, d, LowerBound(KeysOf(b), c.key), c);
  }

  /** In chain order, insert puts the cell in sorted position. */
  lemma {:induction false} InPlaceSorted(t: Tree, c: Cell, free: nat)
    requires Wf(t) && Separated(t) && Sorted(Flat(t))
    ensures Cat(InPlace(t, c, free)) == InsertCell(Flat(t), c)
    decreases t, 1
  {
    if t.Leaf? {
      LeafPieces(t, c, free);
    } else {
      InPlaceSortedNode(t, c, free);
    }
  }

  lemma {:induction false} InPlaceSortedNode(t: Tree, c: Cell, free: nat)
    requires Wf(t) && t.Node? && Separated(t) && Sorted(Flat(t))
    ensures Cat(InPlace(t, c, free)) == InsertCell(Flat(t), c)
    decreases t, 0
  {
    hide Cat, Leaves, LeavesF, LowerBound, InsertCell, InPlace, Sorted, Separated, Flat, Target, Wf;
    NodeWf(t);
    SeparatedKids(t);
    InPlaceUnfolds(t, c, free);
    var i := ChildIdx(t, c.key);
    var a, b, d := FlatF(t.kids[..i]), Flat(t.kids[i]), FlatF(t.kids[i + 1..]);
    DescentBounds(t, c.key);
    SortedPart(a, b, d);
    InPlaceSorted(t.kids[i], c, free);
    InsertMiddle(a, b, d, c);
    CatParts(LeavesF(t.kids[..i]), InPlace(t.kids[i], c, free), LeavesF(t.kids[i + 1..]));
  }

  lemma CatParts(a: seq<LeafRec>, m: seq<LeafRec>, d: seq<LeafRec>)
    ensures Cat(a + m + d) == Cat(a) + Cat(m) + Cat(d)
  {
    hide *;
    CatAppend(a + m, d);
    CatAppend(a, m);
  }

  lemma CatOne(x: LeafRec)
    ensures Cat([x]) == x.cells
  {
    assert [x][1..] == [];
    assert x.cells + [] == x.cells;
  }

  /** The pieces of a leaf hold its cells and the new one, in order. */
  lemma LeafPieces(t: Tree, c: Cell, free: nat)
    requires t.Leaf?
    ensures Cat(Out(InsertLeaf(t, c, free).res)) == InsertCell(t.cells, c)
    ensures Flat(t) == t.cells
  {
    hide Cat, Split.SplitPoint;
    var all := InsertCell(t.cells, c);
    CatOne(LeafRec(t.page, t.cells, t.next));
    if HasRoom(t.cells, c) {
      CatOne(LeafRec(t.page, all, t.next));
    } else {
      var n := Split.SplitPoint(all);
      var x, y := LeafRec(t.page, all[..n], free), LeafRec(free, all[n..], t.next);
      CatAppend([x], [y]);
      CatOne(x);
      CatOne(y);
      assert all[..n] + all[n..] == all;
    }
  }

  // ------------------------------------------------------------------
  // Alignment
  // ------------------------------------------------------------------

  /** At every node that receives a promoted key, the slot found again from
      that key is the child index of the descent. */
  ghost predicate Aligned(t: Tree, c: Cell, free: nat)
    requires Wf(t)
  {
    t.Node? ==>
      var i := ChildIdx(t, c.key);
      var g := Insert(t.kids[i], c, free);
      && Aligned(t.kids[i], c, free)
      && (g.res.Two? ==> LowerBound(t.keys, g.res.k) == i)
  }

  lemma AlignedKids(t: Tree, i: nat, l: Tree, k: i64, r: Tree)
    requires t.Node? && |t.kids| == |t.keys| + 1 && i < |t.kids| && LowerBound(t.keys, k) == i
    ensures NewKids(t, i, l, k, r) == t.kids[..i] + [l, r] + t.kids[i + 1..]
  {
    hide LowerBound;
    var us := t.kids[i := l];
    assert us[..i + 1] == t.kids[..i] + [l] && us[i + 1..] == t.kids[i + 1..];
    assert us[..i + 1] + [r] == t.kids[..i] + [l, r];
  }

  lemma LeavesFTwo(a: seq<Tree>, l: Tree, r: Tree, d: seq<Tree>)
    ensures LeavesF(a + [l, r] + d) == LeavesF(a) + (Leaves(l) + Leaves(r)) + LeavesF(d)
  {
    hide Leaves, LeavesF;
    assert [l, r] == [l] + [r];
    LeavesFAppend(a + [l, r], d);
    LeavesFAppend(a, [l, r]);
    LeavesFAppend([l], [r]);
    LeavesFOne(l);
    LeavesFOne(r);
  }

  /** A child that keeps its slot keeps its leaves together. */
  lemma SlotKeepsOut(t: Tree, c: Cell, free: nat)
    requires Wf(t) && t.Node?
    requires var i := ChildIdx(t, c.key);
      var g := Insert(t.kids[i], c, free);
      g.res.Two? ==> LowerBound(t.keys, g.res.k) == i
    ensures var i := ChildIdx(t, c.key);
      Out(Insert(t, c, free).res)
      == LeavesF(t.kids[..i]) + Out(Insert(t.kids[i], c, free).res) + LeavesF(t.kids[i + 1..])
  {
    var i := ChildIdx(t, c.key);
    var g := Insert(t.kids[i], c, free);
    hide LeavesF, LowerBound, NewKids, InsertNode;
    match g.res
    case One(u) =>
      ReplacedLeaves(t.kids, i, u);
    case Two(l, k, r) =>
      InsertNodeOut(t, i, l, k, r, g.free);
      AlignedKids(t, i, l, k, r);
      LeavesFTwo(t.kids[..i], l, r, t.kids[i + 1..]);
  }

  /** If the slots agree, the tree keeps the order of the chain. */
  lemma {:induction false} AlignedKeepsOrder(t: Tree, c: Cell, free: nat)
    requires Wf(t) && Aligned(t, c, free)
    ensures Out(Insert(t, c, free).res) == InPlace(t, c, free)
  {
    if t.Node? {
      AlignedKeepsOrder(t.kids[ChildIdx(t, c.key)], c, free);
      SlotKeepsOut(t, c, free);
    }
  }

  ghost predicate DistinctPages(ls: seq<LeafRec>) {
    forall i, j :: 0 <= i < j < |ls| ==> ls[i].page != ls[j].page
  }

  lemma SamePlace(ls: seq<LeafRec>, i: nat, j: nat)
    requires DistinctPages(ls) && i < |ls| && j < |ls| && ls[i].page == ls[j].page
    ensures i == j
  {
  }

  ghost predicate PagesBelow(ls: seq<LeafRec>, free: nat) {
    forall x :: x in ls ==> x.page < free
  }

  lemma ReplaceDistinct(ls: seq<LeafRec>, j: nat, p: seq<LeafRec>, free: nat)
    requires DistinctPages(ls) && PagesBelow(ls, free) && j < |ls|
    requires 1 <= |p| <= 2 && p[0].page == ls[j].page && (|p| == 2 ==> p[1].page == free)
    ensures DistinctPages(ls[..j] + p + ls[j + 1..])
  {
    var n := |p|;
    var m := ls[..j] + p + ls[j + 1..];
    forall x | 0 <= x < |m|
      ensures m[x].page == (if x == j + 1 && n == 2 then free else ls[Source(x, j, n)].page)
      ensures ls[Source(x, j, n)] in ls
    {
      if x >= j + n {
        assert m[x] == ls[x - n + 1];
      }
    }
    forall x, y | 0 <= x < y < |m| ensures m[x].page != m[y].page {
      assert ls[Source(x, j, n)] in ls && ls[Source(y, j, n)] in ls;
      if !(y == j + 1 && n == 2) && !(x == j + 1 && n == 2) {
        assert Source(x, j, n) < Source(y, j, n);
      }
    }
  }

  /** Where element x of a list came from when element j became n elements. */
  function Source(x: nat, j: nat, n: nat): nat {
    if x < j then x else if x < j + n || n == 0 then j else x - n + 1
  }

  lemma InPlaceDistinct(t: Tree, c: Cell, free: nat)
    requires Wf(t) && DistinctPages(Leaves(t)) && PagesBelow(Leaves(t), free)
    ensures DistinctPages(InPlace(t, c, free))
  {
    hide LeavesF, Leaves, LowerBound, Split.SplitPoint, DistinctPages, PagesBelow, Pieces;
    InPlaceIs(t, c, free);
    var ls, j := Leaves(t), Target(t, c.key);
    PiecesPages(ls[j], c, free);
    ReplaceDistinct(ls, j, Pieces(ls[j], c, free), free);
  }

  lemma PiecesPages(x: LeafRec, c: Cell, free: nat)
    ensures var p := Pieces(x, c, free);
      && 1 <= |p| <= 2
      && p[0].page == x.page
      && (|p| == 2 ==> p[1].page == free && p[0].next == free && p[1].next == x.next)
      && (|p| == 1 ==> p[0].next == x.next)
  {
  }

  // ------------------------------------------------------------------
  // What an aligned insertion keeps
  // ------------------------------------------------------------------

  /** Keys and children of a node, apart from the node. */
  ghost predicate SeparatedF(ks: seq<i64>, ds: seq<Tree>) {
    && |ds| == |ks| + 1
    && (forall u :: u in ds ==> Separated(u) && Flat(u) != [])
    && (forall j :: 0 <= j < |ks| ==> ks[j] == Flat(ds[j + 1])[0].key)
  }

  lemma SeparatedHalves(ks: seq<i64>, ds: seq<Tree>, m: nat)
    requires SeparatedF(ks, ds) && m < |ks|
    ensures SeparatedF(ks[..m], ds[..m + 1]) && SeparatedF(ks[m + 1..], ds[m + 1..])
    ensures ks[m] == Flat(ds[m + 1])[0].key
  {
    hide Flat, Separated;
  }

  lemma InsertKeepsFirst(cs: seq<Cell>, c: Cell)
    requires cs != [] && cs[0].key < c.key
    ensures InsertCell(cs, c)[0] == cs[0]
  {
  }

  /** What a subtree gives its parent. */
  ghost predicate SoundResult(r: Outcome, cs: seq<Cell>) {
    match r
    case One(u) => Separated(u) && Flat(u) == cs
    case Two(l, k, r) =>
      && Separated(l) && Separated(r)
      && Flat(l) != [] && Flat(r) != []
      && k == Flat(r)[0].key
      && Flat(l) + Flat(r) == cs
  }

  lemma LeafSound(t: Tree, c: Cell, free: nat)
    requires t.Leaf? && Cost(c) <= LEAF_CAPACITY
    ensures SoundResult(InsertLeaf(t, c, free).res, InsertCell(t.cells, c))
  {
    hide Cat, InsertCell;
    var all := InsertCell(t.cells, c);
    if HasRoom(t.cells, c) {
      CatOne(LeafRec(t.page, all, t.next));
    } else {
      assert t.cells != [];
      InsertCellLength(t.cells, c);
      Split.SplitPointMeaning(all);
      var n := Split.SplitPoint(all);
      CatOne(LeafRec(t.page, all[..n], free));
      CatOne(LeafRec(free, all[n..], t.next));
    }
  }

  lemma InsertCellLength(cs: seq<Cell>, c: Cell)
    ensures |InsertCell(cs, c)| == |cs| + 1
  {
  }

  lemma PairAt(kids: seq<Tree>, i: nat, l: Tree, r: Tree)
    requires i < |kids|
    ensures var ds := kids[..i] + [l, r] + kids[i + 1..];
      && |ds| == |kids| + 1 && ds[i] == l && ds[i + 1] == r
      && (forall j :: 0 <= j < i ==> ds[j] == kids[j])
      && (forall j :: i + 1 < j < |ds| ==> ds[j] == kids[j - 1])
  {
  }

  lemma SeparatedKids(t: Tree)
    requires t.Node? && Separated(t)
    ensures SeparatedF(t.keys, t.kids)
  {
    hide Flat;
  }

  /** The separators stay right when one child becomes an adjacent pair. */
  lemma PairSeparated(ks: seq<i64>, kids: seq<Tree>, i: nat, l: Tree, k: i64, r: Tree)
    requires SeparatedF(ks, kids) && i < |kids|
    requires Separated(l) && Separated(r) && Flat(l) != [] && Flat(r) != [] && k == Flat(r)[0].key
    requires i > 0 ==> Flat(l)[0].key == ks[i - 1]
    ensures SeparatedF(InsertAt(ks, i, k), kids[..i] + [l, r] + kids[i + 1..])
  {
    hide Flat, Separated, InsertAt;
    PairAt(kids, i, l, r);
    var ds, ks' := kids[..i] + [l, r] + kids[i + 1..], InsertAt(ks, i, k);
    forall u | u in ds ensures Separated(u) && Flat(u) != [] {
      assert u == l || u == r || u in kids;
    }
    forall j | 0 <= j < |ks'| ensures ks'[j] == Flat(ds[j + 1])[0].key {
      if j < i {
        assert ks'[j] == ks[j];
      } else if j > i {
        assert ks'[j] == ks[j - 1];
      }
    }
  }

  lemma OneSeparated(ks: seq<i64>, kids: seq<Tree>, i: nat, u: Tree)
    requires SeparatedF(ks, kids) && i < |kids| && Separated(u) && Flat(u) != []
    requires i > 0 ==> Flat(u)[0].key == ks[i - 1]
    ensures SeparatedF(ks, kids[i := u])
  {
    hide Flat, Separated;
    var ds := kids[i := u];
    forall x | x in ds ensures Separated(x) && Flat(x) != [] {
      assert x == u || x in kids;
    }
  }

  /** The parent of an aligned split or of a child that kept its place. */
  lemma NodeSound(t: Tree, i: nat, r: Outcome, cs: seq<Cell>, free: nat)
    requires t.Node? && Separated(t) && i < |t.kids| && SoundResult(r, cs) && cs != []
    requires i > 0 ==> cs[0].key == t.keys[i - 1]
    requires r.Two? ==> LowerBound(t.keys, r.k) == i
    ensures r.One? ==> SeparatedF(t.keys, t.kids[i := r.t])
    ensures r.Two? ==> SeparatedF(InsertAt(t.keys, i, r.k), NewKids(t, i, r.l, r.k, r.r))
  {
    hide Flat, LowerBound, SeparatedF, InsertAt, NewKids;
    SeparatedKids(t);
    match r
    case One(u) => OneSeparated(t.keys, t.kids, i, u);
    case Two(l, k, r) =>
      assert (Flat(l) + Flat(r))[0] == Flat(l)[0];
      AlignedKids(t, i, l, k, r);
      PairSeparated(t.keys, t.kids, i, l, k, r);
  }

  /** One level of the definition of Aligned. */
  lemma AlignedUnfolds(t: Tree, c: Cell, free: nat)
    requires Wf(t) && t.Node?
    ensures var i := ChildIdx(t, c.key);
      var g := Insert(t.kids[i], c, free);
      Aligned(t, c, free) <==> Aligned(t.kids[i], c, free) && (g.res.Two? ==> LowerBound(t.keys, g.res.k) == i)
  {
    hide LowerBound, Insert;
  }

  /** One insertion into a subtree of a sorted, separated tree. */
  lemma {:induction false} AlignedSound(t: Tree, c: Cell, free: nat)
    requires Wf(t) && Separated(t) && Sorted(Flat(t)) && Aligned(t, c, free)
    requires Cost(c) <= LEAF_CAPACITY
    ensures SoundResult(Insert(t, c, free).res, InsertCell(Flat(t), c))
    decreases t, 1
  {
    if t.Leaf? {
      LeafPieces(t, c, free);
      LeafSound(t, c, free);
    } else {
      AlignedSoundNode(t, c, free);
    }
  }

  lemma {:induction false} AlignedSoundNode(t: Tree, c: Cell, free: nat)
    requires Wf(t) && t.Node? && Separated(t) && Sorted(Flat(t)) && Aligned(t, c, free)
    requires Cost(c) <= LEAF_CAPACITY
    ensures SoundResult(Insert(t, c, free).res, InsertCell(Flat(t), c))
    decreases t, 0
  {
    hide Flat, LowerBound, InsertCell, LeavesF, Leaves, Cat, NewKids, SoundResult, Separated, Sorted, Aligned, Insert,
      InsertNode, InPlace, Out, SeparatedF, Wf;
    NodeWf(t);
    AlignedUnfolds(t, c, free);
    InsertUnfolds(t, c, free);
    var i := ChildIdx(t, c.key);
    var kid := t.kids[i];
    SeparatedKid(t, i);
    DescentBounds(t, c.key);
    SortedPart(FlatF(t.kids[..i]), Flat(kid), FlatF(t.kids[i + 1..]));
    AlignedSound(kid, c, free);
    var g := Insert(kid, c, free);
    var cs := InsertCell(Flat(kid), c);
    InsertCellLength(Flat(kid), c);
    if i > 0 {
      InsertKeepsFirst(Flat(kid), c);
    }
    NodeSound(t, i, g.res, cs, g.free);
    AlignedKeepsOrder(t, c, free);
    InPlaceSorted(t, c, free);
    if g.res.Two? {
      SplitSound(t, i, g.res.l, g.res.k, g.res.r, g.free);
    } else {
      var u := Node(t.page, t.keys, t.kids[i := g.res.t]);
      SeparatedNode(t.page, t.keys, t.kids[i := g.res.t]);
      OneSound(u);
    }
  }

  lemma SeparatedKid(t: Tree, i: nat)
    requires t.Node? && Separated(t) && i < |t.kids|
    ensures Separated(t.kids[i]) && |t.kids| == |t.keys| + 1
  {
    hide Flat;
    assert t.kids[i] in t.kids;
  }

  /** Keys and children that are separated make a separated, non-empty node. */
  lemma SeparatedNode(p: nat, ks: seq<i64>, ds: seq<Tree>)
    requires SeparatedF(ks, ds)
    ensures Separated(Node(p, ks, ds)) && Flat(Node(p, ks, ds)) == FlatF(ds)
    ensures FlatF(ds) != [] && FlatF(ds)[0] == Flat(ds[0])[0]
  {
    hide Cat, Leaves;
    LeavesOfNode(Node(p, ks, ds));
    FlatFirst(ds);
  }

  lemma OneSound(u: Tree)
    requires Separated(u)
    ensures SoundResult(One(u), Cat(Out(One(u))))
  {
    hide Separated, Leaves, Cat;
  }

  lemma TwoSound(l: Tree, k: i64, r: Tree)
    requires Separated(l) && Separated(r) && Flat(l) != [] && Flat(r) != [] && k == Flat(r)[0].key
    ensures SoundResult(Two(l, k, r), Cat(Out(Two(l, k, r))))
  {
    hide Separated, Leaves, Cat;
    CatAppend(Leaves(l), Leaves(r));
  }

  /** A node that receives a separated key and child, and may split itself. */
  lemma SplitSound(t: Tree, i: nat, l: Tree, k: i64, r: Tree, free: nat)
    requires t.Node? && |t.kids| == |t.keys| + 1 && i < |t.kids| && LowerBound(t.keys, k) == i
    requires SeparatedF(InsertAt(t.keys, i, k), NewKids(t, i, l, k, r))
    ensures var res := InsertNode(t, i, l, k, r, free).res; SoundResult(res, Cat(Out(res)))
  {
    hide LowerBound, Flat, FlatF, Separated, SeparatedF, InsertAt, NewKids, InsertNode, SoundResult, Out, Cat;
    var ks, ds := InsertAt(t.keys, i, k), NewKids(t, i, l, k, r);
    InsertNodeIs(t, i, l, k, r, free);
    if |t.keys| >= InternalPage.MAX_KEYS {
      var mid := |ks| / 2;
      SeparatedHalves(ks, ds, mid);
      SeparatedNode(t.page, ks[..mid], ds[..mid + 1]);
      SeparatedNode(free, ks[mid + 1..], ds[mid + 1..]);
      TwoSound(Node(t.page, ks[..mid], ds[..mid + 1]), ks[mid], Node(free, ks[mid + 1..], ds[mid + 1..]));
    } else {
      SeparatedNode(t.page, ks, ds);
      OneSound(Node(t.page, ks, ds));
    }
  }
}
