/** Whole runs of insertions from an empty tree. */
module TreeRuns {
  import opened Bytes
  import opened Cells
  import opened Split
  import opened TreeModel
  import opened TreeLeaves
  import opened TreeOrder
  import opened TreeAlign
  import opened TreePages
  import opened TreeChain

  /** A tree, its chain of leaves and the next unused page. */
  datatype State = State(t: Tree, ch: seq<LeafRec>, free: nat)

  /** create_tree on page root. */
  function Start(root: nat): State {
    State(Leaf(root, [], 0), [LeafRec(root, [], 0)], root + 1)
  }

  ghost function Step(s: State, c: Cell): State {
    if Wf(s.t) && TargetLeaf(s.t, c.key) in s.ch then
      var (u, next) := InsertRoot(s.t, c, s.free);
      State(u, ChainAfter(s.t, s.ch, c, s.free), next)
    else s
  }

  ghost function Run(s: State, cs: seq<Cell>): State
    decreases |cs|
  {
    if cs == [] then s else Run(Step(s, cs[0]), cs[1..])
  }

  /** The cells a scan of the state meets. */
  function Scan(s: State): seq<Cell> {
    Cat(s.ch)
  }

  lemma StartIsIndex(root: nat)
    requires root > 0
    ensures Index(Start(root).t, Start(root).ch, 0, Start(root).free)
    ensures InOrder(Start(root).t, Start(root).ch) && Scan(Start(root)) == []
  {
    var s := Start(root);
    assert Leaves(s.t) == s.ch;
    CatOne(s.ch[0]);
  }

  lemma InsertAtBag<T>(s: seq<T>, p: nat, x: T)
    requires p <= |s|
    ensures multiset(InsertAt(s, p, x)) == multiset(s) + multiset{x}
  {
    assert s == s[..p] + s[p..];
  }

  /** Conservation, for any keys: a scan returns exactly the inserted rows,
      each as often as it was inserted; the shape is kept throughout. */
  lemma {:induction false} RunConserves(s: State, cs: seq<Cell>, h: nat) returns (h': nat)
    requires Index(s.t, s.ch, h, s.free)
    ensures var e := Run(s, cs);
      && Index(e.t, e.ch, h', e.free)
      && multiset(Scan(e)) == multiset(Scan(s)) + multiset(cs)
    decreases |cs|
  {
    hide Index, Cat, InsertRoot, ChainAfter, TargetLeaf;
    h' := h;
    if cs != [] {
      IndexWf(s.t, s.ch, h, s.free);
      var h1 := IndexStep(s.t, s.ch, h, cs[0], s.free);
      var p := ChainGainsOne(s.t, s.ch, cs[0], s.free);
      InsertAtBag(Scan(s), p, cs[0]);
      h' := RunConserves(Step(s, cs[0]), cs[1..], h1);
      assert cs == [cs[0]] + cs[1..];
    }
  }

  lemma IndexWf(t: Tree, ch: seq<LeafRec>, h: nat, free: nat)
    requires Index(t, ch, h, free)
    ensures Wf(t)
  {
  }

  /** Sorted insertion, one cell after the other. */
  function InsertAll(base: seq<Cell>, cs: seq<Cell>): seq<Cell>
    decreases cs
  {
    if cs == [] then base else InsertAll(InsertCell(base, cs[0]), cs[1..])
  }

  ghost predicate FreshKeys(base: seq<Cell>, cs: seq<Cell>) {
    && (forall c :: c in cs ==> Absent(base, c.key))
    && (forall i, j :: 0 <= i < j < |cs| ==> cs[i].key != cs[j].key)
  }

  /** With distinct keys the scan is the sorted insertion of all cells, in
      strictly ascending key order, and tree and chain never part. */
  lemma {:induction false} RunSorted(s: State, cs: seq<Cell>, h: nat)
    requires Index(s.t, s.ch, h, s.free) && InOrder(s.t, s.ch) && StrictlySorted(Scan(s))
    requires FreshKeys(Scan(s), cs) && CostsAtMost(cs, LEAF_CAPACITY)
    ensures var e := Run(s, cs);
      && InOrder(e.t, e.ch)
      && Scan(e) == InsertAll(Scan(s), cs)
      && StrictlySorted(Scan(e))
    decreases |cs|
  {
    hide Index, Cat, InsertRoot, ChainAfter, TargetLeaf, StrictlySorted, InOrder, InsertCell;
    if cs != [] {
      IndexWf(s.t, s.ch, h, s.free);
      var h1 := IndexStep(s.t, s.ch, h, cs[0], s.free);
      DistinctStep(s.t, s.ch, h, cs[0], s.free);
      InsertCellMembers(Scan(s), cs[0]);
      forall c | c in cs[1..] ensures Absent(InsertCell(Scan(s), cs[0]), c.key) {
        var i :| 1 <= i < |cs| && cs[i] == c;
        assert cs[0].key != cs[i].key;
      }
      RunSorted(Step(s, cs[0]), cs[1..], h1);
    }
  }

  /** Every insertion of the run finds its slots again. */
  ghost predicate AllAligned(s: State, cs: seq<Cell>)
    decreases |cs|
  {
    cs == [] || (Wf(s.t) && Aligned(s.t, cs[0], s.free) && AllAligned(Step(s, cs[0]), cs[1..]))
  }

  /** Tree and chain agree before, between and after the insertions. */
  ghost predicate AlwaysInOrder(s: State, cs: seq<Cell>)
    decreases |cs|
  {
    InOrder(s.t, s.ch) && (cs == [] || AlwaysInOrder(Step(s, cs[0]), cs[1..]))
  }

  /** For any keys: tree and chain agree throughout a run exactly if every
      insertion finds its slots again; the scan is then the sorted insertion
      of all cells. */
  lemma {:induction false} RunAlignedIff(s: State, cs: seq<Cell>, h: nat)
    requires Index(s.t, s.ch, h, s.free) && InOrder(s.t, s.ch) && CostsAtMost(cs, LEAF_CAPACITY)
    ensures AllAligned(s, cs) <==> AlwaysInOrder(s, cs)
    ensures AllAligned(s, cs) ==> Scan(Run(s, cs)) == InsertAll(Scan(s), cs) && Sorted(Scan(Run(s, cs)))
    decreases |cs|
  {
    hide Index, Cat, InsertRoot, ChainAfter, TargetLeaf, InOrder, InsertCell, Sorted, Aligned;
    SortedScan(s);
    if cs != [] {
      IndexWf(s.t, s.ch, h, s.free);
      var h1 := IndexStep(s.t, s.ch, h, cs[0], s.free);
      OrderStep(s.t, s.ch, h, cs[0], s.free);
      var s1 := Step(s, cs[0]);
      if InOrder(s1.t, s1.ch) {
        RunAlignedIff(s1, cs[1..], h1);
      } else {
        NotAlways(s1, cs[1..]);
      }
    }
  }

  lemma SortedScan(s: State)
    requires InOrder(s.t, s.ch)
    ensures Sorted(Scan(s))
  {
  }

  lemma NotAlways(s: State, cs: seq<Cell>)
    requires !InOrder(s.t, s.ch)
    ensures !AlwaysInOrder(s, cs)
  {
  }

  /** After an insertion that does not find a slot again there is a subtree l of
      copies of one key k: whatever larger key the tree next sends there ends
      up before a k, and the scan is out of order. */
  lemma MisalignedBreaksScan(t: Tree, ch: seq<LeafRec>, h: nat, c: Cell, free: nat) returns (l: Tree, k: i64)
    requires Index(t, ch, h, free) && InOrder(t, ch) && Cost(c) <= LEAF_CAPACITY && !Aligned(t, c, free)
    requires TargetLeaf(t, c.key) in ch
    ensures var (u, next) := InsertRoot(t, c, free);
      && Wf(u) && Leaves(l) != [] && (forall x :: x in Leaves(l) ==> x in Leaves(u))
      && (forall x :: x in Flat(l) ==> x.key == k)
      && forall c2: Cell :: c2.key > k && TargetLeaf(u, c2.key) in Leaves(l) ==>
           TargetLeaf(u, c2.key) in ChainAfter(t, ch, c, free)
           && !Sorted(Cat(ChainAfter(u, ChainAfter(t, ch, c, free), c2, next)))
  {
    hide Leaves, Insert, InsertRoot, Pieces, Out, InPlace, Owns, DistinctPages, PagesBelow, Cat, InsertCell,
      Separated, Balanced, IsChain, Wf, Aligned, Target, Sorted, TargetLeaf;
    IndexWf(t, ch, h, free);
    InPlaceIs(t, c, free);
    TargetLeafIs(t, c.key);
    OwnedLeaves(t, free);
    SameIndex(Leaves(t), Target(t, c.key), TargetLeaf(t, c.key));
    var ch1 := ChainAfter(t, ch, c, free);
    assert ch1 == InPlace(t, c, free);
    InPlaceDistinct(t, c, free);
    InsertWfRoot(t, c, free);
    RootLeaves(t, c, free);
    OutBag(t, c, free);
    var a, r, d;
    a, l, k, r, d := MisalignedPair(t, c, free);
    var (u, next) := InsertRoot(t, c, free);
    FlatNeedsLeaves(l);
    FlatNeedsLeaves(r);
    forall x | x in Leaves(l) ensures x in Leaves(u) {
      assert x in ch1;
      assert x in multiset(ch1);
      assert x in multiset(Leaves(u));
    }
    forall c2: Cell | c2.key > k && TargetLeaf(u, c2.key) in Leaves(l)
      ensures TargetLeaf(u, c2.key) in ch1 && !Sorted(Cat(ChainAfter(u, ch1, c2, next)))
    {
      assert TargetLeaf(u, c2.key) in ch1;
      LandsBefore(u, ch1, a, Leaves(l), Leaves(r), d, k, c2, next);
    }
  }

  lemma FlatNeedsLeaves(t: Tree)
    requires Flat(t) != []
    ensures Leaves(t) != []
  {
    hide Leaves;
  }

  /** A cell put into a leaf of l stands before the first key of r. */
  lemma LandsBefore(u: Tree, ch: seq<LeafRec>, a: seq<LeafRec>, ls: seq<LeafRec>, rs: seq<LeafRec>, d: seq<LeafRec>,
                    k: int, c: Cell, free: nat)
    requires Wf(u) && ch == a + ls + rs + d && DistinctPages(ch)
    requires TargetLeaf(u, c.key) in ls && TargetLeaf(u, c.key) in ch && c.key > k
    requires Cat(rs) != [] && Cat(rs)[0].key == k
    ensures !Sorted(Cat(ChainAfter(u, ch, c, free)))
  {
    hide Leaves, Pieces, Cat, TargetLeaf, InsertCell, LowerBound, Wf;
    var x := TargetLeaf(u, c.key);
    var j := IndexOf(ch, x);
    InLeftPart(ch, a, ls, rs, d, x, j);
    var rest := ch[j + 1..|a| + |ls|];
    TailParts(a, ls, rs, d, j);
    CatParts(ch[..j], Pieces(x, c, free), ch[j + 1..]);
    CatParts(rest, rs, d);
    PiecesCells(x, c, free);
    var y := Cat(rs)[0];
    assert y in Cat(rs) && y in Cat(ch[j + 1..]);
    NotSorted(Cat(ch[..j]), InsertCell(x.cells, c), Cat(ch[j + 1..]), c, y);
  }

  lemma TailParts<T>(a: seq<T>, ls: seq<T>, rs: seq<T>, d: seq<T>, j: nat)
    requires |a| <= j < |a| + |ls|
    ensures var s := a + ls + rs + d; s[j + 1..] == s[j + 1..|a| + |ls|] + rs + d
  {
  }

  lemma PiecesCells(x: LeafRec, c: Cell, free: nat)
    ensures Cat(Pieces(x, c, free)) == InsertCell(x.cells, c) && c in InsertCell(x.cells, c)
  {
    LeafPieces(Leaf(x.page, x.cells, x.next), c, free);
    InsertCellMembers(x.cells, c);
  }

  lemma InLeftPart(ch: seq<LeafRec>, a: seq<LeafRec>, ls: seq<LeafRec>, rs: seq<LeafRec>, d: seq<LeafRec>, x: LeafRec, j: nat)
    requires ch == a + ls + rs + d && DistinctPages(ch) && x in ls && j < |ch| && ch[j] == x
    ensures |a| <= j < |a| + |ls|
  {
    var i :| 0 <= i < |ls| && ls[i] == x;
    assert ch[|a| + i] == x;
    SamePlace(ch, j, |a| + i);
  }

  lemma NotSorted(p: seq<Cell>, m: seq<Cell>, q: seq<Cell>, c: Cell, y: Cell)
    requires c in m && y in q && y.key < c.key
    ensures !Sorted(p + m + q)
  {
    var i :| 0 <= i < |m| && m[i] == c;
    var j :| 0 <= j < |q| && q[j] == y;
    var s := p + m + q;
    assert s[|p| + i] == c && s[|p| + |m| + j] == y;
  }

  /** The two results from an empty tree. */
  lemma RunFromEmpty(root: nat, cs: seq<Cell>)
    requires root > 0
    ensures multiset(Scan(Run(Start(root), cs))) == multiset(cs)
    ensures FreshKeys([], cs) && CostsAtMost(cs, LEAF_CAPACITY) ==>
      StrictlySorted(Scan(Run(Start(root), cs)))
  {
    StartIsIndex(root);
    var _ := RunConserves(Start(root), cs, 0);
    if FreshKeys([], cs) && CostsAtMost(cs, LEAF_CAPACITY) {
      RunSorted(Start(root), cs, 0);
    }
  }

  // ------------------------------------------------------------------
  // Duplicate keys
  // ------------------------------------------------------------------

  /** A cell of the given key and cost. */
  function CellOf(key: i64, cost: nat): (c: Cell)
    requires cost >= 12
    ensures c.key == key && Cost(c) == cost
  {
    Cell(key, Zeros(cost - 12))
  }

  lemma TwoCost(a: Cell, b: Cell)
    ensures TotalCost([a, b]) == Cost(a) + Cost(b)
  {
    TotalCostAppend([a], [b]);
    DataBytesOne(a);
    DataBytesOne(b);
    assert [a] + [b] == [a, b];
  }

  lemma FourCost(a: Cell, b: Cell, c: Cell, d: Cell)
    ensures TotalCost([a, b, c, d]) == Cost(a) + Cost(b) + Cost(c) + Cost(d)
  {
    TotalCostAppend([a, b], [c, d]);
    TwoCost(a, b);
    TwoCost(c, d);
    assert [a, b] + [c, d] == [a, b, c, d];
  }

  /** Three fives and one more: the leaf splits two and two. */
  lemma FivesSplit()
    ensures var x := CellOf(5, 1300);
      InsertRoot(Leaf(1, [x, x, x], 0), x, 2) == (Node(3, [5], [Leaf(1, [x, x], 2), Leaf(2, [x, x], 0)]), 4)
  {
    var x := CellOf(5, 1300);
    Three(x, x, x);
    LowerBoundIs(KeysOf([x, x, x]), 5, 0);
    assert InsertCell([x, x, x], x) == [x, x, x, x];
    FourCost(x, x, x, x);
    var all := [x, x, x, x];
    assert CountFrom(all, 2600, 2600, 2) == 2;
    assert CountFrom(all, 2600, 1300, 1) == 2;
    assert SplitPoint(all) == 2;
    assert all[..2] == [x, x] && all[2..] == [x, x];
  }

  /** Two fives and two sixes in the right leaf: the cut falls between the
      fives, and the right half lands left of its left half. */
  lemma SixesMisplaced()
    ensures var x, e, f := CellOf(5, 1300), CellOf(6, 1300), CellOf(6, 300);
      InsertRoot(Node(3, [5], [Leaf(1, [x, x], 2), Leaf(2, [x, x, e], 0)]), f, 4)
      == (Node(3, [5, 5], [Leaf(1, [x, x], 2), Leaf(4, [x, f, e], 0), Leaf(2, [x], 4)]), 5)
  {
    var x, e, f := CellOf(5, 1300), CellOf(6, 1300), CellOf(6, 300);
    var l := Leaf(2, [x, x, e], 0);
    var t := Node(3, [5], [Leaf(1, [x, x], 2), l]);
    LowerBoundIs([5], 6, 1);
    LowerBoundIs([5], 5, 0);
    Three(x, x, e);
    LowerBoundIs(KeysOf([x, x, e]), 6, 2);
    var all := [x, x, f, e];
    assert InsertCell([x, x, e], f) == all;
    FourCost(x, x, f, e);
    assert CountFrom(all, 2100, 1300, 1) == 1;
    assert SplitPoint(all) == 1;
    assert all[..1] == [x] && all[1..] == [x, f, e];
    assert Insert(l, f, 4) == Grown(Two(Leaf(2, [x], 4), 5, Leaf(4, [x, f, e], 0)), 5);
    assert t.kids[1 := Leaf(2, [x], 4)] == [Leaf(1, [x, x], 2), Leaf(2, [x], 4)];
    assert InsertAt([5], 0, 5) == [5, 5];
    assert InsertAt([Leaf(1, [x, x], 2), Leaf(2, [x], 4)], 1, Leaf(4, [x, f, e], 0))
        == [Leaf(1, [x, x], 2), Leaf(4, [x, f, e], 0), Leaf(2, [x], 4)];
  }

  /** A step, given where the target leaf stands in the chain. */
  lemma StepIs(s: State, c: Cell, x: LeafRec, j: nat)
    requires Wf(s.t) && TargetLeaf(s.t, c.key) == x
    requires j < |s.ch| && s.ch[j] == x && forall i :: 0 <= i < j ==> s.ch[i] != x
    ensures Step(s, c).ch == s.ch[..j] + Pieces(x, c, s.free) + s.ch[j + 1..]
    ensures (Step(s, c).t, Step(s, c).free) == InsertRoot(s.t, c, s.free)
  {
    hide TargetLeaf, InsertRoot, Pieces, Wf;
  }

  /** A step of a one-leaf tree that has room. */
  lemma LeafStep(cells: seq<Cell>, c: Cell)
    requires HasRoom(cells, c)
    ensures Step(State(Leaf(1, cells, 0), [LeafRec(1, cells, 0)], 2), c)
      == State(Leaf(1, InsertCell(cells, c), 0), [LeafRec(1, InsertCell(cells, c), 0)], 2)
  {
    hide InsertCell;
    var t := Leaf(1, cells, 0);
    assert TargetLeaf(t, c.key) == LeafRec(1, cells, 0);
  }

  /** Seven legal insertions, all within the split bound, after which a scan is
      out of order: keys 5, 5, 5, 5, 6, 6, 7. */
  lemma DuplicatesBreakOrder()
    ensures var x, e, f, g := CellOf(5, 1300), CellOf(6, 1300), CellOf(6, 300), CellOf(7, 300);
      && CostsAtMost([x, x, x, x, e, f, g], 1362)
      && Scan(Run(Start(1), [x, x, x, x, e, f, g])) == [x, x, x, g, x, f, e]
      && !Sorted(Scan(Run(Start(1), [x, x, x, x, e, f, g])))
  {
    hide Run, Step, Cat, CellOf, Sorted, CostsAtMost, Start, Cost;
    var x, e, f, g := CellOf(5, 1300), CellOf(6, 1300), CellOf(6, 300), CellOf(7, 300);
    var s7 := SevenSteps();
    TwoCosts(x, e, f, g);
    Unsorted(x, e, f, g);
    ScanThree(s7.ch[0], s7.ch[1], s7.ch[2]);
    Joined(x, e, f, g);
  }

  lemma Joined(x: Cell, e: Cell, f: Cell, g: Cell)
    ensures [x, x] + [x, g] + [x, f, e] == [x, x, x, g, x, f, e]
  {
  }

  lemma Unsorted(x: Cell, e: Cell, f: Cell, g: Cell)
    requires x.key == 5 && g.key == 7
    ensures !Sorted([x, x, x, g, x, f, e])
  {
    var s := [x, x, x, g, x, f, e];
    assert s[3].key > s[4].key;
  }

  lemma TwoCosts(x: Cell, e: Cell, f: Cell, g: Cell)
    requires Cost(x) <= 1362 && Cost(e) <= 1362 && Cost(f) <= 1362 && Cost(g) <= 1362
    ensures CostsAtMost([x, x, x, x, e, f, g], 1362)
  {
  }

  lemma SevenSteps() returns (s: State)
    ensures var x, e, f, g := CellOf(5, 1300), CellOf(6, 1300), CellOf(6, 300), CellOf(7, 300);
      && s == Run(Start(1), [x, x, x, x, e, f, g])
      && s.ch == [LeafRec(1, [x, x], 2), LeafRec(2, [x, g], 4), LeafRec(4, [x, f, e], 0)]
  {
    hide *;
    var x, e, f, g := CellOf(5, 1300), CellOf(6, 1300), CellOf(6, 300), CellOf(7, 300);
    var s3 := State(Leaf(1, [x, x, x], 0), [LeafRec(1, [x, x, x], 0)], 2);
    var s4 := FourthStep();
    var s5 := FifthStep();
    var s6 := SixthStep();
    s := SeventhStep();
    assert [x, x, x] + [x, e, f, g] == [x, x, x, x, e, f, g];
    RunThree(x, [x, e, f, g]);
    LastFour(s3, s4, s5, s6, s, x, e, f, g);
  }

  lemma LastFour(s3: State, s4: State, s5: State, s6: State, s7: State, x: Cell, e: Cell, f: Cell, g: Cell)
    requires Step(s3, x) == s4 && Step(s4, e) == s5 && Step(s5, f) == s6 && Step(s6, g) == s7
    ensures Run(s3, [x, e, f, g]) == s7
  {
    RunNone(s7);
    hide Step, Run;
    RunStep(s6, [g]);
    RunStep(s5, [f, g]);
    RunStep(s4, [e, f, g]);
    RunStep(s3, [x, e, f, g]);
    assert [g][1..] == [] && [f, g][1..] == [g] && [e, f, g][1..] == [f, g] && [x, e, f, g][1..] == [e, f, g];
  }

  lemma RunNone(s: State)
    ensures Run(s, []) == s
  {
  }

  lemma RunStep(s: State, cs: seq<Cell>)
    requires cs != []
    ensures Run(s, cs) == Run(Step(s, cs[0]), cs[1..])
  {
  }

  lemma ScanThree(a: LeafRec, b: LeafRec, c: LeafRec)
    ensures Cat([a, b, c]) == a.cells + b.cells + c.cells
  {
    CatAppend([a, b], [c]);
    CatAppend([a], [b]);
    CatOne(a);
    CatOne(b);
    CatOne(c);
    assert [a, b] + [c] == [a, b, c] && [a] + [b] == [a, b];
  }

  lemma FirstThree(x: Cell)
    requires x == CellOf(5, 1300)
    ensures Step(Start(1), x) == State(Leaf(1, [x], 0), [LeafRec(1, [x], 0)], 2)
    ensures Step(State(Leaf(1, [x], 0), [LeafRec(1, [x], 0)], 2), x) == State(Leaf(1, [x, x], 0), [LeafRec(1, [x, x], 0)], 2)
    ensures Step(State(Leaf(1, [x, x], 0), [LeafRec(1, [x, x], 0)], 2), x)
      == State(Leaf(1, [x, x, x], 0), [LeafRec(1, [x, x, x], 0)], 2)
  {
    hide Step;
    DataBytesOne(x);
    TwoCost(x, x);
    LowerBoundIs(KeysOf([x]), 5, 0);
    LowerBoundIs(KeysOf([x, x]), 5, 0);
    assert InsertCell([], x) == [x] && InsertCell([x], x) == [x, x] && InsertCell([x, x], x) == [x, x, x];
    LeafStep([], x);
    LeafStep([x], x);
    LeafStep([x, x], x);
  }

  lemma RunThree(x: Cell, rest: seq<Cell>)
    requires x == CellOf(5, 1300)
    ensures Run(Start(1), [x, x, x] + rest) == Run(State(Leaf(1, [x, x, x], 0), [LeafRec(1, [x, x, x], 0)], 2), rest)
  {
    hide *;
    FirstThree(x);
    ThreeSteps(Start(1), State(Leaf(1, [x], 0), [LeafRec(1, [x], 0)], 2), State(Leaf(1, [x, x], 0), [LeafRec(1, [x, x], 0)], 2), x, rest);
  }

  lemma ThreeSteps(s0: State, s1: State, s2: State, x: Cell, rest: seq<Cell>)
    requires Step(s0, x) == s1 && Step(s1, x) == s2
    ensures Run(s0, [x, x, x] + rest) == Run(Step(s2, x), rest)
  {
    hide *;
    RunOne(s0, x, [x, x] + rest);
    RunOne(s1, x, [x] + rest);
    RunOne(s2, x, rest);
    assert [x] + ([x, x] + rest) == [x, x, x] + rest && [x] + ([x] + rest) == [x, x] + rest;
  }

  lemma RunOne(s: State, x: Cell, rest: seq<Cell>)
    ensures Run(s, [x] + rest) == Run(Step(s, x), rest)
  {
    hide Step;
    assert ([x] + rest)[1..] == rest;
  }

  lemma FourthStep() returns (s: State)
    ensures var x := CellOf(5, 1300);
      && s == State(Node(3, [5], [Leaf(1, [x, x], 2), Leaf(2, [x, x], 0)]), [LeafRec(1, [x, x], 2), LeafRec(2, [x, x], 0)], 4)
      && Step(State(Leaf(1, [x, x, x], 0), [LeafRec(1, [x, x, x], 0)], 2), x) == s
  {
    var x := CellOf(5, 1300);
    var t := Leaf(1, [x, x, x], 0);
    FivesSplit();
    assert TargetLeaf(t, 5) == LeafRec(1, [x, x, x], 0);
    s := Step(State(t, [LeafRec(1, [x, x, x], 0)], 2), x);
    var l, r := Leaf(1, [x, x], 2), Leaf(2, [x, x], 0);
    assert Insert(t, x, 2).res == Two(l, 5, r);
    assert Pieces(LeafRec(1, [x, x, x], 0), x, 2) == Leaves(l) + Leaves(r);
  }

  /** The second child of a two-leaf root. */
  lemma SecondLeaf(l: Tree, r: Tree, key: i64)
    requires l.Leaf? && r.Leaf? && key > 5
    ensures var t := Node(3, [5], [l, r]);
      && Wf(t) && ChildIdx(t, key) == 1
      && Leaves(t) == [LeafRec(l.page, l.cells, l.next), LeafRec(r.page, r.cells, r.next)]
      && TargetLeaf(t, key) == LeafRec(r.page, r.cells, r.next)
  {
    var t := Node(3, [5], [l, r]);
    LowerBoundIs([5], key, 1);
    assert [l, r][1..] == [r] && [r][1..] == [] && [l, r][..1] == [l] && [l][1..] == [];
    assert LeavesF([r]) == Leaves(r) + LeavesF([]);
    assert LeavesF([l]) == Leaves(l) + LeavesF([]);
    assert LeavesF([l, r]) == Leaves(l) + LeavesF([r]);
    assert t.kids[..1] == [l] && |LeavesF(t.kids[..1])| == 1;
    assert Target(t, key) == 1;
  }

  lemma FifthStep() returns (s: State)
    ensures var x, e := CellOf(5, 1300), CellOf(6, 1300);
      && s == State(Node(3, [5], [Leaf(1, [x, x], 2), Leaf(2, [x, x, e], 0)]),
                    [LeafRec(1, [x, x], 2), LeafRec(2, [x, x, e], 0)], 4)
      && Step(State(Node(3, [5], [Leaf(1, [x, x], 2), Leaf(2, [x, x], 0)]),
                    [LeafRec(1, [x, x], 2), LeafRec(2, [x, x], 0)], 4), e) == s
  {
    var x, e := CellOf(5, 1300), CellOf(6, 1300);
    var l, r := Leaf(1, [x, x], 2), Leaf(2, [x, x], 0);
    var t := Node(3, [5], [l, r]);
    SecondLeaf(l, r, 6);
    TwoCost(x, x);
    LowerBoundIs(KeysOf([x, x]), 6, 2);
    assert InsertCell([x, x], e) == [x, x, e];
    var r' := Leaf(2, [x, x, e], 0);
    assert InsertLeaf(r, e, 4) == Grown(One(r'), 4);
    assert Insert(r, e, 4) == Grown(One(r'), 4);
    assert [l, r][1 := r'] == [l, r'];
    assert Pieces(LeafRec(2, [x, x], 0), e, 4) == [LeafRec(2, [x, x, e], 0)];
    s := Step(State(t, [LeafRec(1, [x, x], 2), LeafRec(2, [x, x], 0)], 4), e);
  }

  lemma SixthStep() returns (s: State)
    ensures var x, e, f := CellOf(5, 1300), CellOf(6, 1300), CellOf(6, 300);
      && s == State(Node(3, [5, 5], [Leaf(1, [x, x], 2), Leaf(4, [x, f, e], 0), Leaf(2, [x], 4)]),
                    [LeafRec(1, [x, x], 2), LeafRec(2, [x], 4), LeafRec(4, [x, f, e], 0)], 5)
      && Step(State(Node(3, [5], [Leaf(1, [x, x], 2), Leaf(2, [x, x, e], 0)]),
                    [LeafRec(1, [x, x], 2), LeafRec(2, [x, x, e], 0)], 4), f) == s
  {
    hide *;
    var x, e, f := CellOf(5, 1300), CellOf(6, 1300), CellOf(6, 300);
    var l, r := Leaf(1, [x, x], 2), Leaf(2, [x, x, e], 0);
    var t := Node(3, [5], [l, r]);
    SecondLeaf(l, r, 6);
    SixesMisplaced();
    SixesHalves();
    var ch := [LeafRec(1, [x, x], 2), LeafRec(2, [x, x, e], 0)];
    StepIs(State(t, ch, 4), f, ch[1], 1);
    s := Step(State(t, ch, 4), f);
  }

  lemma SixesHalves()
    ensures var x, e, f := CellOf(5, 1300), CellOf(6, 1300), CellOf(6, 300);
      Pieces(LeafRec(2, [x, x, e], 0), f, 4) == [LeafRec(2, [x], 4), LeafRec(4, [x, f, e], 0)]
  {
    var x, e, f := CellOf(5, 1300), CellOf(6, 1300), CellOf(6, 300);
    Three(x, x, e);
    LowerBoundIs(KeysOf([x, x, e]), 6, 2);
    var all := [x, x, f, e];
    assert InsertCell([x, x, e], f) == all;
    FourCost(x, x, f, e);
    assert CountFrom(all, 2100, 1300, 1) == 1;
    assert SplitPoint(all) == 1;
    assert all[..1] == [x] && all[1..] == [x, f, e];
    assert InsertLeaf(Leaf(2, [x, x, e], 0), f, 4).res == Two(Leaf(2, [x], 4), 5, Leaf(4, [x, f, e], 0));
  }

  lemma SeventhStep() returns (s: State)
    ensures var x, e, f, g := CellOf(5, 1300), CellOf(6, 1300), CellOf(6, 300), CellOf(7, 300);
      && s.ch == [LeafRec(1, [x, x], 2), LeafRec(2, [x, g], 4), LeafRec(4, [x, f, e], 0)]
      && Step(State(Node(3, [5, 5], [Leaf(1, [x, x], 2), Leaf(4, [x, f, e], 0), Leaf(2, [x], 4)]),
                    [LeafRec(1, [x, x], 2), LeafRec(2, [x], 4), LeafRec(4, [x, f, e], 0)], 5), g) == s
  {
    hide *;
    var x, e, f, g := CellOf(5, 1300), CellOf(6, 1300), CellOf(6, 300), CellOf(7, 300);
    var a, b, r := Leaf(1, [x, x], 2), Leaf(4, [x, f, e], 0), Leaf(2, [x], 4);
    var t := Node(3, [5, 5], [a, b, r]);
    ThirdLeaf(a, b, r, 7);
    OneMore(x, g);
    var ch := [LeafRec(1, [x, x], 2), LeafRec(2, [x], 4), LeafRec(4, [x, f, e], 0)];
    StepIs(State(t, ch, 5), g, LeafRec(2, [x], 4), 1);
    s := Step(State(t, ch, 5), g);
  }

  /** The third child of a three-leaf root. */
  lemma ThirdLeaf(a: Tree, b: Tree, r: Tree, key: i64)
    requires a.Leaf? && b.Leaf? && r.Leaf? && key > 5
    ensures var t := Node(3, [5, 5], [a, b, r]); Wf(t) && TargetLeaf(t, key) == LeafRec(r.page, r.cells, r.next)
  {
    var t := Node(3, [5, 5], [a, b, r]);
    LowerBoundIs([5, 5], key, 2);
    LeavesAround([a, b, r], 2);
    assert t.kids[..2] == [a, b] && t.kids[3..] == [] && [a, b][1..] == [b] && [b][1..] == [];
    assert LeavesF([b]) == Leaves(b) + LeavesF([]);
    assert LeavesF([a, b]) == Leaves(a) + LeavesF([b]);
    assert |LeavesF(t.kids[..2])| == 2;
    assert Target(t, key) == 2;
    assert Leaves(t) == LeavesF([a, b]) + Leaves(r) + LeavesF([]);
  }

  lemma OneMore(x: Cell, g: Cell)
    requires x == CellOf(5, 1300) && g == CellOf(7, 300)
    ensures Pieces(LeafRec(2, [x], 4), g, 5) == [LeafRec(2, [x, g], 4)]
  {
    hide CellOf;
    DataBytesOne(x);
    LowerBoundIs(KeysOf([x]), 7, 1);
    assert InsertCell([x], g) == [x, g];
  }
}
