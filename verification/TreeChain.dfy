/** The two structures of the index together: the search tree, and the chain
    of leaves that a scan walks. */
module TreeChain {
  import opened Bytes
  import opened Cells
  import opened TreeModel
  import opened TreeLeaves
  import opened TreeOrder
  import opened TreeAlign
  import opened TreePages

  /** The page after element i of a chain; 0 after the last. */
  function PageAfter(ch: seq<LeafRec>, i: nat): nat {
    if i + 1 < |ch| then ch[i + 1].page else 0
  }

  /** Each leaf links to the next one; the last links to page 0. */
  ghost predicate Linked(ch: seq<LeafRec>) {
    forall i :: 0 <= i < |ch| ==> ch[i].next == PageAfter(ch, i)
  }

  /** ch is what the walk from the leftmost leaf meets: every leaf of the tree, once. */
  ghost predicate IsChain(t: Tree, ch: seq<LeafRec>) {
    && ch != [] && Leaves(t) != []
    && Linked(ch)
    && multiset(ch) == multiset(Leaves(t))
    && ch[0] == Leaves(t)[0]
  }

  function IndexOf<T(==)>(s: seq<T>, x: T): (i: nat)
    requires x in s
    ensures i < |s| && s[i] == x && forall j :: 0 <= j < i ==> s[j] != x
  {
    if s[0] == x then 0 else 1 + IndexOf(s[1..], x)
  }

  /** The leaf that receives a key. */
  function TargetLeaf(t: Tree, key: i64): LeafRec
    requires Wf(t)
  {
    InPlaceIs(t, Cell(key, []), 0);
    Leaves(t)[Target(t, key)]
  }

  lemma TargetLeafIs(t: Tree, key: i64)
    requires Wf(t)
    ensures Target(t, key) < |Leaves(t)| && TargetLeaf(t, key) == Leaves(t)[Target(t, key)]
  {
    hide Leaves, Target;
    InPlaceIs(t, Cell(key, []), 0);
  }

  lemma TargetInChain(t: Tree, ch: seq<LeafRec>, key: i64)
    requires Wf(t) && IsChain(t, ch)
    ensures TargetLeaf(t, key) in ch
  {
    InPlaceIs(t, Cell(key, []), 0);
    assert TargetLeaf(t, key) in multiset(Leaves(t));
  }

  /** The chain after an insertion: the target leaf or its two halves, in place. */
  function ChainAfter(t: Tree, ch: seq<LeafRec>, c: Cell, free: nat): seq<LeafRec>
    requires Wf(t) && TargetLeaf(t, c.key) in ch
  {
    var x := TargetLeaf(t, c.key);
    var j := IndexOf(ch, x);
    ch[..j] + Pieces(x, c, free) + ch[j + 1..]
  }

  lemma LinkedReplace(ch: seq<LeafRec>, j: nat, p: seq<LeafRec>, free: nat)
    requires Linked(ch) && j < |ch|
    requires 1 <= |p| <= 2 && p[0].page == ch[j].page
    requires |p| == 1 ==> p[0].next == ch[j].next
    requires |p| == 2 ==> p[0].next == p[1].page && p[1].next == ch[j].next
    ensures Linked(ch[..j] + p + ch[j + 1..])
  {
    var m, n := ch[..j] + p + ch[j + 1..], |p|;
    forall i | 0 <= i < |m| ensures m[i].next == PageAfter(m, i) {
      if i < j {
        assert ch[i].next == PageAfter(ch, i);
      } else if i < j + n {
        assert ch[j].next == PageAfter(ch, j);
      } else {
        assert m[i] == ch[i - n + 1];
        assert ch[i - n + 1].next == PageAfter(ch, i - n + 1);
      }
    }
  }

  lemma BagReplace<T>(a: seq<T>, i: nat, b: seq<T>, j: nat, p: seq<T>)
    requires i < |a| && j < |b| && a[i] == b[j] && multiset(a) == multiset(b)
    ensures multiset(a[..i] + p + a[i + 1..]) == multiset(b[..j] + p + b[j + 1..])
  {
    assert a == a[..i] + [a[i]] + a[i + 1..];
    assert b == b[..j] + [b[j]] + b[j + 1..];
    assert multiset(a[..i]) + multiset(a[i + 1..]) == multiset(a) - multiset{a[i]};
    assert multiset(b[..j]) + multiset(b[j + 1..]) == multiset(b) - multiset{b[j]};
    assert multiset(a[..i] + p + a[i + 1..]) == (multiset(a[..i]) + multiset(a[i + 1..])) + multiset(p);
    assert multiset(b[..j] + p + b[j + 1..]) == (multiset(b[..j]) + multiset(b[j + 1..])) + multiset(p);
  }

  lemma RootLeaves(t: Tree, c: Cell, free: nat)
    requires Wf(t)
    ensures Leaves(InsertRoot(t, c, free).0) == Out(Insert(t, c, free).res)
  {
    var g := Insert(t, c, free);
    if g.res.Two? {
      hide Insert, Leaves, LeavesF;
      LeavesOfNode(Node(g.free, [g.res.k], [g.res.l, g.res.r]));
      LeavesFTwo([], g.res.l, g.res.r, []);
      assert [] + [g.res.l, g.res.r] + [] == [g.res.l, g.res.r];
      NoLeaves();
      assert [] + (Leaves(g.res.l) + Leaves(g.res.r)) + [] == Leaves(g.res.l) + Leaves(g.res.r);
    }
  }

  lemma NoLeaves()
    ensures LeavesF([]) == []
  {
  }

  /** Leaves in place and chain hold the same leaves after the insertion. */
  lemma ChainBag(t: Tree, ch: seq<LeafRec>, c: Cell, free: nat)
    requires Wf(t) && multiset(ch) == multiset(Leaves(t)) && TargetLeaf(t, c.key) in ch
    ensures multiset(ChainAfter(t, ch, c, free)) == multiset(InPlace(t, c, free))
  {
    hide Leaves, Pieces, Target, IndexOf, InPlace, Wf;
    var x := TargetLeaf(t, c.key);
    InPlaceIs(t, c, free);
    BagReplace(Leaves(t), Target(t, c.key), ch, IndexOf(ch, x), Pieces(x, c, free));
  }

  /** For any keys, duplicates included: after the insertion the chain still
      holds exactly the leaves of the tree, from the same head. */
  lemma ChainKept(t: Tree, ch: seq<LeafRec>, c: Cell, free: nat)
    requires Wf(t) && Owns(t, free) && IsChain(t, ch)
    requires TargetLeaf(t, c.key) in ch
    ensures IsChain(InsertRoot(t, c, free).0, ChainAfter(t, ch, c, free))
  {
    hide Leaves, Insert, InsertRoot, Pieces, Out, InPlace, Owns, DistinctPages, Linked, Target, PagesBelow, IndexOf;
    var x, ls := TargetLeaf(t, c.key), Leaves(t);
    var i, j := Target(t, c.key), IndexOf(ch, x);
    ChainBag(t, ch, c, free);
    OutBag(t, c, free);
    InPlaceIs(t, c, free);
    PiecesPages(x, c, free);
    LinkedReplace(ch, j, Pieces(x, c, free), free);
    OutHead(t, c, free);
    RootLeaves(t, c, free);
    OwnedLeaves(t, free);
    HeadKept(ls, i, ch, j, x, Pieces(x, c, free));
  }

  lemma HeadKept(ls: seq<LeafRec>, i: nat, ch: seq<LeafRec>, j: nat, x: LeafRec, p: seq<LeafRec>)
    requires i < |ls| && j < |ch| && ls[i] == x && ch[j] == x && ls[0] == ch[0] && p != []
    requires DistinctPages(ls) && forall k :: 0 <= k < j ==> ch[k] != x
    ensures (ls[..i] + p + ls[i + 1..])[0] == (ch[..j] + p + ch[j + 1..])[0]
  {
    HeadPosition(ls, i, ch, j, x);
  }

  lemma HeadPosition(ls: seq<LeafRec>, i: nat, ch: seq<LeafRec>, j: nat, x: LeafRec)
    requires i < |ls| && j < |ch| && ls[i] == x && ch[j] == x && ls[0] == ch[0]
    requires DistinctPages(ls) && forall k :: 0 <= k < j ==> ch[k] != x
    ensures i == 0 <==> j == 0
  {
  }

  /** Exactly one row is added to what a scan returns; the other rows keep
      their order and their contents. */
  lemma ChainGainsOne(t: Tree, ch: seq<LeafRec>, c: Cell, free: nat) returns (p: nat)
    requires Wf(t) && TargetLeaf(t, c.key) in ch
    ensures p <= |Cat(ch)| && Cat(ChainAfter(t, ch, c, free)) == InsertAt(Cat(ch), p, c)
  {
    hide Cat, LowerBound, Leaves, InsertAt;
    var x := TargetLeaf(t, c.key);
    var j := IndexOf(ch, x);
    var a, d := Cat(ch[..j]), Cat(ch[j + 1..]);
    LeafPieces(Leaf(x.page, x.cells, x.next), c, free);
    CatAround(ch, j);
    CatAppend(ch[..j] + Pieces(x, c, free), ch[j + 1..]);
    CatAppend(ch[..j], Pieces(x, c, free));
    var q := LowerBound(KeysOf(x.cells), c.key);
    p := |a| + q;
    InsertAtMiddle(a, x.cells, d, q, c);
  }

  lemma CatThree(a: seq<LeafRec>, x: LeafRec, d: seq<LeafRec>)
    ensures Cat(a + [x] + d) == Cat(a) + x.cells + Cat(d)
  {
    hide *;
    CatAppend(a + [x], d);
    CatAppend(a, [x]);
    CatOne(x);
  }

  lemma CatAround(ch: seq<LeafRec>, j: nat)
    requires j < |ch|
    ensures Cat(ch) == Cat(ch[..j]) + ch[j].cells + Cat(ch[j + 1..])
  {
    hide *;
    Around(ch, j);
    CatThree(ch[..j], ch[j], ch[j + 1..]);
  }

  /** Shape: what every insertion keeps, whatever the keys. */
  ghost predicate Index(t: Tree, ch: seq<LeafRec>, h: nat, free: nat) {
    && Wf(t) && 0 < free && Owns(t, free)
    && Balanced(t, h, true)
    && IsChain(t, ch)
  }

  /** Order: the tree and the chain agree, and the cells are sorted. */
  ghost predicate InOrder(t: Tree, ch: seq<LeafRec>) {
    ch == Leaves(t) && Separated(t) && Sorted(Flat(t))
  }

  /** One insertion keeps the shape. */
  lemma IndexStep(t: Tree, ch: seq<LeafRec>, h: nat, c: Cell, free: nat) returns (h': nat)
    requires Index(t, ch, h, free)
    ensures TargetLeaf(t, c.key) in ch
    ensures var (u, next) := InsertRoot(t, c, free); Index(u, ChainAfter(t, ch, c, free), h', next) && next >= free
    ensures h <= h' <= h + 1
  {
    hide Leaves, Balanced, Owns, IsChain, ChainAfter, Insert;
    TargetInChain(t, ch, c.key);
    InsertOwns(t, c, free);
    InsertWfRoot(t, c, free);
    RootBalanced(t, c, free, h);
    ChainKept(t, ch, c, free);
    h' := if Balanced(InsertRoot(t, c, free).0, h, true) then h else h + 1;
  }

  lemma InsertWfRoot(t: Tree, c: Cell, free: nat)
    requires Wf(t)
    ensures Wf(InsertRoot(t, c, free).0)
  {
    InsertWf(t, c, free);
  }

  /** In an ordered index the scan gains the row at its sorted position, for
      any key; the index stays ordered exactly if the slots agree. */
  lemma OrderStep(t: Tree, ch: seq<LeafRec>, h: nat, c: Cell, free: nat)
    requires Index(t, ch, h, free) && InOrder(t, ch) && Cost(c) <= LEAF_CAPACITY
    requires TargetLeaf(t, c.key) in ch
    ensures Cat(ChainAfter(t, ch, c, free)) == InsertCell(Cat(ch), c)
    ensures InOrder(InsertRoot(t, c, free).0, ChainAfter(t, ch, c, free)) <==> Aligned(t, c, free)
  {
    hide Leaves, Insert, InsertRoot, Pieces, Out, InPlace, Owns, DistinctPages, PagesBelow, Cat, InsertCell,
      Separated, Balanced, IsChain, Wf, Aligned;
    var x := TargetLeaf(t, c.key);
    InPlaceIs(t, c, free);
    OwnedLeaves(t, free);
    SameIndex(Leaves(t), Target(t, c.key), x);
    assert ChainAfter(t, ch, c, free) == InPlace(t, c, free);
    InPlaceSorted(t, c, free);
    OrderKeptIff(t, c, free);
    RootLeaves(t, c, free);
    if Aligned(t, c, free) {
      AlignedSound(t, c, free);
      InsertSorted(Flat(t), c);
      RootSeparated(t, c, free);
    }
  }

  lemma SameIndex(ls: seq<LeafRec>, i: nat, x: LeafRec)
    requires i < |ls| && ls[i] == x && DistinctPages(ls)
    ensures IndexOf(ls, x) == i
  {
  }

  lemma RootSeparated(t: Tree, c: Cell, free: nat)
    requires Wf(t) && SoundResult(Insert(t, c, free).res, InsertCell(Flat(t), c))
    ensures Separated(InsertRoot(t, c, free).0) && Flat(InsertRoot(t, c, free).0) == InsertCell(Flat(t), c)
  {
    hide Insert, Flat, FlatF, InsertCell;
    var g := Insert(t, c, free);
    if g.res.Two? {
      var l, r := g.res.l, g.res.r;
      SeparatedNode(g.free, [g.res.k], [l, r]);
      FlatAround([l, r], 0);
      assert [l, r][..0] == [] && [l, r][1..] == [r];
      EmptyFlat();
      FlatAround([r], 0);
      assert [r][..0] == [] && [r][1..] == [];
    }
  }

  /** Distinct keys are enough for the slots to agree. */
  lemma DistinctStep(t: Tree, ch: seq<LeafRec>, h: nat, c: Cell, free: nat)
    requires Index(t, ch, h, free) && InOrder(t, ch) && Cost(c) <= LEAF_CAPACITY
    requires StrictlySorted(Cat(ch)) && Absent(Cat(ch), c.key)
    requires TargetLeaf(t, c.key) in ch
    ensures InOrder(InsertRoot(t, c, free).0, ChainAfter(t, ch, c, free))
    ensures Cat(ChainAfter(t, ch, c, free)) == InsertCell(Cat(ch), c)
    ensures StrictlySorted(InsertCell(Cat(ch), c))
  {
    hide Leaves, InsertRoot, ChainAfter, Owns, Cat, InsertCell, Separated, Balanced, IsChain, Wf, Aligned;
    DistinctAligned(t, c, free);
    OrderStep(t, ch, h, c, free);
    InsertStrict(Cat(ch), c);
  }
}
