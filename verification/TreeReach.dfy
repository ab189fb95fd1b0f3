/** What tree and chain keep even when an insertion runs out of pages half way:
    the splits below the failure are done, the ones above are not. */
module TreeReach {
  import opened Bytes
  import opened Cells
  import opened TreeModel
  import opened TreeLeaves
  import opened TreeOrder
  import opened TreePages
  import opened TreeChain

  /** The chain is a linked list of distinct leaves from the leftmost one, and
      every leaf the search tree reaches is on it. */
  ghost predicate Reaches(t: Tree, ch: seq<LeafRec>, free: nat) {
    && ch != [] && Leaves(t) != []
    && Linked(ch) && ch[0] == Leaves(t)[0]
    && DistinctPages(ch) && PagesBelow(ch, free) && NonZero(ch)
    && forall x :: x in Leaves(t) ==> x in ch
  }

  ghost predicate NonZero(ch: seq<LeafRec>) {
    forall x :: x in ch ==> 0 < x.page
  }

  /** Shape: what every insertion keeps, whether it succeeds or not. */
  ghost predicate Loose(t: Tree, ch: seq<LeafRec>, h: nat, free: nat) {
    && Wf(t) && 0 < free && Owns(t, free)
    && Balanced(t, h, true)
    && Reaches(t, ch, free)
  }

  /** The stronger shape of an index whose chain is its leaves in tree order. */
  lemma LooseInOrder(t: Tree, ch: seq<LeafRec>, h: nat, free: nat)
    requires Loose(t, ch, h, free) && ch == Leaves(t)
    ensures Index(t, ch, h, free)
  {
    hide Leaves, Linked, Owns, Balanced, Wf;
  }

  lemma IndexIsLoose(t: Tree, ch: seq<LeafRec>, h: nat, free: nat)
    requires Index(t, ch, h, free)
    ensures Loose(t, ch, h, free)
  {
    hide Leaves, Linked, Owns, Balanced, Wf;
    OwnedLeaves(t, free);
    SameBagPages(ch, Leaves(t), free);
  }

  lemma SameBagPages(a: seq<LeafRec>, b: seq<LeafRec>, free: nat)
    requires multiset(a) == multiset(b) && DistinctPages(b) && PagesBelow(b, free)
    requires forall x :: x in b ==> 0 < x.page
    ensures DistinctPages(a) && PagesBelow(a, free) && NonZero(a)
    ensures forall x :: x in b ==> x in a
  {
    forall x | x in a ensures x in b {
      assert x in multiset(a);
    }
    forall x | x in b ensures x in a {
      assert x in multiset(b);
    }
    forall i, j | 0 <= i < j < |a| ensures a[i].page != a[j].page {
      if a[i] == a[j] {
        TwiceIn(a, i, j);
        OnceIn(b, a[i]);
      } else {
        assert a[i] in b && a[j] in b;
      }
    }
  }

  lemma TwiceIn<T>(a: seq<T>, i: nat, j: nat)
    requires i < j < |a| && a[i] == a[j]
    ensures multiset(a)[a[i]] >= 2
  {
    assert a == a[..j] + a[j..];
    assert a[i] in a[..j] && a[j] in a[j..];
  }

  lemma {:induction false} OnceIn(b: seq<LeafRec>, x: LeafRec)
    requires DistinctPages(b)
    ensures multiset(b)[x] <= 1
    decreases |b|
  {
    if b != [] {
      var rest := b[1..];
      assert b == [b[0]] + rest;
      OnceIn(rest, x);
      if b[0] == x && x in rest {
        var i :| 0 <= i < |rest| && rest[i] == x;
        SamePlace(b, 0, i + 1);
      }
    }
  }

  // ------------------------------------------------------------------
  // The chain after an insertion
  // ------------------------------------------------------------------

  lemma ReachTarget(t: Tree, ch: seq<LeafRec>, free: nat, key: i64)
    requires Wf(t) && Reaches(t, ch, free)
    ensures TargetLeaf(t, key) in ch
  {
    hide Leaves, Linked, DistinctPages, PagesBelow;
    InPlaceIs(t, Cell(key, []), 0);
  }

  /** The chain with the target replaced by its pieces: linked, distinct, and
      holding every leaf of the in-place order. */
  lemma ChainPlaced(t: Tree, ch: seq<LeafRec>, c: Cell, free: nat, lim: nat)
    requires Wf(t) && Owns(t, free) && Reaches(t, ch, free) && 0 < free <= lim
    requires |Pieces(TargetLeaf(t, c.key), c, free)| == 2 ==> free < lim
    ensures TargetLeaf(t, c.key) in ch
    ensures var ch', m := ChainAfter(t, ch, c, free), InPlace(t, c, free);
      && Linked(ch') && DistinctPages(ch') && PagesBelow(ch', lim) && NonZero(ch')
      && ch' != [] && m != [] && ch'[0] == m[0]
      && forall x :: x in m ==> x in ch'
  {
    hide Leaves, Pieces, InPlace, Owns, DistinctPages, Linked, Target, PagesBelow, Wf;
    ReachTarget(t, ch, free, c.key);
    var x := TargetLeaf(t, c.key);
    var ls, p := Leaves(t), Pieces(x, c, free);
    var i, j := Target(t, c.key), IndexOf(ch, x);
    InPlaceIs(t, c, free);
    PiecesPages(x, c, free);
    LinkedReplace(ch, j, p, free);
    ReplaceDistinct(ch, j, p, free);
    ReplaceBounds(ch, j, p, free, lim);
    OwnedLeaves(t, free);
    HeadKept(ls, i, ch, j, x, p);
    ReplaceKeeps(ls, i, ch, j, p);
  }

  lemma ReplaceBounds(ch: seq<LeafRec>, j: nat, p: seq<LeafRec>, free: nat, lim: nat)
    requires j < |ch| && PagesBelow(ch, free) && NonZero(ch) && 0 < free <= lim
    requires 1 <= |p| <= 2 && p[0].page == ch[j].page && (|p| == 2 ==> p[1].page == free < lim)
    ensures PagesBelow(ch[..j] + p + ch[j + 1..], lim) && NonZero(ch[..j] + p + ch[j + 1..])
  {
    assert ch[j] in ch;
    var m := ch[..j] + p + ch[j + 1..];
    forall x | x in m ensures 0 < x.page < lim {
      assert x in ch || x in p;
    }
  }

  lemma ReplaceKeeps(ls: seq<LeafRec>, i: nat, ch: seq<LeafRec>, j: nat, p: seq<LeafRec>)
    requires i < |ls| && j < |ch| && ls[i] == ch[j] && DistinctPages(ls)
    requires forall x :: x in ls ==> x in ch
    ensures var a, b := ls[..i] + p + ls[i + 1..], ch[..j] + p + ch[j + 1..]; forall x :: x in a ==> x in b
  {
    var a, b := ls[..i] + p + ls[i + 1..], ch[..j] + p + ch[j + 1..];
    forall x | x in a ensures x in b {
      if x !in p {
        assert x in ls[..i] || x in ls[i + 1..];
        var k :| 0 <= k < |ls| && k != i && ls[k] == x;
        assert ls[k].page != ls[i].page;
        assert x in ch && x != ch[j];
        assert ch == ch[..j] + [ch[j]] + ch[j + 1..];
      }
    }
  }

  /** Two pieces take a new page. */
  lemma SplitTakesPage(t: Tree, c: Cell, free: nat)
    requires Wf(t)
    ensures |Pieces(TargetLeaf(t, c.key), c, free)| == 2 ==> Insert(t, c, free).free > free
    ensures |Pieces(TargetLeaf(t, c.key), c, free)| == 1 ==> Insert(t, c, free).free == free
  {
    TargetSplits(t, c, free);
  }

  lemma {:induction false} TargetSplits(t: Tree, c: Cell, free: nat)
    requires Wf(t)
    ensures var n := |Pieces(TargetLeaf(t, c.key), c, free)|;
      && (n == 2 ==> Insert(t, c, free).free > free)
      && (n == 1 ==> Insert(t, c, free).free == free && Insert(t, c, free).res.One?)
  {
    if t.Leaf? {
      assert TargetLeaf(t, c.key) == LeafRec(t.page, t.cells, t.next);
      hide InsertCell;
    } else {
      hide LowerBound, Leaves, LeavesF, Pieces, InsertNode;
      var i := ChildIdx(t, c.key);
      TargetSplits(t.kids[i], c, free);
      TargetOfKid(t, c.key);
      InsertWf(t.kids[i], c, free);
      InsertUnfolds(t, c, free);
      var g := Insert(t.kids[i], c, free);
      if g.res.Two? {
        InsertNodeFree(t, i, g.res.l, g.res.k, g.res.r, g.free);
      }
    }
  }

  lemma InsertNodeFree(t: Tree, i: nat, l: Tree, k: i64, r: Tree, free: nat)
    requires t.Node? && |t.kids| == |t.keys| + 1 && i < |t.kids|
    ensures InsertNode(t, i, l, k, r, free).free >= free
  {
    hide LowerBound, InsertAt;
  }

  lemma TargetOfKid(t: Tree, key: i64)
    requires Wf(t) && t.Node?
    ensures TargetLeaf(t, key) == TargetLeaf(t.kids[ChildIdx(t, key)], key)
  {
    hide *;
    NodeWf(t);
    var i := ChildIdx(t, key);
    InPlaceIs(t.kids[i], Cell(key, []), 0);
    InPlaceIs(t, Cell(key, []), 0);
    InPlaceUnfolds(t, Cell(key, []), 0);
    LeavesAround(t.kids, i);
    InMiddle(LeavesF(t.kids[..i]), Leaves(t.kids[i]), LeavesF(t.kids[i + 1..]), Target(t.kids[i], key), []);
    TargetLeafIs(t, key);
    TargetLeafIs(t.kids[i], key);
  }

  // ------------------------------------------------------------------
  // A successful insertion
  // ------------------------------------------------------------------

  /** A successful insertion keeps the shape. */
  lemma LooseStep(t: Tree, ch: seq<LeafRec>, h: nat, c: Cell, free: nat) returns (h': nat)
    requires Loose(t, ch, h, free)
    ensures TargetLeaf(t, c.key) in ch
    ensures var (u, next) := InsertRoot(t, c, free); Loose(u, ChainAfter(t, ch, c, free), h', next) && next >= free
    ensures h <= h' <= h + 1
  {
    hide Leaves, Balanced, Owns, ChainAfter, Insert, InsertRoot, Pieces, Linked, DistinctPages, PagesBelow,
      TargetLeaf, InPlace, Out, NonZero, Wf;
    var (u, next) := InsertRoot(t, c, free);
    InsertOwns(t, c, free);
    InsertWfRoot(t, c, free);
    RootBalanced(t, c, free, h);
    h' := if Balanced(u, h, true) then h else h + 1;
    SplitTakesPage(t, c, free);
    RootFreeAfter(t, c, free);
    OnePiece(t, c, free);
    ChainPlaced(t, ch, c, free, next);
    RootLeaves(t, c, free);
    OutBag(t, c, free);
    OutHead(t, c, free);
    SameMembers(Out(Insert(t, c, free).res), InPlace(t, c, free));
  }

  lemma OnePiece(t: Tree, c: Cell, free: nat)
    requires Wf(t)
    ensures 1 <= |Pieces(TargetLeaf(t, c.key), c, free)| <= 2
  {
    hide TargetLeaf;
    PiecesPages(TargetLeaf(t, c.key), c, free);
  }

  lemma RootFreeAfter(t: Tree, c: Cell, free: nat)
    requires Wf(t)
    ensures InsertRoot(t, c, free).1 >= Insert(t, c, free).free >= free
  {
    hide Insert;
    InsertWf(t, c, free);
  }

  lemma SameMembers<T>(a: seq<T>, b: seq<T>)
    requires multiset(a) == multiset(b)
    ensures forall x :: x in a ==> x in b
  {
    forall x | x in a ensures x in b {
      assert x in multiset(a);
    }
  }

  // ------------------------------------------------------------------
  // An insertion that runs out of pages
  // ------------------------------------------------------------------

  /** The subtree that the pages hold when page lim was asked for and is not
      there: the first node that could not split has kept its left half only. */
  ghost function Stunted(t: Tree, c: Cell, free: nat, lim: nat): Tree
    requires Wf(t)
  {
    if t.Leaf? then t
    else
      var i := ChildIdx(t, c.key);
      if Insert(t.kids[i], c, free).free > lim
      then Node(t.page, t.keys, t.kids[i := Stunted(t.kids[i], c, free, lim)])
      else LeftOf(Insert(t, c, free).res)
  }

  function LeftOf(r: Outcome): Tree {
    match r
    case One(t) => t
    case Two(l, _, _) => l
  }

  /** The whole tree: if only the new root is missing, its left half. */
  ghost function StuntedRoot(t: Tree, c: Cell, free: nat, lim: nat): Tree
    requires Wf(t)
  {
    if Insert(t, c, free).free > lim then Stunted(t, c, free, lim) else LeftOf(Insert(t, c, free).res)
  }

  lemma StuntedUnfolds(t: Tree, c: Cell, free: nat, lim: nat)
    requires Wf(t)
    ensures t.Leaf? ==> Stunted(t, c, free, lim) == t
    ensures t.Node? ==>
      var i := ChildIdx(t, c.key);
      Stunted(t, c, free, lim)
      == if Insert(t.kids[i], c, free).free > lim
         then Node(t.page, t.keys, t.kids[i := Stunted(t.kids[i], c, free, lim)])
         else LeftOf(Insert(t, c, free).res)
  {
    hide Insert, LowerBound, LeftOf;
  }

  lemma StuntedPage(t: Tree, c: Cell, free: nat, lim: nat)
    requires Wf(t)
    ensures Stunted(t, c, free, lim).page == t.page
  {
    hide Insert, LowerBound;
    InsertPage(t, c, free);
  }

  /** If there was no page left at all, nothing has changed. */
  lemma {:induction false} StuntedSame(t: Tree, c: Cell, free: nat)
    requires Wf(t) && Insert(t, c, free).free > free
    ensures Stunted(t, c, free, free) == t
  {
    hide LowerBound, Insert, Stunted, LeftOf;
    StuntedUnfolds(t, c, free, free);
    if t.Node? {
      NodeWf(t);
      var i := ChildIdx(t, c.key);
      InsertWf(t.kids[i], c, free);
      SplitsBelow(t, c, free);
      StuntedSame(t.kids[i], c, free);
      assert t.kids[i := t.kids[i]] == t.kids;
    }
  }

  /** A node only takes a page if the child below it did. */
  lemma SplitsBelow(t: Tree, c: Cell, free: nat)
    requires Wf(t) && t.Node? && Insert(t, c, free).free > free
    ensures Insert(t.kids[ChildIdx(t, c.key)], c, free).free > free
  {
    hide Insert, LowerBound, Pieces, TargetLeaf;
    NodeWf(t);
    OnePiece(t, c, free);
    TargetOfKid(t, c.key);
    TargetSplits(t, c, free);
    TargetSplits(t.kids[ChildIdx(t, c.key)], c, free);
  }

  /** What the left half of a split keeps. */
  lemma LeftHalfKeeps(t: Tree, c: Cell, free: nat, h: nat, root: bool)
    requires Wf(t) && Balanced(t, h, root) && Insert(t, c, free).res.Two?
    ensures var l := LeftOf(Insert(t, c, free).res);
      && Wf(l) && l.page == t.page && Balanced(l, h, root)
      && Leaves(l) != [] && InPlace(t, c, free) != [] && Leaves(l)[0] == InPlace(t, c, free)[0]
      && forall x :: x in Leaves(l) ==> x in InPlace(t, c, free)
  {
    hide Insert, Balanced, Leaves, InPlace, Wf;
    var r := Insert(t, c, free).res;
    InsertWf(t, c, free);
    InsertPage(t, c, free);
    InsertBalanced(t, c, free, h, root);
    AnyRoot(r.l, h, root);
    LeavesNonEmpty(r.l);
    OutHead(t, c, free);
    OutBag(t, c, free);
    SameMembers(Out(r), InPlace(t, c, free));
    assert Out(r)[0] == Leaves(r.l)[0];
  }

  lemma AnyRoot(t: Tree, h: nat, root: bool)
    requires Balanced(t, h, false)
    ensures Balanced(t, h, root)
  {
  }

  lemma KidReplacedBalanced(t: Tree, i: nat, u: Tree, h: nat, root: bool)
    requires t.Node? && Balanced(t, h, root) && i < |t.kids| && Balanced(u, h - 1, false)
    ensures Balanced(Node(t.page, t.keys, t.kids[i := u]), h, root)
  {
    var kids := t.kids[i := u];
    forall x | x in kids ensures Balanced(x, h - 1, false) {
      assert x == u || x in t.kids;
    }
  }

  /** The stunted tree is a tree of the same height and bounds, from the same
      page, whose leaves are among those in place and start the same. */
  lemma {:induction false} StuntedKeeps(t: Tree, c: Cell, free: nat, lim: nat, h: nat, root: bool)
    requires Wf(t) && Balanced(t, h, root) && free < lim < Insert(t, c, free).free
    ensures var s := Stunted(t, c, free, lim);
      && Wf(s) && s.page == t.page && Balanced(s, h, root)
      && Leaves(s) != [] && InPlace(t, c, free) != [] && Leaves(s)[0] == InPlace(t, c, free)[0]
      && forall x :: x in Leaves(s) ==> x in InPlace(t, c, free)
  {
    hide LowerBound, Insert, Stunted, Balanced, Leaves, LeavesF, InPlace, Wf, LeftOf, Target;
    LeafTakesOne(t, c, free);
    StuntedUnfolds(t, c, free, lim);
    NodeWf(t);
    InPlaceUnfolds(t, c, free);
    KidsBalanced(t, h, root);
    var i := ChildIdx(t, c.key);
    var kid := t.kids[i];
    if Insert(kid, c, free).free > lim {
      StuntedKeeps(kid, c, free, lim, h - 1, false);
      var s := Stunted(kid, c, free, lim);
      KeptWf(t, i, s);
      KidReplacedBalanced(t, i, s, h, root);
      LeavesOfNode(Node(t.page, t.keys, t.kids[i := s]));
      ReplacedLeaves(t.kids, i, s);
      NoneBefore(t.kids, i);
      if i > 0 {
        LeavesNonEmpty(t.kids[0]);
        FirstLeaf(t.kids, i);
      }
      MiddleMembers(LeavesF(t.kids[..i]), Leaves(s), InPlace(kid, c, free), LeavesF(t.kids[i + 1..]));
    } else {
      TakesPage(t, c, free);
      LeftHalfKeeps(t, c, free, h, root);
    }
  }

  lemma LeafTakesOne(t: Tree, c: Cell, free: nat)
    requires Wf(t)
    ensures t.Leaf? ==> Insert(t, c, free).free <= free + 1
  {
    hide InsertCell;
  }

  /** A node that takes a page splits. */
  lemma TakesPage(t: Tree, c: Cell, free: nat)
    requires Wf(t) && t.Node?
    ensures var g := Insert(t.kids[ChildIdx(t, c.key)], c, free);
      && (Insert(t, c, free).free > g.free ==> Insert(t, c, free).res.Two? && g.res.Two?)
      && g.free <= Insert(t, c, free).free <= g.free + 1
  {
    hide LowerBound, InsertAt;
  }

  lemma MiddleMembers<T>(a: seq<T>, x: seq<T>, y: seq<T>, d: seq<T>)
    requires x != [] && y != [] && x[0] == y[0] && forall e :: e in x ==> e in y
    ensures (a + x + d)[0] == (a + y + d)[0]
    ensures forall e :: e in a + x + d ==> e in a + y + d
  {
    forall e | e in a + x + d ensures e in a + y + d {
      assert e in a || e in x || e in d;
    }
  }

  /** No page is used twice, and only pages below lim. */
  lemma {:induction false} StuntedUses(t: Tree, c: Cell, free: nat, lim: nat, p: nat)
    requires Wf(t) && free < lim < Insert(t, c, free).free
    ensures Uses(Stunted(t, c, free, lim), p) <= Uses(t, p) + if free <= p < lim then 1 else 0
  {
    hide LowerBound, Insert, Stunted, Uses, UsesF, Wf, LeftOf;
    LeafTakesOne(t, c, free);
    StuntedUnfolds(t, c, free, lim);
    NodeWf(t);
    var i := ChildIdx(t, c.key);
    var kid := t.kids[i];
    if Insert(kid, c, free).free > lim {
      StuntedUses(kid, c, free, lim, p);
      UsesOfNode(t.page, t.keys, t.kids, p);
      UsesOfNode(t.page, t.keys, t.kids[i := Stunted(kid, c, free, lim)], p);
      ReplacedUses(t.kids, i, Stunted(kid, c, free, lim), p);
      assert t == Node(t.page, t.keys, t.kids);
    } else {
      TakesPage(t, c, free);
      LeftUses(t, c, free, lim, p);
    }
  }

  lemma UsesOfNode(page: nat, keys: seq<i64>, kids: seq<Tree>, p: nat)
    ensures Uses(Node(page, keys, kids), p) == (if page == p then 1 else 0) + UsesF(kids, p)
  {
    hide UsesF;
  }

  lemma LeftUses(t: Tree, c: Cell, free: nat, lim: nat, p: nat)
    requires Wf(t) && Insert(t, c, free).res.Two? && free <= lim && Insert(t, c, free).free <= lim + 1
    ensures Uses(LeftOf(Insert(t, c, free).res), p) <= Uses(t, p) + if free <= p < lim then 1 else 0
  {
    hide Insert, UsesF;
    InsertUses(t, c, free, p);
    InsertPage(t, c, free);
  }

  /** The shape survives: the chain has taken the row in, the tree has not
      taken in every leaf of the chain. */
  lemma LooseStunted(t: Tree, ch: seq<LeafRec>, h: nat, c: Cell, free: nat, lim: nat)
    requires Loose(t, ch, h, free) && free < lim < InsertRoot(t, c, free).1
    ensures TargetLeaf(t, c.key) in ch
    ensures Loose(StuntedRoot(t, c, free, lim), ChainAfter(t, ch, c, free), h, lim)
    ensures StuntedRoot(t, c, free, lim).page == t.page
  {
    hide Leaves, Balanced, ChainAfter, Insert, InsertRoot, Pieces, Linked, DistinctPages, PagesBelow, TargetLeaf,
      InPlace, Out, NonZero, Wf, Uses, Stunted, LeftOf, Owns;
    var s := StuntedRoot(t, c, free, lim);
    SplitTakesPage(t, c, free);
    OnePiece(t, c, free);
    ChainPlaced(t, ch, c, free, lim);
    if Insert(t, c, free).free > lim {
      StuntedKeeps(t, c, free, lim, h, true);
    } else {
      RootSplit(t, c, free);
      LeftHalfKeeps(t, c, free, h, true);
    }
    StuntedOwns(t, c, free, lim);
  }

  lemma RootSplit(t: Tree, c: Cell, free: nat)
    requires Wf(t)
    ensures InsertRoot(t, c, free).1 <= Insert(t, c, free).free + 1
    ensures InsertRoot(t, c, free).1 > Insert(t, c, free).free ==> Insert(t, c, free).res.Two?
  {
    hide Insert;
  }

  lemma StuntedOwns(t: Tree, c: Cell, free: nat, lim: nat)
    requires Wf(t) && Owns(t, free) && 0 < free < lim < InsertRoot(t, c, free).1
    ensures Owns(StuntedRoot(t, c, free, lim), lim)
  {
    hide Uses, Insert, InsertRoot, Stunted, LeftOf, Wf;
    var s := StuntedRoot(t, c, free, lim);
    RootSplit(t, c, free);
    forall p: nat ensures Uses(s, p) <= if 0 < p < lim then 1 else 0 {
      if Insert(t, c, free).free > lim {
        StuntedUses(t, c, free, lim, p);
      } else {
        LeftUses(t, c, free, lim, p);
      }
    }
  }
}
