/** Pages as nodes, and when a list of pages holds a tree. */
module Nodes {
  import opened Bytes
  import opened Cells
  import opened WalLog
  import LeafPage
  import InternalPage
  import opened TreeModel
  import opened TreePages
  import TreeLeaves
  import TreeChain
  import opened TreeReach

  datatype PageNode =
    | LeafNode(cells: seq<Cell>, next: nat)
    | InternalNode(keys: seq<i64>, kids: seq<nat>)
    | Other

  /** The node a page encodes. */
  ghost function NodeOf(s: Page): PageNode {
    if LeafPage.LeafOk(s) then LeafNode(LeafPage.LeafCells(s), LeafPage.NextLeaf(s))
    else if InternalPage.InternalOk(s) then InternalNode(InternalPage.Keys(s), InternalPage.Kids(s))
    else Other
  }

  function PagesOf(ts: seq<Tree>): (ps: seq<nat>)
    ensures |ps| == |ts| && forall i :: 0 <= i < |ts| ==> ps[i] == ts[i].page
  {
    seq(|ts|, i requires 0 <= i < |ts| => ts[i].page)
  }

  /** The node a tree node is stored as. */
  function Stored(t: Tree): PageNode {
    match t
    case Leaf(_, cells, next) => LeafNode(cells, next)
    case Node(_, keys, kids) => InternalNode(keys, PagesOf(kids))
  }

  /** The pages hold the tree: every node on its page. */
  ghost predicate Represents(v: seq<Page>, t: Tree) {
    && t.page < |v|
    && NodeOf(v[t.page]) == Stored(t)
    && (t.Node? ==> forall u :: u in t.kids ==> Represents(v, u))
  }

  lemma {:induction false} RepresentsFrame(v: seq<Page>, v': seq<Page>, t: Tree)
    requires Represents(v, t) && |v| <= |v'|
    requires forall p :: 0 <= p < |v| && Uses(t, p) > 0 ==> v'[p] == v[p]
    ensures Represents(v', t)
    decreases t
  {
    assert Uses(t, t.page) > 0;
    if t.Node? {
      forall u | u in t.kids ensures Represents(v', u) {
        forall p | 0 <= p < |v| && Uses(u, p) > 0 ensures v'[p] == v[p] {
          KidUses(t.kids, u, p);
        }
        RepresentsFrame(v, v', u);
      }
    }
  }

  lemma KidUses(ts: seq<Tree>, u: Tree, p: nat)
    requires u in ts
    ensures UsesF(ts, p) >= Uses(u, p)
  {
    var i :| 0 <= i < |ts| && ts[i] == u;
    UsesAround(ts, i, p);
  }

  /** Two children never share a page. */
  lemma KidsApart(ts: seq<Tree>, i: nat, j: nat, p: nat)
    requires i < |ts| && j < |ts| && i != j
    ensures UsesF(ts, p) >= Uses(ts[i], p) + Uses(ts[j], p)
  {
    UsesAround(ts, i, p);
    if j < i {
      KidUses(ts[..i], ts[..i][j], p);
    } else {
      KidUses(ts[i + 1..], ts[i + 1..][j - i - 1], p);
    }
  }

  /** Each page of the tree is used once. */
  ghost predicate Unshared(t: Tree) {
    forall p: nat :: Uses(t, p) <= 1
  }

  lemma KidUnshared(t: Tree, i: nat)
    requires t.Node? && Unshared(t) && i < |t.kids|
    ensures Unshared(t.kids[i]) && Uses(t.kids[i], t.page) == 0
  {
    forall p: nat ensures Uses(t.kids[i], p) <= 1 {
      UsesAround(t.kids, i, p);
      assert Uses(t, p) <= 1;
    }
    UsesAround(t.kids, i, t.page);
    assert Uses(t, t.page) <= 1;
  }

  // ------------------------------------------------------------------
  // One insertion, seen from the pages
  // ------------------------------------------------------------------

  /** Page p belongs to a node on the way from the root to the leaf for key. */
  ghost predicate OnPath(t: Tree, key: i64, p: nat)
    requires Wf(t)
  {
    t.page == p || (t.Node? && OnPath(t.kids[ChildIdx(t, key)], key, p))
  }

  /** Only pages on that way changed, and only fresh pages were added. */
  ghost predicate OnlyPath(v0: seq<Page>, v1: seq<Page>, t: Tree, key: i64)
    requires Wf(t)
  {
    |v0| <= |v1| && forall p :: 0 <= p < |v0| && !OnPath(t, key, p) ==> v1[p] == v0[p]
  }

  lemma {:induction false} PathUses(t: Tree, key: i64, p: nat)
    requires Wf(t) && OnPath(t, key, p)
    ensures Uses(t, p) > 0
  {
    if t.page != p {
      hide LowerBound;
      var i := ChildIdx(t, key);
      PathUses(t.kids[i], key, p);
      UsesAround(t.kids, i, p);
    }
  }

  lemma OffPath(v0: seq<Page>, v1: seq<Page>, t: Tree, key: i64)
    requires Wf(t) && OnlyPath(v0, v1, t, key)
    ensures forall p :: 0 <= p < |v0| && Uses(t, p) == 0 ==> v1[p] == v0[p]
  {
    hide Uses, OnPath;
    forall p | 0 <= p < |v0| && Uses(t, p) == 0 ensures v1[p] == v0[p] {
      if OnPath(t, key, p) {
        PathUses(t, key, p);
      }
    }
  }

  lemma PathUnfolds(t: Tree, key: i64)
    requires Wf(t)
    ensures forall p :: OnPath(t, key, p) <==> t.page == p || (t.Node? && OnPath(t.kids[ChildIdx(t, key)], key, p))
  {
    hide LowerBound;
  }

  /** What a child's path left alone, its parent's path leaves alone. */
  lemma PathUp(v0: seq<Page>, v1: seq<Page>, t: Tree, key: i64)
    requires Wf(t) && t.Node? && OnlyPath(v0, v1, t.kids[ChildIdx(t, key)], key)
    ensures OnlyPath(v0, v1, t, key)
  {
    hide LowerBound, OnPath;
    PathUnfolds(t, key);
  }

  /** From v0 to v1 the subtree t took in c: the pages hold its result, and
      only pages on the path to the leaf changed except the new ones. */
  ghost predicate Grew(v0: seq<Page>, v1: seq<Page>, t: Tree, c: Cell)
    requires Wf(t)
  {
    var g := Insert(t, c, |v0|);
    && |v0| <= |v1| == g.free
    && OnlyPath(v0, v1, t, c.key)
    && (g.res.One? ==> Represents(v1, g.res.t))
    && (g.res.Two? ==> Represents(v1, g.res.l) && Represents(v1, g.res.r))
  }

  /** From v0 to v1 the subtree t took in c as far as the pages went. */
  ghost predicate RanOut(v0: seq<Page>, v1: seq<Page>, t: Tree, c: Cell)
    requires Wf(t)
  {
    && |v0| < |v1| < Insert(t, c, |v0|).free
    && OnlyPath(v0, v1, t, c.key)
    && Represents(v1, Stunted(t, c, |v0|, |v1|))
  }

  /** The other children of a node are where they were. */
  lemma OtherKids(v0: seq<Page>, v1: seq<Page>, t: Tree, i: nat)
    requires t.Node? && Represents(v0, t) && Unshared(t) && i < |t.kids| && |v0| <= |v1|
    requires forall p :: 0 <= p < |v0| && Uses(t.kids[i], p) == 0 && p != t.page ==> v1[p] == v0[p]
    ensures forall j :: 0 <= j < |t.kids| && j != i ==> Represents(v1, t.kids[j])
  {
    forall j | 0 <= j < |t.kids| && j != i ensures Represents(v1, t.kids[j]) {
      var u := t.kids[j];
      assert u in t.kids;
      forall p | 0 <= p < |v0| && Uses(u, p) > 0 ensures v1[p] == v0[p] {
        KidsApart(t.kids, i, j, p);
        assert Uses(t, p) <= 1;
      }
      RepresentsFrame(v0, v1, u);
    }
  }

  /** A child that changed in place leaves its parent's page and its siblings alone. */
  lemma KidChanged(v0: seq<Page>, v1: seq<Page>, t: Tree, key: i64, u: Tree)
    requires Wf(t) && t.Node? && Represents(v0, t) && Unshared(t)
    requires OnlyPath(v0, v1, t.kids[ChildIdx(t, key)], key)
    requires Represents(v1, u) && u.page == t.kids[ChildIdx(t, key)].page
    ensures Represents(v1, Node(t.page, t.keys, t.kids[ChildIdx(t, key) := u])) && OnlyPath(v0, v1, t, key)
  {
    hide LowerBound, Uses, UsesF, NodeOf, OnPath, OnlyPath;
    var i := ChildIdx(t, key);
    OffPath(v0, v1, t.kids[i], key);
    PathUp(v0, v1, t, key);
    LongerOnly(v0, v1, t, key);
    KidUnshared(t, i);
    OtherKids(v0, v1, t, i);
    var kids := t.kids[i := u];
    assert PagesOf(kids) == PagesOf(t.kids);
    forall x | x in kids ensures Represents(v1, x) {
      var j :| 0 <= j < |kids| && kids[j] == x;
    }
  }

  lemma LongerOnly(v0: seq<Page>, v1: seq<Page>, t: Tree, key: i64)
    requires Wf(t) && OnlyPath(v0, v1, t, key)
    ensures |v0| <= |v1|
  {
  }

  /** A child that did not split. */
  lemma GrewOne(v0: seq<Page>, v1: seq<Page>, t: Tree, c: Cell)
    requires Wf(t) && t.Node? && Represents(v0, t) && Unshared(t)
    requires Grew(v0, v1, t.kids[ChildIdx(t, c.key)], c)
    requires Insert(t.kids[ChildIdx(t, c.key)], c, |v0|).res.One?
    ensures Grew(v0, v1, t, c) && Insert(t, c, |v0|).res.One?
  {
    hide LowerBound, Insert, Represents, OnlyPath, Unshared;
    var i := ChildIdx(t, c.key);
    InsertPage(t.kids[i], c, |v0|);
    InsertUnfolds(t, c, |v0|);
    KidChanged(v0, v1, t, c.key, Insert(t.kids[i], c, |v0|).res.t);
  }

  /** A child that ran out of pages below. */
  lemma RanOutUp(v0: seq<Page>, v1: seq<Page>, t: Tree, c: Cell)
    requires Wf(t) && t.Node? && Represents(v0, t) && Unshared(t)
    requires RanOut(v0, v1, t.kids[ChildIdx(t, c.key)], c)
    ensures RanOut(v0, v1, t, c)
  {
    hide LowerBound, Insert, Represents, OnlyPath, Unshared, Stunted;
    var i := ChildIdx(t, c.key);
    NodeWf(t);
    TakesPage(t, c, |v0|);
    StuntedPage(t.kids[i], c, |v0|, |v1|);
    StuntedUnfolds(t, c, |v0|, |v1|);
    KidChanged(v0, v1, t, c.key, Stunted(t.kids[i], c, |v0|, |v1|));
  }

  /** v2 is v1 after a write to the page of t, and perhaps a new page. */
  ghost predicate NodeWritten(v1: seq<Page>, v2: seq<Page>, page: nat) {
    && |v1| <= |v2|
    && forall p :: 0 <= p < |v1| && p != page ==> v2[p] == v1[p]
  }

  /** A tree of the split child, untouched by the write to its parent. */
  lemma HalfHeld(v0: seq<Page>, v1: seq<Page>, v2: seq<Page>, t: Tree, c: Cell, u: Tree)
    requires Wf(t) && t.Node? && Represents(v0, t) && Unshared(t)
    requires var g := Insert(t.kids[ChildIdx(t, c.key)], c, |v0|); g.res.Two? && (u == g.res.l || u == g.res.r)
    requires Represents(v1, u) && NodeWritten(v1, v2, t.page)
    ensures Represents(v2, u)
  {
    hide LowerBound;
    var i := ChildIdx(t, c.key);
    KidUnshared(t, i);
    InsertUses(t.kids[i], c, |v0|, t.page);
    assert Uses(u, t.page) == 0;
    hide Uses, Insert;
    RepresentsFrame(v1, v2, u);
  }

  lemma NewKidsHeld(v0: seq<Page>, v1: seq<Page>, v2: seq<Page>, t: Tree, c: Cell)
    requires Wf(t) && t.Node? && Represents(v0, t) && Unshared(t)
    requires Grew(v0, v1, t.kids[ChildIdx(t, c.key)], c)
    requires Insert(t.kids[ChildIdx(t, c.key)], c, |v0|).res.Two?
    requires NodeWritten(v1, v2, t.page)
    ensures var i := ChildIdx(t, c.key);
      var r := Insert(t.kids[i], c, |v0|).res;
      var ds := NewKids(t, i, r.l, r.k, r.r);
      && (forall u :: u in ds ==> Represents(v2, u))
      && PagesOf(ds) == InsertAt(PagesOf(t.kids), LowerBound(t.keys, r.k) + 1, r.r.page)
      && OnlyPath(v0, v2, t, c.key)
  {
    hide LowerBound, Uses, UsesF, NodeOf, Insert, Represents, Stored, NewKids, PagesOf, InsertAt, Unshared, OnPath;
    OffPath(v0, v1, t.kids[ChildIdx(t, c.key)], c.key);
    PathUnfolds(t, c.key);
    var i := ChildIdx(t, c.key);
    var r := Insert(t.kids[i], c, |v0|).res;
    InsertPage(t.kids[i], c, |v0|);
    HalfHeld(v0, v1, v2, t, c, r.l);
    HalfHeld(v0, v1, v2, t, c, r.r);
    PageInRange(v0, t);
    OtherKids(v0, v2, t, i);
    NewKidsPages(t, i, r.l, r.k, r.r);
    AllHeld(v2, t, i, r.l, r.k, r.r);
  }

  lemma AllHeld(v: seq<Page>, t: Tree, i: nat, l: Tree, k: i64, r: Tree)
    requires t.Node? && |t.kids| == |t.keys| + 1 && i < |t.kids|
    requires Represents(v, l) && Represents(v, r)
    requires forall j :: 0 <= j < |t.kids| && j != i ==> Represents(v, t.kids[j])
    ensures forall u :: u in NewKids(t, i, l, k, r) ==> Represents(v, u)
  {
    hide Represents, NewKids, LowerBound;
    NewKidsAre(t, i, l, k, r);
  }

  lemma NewKidsPages(t: Tree, i: nat, l: Tree, k: i64, r: Tree)
    requires t.Node? && |t.kids| == |t.keys| + 1 && i < |t.kids| && l.page == t.kids[i].page
    ensures PagesOf(NewKids(t, i, l, k, r)) == InsertAt(PagesOf(t.kids), LowerBound(t.keys, k) + 1, r.page)
  {
    hide LowerBound;
    var us := t.kids[i := l];
    assert PagesOf(us) == PagesOf(t.kids);
    InsertAtIs(PagesOf(us), LowerBound(t.keys, k) + 1, r.page, PagesOf(NewKids(t, i, l, k, r)));
  }

  /** The new children: the two halves, and the other old children. */
  lemma NewKidsAre(t: Tree, i: nat, l: Tree, k: i64, r: Tree)
    requires t.Node? && |t.kids| == |t.keys| + 1 && i < |t.kids|
    ensures forall u :: u in NewKids(t, i, l, k, r) ==>
      u == l || u == r || exists j :: 0 <= j < |t.kids| && j != i && t.kids[j] == u
  {
    hide LowerBound;
    var us, ds, p := t.kids[i := l], NewKids(t, i, l, k, r), LowerBound(t.keys, k) + 1;
    forall u | u in ds ensures u == l || u == r || exists j :: 0 <= j < |t.kids| && j != i && t.kids[j] == u {
      var j :| 0 <= j < |ds| && ds[j] == u;
      if j != p {
        var j' := if j < p then j else j - 1;
        assert ds[j] == us[j'];
      }
    }
  }

  lemma HeldNode(v: seq<Page>, page: nat, ks: seq<i64>, ds: seq<Tree>)
    requires page < |v| && NodeOf(v[page]) == InternalNode(ks, PagesOf(ds))
    requires forall u :: u in ds ==> Represents(v, u)
    ensures Represents(v, Node(page, ks, ds))
  {
    hide NodeOf, PagesOf;
  }

  /** The parent of a split child, with room for one more key. */
  lemma GrewInto(v0: seq<Page>, v1: seq<Page>, v2: seq<Page>, t: Tree, c: Cell)
    requires Wf(t) && t.Node? && Represents(v0, t) && Unshared(t)
    requires Grew(v0, v1, t.kids[ChildIdx(t, c.key)], c)
    requires Insert(t.kids[ChildIdx(t, c.key)], c, |v0|).res.Two?
    requires |t.keys| < InternalPage.MAX_KEYS && |v2| == |v1| && NodeWritten(v1, v2, t.page)
    requires var r := Insert(t.kids[ChildIdx(t, c.key)], c, |v0|).res;
      var pos := LowerBound(t.keys, r.k);
      NodeOf(v2[t.page]) == InternalNode(InsertAt(t.keys, pos, r.k), InsertAt(PagesOf(t.kids), pos + 1, r.r.page))
    ensures Grew(v0, v2, t, c) && Insert(t, c, |v0|).res.One?
  {
    hide LowerBound, Uses, UsesF, NodeOf, InsertAt, Insert, Represents, PagesOf, InsertNode, NewKids, Unshared,
      OnlyPath;
    PageInRange(v0, t);
    NewKidsHeld(v0, v1, v2, t, c);
    InsertUnfolds(t, c, |v0|);
    var i := ChildIdx(t, c.key);
    var g := Insert(t.kids[i], c, |v0|);
    var ks, ds := InsertAt(t.keys, LowerBound(t.keys, g.res.k), g.res.k), NewKids(t, i, g.res.l, g.res.k, g.res.r);
    InsertNodeIs(t, i, g.res.l, g.res.k, g.res.r, g.free);
    HeldNode(v2, t.page, ks, ds);
    assert Insert(t, c, |v0|) == Grown(One(Node(t.page, ks, ds)), g.free);
  }

  /** The parent of a split child that was full and splits too. */
  lemma GrewApart(v0: seq<Page>, v1: seq<Page>, v2: seq<Page>, t: Tree, c: Cell)
    requires Wf(t) && t.Node? && Represents(v0, t) && Unshared(t)
    requires Grew(v0, v1, t.kids[ChildIdx(t, c.key)], c)
    requires Insert(t.kids[ChildIdx(t, c.key)], c, |v0|).res.Two?
    requires |t.keys| == InternalPage.MAX_KEYS && |v2| == |v1| + 1 && NodeWritten(v1, v2, t.page)
    requires var r := Insert(t.kids[ChildIdx(t, c.key)], c, |v0|).res;
      var pos := LowerBound(t.keys, r.k);
      var ks, ps := InsertAt(t.keys, pos, r.k), InsertAt(PagesOf(t.kids), pos + 1, r.r.page);
      && NodeOf(v2[t.page]) == InternalNode(ks[..170], ps[..171])
      && NodeOf(v2[|v1|]) == InternalNode(ks[171..], ps[171..])
    ensures Grew(v0, v2, t, c)
    ensures var i := ChildIdx(t, c.key);
      var r := Insert(t.kids[i], c, |v0|).res;
      var res := Insert(t, c, |v0|).res;
      res.Two? && res.k == InsertAt(t.keys, LowerBound(t.keys, r.k), r.k)[170] && res.r.page == |v1|
  {
    hide LowerBound, Uses, UsesF, NodeOf, InsertAt, Insert, Represents, PagesOf, InsertNode, NewKids, Unshared,
      OnlyPath;
    PageInRange(v0, t);
    NewKidsHeld(v0, v1, v2, t, c);
    InsertUnfolds(t, c, |v0|);
    var i := ChildIdx(t, c.key);
    var g := Insert(t.kids[i], c, |v0|);
    var r := g.res;
    var ks, ds := InsertAt(t.keys, LowerBound(t.keys, r.k), r.k), NewKids(t, i, r.l, r.k, r.r);
    HeldHalves(v2, ds, 171);
    HeldNode(v2, t.page, ks[..170], ds[..171]);
    HeldNode(v2, g.free, ks[171..], ds[171..]);
    FullNode(t, i, r.l, r.k, r.r, g.free);
  }

  /** The parent of a split child that was full, with no page for its right half. */
  lemma RanOutHere(v0: seq<Page>, v1: seq<Page>, v2: seq<Page>, t: Tree, c: Cell)
    requires Wf(t) && t.Node? && Represents(v0, t) && Unshared(t)
    requires Grew(v0, v1, t.kids[ChildIdx(t, c.key)], c) && |v0| < |v1|
    requires Insert(t.kids[ChildIdx(t, c.key)], c, |v0|).res.Two?
    requires |t.keys| == InternalPage.MAX_KEYS && |v2| == |v1| && NodeWritten(v1, v2, t.page)
    requires var r := Insert(t.kids[ChildIdx(t, c.key)], c, |v0|).res;
      var pos := LowerBound(t.keys, r.k);
      var ks, ps := InsertAt(t.keys, pos, r.k), InsertAt(PagesOf(t.kids), pos + 1, r.r.page);
      NodeOf(v2[t.page]) == InternalNode(ks[..170], ps[..171])
    ensures RanOut(v0, v2, t, c)
  {
    hide LowerBound, Uses, UsesF, NodeOf, InsertAt, Insert, Represents, PagesOf, InsertNode, NewKids, Unshared,
      OnlyPath, Stunted;
    PageInRange(v0, t);
    NewKidsHeld(v0, v1, v2, t, c);
    InsertUnfolds(t, c, |v0|);
    StuntedUnfolds(t, c, |v0|, |v2|);
    var i := ChildIdx(t, c.key);
    var g := Insert(t.kids[i], c, |v0|);
    var r := g.res;
    var ks, ds := InsertAt(t.keys, LowerBound(t.keys, r.k), r.k), NewKids(t, i, r.l, r.k, r.r);
    HeldHalves(v2, ds, 171);
    HeldNode(v2, t.page, ks[..170], ds[..171]);
    FullNode(t, i, r.l, r.k, r.r, g.free);
  }

  lemma PageInRange(v: seq<Page>, t: Tree)
    requires Represents(v, t)
    ensures t.page < |v|
  {
  }

  lemma HeldHalves(v: seq<Page>, ts: seq<Tree>, n: nat)
    requires n <= |ts| && forall u :: u in ts ==> Represents(v, u)
    ensures forall u :: u in ts[..n] ==> Represents(v, u)
    ensures forall u :: u in ts[n..] ==> Represents(v, u)
    ensures PagesOf(ts[..n]) == PagesOf(ts)[..n] && PagesOf(ts[n..]) == PagesOf(ts)[n..]
  {
    hide Represents;
  }

  lemma FullNode(t: Tree, i: nat, l: Tree, k: i64, r: Tree, free: nat)
    requires t.Node? && |t.keys| == InternalPage.MAX_KEYS && |t.kids| == |t.keys| + 1 && i < |t.kids|
    ensures var ks, ds := InsertAt(t.keys, LowerBound(t.keys, k), k), NewKids(t, i, l, k, r);
      InsertNode(t, i, l, k, r, free)
      == Grown(Two(Node(t.page, ks[..170], ds[..171]), ks[170], Node(free, ks[171..], ds[171..])), free + 1)
  {
    hide LowerBound, InsertAt;
  }

  // ------------------------------------------------------------------
  // Leaves
  // ------------------------------------------------------------------

  ghost predicate HasLeaf(v: seq<Page>, x: LeafRec) {
    x.page < |v| && NodeOf(v[x.page]) == LeafNode(x.cells, x.next)
  }

  /** The leaf that receives key. */
  ghost function LeafFor(t: Tree, key: i64): (u: Tree)
    requires Wf(t)
    ensures u.Leaf?
  {
    if t.Leaf? then t else LeafFor(t.kids[ChildIdx(t, key)], key)
  }

  /** The descent reaches the leaf that the chain replaces. */
  lemma {:induction false} LeafForIsTarget(t: Tree, key: i64)
    requires Wf(t)
    ensures var u := LeafFor(t, key); u.Leaf? && TreeChain.TargetLeaf(t, key) == LeafRec(u.page, u.cells, u.next)
  {
    if t.Node? {
      hide LowerBound, TreeChain.TargetLeaf;
      LeafForIsTarget(t.kids[ChildIdx(t, key)], key);
      TargetOfKid(t, key);
    } else {
      TreeChain.TargetLeafIs(t, key);
    }
  }

  /** The leaf u has enough free bytes for c and its slot. */
  predicate Spacious(u: Tree, c: Cell)
    requires u.Leaf?
  {
    TotalCost(u.cells) + Cost(c) <= LEAF_CAPACITY
  }

  /** The only change from v0 to v1: the page of u holds c too, at its place. */
  ghost predicate TakenInPlace(v0: seq<Page>, v1: seq<Page>, u: Tree, c: Cell)
    requires u.Leaf?
  {
    && u.page < |v0| == |v1|
    && NodeWritten(v0, v1, u.page)
    && NodeOf(v1[u.page]) == LeafNode(InsertCell(u.cells, c), u.next)
  }

  /** The leaf that took c in, or its two halves, are on their pages. */
  ghost predicate PiecesStored(v: seq<Page>, t: Tree, c: Cell, free: nat)
    requires Wf(t)
  {
    forall x :: x in TreeLeaves.Pieces(TreeChain.TargetLeaf(t, c.key), c, free) ==> HasLeaf(v, x)
  }

  lemma GrewPieces(v0: seq<Page>, v1: seq<Page>, t: Tree, u: Tree, c: Cell)
    requires Wf(t) && u.Leaf? && u == LeafFor(t, c.key) && Grew(v0, v1, u, c)
    ensures PiecesStored(v1, t, c, |v0|)
  {
    hide NodeOf, InsertLeaf, LeafFor, TreeChain.TargetLeaf;
    LeafForIsTarget(t, c.key);
    var g := InsertLeaf(u, c, |v0|);
    assert Insert(u, c, |v0|) == g;
    LeafOutcome(u, c, |v0|);
  }

  lemma LeafOutcome(u: Tree, c: Cell, free: nat)
    requires u.Leaf?
    ensures var r := InsertLeaf(u, c, free).res;
      && (r.One? ==> r.t.Leaf?)
      && (r.Two? ==> r.l.Leaf? && r.r.Leaf?)
  {
    hide InsertCell;
  }

  /** A write to the page of an internal node does not touch a leaf. */
  lemma PiecesKept(v: seq<Page>, v': seq<Page>, n: nat, t: Tree, c: Cell, free: nat)
    requires Wf(t) && PiecesStored(v, t, c, free) && NodeWritten(v, v', n)
    requires n < |v| ==> NodeOf(v[n]).InternalNode?
    ensures PiecesStored(v', t, c, free)
  {
    hide NodeOf, TreeLeaves.Pieces, TreeChain.TargetLeaf;
  }
}
