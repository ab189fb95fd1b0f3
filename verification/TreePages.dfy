/** Page ownership, balance and the chain of leaves. */
module TreePages {
  import opened Bytes
  import opened Cells
  import InternalPage
  import opened TreeModel
  import TreeOrder

  // ------------------------------------------------------------------
  // Pages
  // ------------------------------------------------------------------

  /** How often the tree uses page p. */
  ghost function Uses(t: Tree, p: nat): nat
    decreases t, 1
  {
    (if t.page == p then 1 else 0) + if t.Leaf? then 0 else UsesF(t.kids, p)
  }

  ghost function UsesF(ts: seq<Tree>, p: nat): nat
    decreases ts, 0
  {
    if ts == [] then 0 else Uses(ts[0], p) + UsesF(ts[1..], p)
  }

  lemma {:induction false} UsesFAppend(a: seq<Tree>, b: seq<Tree>, p: nat)
    ensures UsesF(a + b, p) == UsesF(a, p) + UsesF(b, p)
  {
    if a == [] {
      assert a + b == b;
    } else {
      UsesFAppend(a[1..], b, p);
      assert (a + b)[1..] == a[1..] + b;
    }
  }

  lemma UsesAround(ts: seq<Tree>, i: nat, p: nat)
    requires i < |ts|
    ensures UsesF(ts, p) == UsesF(ts[..i], p) + Uses(ts[i], p) + UsesF(ts[i + 1..], p)
  {
    UsesFAppend(ts[..i], ts[i..], p);
    assert ts == ts[..i] + ts[i..];
    assert ts[i..][1..] == ts[i + 1..];
  }

  ghost function ResultUses(r: Outcome, p: nat): nat {
    match r
    case One(t) => Uses(t, p)
    case Two(l, _, r) => Uses(l, p) + Uses(r, p)
  }

  /** A subtree keeps its page, and the right half of a split is on a new one. */
  lemma InsertPage(t: Tree, c: Cell, free: nat)
    requires Wf(t)
    ensures var r := Insert(t, c, free).res;
      && (r.One? ==> r.t.page == t.page)
      && (r.Two? ==> r.l.page == t.page && r.r.page + 1 == Insert(t, c, free).free)
  {
  }

  lemma InsertNodeUses(t: Tree, i: nat, l: Tree, k: i64, r: Tree, free: nat, p: nat)
    requires t.Node? && |t.kids| == |t.keys| + 1 && i < |t.kids|
    ensures var g := InsertNode(t, i, l, k, r, free);
      && free <= g.free <= free + 1
      && ResultUses(g.res, p)
         == (if t.page == p then 1 else 0) + UsesF(NewKids(t, i, l, k, r), p) + (if free <= p < g.free then 1 else 0)
  {
    hide UsesF, InsertAt, LowerBound;
    var ds := NewKids(t, i, l, k, r);
    if |t.keys| >= InternalPage.MAX_KEYS {
      var mid := (|t.keys| + 1) / 2;
      assert ds == ds[..mid + 1] + ds[mid + 1..];
      UsesFAppend(ds[..mid + 1], ds[mid + 1..], p);
    }
  }

  lemma NewKidsUses(t: Tree, i: nat, l: Tree, k: i64, r: Tree, p: nat)
    requires t.Node? && |t.kids| == |t.keys| + 1 && i < |t.kids|
    ensures UsesF(NewKids(t, i, l, k, r), p) + Uses(t.kids[i], p) == UsesF(t.kids, p) + Uses(l, p) + Uses(r, p)
  {
    hide UsesF, Uses, LowerBound;
    var us, q := t.kids[i := l], LowerBound(t.keys, k) + 1;
    var ds := NewKids(t, i, l, k, r);
    UsesAround(ds, q, p);
    assert ds[..q] == us[..q] && ds[q + 1..] == us[q..] && ds[q] == r;
    UsesFAppend(us[..q], us[q..], p);
    assert us[..q] + us[q..] == us;
    ReplacedUses(t.kids, i, l, p);
  }

  lemma ReplacedUses(ts: seq<Tree>, i: nat, u: Tree, p: nat)
    requires i < |ts|
    ensures UsesF(ts[i := u], p) + Uses(ts[i], p) == UsesF(ts, p) + Uses(u, p)
  {
    hide UsesF, Uses;
    UsesAround(ts, i, p);
    UsesAround(ts[i := u], i, p);
    assert ts[i := u][..i] == ts[..i] && ts[i := u][i + 1..] == ts[i + 1..];
  }

  /** No page is lost, shared or reused: the new pages are exactly the fresh ones. */
  lemma {:induction false} InsertUses(t: Tree, c: Cell, free: nat, p: nat)
    requires Wf(t)
    ensures var g := Insert(t, c, free);
      free <= g.free && ResultUses(g.res, p) == Uses(t, p) + if free <= p < g.free then 1 else 0
  {
    if t.Node? {
      var i := ChildIdx(t, c.key);
      InsertUses(t.kids[i], c, free, p);
      hide UsesF, LowerBound, InsertNode, NewKids;
      var g := Insert(t.kids[i], c, free);
      match g.res
      case One(u) =>
        ReplacedUses(t.kids, i, u, p);
      case Two(l, k, r) =>
        InsertNodeUses(t, i, l, k, r, g.free, p);
        NewKidsUses(t, i, l, k, r, p);
    }
  }

  /** The tree owns each of its pages once; page 0 is not a tree page. */
  ghost predicate Owns(t: Tree, free: nat) {
    forall p: nat :: Uses(t, p) <= if 0 < p < free then 1 else 0
  }

  /** The same for the whole tree, new root included. */
  lemma InsertRootUses(t: Tree, c: Cell, free: nat, p: nat)
    requires Wf(t)
    ensures var (u, next) := InsertRoot(t, c, free);
      free <= next && Uses(u, p) == Uses(t, p) + if free <= p < next then 1 else 0
  {
    InsertUses(t, c, free, p);
    var g := Insert(t, c, free);
    if g.res.Two? {
      hide Insert;
      var l, r := g.res.l, g.res.r;
      assert [l, r][1..] == [r] && [r][1..] == [];
      assert UsesF([l, r], p) == Uses(l, p) + UsesF([r], p);
      assert UsesF([r], p) == Uses(r, p) + UsesF([], p);
    }
  }

  lemma InsertOwns(t: Tree, c: Cell, free: nat)
    requires Wf(t) && Owns(t, free) && 0 < free
    ensures var (u, next) := InsertRoot(t, c, free); Owns(u, next) && free <= next
  {
    hide Uses, InsertRoot;
    var (u, next) := InsertRoot(t, c, free);
    InsertRootUses(t, c, free, 0);
    forall p: nat ensures Uses(u, p) <= if 0 < p < next then 1 else 0 {
      InsertRootUses(t, c, free, p);
    }
  }

  lemma {:induction false} LeafPagesOwned(t: Tree)
    ensures forall x :: x in Leaves(t) ==> Uses(t, x.page) > 0
    decreases t, 1
  {
    if t.Node? {
      LeafPagesOwnedF(t.kids);
    }
  }

  lemma {:induction false} LeafPagesOwnedF(ts: seq<Tree>)
    ensures forall x :: x in LeavesF(ts) ==> UsesF(ts, x.page) > 0
    decreases ts, 0
  {
    if ts != [] {
      LeafPagesOwned(ts[0]);
      LeafPagesOwnedF(ts[1..]);
    }
  }

  lemma {:induction false} LeavesDistinct(t: Tree)
    requires forall p: nat :: Uses(t, p) <= 1
    ensures TreeOrder.DistinctPages(Leaves(t))
    decreases t, 1
  {
    if t.Node? {
      assert forall p: nat :: UsesF(t.kids, p) <= Uses(t, p);
      LeavesDistinctF(t.kids);
    }
  }

  lemma {:induction false} LeavesDistinctF(ts: seq<Tree>)
    requires forall p: nat :: UsesF(ts, p) <= 1
    ensures TreeOrder.DistinctPages(LeavesF(ts))
    decreases ts, 0
  {
    if ts != [] {
      var a, b := Leaves(ts[0]), LeavesF(ts[1..]);
      assert forall p: nat :: UsesF(ts, p) == Uses(ts[0], p) + UsesF(ts[1..], p);
      LeavesDistinct(ts[0]);
      LeavesDistinctF(ts[1..]);
      LeafPagesOwned(ts[0]);
      LeafPagesOwnedF(ts[1..]);
      DistinctJoin(a, b, ts);
    }
  }

  lemma DistinctJoin(a: seq<LeafRec>, b: seq<LeafRec>, ts: seq<Tree>)
    requires TreeOrder.DistinctPages(a) && TreeOrder.DistinctPages(b) && ts != []
    requires forall x :: x in a ==> Uses(ts[0], x.page) > 0
    requires forall x :: x in b ==> UsesF(ts[1..], x.page) > 0
    requires forall n: nat :: UsesF(ts, n) <= 1
    ensures TreeOrder.DistinctPages(a + b)
  {
    var s := a + b;
    forall i, j | 0 <= i < j < |s| ensures s[i].page != s[j].page {
      if i < |a| <= j {
        assert s[i] in a && s[j] in b;
        assert UsesF(ts, s[i].page) == Uses(ts[0], s[i].page) + UsesF(ts[1..], s[i].page);
      }
    }
  }

  lemma OwnedLeaves(t: Tree, free: nat)
    requires Owns(t, free)
    ensures TreeOrder.DistinctPages(Leaves(t)) && TreeOrder.PagesBelow(Leaves(t), free)
    ensures forall x :: x in Leaves(t) ==> 0 < x.page
  {
    hide Uses, Leaves;
    LeavesDistinct(t);
    LeafPagesOwned(t);
  }

  // ------------------------------------------------------------------
  // Balance and height
  // ------------------------------------------------------------------

  /** All leaves at depth h; every node below the root keeps 170 to 340 keys. */
  ghost predicate Balanced(t: Tree, h: nat, root: bool) {
    match t
    case Leaf(_, _, _) => h == 0
    case Node(_, keys, kids) =>
      && h > 0
      && |kids| == |keys| + 1
      && (if root then 1 else 170) <= |keys| <= InternalPage.MAX_KEYS
      && forall u :: u in kids ==> Balanced(u, h - 1, false)
  }

  ghost predicate AllBalanced(ts: seq<Tree>, h: nat) {
    forall u :: u in ts ==> Balanced(u, h, false)
  }

  lemma HalvesBalanced(ts: seq<Tree>, m: nat, h: nat)
    requires AllBalanced(ts, h) && m <= |ts|
    ensures AllBalanced(ts[..m], h) && AllBalanced(ts[m..], h)
  {
  }

  lemma BalancedNode(p: nat, ks: seq<i64>, ds: seq<Tree>, h: nat, root: bool)
    requires h > 0 && |ds| == |ks| + 1 && (if root then 1 else 170) <= |ks| <= InternalPage.MAX_KEYS && AllBalanced(ds, h - 1)
    ensures Balanced(Node(p, ks, ds), h, root)
  {
  }

  lemma KidsBalanced(t: Tree, h: nat, root: bool)
    requires t.Node? && Balanced(t, h, root)
    ensures h > 0 && |t.kids| == |t.keys| + 1 && AllBalanced(t.kids, h - 1)
    ensures (if root then 1 else 170) <= |t.keys| <= InternalPage.MAX_KEYS
  {
  }

  lemma NewKidsBalanced(t: Tree, i: nat, l: Tree, k: i64, r: Tree, h: nat)
    requires t.Node? && |t.kids| == |t.keys| + 1 && i < |t.kids|
    requires AllBalanced(t.kids, h) && Balanced(l, h, false) && Balanced(r, h, false)
    ensures AllBalanced(NewKids(t, i, l, k, r), h)
  {
    hide Balanced, NewKids;
    KidsOf(t, i, l, k, r);
  }

  lemma NodeBalanced(t: Tree, i: nat, l: Tree, k: i64, r: Tree, free: nat, h: nat, root: bool)
    requires t.Node? && Balanced(t, h, root) && i < |t.kids|
    requires Balanced(l, h - 1, false) && Balanced(r, h - 1, false)
    ensures var res := InsertNode(t, i, l, k, r, free).res;
      && (res.One? ==> Balanced(res.t, h, root))
      && (res.Two? ==> Balanced(res.l, h, false) && Balanced(res.r, h, false))
  {
    hide LowerBound, InsertAt, AllBalanced, NewKids, InsertNode, Balanced;
    KidsBalanced(t, h, root);
    var ks, ds := InsertAt(t.keys, LowerBound(t.keys, k), k), NewKids(t, i, l, k, r);
    NewKidsBalanced(t, i, l, k, r, h - 1);
    InsertNodeIs(t, i, l, k, r, free);
    if |t.keys| >= InternalPage.MAX_KEYS {
      var m := |ks| / 2;
      HalvesBalanced(ds, m + 1, h - 1);
      BalancedNode(t.page, ks[..m], ds[..m + 1], h, false);
      BalancedNode(free, ks[m + 1..], ds[m + 1..], h, false);
    } else {
      BalancedNode(t.page, ks, ds, h, root);
    }
  }

  /** Insertion keeps every leaf at one depth and every node within its bounds. */
  lemma {:induction false} InsertBalanced(t: Tree, c: Cell, free: nat, h: nat, root: bool)
    requires Wf(t) && Balanced(t, h, root)
    ensures var r := Insert(t, c, free).res;
      && (r.One? ==> Balanced(r.t, h, root))
      && (r.Two? ==> Balanced(r.l, h, false) && Balanced(r.r, h, false))
  {
    if t.Node? {
      hide LowerBound, InsertNode;
      var i := ChildIdx(t, c.key);
      assert t.kids[i] in t.kids;
      InsertBalanced(t.kids[i], c, free, h - 1, false);
      var g := Insert(t.kids[i], c, free);
      match g.res
      case One(u) =>
        var us := t.kids[i := u];
        forall x | x in us ensures Balanced(x, h - 1, false) {
          assert x == u || x in t.kids;
        }
      case Two(l, k, r) =>
        NodeBalanced(t, i, l, k, r, g.free, h, root);
    }
  }

  lemma RootBalanced(t: Tree, c: Cell, free: nat, h: nat)
    requires Wf(t) && Balanced(t, h, true)
    ensures var (u, _) := InsertRoot(t, c, free); Balanced(u, h, true) || Balanced(u, h + 1, true)
  {
    InsertBalanced(t, c, free, h, true);
  }

  ghost function Size(t: Tree): nat
    decreases t, 1
  {
    1 + if t.Leaf? then 0 else SizeF(t.kids)
  }

  ghost function SizeF(ts: seq<Tree>): nat
    decreases ts, 0
  {
    if ts == [] then 0 else Size(ts[0]) + SizeF(ts[1..])
  }

  /** Uses of the pages below n. */
  ghost function UsesBelow(t: Tree, n: nat): nat {
    if n == 0 then 0 else UsesBelow(t, n - 1) + Uses(t, n - 1)
  }

  ghost function UsesBelowF(ts: seq<Tree>, n: nat): nat {
    if n == 0 then 0 else UsesBelowF(ts, n - 1) + UsesF(ts, n - 1)
  }

  lemma {:induction false} UsesBelowNode(t: Tree, n: nat)
    ensures UsesBelow(t, n) == (if t.page < n then 1 else 0) + if t.Leaf? then 0 else UsesBelowF(t.kids, n)
  {
    if n > 0 {
      UsesBelowNode(t, n - 1);
    }
  }

  lemma {:induction false} UsesBelowCons(ts: seq<Tree>, n: nat)
    ensures UsesBelowF(ts, n) == if ts == [] then 0 else UsesBelow(ts[0], n) + UsesBelowF(ts[1..], n)
  {
    if n > 0 {
      UsesBelowCons(ts, n - 1);
    }
  }

  lemma {:induction false} SizeIsUses(t: Tree, n: nat)
    requires forall p: nat :: p >= n ==> Uses(t, p) == 0
    ensures UsesBelow(t, n) == Size(t)
    decreases t, 1
  {
    UsesBelowNode(t, n);
    assert Uses(t, t.page) > 0;
    if t.Node? {
      assert forall p: nat :: UsesF(t.kids, p) <= Uses(t, p);
      SizeIsUsesF(t.kids, n);
    }
  }

  lemma {:induction false} SizeIsUsesF(ts: seq<Tree>, n: nat)
    requires forall p: nat :: p >= n ==> UsesF(ts, p) == 0
    ensures UsesBelowF(ts, n) == SizeF(ts)
    decreases ts, 0
  {
    UsesBelowCons(ts, n);
    if ts != [] {
      assert forall p: nat :: UsesF(ts, p) == Uses(ts[0], p) + UsesF(ts[1..], p);
      SizeIsUses(ts[0], n);
      SizeIsUsesF(ts[1..], n);
    }
  }

  lemma {:induction false} UsesBelowBound(t: Tree, free: nat, n: nat)
    requires Owns(t, free)
    ensures UsesBelow(t, n) <= if n == 0 then 0 else n - 1
  {
    if n > 0 {
      UsesBelowBound(t, free, n - 1);
    }
  }

  /** A tree that owns its pages has fewer nodes than there are pages. */
  lemma SizeBound(t: Tree, free: nat)
    requires Owns(t, free) && free > 0
    ensures Size(t) < free
  {
    SizeIsUses(t, free);
    UsesBelowBound(t, free, free);
  }

  /** The fewest pages of a subtree of height h below the root: 1, 172, 29413, ... */
  function MinSize(h: nat): nat {
    if h == 0 then 1 else 1 + 171 * MinSize(h - 1)
  }

  lemma {:induction false} ManySizes(ts: seq<Tree>, m: nat)
    requires forall u :: u in ts ==> Size(u) >= m
    ensures SizeF(ts) >= |ts| * m
  {
    if ts != [] {
      ManySizes(ts[1..], m);
      assert Size(ts[0]) >= m;
      assert |ts| * m == (|ts| - 1) * m + m;
    }
  }

  lemma Multiples(a: nat, b: nat, m: nat)
    requires a <= b
    ensures a * m <= b * m
  {
  }

  lemma {:induction false} BalancedSize(t: Tree, h: nat)
    requires Balanced(t, h, false)
    ensures Size(t) >= MinSize(h)
  {
    if t.Node? {
      KidsSize(t, h, false);
      Multiples(171, |t.kids|, MinSize(h - 1));
    }
  }

  lemma {:induction false} KidsSize(t: Tree, h: nat, root: bool)
    requires t.Node? && Balanced(t, h, root)
    ensures SizeF(t.kids) >= |t.kids| * MinSize(h - 1)
    decreases t, 0
  {
    forall u | u in t.kids ensures Size(u) >= MinSize(h - 1) {
      BalancedSize(u, h - 1);
    }
    ManySizes(t.kids, MinSize(h - 1));
  }

  lemma FullRoot(t: Tree)
    requires t.Node?
    ensures |t.kids| > InternalPage.MAX_KEYS ==> |t.kids| * MinSize(1) >= 341 * 172
  {
    assert MinSize(1) == 172;
  }

  /** With at most 1024 pages there are at most two internal levels, and with
      two the root is not full. */
  lemma HeightBound(t: Tree, h: nat, free: nat)
    requires Balanced(t, h, true) && Owns(t, free) && 0 < free <= 1024
    ensures h <= 2
    ensures h == 2 ==> |t.keys| < InternalPage.MAX_KEYS
  {
    SizeBound(t, free);
    if t.Node? {
      KidsSize(t, h, true);
      MinSizeGrows(h);
      assert MinSize(1) == 172;
      assert MinSize(2) == 29413;
      if h >= 3 {
        Multiples(2, |t.kids|, MinSize(h - 1));
      }
      FullRoot(t);
    }
  }

  lemma {:induction false} MinSizeGrows(h: nat)
    ensures h >= 3 ==> MinSize(h - 1) >= MinSize(2)
  {
    if h > 3 {
      MinSizeGrows(h - 1);
    }
  }

  /** One new page per level at most, and none at or above a node with room. */
  lemma {:induction false} GrowthBound(t: Tree, c: Cell, free: nat, h: nat, root: bool)
    requires Wf(t) && Balanced(t, h, root)
    ensures var g := Insert(t, c, free);
      && free <= g.free <= free + h + 1
      && (t.Node? && |t.keys| < InternalPage.MAX_KEYS ==> g.res.One? && g.free <= free + h)
  {
    if t.Node? {
      hide LowerBound, InsertAt;
      var i := ChildIdx(t, c.key);
      assert t.kids[i] in t.kids;
      GrowthBound(t.kids[i], c, free, h - 1, false);
    }
  }

  /** Three free pages are enough for any insertion. */
  lemma ThreePagesSuffice(t: Tree, c: Cell, h: nat, free: nat)
    requires Wf(t) && Balanced(t, h, true) && Owns(t, free) && 0 < free <= 1024
    ensures InsertRoot(t, c, free).1 <= free + 3
  {
    hide Insert, Owns;
    HeightBound(t, h, free);
    GrowthBound(t, c, free, h, true);
  }
}
