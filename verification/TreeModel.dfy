/** The B+tree as a value: what insert does to the tree of nodes, page numbers
    and leaf links included, without the bytes and without the page store. */
module TreeModel {
  import opened Bytes
  import opened Cells
  import Split
  import InternalPage

  datatype Tree =
    | Leaf(page: nat, cells: seq<Cell>, next: nat)
    | Node(page: nat, keys: seq<i64>, kids: seq<Tree>)

  /** A leaf as the chain walk sees it. */
  datatype LeafRec = LeafRec(page: nat, cells: seq<Cell>, next: nat)

  /** One more child than keys in every node. */
  ghost predicate Wf(t: Tree) {
    t.Node? ==> |t.kids| == |t.keys| + 1 && forall u :: u in t.kids ==> Wf(u)
  }

  /** Leaves left to right. */
  function Leaves(t: Tree): seq<LeafRec>
    decreases t, 1
  {
    match t
    case Leaf(p, cs, n) => [LeafRec(p, cs, n)]
    case Node(_, _, kids) => LeavesF(kids)
  }

  function LeavesF(ts: seq<Tree>): seq<LeafRec>
    decreases ts, 0
  {
    if ts == [] then [] else Leaves(ts[0]) + LeavesF(ts[1..])
  }

  lemma {:induction false} LeavesFAppend(a: seq<Tree>, b: seq<Tree>)
    ensures LeavesF(a + b) == LeavesF(a) + LeavesF(b)
  {
    if a == [] {
      assert a + b == b;
    } else {
      LeavesFAppend(a[1..], b);
      assert (a + b)[1..] == a[1..] + b;
      AppendAssoc(Leaves(a[0]), LeavesF(a[1..]), LeavesF(b));
    }
  }

  lemma LeavesFOne(t: Tree)
    ensures LeavesF([t]) == Leaves(t)
  {
    assert [t][1..] == [];
    assert Leaves(t) + [] == Leaves(t);
  }

  lemma LeavesThree(a: seq<Tree>, t: Tree, d: seq<Tree>)
    ensures LeavesF(a + [t] + d) == LeavesF(a) + Leaves(t) + LeavesF(d)
  {
    hide *;
    LeavesFAppend(a + [t], d);
    LeavesFAppend(a, [t]);
    LeavesFOne(t);
  }

  /** The leaves around child i. */
  lemma LeavesAround(ts: seq<Tree>, i: nat)
    requires i < |ts|
    ensures LeavesF(ts) == LeavesF(ts[..i]) + Leaves(ts[i]) + LeavesF(ts[i + 1..])
  {
    hide *;
    Around(ts, i);
    LeavesThree(ts[..i], ts[i], ts[i + 1..]);
  }

  lemma {:induction false} LeavesNonEmpty(t: Tree)
    requires Wf(t)
    ensures Leaves(t) != []
  {
    if t.Node? {
      LeavesNonEmpty(t.kids[0]);
    }
  }

  // ------------------------------------------------------------------
  // Insertion
  // ------------------------------------------------------------------

  /** What a subtree becomes: one tree, or two and the key promoted between them. */
  datatype Outcome = One(t: Tree) | Two(l: Tree, k: i64, r: Tree)

  /** The result and the next unused page number. */
  datatype Grown = Grown(res: Outcome, free: nat)

  function HasRoom(cs: seq<Cell>, c: Cell): bool {
    TotalCost(cs) + Cost(c) <= LEAF_CAPACITY
  }

  function InsertLeaf(t: Tree, c: Cell, free: nat): Grown
    requires t.Leaf?
  {
    var all := InsertCell(t.cells, c);
    if HasRoom(t.cells, c) then Grown(One(Leaf(t.page, all, t.next)), free)
    else
      var n := Split.SplitPoint(all);
      Grown(Two(Leaf(t.page, all[..n], free), all[n].key, Leaf(free, all[n..], t.next)), free + 1)
  }

  /** The child the descent takes: the first key that is not below the sought one. */
  function ChildIdx(t: Tree, key: i64): (i: nat)
    requires t.Node? && |t.kids| == |t.keys| + 1
    ensures i < |t.kids|
  {
    LowerBound(t.keys, key)
  }

  /** insert_into_internal or split_internal on the node whose child i became l
      and has promoted k and r: the slot is found again from k. */
  function InsertNode(t: Tree, i: nat, l: Tree, k: i64, r: Tree, free: nat): Grown
    requires t.Node? && |t.kids| == |t.keys| + 1 && i < |t.kids|
  {
    var pos := LowerBound(t.keys, k);
    var ks := InsertAt(t.keys, pos, k);
    var ds := InsertAt(t.kids[i := l], pos + 1, r);
    if |t.keys| < InternalPage.MAX_KEYS then Grown(One(Node(t.page, ks, ds)), free)
    else
      var mid := |ks| / 2;
      Grown(Two(Node(t.page, ks[..mid], ds[..mid + 1]), ks[mid], Node(free, ks[mid + 1..], ds[mid + 1..])), free + 1)
  }

  function Insert(t: Tree, c: Cell, free: nat): Grown
    requires Wf(t)
  {
    if t.Leaf? then InsertLeaf(t, c, free)
    else
      var i := ChildIdx(t, c.key);
      var g := Insert(t.kids[i], c, free);
      match g.res
      case One(u) => Grown(One(Node(t.page, t.keys, t.kids[i := u])), g.free)
      case Two(l, k, r) => InsertNode(t, i, l, k, r, g.free)
  }

  /** One level of the definition of Insert. */
  lemma InsertUnfolds(t: Tree, c: Cell, free: nat)
    requires Wf(t) && t.Node?
    ensures var i := ChildIdx(t, c.key);
      var g := Insert(t.kids[i], c, free);
      && (g.res.One? ==> Insert(t, c, free) == Grown(One(Node(t.page, t.keys, t.kids[i := g.res.t])), g.free))
      && (g.res.Two? ==> Insert(t, c, free) == InsertNode(t, i, g.res.l, g.res.k, g.res.r, g.free))
  {
    hide LowerBound, InsertNode;
  }

  /** The whole tree: a split root gets a new root above it. */
  function InsertRoot(t: Tree, c: Cell, free: nat): (Tree, nat)
    requires Wf(t)
  {
    var g := Insert(t, c, free);
    match g.res
    case One(u) => (u, g.free)
    case Two(l, k, r) => (Node(g.free, [k], [l, r]), g.free + 1)
  }

  lemma NodeWf(t: Tree)
    requires Wf(t)
    ensures t.Node? ==> |t.kids| == |t.keys| + 1 && forall i :: 0 <= i < |t.kids| ==> Wf(t.kids[i])
  {
  }

  lemma InsertNodeWf(t: Tree, i: nat, l: Tree, k: i64, r: Tree, free: nat)
    requires Wf(t) && t.Node? && i < |t.kids| && Wf(l) && Wf(r)
    ensures var g := InsertNode(t, i, l, k, r, free);
      && free <= g.free
      && (g.res.One? ==> Wf(g.res.t))
      && (g.res.Two? ==> Wf(g.res.l) && Wf(g.res.r) && g.free > free)
  {
    hide LowerBound, InsertAt;
    KidsOf(t, i, l, k, r);
    var ds := NewKids(t, i, l, k, r);
    assert forall x :: x in ds ==> Wf(x);
  }

  lemma KeptWf(t: Tree, i: nat, u: Tree)
    requires Wf(t) && t.Node? && i < |t.kids| && Wf(u)
    ensures Wf(Node(t.page, t.keys, t.kids[i := u]))
  {
    var kids := t.kids[i := u];
    forall x | x in kids ensures Wf(x) {
      assert x == u || x in t.kids;
    }
  }

  lemma {:induction false} InsertWf(t: Tree, c: Cell, free: nat)
    requires Wf(t)
    ensures var g := Insert(t, c, free);
      && free <= g.free
      && (g.res.One? ==> Wf(g.res.t))
      && (g.res.Two? ==> Wf(g.res.l) && Wf(g.res.r) && g.free > free)
  {
    if t.Node? {
      hide LowerBound, InsertNode;
      var i := ChildIdx(t, c.key);
      InsertWf(t.kids[i], c, free);
      var g := Insert(t.kids[i], c, free);
      match g.res
      case One(u) => KeptWf(t, i, u);
      case Two(l, k, r) => InsertNodeWf(t, i, l, k, r, g.free);
    }
  }

  /** The children after a child split, before the node itself may split. */
  function NewKids(t: Tree, i: nat, l: Tree, k: i64, r: Tree): seq<Tree>
    requires t.Node? && |t.kids| == |t.keys| + 1 && i < |t.kids|
  {
    InsertAt(t.kids[i := l], LowerBound(t.keys, k) + 1, r)
  }

  lemma InsertNodeIs(t: Tree, i: nat, l: Tree, k: i64, r: Tree, free: nat)
    requires t.Node? && |t.kids| == |t.keys| + 1 && i < |t.kids|
    ensures var ks, ds := InsertAt(t.keys, LowerBound(t.keys, k), k), NewKids(t, i, l, k, r);
      var mid := |ks| / 2;
      && |ks| == |t.keys| + 1 && |ds| == |t.kids| + 1
      && InsertNode(t, i, l, k, r, free)
         == if |t.keys| < InternalPage.MAX_KEYS then Grown(One(Node(t.page, ks, ds)), free)
            else Grown(Two(Node(t.page, ks[..mid], ds[..mid + 1]), ks[mid], Node(free, ks[mid + 1..], ds[mid + 1..])), free + 1)
  {
    hide LowerBound, InsertAt;
  }

  lemma KidsOf(t: Tree, i: nat, l: Tree, k: i64, r: Tree)
    requires t.Node? && |t.kids| == |t.keys| + 1 && i < |t.kids|
    ensures forall x :: x in NewKids(t, i, l, k, r) ==> x == l || x == r || x in t.kids
  {
    var p := LowerBound(t.keys, k) + 1;
    var us := t.kids[i := l];
    forall x | x in NewKids(t, i, l, k, r) ensures x == l || x == r || x in t.kids {
      assert x in us[..p] || x == r || x in us[p..];
      assert x in us || x == r;
    }
  }
}
