/** The order of the leaves: where insert puts the new leaf in the tree, and
    where the next_leaf links put it. */
module TreeLeaves {
  import opened Bytes
  import opened Cells
  import InternalPage
  import opened TreeModel

  function Out(r: Outcome): seq<LeafRec> {
    match r
    case One(t) => Leaves(t)
    case Two(l, _, r) => Leaves(l) + Leaves(r)
  }

  /** What the leaf that receives c becomes: itself, or its two halves. */
  function Pieces(x: LeafRec, c: Cell, free: nat): seq<LeafRec> {
    Out(InsertLeaf(Leaf(x.page, x.cells, x.next), c, free).res)
  }

  /** Index of that leaf among the leaves of the tree. */
  function Target(t: Tree, key: i64): nat
    requires Wf(t)
  {
    if t.Leaf? then 0
    else var i := ChildIdx(t, key); |LeavesF(t.kids[..i])| + Target(t.kids[i], key)
  }

  /** The leaves with the target replaced by its pieces: the order of the chain. */
  function InPlace(t: Tree, c: Cell, free: nat): seq<LeafRec>
    requires Wf(t)
  {
    if t.Leaf? then Out(InsertLeaf(t, c, free).res)
    else
      var i := ChildIdx(t, c.key);
      LeavesF(t.kids[..i]) + InPlace(t.kids[i], c, free) + LeavesF(t.kids[i + 1..])
  }

  lemma InMiddle<T>(a: seq<T>, b: seq<T>, d: seq<T>, j: nat, p: seq<T>)
    requires j < |b|
    ensures (a + b + d)[|a| + j] == b[j]
    ensures a + (b[..j] + p + b[j + 1..]) + d == (a + b + d)[..|a| + j] + p + (a + b + d)[|a| + j + 1..]
  {
    var s := a + b + d;
    assert s[..|a| + j] == a + b[..j];
    assert s[|a| + j + 1..] == b[j + 1..] + d;
  }

  /** One level of the definitions above. */
  lemma InPlaceUnfolds(t: Tree, c: Cell, free: nat)
    requires Wf(t)
    ensures t.Leaf? ==>
      var x := LeafRec(t.page, t.cells, t.next);
      Leaves(t) == [x] && Target(t, c.key) == 0 && InPlace(t, c, free) == Pieces(x, c, free)
    ensures t.Node? ==>
      var i := ChildIdx(t, c.key);
      && Leaves(t) == LeavesF(t.kids)
      && Target(t, c.key) == |LeavesF(t.kids[..i])| + Target(t.kids[i], c.key)
      && InPlace(t, c, free) == LeavesF(t.kids[..i]) + InPlace(t.kids[i], c, free) + LeavesF(t.kids[i + 1..])
  {
    hide LeavesF, LowerBound, InsertLeaf, Insert;
  }

  lemma {:induction false} InPlaceIs(t: Tree, c: Cell, free: nat)
    requires Wf(t)
    ensures var ls, j := Leaves(t), Target(t, c.key);
      && j < |ls|
      && InPlace(t, c, free) == ls[..j] + Pieces(ls[j], c, free) + ls[j + 1..]
  {
    hide *;
    NodeWf(t);
    InPlaceUnfolds(t, c, free);
    if t.Leaf? {
      InMiddle([], Leaves(t), [], 0, Pieces(Leaves(t)[0], c, free));
      NothingAround(Pieces(Leaves(t)[0], c, free));
    } else {
      var i := ChildIdx(t, c.key);
      InPlaceIs(t.kids[i], c, free);
      LeavesAround(t.kids, i);
      var b, j := Leaves(t.kids[i]), Target(t.kids[i], c.key);
      InMiddle(LeavesF(t.kids[..i]), b, LeavesF(t.kids[i + 1..]), j, Pieces(b[j], c, free));
    }
  }

  lemma NothingAround<T>(p: seq<T>)
    ensures [] + p + [] == p
  {
  }

  /** A node that splits keeps its new children in order. */
  lemma InsertNodeOut(t: Tree, i: nat, l: Tree, k: i64, r: Tree, free: nat)
    requires t.Node? && |t.kids| == |t.keys| + 1 && i < |t.kids|
    ensures Out(InsertNode(t, i, l, k, r, free).res) == LeavesF(NewKids(t, i, l, k, r))
  {
    hide LeavesF, LowerBound, InsertAt;
    var ds := NewKids(t, i, l, k, r);
    if |t.keys| >= InternalPage.MAX_KEYS {
      var mid := (|t.keys| + 1) / 2;
      assert ds == ds[..mid + 1] + ds[mid + 1..];
      LeavesFAppend(ds[..mid + 1], ds[mid + 1..]);
    }
  }

  /** The leaves of the new children, around the one that was added. */
  lemma NewKidsLeaves(t: Tree, i: nat, l: Tree, k: i64, r: Tree)
    requires t.Node? && |t.kids| == |t.keys| + 1 && i < |t.kids|
    ensures var us, p := t.kids[i := l], LowerBound(t.keys, k) + 1;
      && LeavesF(NewKids(t, i, l, k, r)) == LeavesF(us[..p]) + Leaves(r) + LeavesF(us[p..])
      && LeavesF(us[..p]) + LeavesF(us[p..]) == LeavesF(t.kids[..i]) + Leaves(l) + LeavesF(t.kids[i + 1..])
  {
    hide LeavesF, Leaves, LowerBound;
    var us, p := t.kids[i := l], LowerBound(t.keys, k) + 1;
    var ds := NewKids(t, i, l, k, r);
    LeavesAround(ds, p);
    assert ds[..p] == us[..p] && ds[p + 1..] == us[p..] && ds[p] == r;
    LeavesFAppend(us[..p], us[p..]);
    assert us[..p] + us[p..] == us;
    LeavesAround(us, i);
    assert us[..i] == t.kids[..i] && us[i + 1..] == t.kids[i + 1..];
  }

  lemma BagSum<T>(x: multiset<T>, r: multiset<T>, y: multiset<T>, a: multiset<T>, l: multiset<T>, d: multiset<T>, m: multiset<T>)
    requires x + y == a + l + d && l + r == m
    ensures x + r + y == a + m + d
  {
    assert x + r + y == (x + y) + r;
    assert a + m + d == (a + l + d) + r;
  }

  lemma SplitBag<T>(x: seq<T>, r: seq<T>, y: seq<T>, a: seq<T>, l: seq<T>, d: seq<T>, m: seq<T>)
    requires x + y == a + l + d && multiset(l + r) == multiset(m)
    ensures multiset(x + r + y) == multiset(a + m + d)
  {
    assert multiset(x + y) == multiset(a + l + d);
    BagSum(multiset(x), multiset(r), multiset(y), multiset(a), multiset(l), multiset(d), multiset(m));
  }

  lemma SameBag<T>(a: seq<T>, x: seq<T>, m: seq<T>, d: seq<T>)
    requires multiset(x) == multiset(m)
    ensures multiset(a + x + d) == multiset(a + m + d)
  {
  }

  /** The leaves after an insertion, by what became of the child. */
  lemma OutUnfolds(t: Tree, c: Cell, free: nat)
    requires Wf(t)
    ensures t.Leaf? ==> Out(Insert(t, c, free).res) == InPlace(t, c, free)
    ensures t.Node? ==>
      var i := ChildIdx(t, c.key);
      var g := Insert(t.kids[i], c, free);
      && (g.res.One? ==> Out(Insert(t, c, free).res) == LeavesF(t.kids[i := g.res.t]))
      && (g.res.Two? ==> Out(Insert(t, c, free).res) == LeavesF(NewKids(t, i, g.res.l, g.res.k, g.res.r)))
  {
    hide LeavesF, LowerBound, NewKids, InsertNode, InsertLeaf;
    if t.Node? {
      var i := ChildIdx(t, c.key);
      var g := Insert(t.kids[i], c, free);
      if g.res.Two? {
        InsertNodeOut(t, i, g.res.l, g.res.k, g.res.r, g.free);
      }
    }
  }

  /** Whatever the keys, the tree ends up with exactly the leaves of the chain. */
  lemma {:induction false} OutBag(t: Tree, c: Cell, free: nat)
    requires Wf(t)
    ensures multiset(Out(Insert(t, c, free).res)) == multiset(InPlace(t, c, free))
  {
    hide *;
    NodeWf(t);
    OutUnfolds(t, c, free);
    InPlaceUnfolds(t, c, free);
    if t.Leaf? {
      return;
    }
    var i := ChildIdx(t, c.key);
    OutBag(t.kids[i], c, free);
    var a, d := LeavesF(t.kids[..i]), LeavesF(t.kids[i + 1..]);
    var m := InPlace(t.kids[i], c, free);
    var g := Insert(t.kids[i], c, free);
    OutIs(g.res);
    match g.res
    case One(u) =>
      ReplacedLeaves(t.kids, i, u);
      SameBag(a, Leaves(u), m, d);
    case Two(l, k, r) =>
      NewKidsLeaves(t, i, l, k, r);
      var us, p := t.kids[i := l], LowerBound(t.keys, k) + 1;
      SplitBag(LeavesF(us[..p]), Leaves(r), LeavesF(us[p..]), a, Leaves(l), d, m);
  }

  lemma OutIs(r: Outcome)
    ensures r.One? ==> Out(r) == Leaves(r.t)
    ensures r.Two? ==> Out(r) == Leaves(r.l) + Leaves(r.r)
  {
  }

  /** The leftmost leaf of the tree is the head of the chain. */
  lemma {:induction false} OutHead(t: Tree, c: Cell, free: nat)
    requires Wf(t)
    ensures var o, m := Out(Insert(t, c, free).res), InPlace(t, c, free);
      o != [] && m != [] && o[0] == m[0]
  {
    if t.Node? {
      var i := ChildIdx(t, c.key);
      OutHead(t.kids[i], c, free);
      InsertWf(t.kids[i], c, free);
      hide LeavesF, LowerBound, NewKids, InsertNode, Leaves;
      var g := Insert(t.kids[i], c, free);
      if i > 0 {
        LeavesNonEmpty(t.kids[0]);
        FirstLeaf(t.kids, i);
      }
      match g.res
      case One(u) =>
        LeavesOfNode(Node(t.page, t.keys, t.kids[i := u]));
        ReplacedLeaves(t.kids, i, u);
        NoneBefore(t.kids, i);
      case Two(l, k, r) =>
        InsertNodeOut(t, i, l, k, r, g.free);
        NewKidsLeaves(t, i, l, k, r);
        var us, p := t.kids[i := l], LowerBound(t.keys, k) + 1;
        LeavesNonEmpty(us[0]);
        FirstLeaf(us, p);
        LeavesNonEmpty(l);
        NoneBefore(t.kids, i);
    }
  }

  lemma LeavesOfNode(t: Tree)
    ensures t.Node? ==> Leaves(t) == LeavesF(t.kids)
  {
  }

  lemma NoneBefore(ts: seq<Tree>, i: nat)
    requires i < |ts|
    ensures i == 0 ==> LeavesF(ts[..i]) == []
  {
  }

  lemma ReplacedLeaves(ts: seq<Tree>, i: nat, u: Tree)
    requires i < |ts|
    ensures LeavesF(ts[i := u]) == LeavesF(ts[..i]) + Leaves(u) + LeavesF(ts[i + 1..])
  {
    LeavesAround(ts[i := u], i);
    assert ts[i := u][..i] == ts[..i] && ts[i := u][i + 1..] == ts[i + 1..];
  }

  lemma FirstLeaf(ts: seq<Tree>, p: nat)
    requires 0 < p <= |ts| && Leaves(ts[0]) != []
    ensures LeavesF(ts[..p]) != [] && LeavesF(ts[..p])[0] == Leaves(ts[0])[0]
  {
    assert ts[..p][0] == ts[0];
  }
}
