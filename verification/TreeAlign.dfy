/** Exactly when the tree keeps its leaves in chain order. */
module TreeAlign {
  import opened Bytes
  import opened Cells
  import Split
  import InternalPage
  import opened TreeModel
  import opened TreeLeaves
  import opened TreeOrder

  /** Separators do not decrease, and with distinct keys they increase. */
  lemma SeparatorsIncrease(t: Tree, i: nat, j: nat)
    requires Wf(t) && t.Node? && Separated(t) && i < j < |t.keys|
    ensures Sorted(Flat(t)) ==> t.keys[i] <= t.keys[j]
    ensures StrictlySorted(Flat(t)) ==> t.keys[i] < t.keys[j]
  {
    hide Cat, Leaves, LeavesF;
    var u, v := t.kids[i + 1], t.kids[j + 1];
    assert u in t.kids && v in t.kids;
    LeavesOfNode(t);
    FlatSplit(t.kids, i + 1);
    var a, b := FlatF(t.kids[..i + 1]), FlatF(t.kids[i + 1..]);
    FlatFirst(t.kids[i + 1..]);
    FlatAround(t.kids[i + 1..], j - i);
    var x := FlatF(t.kids[i + 1..][..j - i]);
    assert t.kids[i + 1..][j - i] == v;
    FlatFirst(t.kids[i + 1..][..j - i]);
    assert b[|x|] == Flat(v)[0];
    assert Flat(t)[|a|] == b[0] && Flat(t)[|a| + |x|] == b[|x|];
  }

  lemma InsertCellMembers(cs: seq<Cell>, c: Cell)
    ensures forall x :: x in InsertCell(cs, c) ==> x == c || x in cs
  {
    var i := LowerBound(KeysOf(cs), c.key);
    forall x | x in InsertCell(cs, c) ensures x == c || x in cs {
      assert x in cs[..i] || x == c || x in cs[i..];
    }
  }

  ghost predicate KeysAtMost(cs: seq<Cell>, hi: int) {
    forall x :: x in cs ==> x.key <= hi
  }

  lemma KidKeysAtMost(ts: seq<Tree>, i: nat, hi: int)
    requires i < |ts| && KeysAtMost(FlatF(ts), hi)
    ensures KeysAtMost(Flat(ts[i]), hi)
  {
    hide Flat, FlatF;
    FlatAround(ts, i);
  }

  lemma SeparatorAtMost(t: Tree, j: nat, hi: int)
    requires Wf(t) && t.Node? && Separated(t) && KeysAtMost(Flat(t), hi) && j < |t.keys|
    ensures t.keys[j] <= hi
  {
    hide FlatF, Flat;
    NodeFlat(t);
    KidKeysAtMost(t.kids, j + 1, hi);
    assert t.kids[j + 1] in t.kids;
    assert Flat(t.kids[j + 1])[0] in Flat(t.kids[j + 1]);
  }

  lemma LeafPromotes(t: Tree, c: Cell, free: nat, hi: int)
    requires t.Leaf? && KeysAtMost(Flat(t), hi) && c.key <= hi
    ensures var r := InsertLeaf(t, c, free).res; r.Two? ==> r.k <= hi
  {
    hide InsertCell, Split.SplitPoint, Flat;
    LeafPieces(t, c, free);
    InsertCellMembers(t.cells, c);
    InsertCellLength(t.cells, c);
    var all := InsertCell(t.cells, c);
    assert Split.SplitPoint(all) < |all| ==> all[Split.SplitPoint(all)] in all;
  }

  /** A promoted key is never above the keys it comes from. */
  lemma {:induction false} PromotedAtMost(t: Tree, c: Cell, free: nat, hi: int)
    requires Wf(t) && Separated(t) && KeysAtMost(Flat(t), hi) && c.key <= hi
    ensures var r := Insert(t, c, free).res; r.Two? ==> r.k <= hi
    decreases t, 1
  {
    if t.Leaf? {
      LeafPromotes(t, c, free, hi);
    } else {
      PromotedAtMostNode(t, c, free, hi);
    }
  }

  lemma {:induction false} PromotedAtMostNode(t: Tree, c: Cell, free: nat, hi: int)
    requires Wf(t) && t.Node? && Separated(t) && KeysAtMost(Flat(t), hi) && c.key <= hi
    ensures var r := Insert(t, c, free).res; r.Two? ==> r.k <= hi
    decreases t, 0
  {
    hide LowerBound, Flat, NewKids, InsertAt, FlatF, KeysAtMost, Insert, InsertNode, Separated, Wf;
    NodeWf(t);
    InsertUnfolds(t, c, free);
    var i := ChildIdx(t, c.key);
    NodeFlat(t);
    KidKeysAtMost(t.kids, i, hi);
    SeparatedKid(t, i);
    PromotedAtMost(t.kids[i], c, free, hi);
    var g := Insert(t.kids[i], c, free);
    if g.res.Two? {
      InsertNodeIs(t, i, g.res.l, g.res.k, g.res.r, g.free);
      if |t.keys| >= InternalPage.MAX_KEYS {
        MiddleKey(t, LowerBound(t.keys, g.res.k), g.res.k, hi);
      }
    }
  }

  lemma MiddleKey(t: Tree, p: nat, k: i64, hi: int)
    requires Wf(t) && t.Node? && Separated(t) && KeysAtMost(Flat(t), hi) && k <= hi
    requires p <= |t.keys|
    ensures var ks := InsertAt(t.keys, p, k); ks[|ks| / 2] <= hi
  {
    hide Flat, InsertAt, KeysAtMost, Separated;
    var ks := InsertAt(t.keys, p, k);
    var m := |ks| / 2;
    if m != p {
      var j := if m < p then m else m - 1;
      assert ks[m] == t.keys[j];
      SeparatorAtMost(t, j, hi);
    }
  }

  lemma NodeFlat(t: Tree)
    ensures t.Node? ==> Flat(t) == FlatF(t.kids)
  {
    LeavesOfNode(t);
  }

  /** The kid the descent takes is sorted and separated like the whole. */
  lemma DescentKid(t: Tree, c: Cell)
    requires Wf(t) && t.Node? && Separated(t) && Sorted(Flat(t))
    ensures var u := t.kids[ChildIdx(t, c.key)]; Wf(u) && Separated(u) && Sorted(Flat(u))
  {
    hide LowerBound, Flat, FlatF;
    var i := ChildIdx(t, c.key);
    assert t.kids[i] in t.kids;
    DescentBounds(t, c.key);
    SortedPart(FlatF(t.kids[..i]), Flat(t.kids[i]), FlatF(t.kids[i + 1..]));
  }

  /** In sorted trees a promoted key is re-found at the descent's slot, unless
      it equals the separator just left of it. */
  lemma SlotFoundAgain(t: Tree, key: i64, k: i64)
    requires Wf(t) && t.Node? && Separated(t) && Sorted(Flat(t))
    requires var i := ChildIdx(t, key);
      && (i > 0 ==> t.keys[i - 1] <= k) && (i < |t.keys| ==> k <= t.keys[i])
    ensures var i := ChildIdx(t, key);
      LowerBound(t.keys, k) == i <==> (i > 0 ==> t.keys[i - 1] != k)
    ensures LowerBound(t.keys, k) <= ChildIdx(t, key)
  {
    hide LowerBound, Flat;
    var i := ChildIdx(t, key);
    if i > 0 ==> t.keys[i - 1] != k {
      forall j | 0 <= j < i ensures t.keys[j] < k {
        if j < i - 1 {
          SeparatorsIncrease(t, j, i - 1);
        }
      }
      LowerBoundIs(t.keys, k, i);
    }
  }

  lemma StrictIsSorted(cs: seq<Cell>)
    requires StrictlySorted(cs)
    ensures Sorted(cs)
  {
  }

  lemma StrictPart(a: seq<Cell>, b: seq<Cell>, d: seq<Cell>)
    requires StrictlySorted(a + b + d)
    ensures StrictlySorted(b)
  {
    forall i, j | 0 <= i < j < |b| ensures b[i].key < b[j].key {
      assert (a + b + d)[|a| + i] == b[i] && (a + b + d)[|a| + j] == b[j];
    }
  }

  ghost predicate Absent(cs: seq<Cell>, key: int) {
    forall x :: x in cs ==> x.key != key
  }

  lemma InsertStrict(cs: seq<Cell>, c: Cell)
    requires StrictlySorted(cs) && Absent(cs, c.key)
    ensures StrictlySorted(InsertCell(cs, c))
  {
    hide LowerBound;
    var p := LowerBound(KeysOf(cs), c.key);
    var r := InsertCell(cs, c);
    forall i | 0 <= i < |cs| ensures i < p <==> cs[i].key < c.key {
      assert KeysOf(cs)[i] == cs[i].key && cs[i] in cs;
      if p <= i {
        assert KeysOf(cs)[p] == cs[p].key;
      }
    }
  }

  lemma InsertSorted(cs: seq<Cell>, c: Cell)
    requires Sorted(cs)
    ensures Sorted(InsertCell(cs, c))
  {
    hide LowerBound;
    var p := LowerBound(KeysOf(cs), c.key);
    forall i | 0 <= i < |cs| ensures if i < p then cs[i].key < c.key else c.key <= cs[i].key {
      assert KeysOf(cs)[i] == cs[i].key;
      if p <= i {
        assert KeysOf(cs)[p] == cs[p].key;
      }
    }
  }

  lemma AbsentPart(a: seq<Cell>, b: seq<Cell>, d: seq<Cell>, key: int)
    requires Absent(a + b + d, key)
    ensures Absent(b, key)
  {
    forall x | x in b ensures x.key != key {
      assert x in a + b + d;
    }
  }

  lemma PromotedAbove(l: Tree, k: i64, r: Tree, cs: seq<Cell>)
    requires SoundResult(Two(l, k, r), cs) && StrictlySorted(cs)
    ensures cs != [] && cs[0].key < k
  {
    hide Flat, Separated;
    assert (Flat(l) + Flat(r))[|Flat(l)|] == Flat(r)[0];
  }

  /** With distinct keys the slots always agree. */
  lemma {:induction false} DistinctAligned(t: Tree, c: Cell, free: nat)
    requires Wf(t) && Separated(t) && StrictlySorted(Flat(t)) && Absent(Flat(t), c.key)
    requires Cost(c) <= LEAF_CAPACITY
    ensures Aligned(t, c, free)
    decreases t, 1
  {
    if t.Node? {
      DistinctAlignedNode(t, c, free);
    }
  }

  lemma {:induction false} DistinctAlignedNode(t: Tree, c: Cell, free: nat)
    requires Wf(t) && t.Node? && Separated(t) && StrictlySorted(Flat(t)) && Absent(Flat(t), c.key)
    requires Cost(c) <= LEAF_CAPACITY
    ensures Aligned(t, c, free)
    decreases t, 0
  {
    hide LowerBound, Flat, FlatF, InsertCell, Insert, Aligned, Separated, Sorted, StrictlySorted, Absent, SoundResult,
      Wf;
    NodeWf(t);
    AlignedUnfolds(t, c, free);
    StrictIsSorted(Flat(t));
    var i := ChildIdx(t, c.key);
    var kid := t.kids[i];
    DescentKid(t, c);
    DescentBounds(t, c.key);
    StrictPart(FlatF(t.kids[..i]), Flat(kid), FlatF(t.kids[i + 1..]));
    AbsentPart(FlatF(t.kids[..i]), Flat(kid), FlatF(t.kids[i + 1..]), c.key);
    DistinctAligned(kid, c, free);
    AlignedSound(kid, c, free);
    var g := Insert(kid, c, free);
    if g.res.Two? {
      InsertStrict(Flat(kid), c);
      PromotedAbove(g.res.l, g.res.k, g.res.r, InsertCell(Flat(kid), c));
      if i > 0 {
        InsertKeepsFirst(Flat(kid), c);
      }
      if i < |t.keys| {
        PromotedBelowNext(t, i, c, free);
      }
      SlotFoundAgain(t, c.key, g.res.k);
    }
  }

  /** The key promoted by child i is at most the separator right of it. */
  lemma PromotedBelowNext(t: Tree, i: nat, c: Cell, free: nat)
    requires Wf(t) && t.Node? && Separated(t) && Sorted(Flat(t))
    requires i == ChildIdx(t, c.key) && i < |t.keys|
    ensures var r := Insert(t.kids[i], c, free).res; r.Two? ==> r.k <= t.keys[i]
  {
    hide LowerBound, Flat, FlatF;
    SeparatorBounds(t, i);
    assert KeysAtMost(FlatF(t.kids[..i + 1]), t.keys[i]);
    KidKeysAtMost(t.kids[..i + 1], i, t.keys[i]);
    assert t.kids[i] in t.kids;
    PromotedAtMost(t.kids[i], c, free, t.keys[i]);
  }

  // ------------------------------------------------------------------
  // If a slot disagrees, the order is lost
  // ------------------------------------------------------------------

  lemma PartDistinct(a: seq<LeafRec>, b: seq<LeafRec>, d: seq<LeafRec>, free: nat)
    requires DistinctPages(a + b + d) && PagesBelow(a + b + d, free)
    ensures DistinctPages(b) && PagesBelow(b, free)
  {
    forall i, j | 0 <= i < j < |b| ensures b[i].page != b[j].page {
      assert (a + b + d)[|a| + i] == b[i] && (a + b + d)[|a| + j] == b[j];
    }
    forall x | x in b ensures x.page < free {
      assert x in a + b + d;
    }
  }

  lemma SameMiddle<T>(a: seq<T>, x: seq<T>, y: seq<T>, d: seq<T>)
    requires a + x + d == a + y + d
    ensures x == y
  {
    assert |x| == |y|;
    forall i | 0 <= i < |x| ensures x[i] == y[i] {
      assert (a + x + d)[|a| + i] == x[i] && (a + y + d)[|a| + i] == y[i];
    }
  }

  /** A right half placed at an earlier slot stands where an older leaf should. */
  lemma EarlySlot(t: Tree, c: Cell, free: nat)
    requires Wf(t) && t.Node? && DistinctPages(Leaves(t)) && PagesBelow(Leaves(t), free)
    requires var i := ChildIdx(t, c.key);
      var g := Insert(t.kids[i], c, free);
      g.res.Two? && LowerBound(t.keys, g.res.k) < i
    ensures Out(Insert(t, c, free).res) != InPlace(t, c, free)
  {
    hide LowerBound, LeavesF, Leaves, NewKids, Out, DistinctPages, PagesBelow, InsertNode, Insert, InPlace, Wf, Target;
    NodeWf(t);
    InsertUnfolds(t, c, free);
    var i := ChildIdx(t, c.key);
    var g := Insert(t.kids[i], c, free);
    var l, k, r := g.res.l, g.res.k, g.res.r;
    var us, p := t.kids[i := l], LowerBound(t.keys, k) + 1;
    var o, m := Out(Insert(t, c, free).res), InPlace(t, c, free);
    if o == m {
      InsertWf(t.kids[i], c, free);
      InPlaceDistinct(t, c, free);
      InsertNodeOut(t, i, l, k, r, g.free);
      NewKidsLeaves(t, i, l, k, r);
      var x, y := LeavesF(us[..p]), LeavesF(us[p..]);
      assert o == x + Leaves(r) + y;
      LeavesNonEmpty(r);
      LeavesNonEmpty(us[p]);
      FirstLeaf(us[p..], |us| - p);
      assert us[p..][..|us| - p] == us[p..];
      assert y[0] == Leaves(us[p])[0];
      OldLeafFirst(t, c, free, i, p);
      TwiceInList(x, Leaves(r), y, m);
    }
  }

  /** The chain has, at that position, the first leaf of the child at slot p. */
  lemma OldLeafFirst(t: Tree, c: Cell, free: nat, i: nat, p: nat)
    requires Wf(t) && t.Node? && i == ChildIdx(t, c.key) && 0 < p <= i
    requires Insert(t.kids[i], c, free).res.Two?
    ensures var l := Insert(t.kids[i], c, free).res.l;
      var us := t.kids[i := l];
      var n := |LeavesF(us[..p])|;
      && Leaves(us[p]) != []
      && n < |InPlace(t, c, free)|
      && InPlace(t, c, free)[n] == Leaves(us[p])[0]
  {
    hide LowerBound, LeavesF, Leaves;
    var g := Insert(t.kids[i], c, free);
    var us := t.kids[i := g.res.l];
    assert us[..p] == t.kids[..p];
    InsertWf(t.kids[i], c, free);
    LeavesNonEmpty(us[p]);
    OutHead(t.kids[i], c, free);
    if p < i {
      LeavesFAppend(t.kids[..p], t.kids[p..i]);
      assert t.kids[..i] == t.kids[..p] + t.kids[p..i];
      FirstLeaf(t.kids[p..i], i - p);
      assert t.kids[p..i][..i - p] == t.kids[p..i];
    } else {
      assert (Leaves(g.res.l) + Leaves(g.res.r))[0] == Leaves(g.res.l)[0];
    }
  }

  lemma TwiceInList(x: seq<LeafRec>, r: seq<LeafRec>, y: seq<LeafRec>, m: seq<LeafRec>)
    requires m == x + r + y && r != [] && y != [] && DistinctPages(m)
    ensures m[|x|] != y[0]
  {
    assert m[|x| + |r|] == y[0];
  }

  lemma SlotAtMost(ks: seq<i64>, k: i64, i: nat)
    requires i < |ks| && k <= ks[i]
    ensures LowerBound(ks, k) <= i
  {
    BelowBound(ks, k, i);
  }

  lemma NotALeaf(t: Tree, c: Cell, free: nat)
    requires Wf(t) && !Aligned(t, c, free)
    ensures t.Node?
  {
  }

  /** In a sorted tree: if any slot disagrees, the tree loses the chain order. */
  lemma {:induction false} MisalignedLosesOrder(t: Tree, c: Cell, free: nat)
    requires Wf(t) && Separated(t) && Sorted(Flat(t)) && Cost(c) <= LEAF_CAPACITY
    requires DistinctPages(Leaves(t)) && PagesBelow(Leaves(t), free)
    requires !Aligned(t, c, free)
    ensures Out(Insert(t, c, free).res) != InPlace(t, c, free)
  {
    hide LowerBound, LeavesF, Leaves, Flat, NewKids, InsertNode, DistinctPages, PagesBelow, Insert, Aligned, InPlace,
      Out, Wf, Separated, Sorted, Target;
    NotALeaf(t, c, free);
    NodeWf(t);
    AlignedUnfolds(t, c, free);
    InPlaceUnfolds(t, c, free);
    var i := ChildIdx(t, c.key);
    var kid := t.kids[i];
    var g := Insert(kid, c, free);
    DescentKid(t, c);
    LeavesAround(t.kids, i);
    PartDistinct(LeavesF(t.kids[..i]), Leaves(kid), LeavesF(t.kids[i + 1..]), free);
    if g.res.Two? && LowerBound(t.keys, g.res.k) != i {
      if i < |t.keys| {
        PromotedBelowNext(t, i, c, free);
        SlotAtMost(t.keys, g.res.k, i);
      }
      EarlySlot(t, c, free);
    } else {
      MisalignedLosesOrder(kid, c, free);
      var a, d := LeavesF(t.kids[..i]), LeavesF(t.kids[i + 1..]);
      var o, m := Out(g.res), InPlace(kid, c, free);
      SlotKeepsOut(t, c, free);
      if a + o + d == a + m + d {
        SameMiddle(a, o, m, d);
      }
    }
  }

  /** Exactly when: the tree keeps the order of the chain if and only if every
      promoted key is found again at the slot of the descent. */
  lemma OrderKeptIff(t: Tree, c: Cell, free: nat)
    requires Wf(t) && Separated(t) && Sorted(Flat(t)) && Cost(c) <= LEAF_CAPACITY
    requires DistinctPages(Leaves(t)) && PagesBelow(Leaves(t), free)
    ensures Out(Insert(t, c, free).res) == InPlace(t, c, free) <==> Aligned(t, c, free)
  {
    if Aligned(t, c, free) {
      AlignedKeepsOrder(t, c, free);
    } else {
      MisalignedLosesOrder(t, c, free);
    }
  }

  /** Where the slots first disagree on the way up: the child there became l
      and r, next to each other in the chain, and l holds nothing but copies of
      the key that r starts with. */
  lemma {:induction false} MisalignedPair(t: Tree, c: Cell, free: nat)
    returns (a: seq<LeafRec>, l: Tree, k: i64, r: Tree, d: seq<LeafRec>)
    requires Wf(t) && Separated(t) && Sorted(Flat(t)) && Cost(c) <= LEAF_CAPACITY
    requires !Aligned(t, c, free)
    ensures InPlace(t, c, free) == a + Leaves(l) + Leaves(r) + d
    ensures Flat(l) != [] && (forall x :: x in Flat(l) ==> x.key == k)
    ensures Flat(r) != [] && Flat(r)[0].key == k
  {
    hide LowerBound, LeavesF, Leaves, Flat, NewKids, InsertNode, Insert, Aligned, InPlace, Out, Wf, Separated, Sorted,
      Target, SoundResult;
    NotALeaf(t, c, free);
    NodeWf(t);
    AlignedUnfolds(t, c, free);
    InPlaceUnfolds(t, c, free);
    var i := ChildIdx(t, c.key);
    var kid := t.kids[i];
    DescentKid(t, c);
    if !Aligned(kid, c, free) {
      a, l, k, r, d := MisalignedPair(kid, c, free);
      Widened(LeavesF(t.kids[..i]), a, Leaves(l), Leaves(r), d, LeavesF(t.kids[i + 1..]));
      a, d := LeavesF(t.kids[..i]) + a, d + LeavesF(t.kids[i + 1..]);
    } else {
      a, d := LeavesF(t.kids[..i]), LeavesF(t.kids[i + 1..]);
      var g := Insert(kid, c, free);
      l, k, r := g.res.l, g.res.k, g.res.r;
      CopiesOnly(t, c, free);
      AlignedKeepsOrder(kid, c, free);
      OutIs(g.res);
      AppendAssoc(a, Leaves(l), Leaves(r));
    }
  }

  lemma Widened<T>(a0: seq<T>, a: seq<T>, l: seq<T>, r: seq<T>, d: seq<T>, d0: seq<T>)
    ensures a0 + (a + l + r + d) + d0 == (a0 + a) + l + r + (d + d0)
  {
  }

  /** A promoted key that is not found again equals the separator to its left,
      so the left half is all copies of it. */
  lemma CopiesOnly(t: Tree, c: Cell, free: nat)
    requires Wf(t) && t.Node? && Separated(t) && Sorted(Flat(t)) && Cost(c) <= LEAF_CAPACITY
    requires Aligned(t.kids[ChildIdx(t, c.key)], c, free)
    requires var g := Insert(t.kids[ChildIdx(t, c.key)], c, free);
      g.res.Two? && LowerBound(t.keys, g.res.k) != ChildIdx(t, c.key)
    ensures var g := Insert(t.kids[ChildIdx(t, c.key)], c, free);
      && Flat(g.res.l) != [] && (forall x :: x in Flat(g.res.l) ==> x.key == g.res.k)
      && Flat(g.res.r) != [] && Flat(g.res.r)[0].key == g.res.k
  {
    hide LowerBound, Flat, FlatF, InsertCell, Insert, Aligned, Separated, Sorted, Wf;
    NodeWf(t);
    var i := ChildIdx(t, c.key);
    var kid := t.kids[i];
    DescentKid(t, c);
    DescentBounds(t, c.key);
    AlignedSound(kid, c, free);
    InsertSorted(Flat(kid), c);
    var g := Insert(kid, c, free);
    HalvesBound(g.res.l, g.res.k, g.res.r, InsertCell(Flat(kid), c));
    if i > 0 {
      InsertKeepsFirst(Flat(kid), c);
    }
    if i < |t.keys| {
      PromotedBelowNext(t, i, c, free);
    }
    SlotFoundAgain(t, c.key, g.res.k);
  }

  lemma HalvesBound(l: Tree, k: i64, r: Tree, cs: seq<Cell>)
    requires SoundResult(Two(l, k, r), cs) && Sorted(cs)
    ensures cs != [] && cs[0].key <= k && Flat(l) != [] && Flat(r) != [] && Flat(r)[0].key == k
    ensures forall x :: x in Flat(l) ==> cs[0].key <= x.key <= k
  {
    hide Flat, Separated;
    assert (Flat(l) + Flat(r))[|Flat(l)|] == Flat(r)[0];
    forall x | x in Flat(l) ensures cs[0].key <= x.key <= k {
      var i :| 0 <= i < |Flat(l)| && Flat(l)[i] == x;
      assert cs[i] == x;
    }
  }
}
