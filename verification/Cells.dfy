/** Leaf cells and the searches and insertions the tree performs on key order. */
module Cells {
  import opened Bytes

  const PAGE_SIZE: int := 4096
  const LEAF_HEADER_SIZE: int := 11
  const SLOT_SIZE: int := 4
  const KEY_SIZE: int := 8

  /** Bytes a leaf offers to slots and cells together. */
  const LEAF_CAPACITY: int := 4085

  datatype Cell = Cell(key: i64, row: seq<byte>)

  /** Bytes of the data region a cell takes. */
  function Size(c: Cell): nat {
    KEY_SIZE + |c.row|
  }

  /** Size plus the slot. */
  function Cost(c: Cell): nat {
    SLOT_SIZE + Size(c)
  }

  function DataBytes(cs: seq<Cell>): nat {
    if cs == [] then 0 else Size(cs[0]) + DataBytes(cs[1..])
  }

  function TotalCost(cs: seq<Cell>): nat {
    DataBytes(cs) + SLOT_SIZE * |cs|
  }

  lemma {:induction false} DataBytesAppend(a: seq<Cell>, b: seq<Cell>)
    ensures DataBytes(a + b) == DataBytes(a) + DataBytes(b)
  {
    if a == [] {
      assert a + b == b;
    } else {
      DataBytesAppend(a[1..], b);
      assert (a + b)[1..] == a[1..] + b;
    }
  }

  lemma DataBytesOne(c: Cell)
    ensures DataBytes([c]) == Size(c)
  {
    assert DataBytes([c][1..]) == 0;
  }

  lemma TotalCostAppend(a: seq<Cell>, b: seq<Cell>)
    ensures TotalCost(a + b) == TotalCost(a) + TotalCost(b)
  {
    DataBytesAppend(a, b);
  }

  lemma AppendAssoc<T>(a: seq<T>, b: seq<T>, c: seq<T>)
    ensures a + (b + c) == a + b + c
  {
  }

  /** A sequence around one of its elements. */
  lemma Around<T>(s: seq<T>, i: nat)
    requires i < |s|
    ensures s == s[..i] + [s[i]] + s[i + 1..]
  {
  }

  lemma TakeAppend<T>(a: seq<T>, b: seq<T>, n: nat)
    requires |a| <= n <= |a| + |b|
    ensures (a + b)[..n] == a + b[..n - |a|]
  {
  }

  function InsertAt<T>(s: seq<T>, i: nat, x: T): (r: seq<T>)
    requires i <= |s|
    ensures |r| == |s| + 1 && r[i] == x
    ensures forall k :: 0 <= k < i ==> r[k] == s[k]
    ensures forall k :: i < k < |r| ==> r[k] == s[k - 1]
  {
    s[..i] + [x] + s[i..]
  }

  lemma InsertAtIs<T>(s: seq<T>, i: nat, x: T, r: seq<T>)
    requires i <= |s| && |r| == |s| + 1 && r[i] == x
    requires forall k :: 0 <= k < i ==> r[k] == s[k]
    requires forall k :: i < k < |r| ==> r[k] == s[k - 1]
    ensures r == InsertAt(s, i, x)
  {
  }

  /** Index of the first key that is not below k: the linear scans of insert,
      insert_into_leaf, split_leaf, insert_into_internal and split_internal. */
  function LowerBound(ks: seq<int>, k: int): (r: nat)
    ensures r <= |ks|
    ensures forall i :: 0 <= i < r ==> ks[i] < k
    ensures r < |ks| ==> ks[r] >= k
  {
    if ks == [] || ks[0] >= k then 0 else 1 + LowerBound(ks[1..], k)
  }

  /** The scan stops at the only index with these two properties. */
  lemma LowerBoundIs(ks: seq<int>, k: int, r: nat)
    requires r <= |ks|
    requires forall i :: 0 <= i < r ==> ks[i] < k
    requires r < |ks| ==> ks[r] >= k
    ensures LowerBound(ks, k) == r
  {
    if r < |ks| && r < LowerBound(ks, k) {
      BelowBound(ks, k, r);
    }
  }

  lemma BelowBound(ks: seq<int>, k: int, i: nat)
    ensures i < LowerBound(ks, k) ==> i < |ks| && ks[i] < k
  {
    hide LowerBound;
  }

  function KeysOf(cs: seq<Cell>): (ks: seq<int>)
    ensures |ks| == |cs| && forall i :: 0 <= i < |cs| ==> ks[i] == cs[i].key
  {
    seq(|cs|, i requires 0 <= i < |cs| => cs[i].key)
  }

  function InsertCell(cs: seq<Cell>, c: Cell): seq<Cell> {
    InsertAt(cs, LowerBound(KeysOf(cs), c.key), c)
  }

  lemma InsertAtBytes(cs: seq<Cell>, i: nat, c: Cell)
    requires i <= |cs|
    ensures DataBytes(InsertAt(cs, i, c)) == DataBytes(cs) + Size(c)
  {
    hide DataBytes;
    DataBytesOne(c);
    DataBytesAppend(cs[..i] + [c], cs[i..]);
    DataBytesAppend(cs[..i], [c]);
    DataBytesAppend(cs[..i], cs[i..]);
    assert cs[..i] + cs[i..] == cs;
  }

  lemma InsertCellCost(cs: seq<Cell>, c: Cell)
    ensures TotalCost(InsertCell(cs, c)) == TotalCost(cs) + Cost(c)
  {
    InsertAtBytes(cs, LowerBound(KeysOf(cs), c.key), c);
  }
}
