/** Internal pages: a packed array of (child, key) entries after a fixed
    header that also holds the rightmost child. */
module InternalPage {
  import opened Bytes
  import opened Cells

  const NODE_TYPE_INTERNAL: byte := 2
  const INTERNAL_HEADER_SIZE: int := 9
  const INTERNAL_ENTRY_SIZE: int := 12

  /** internal_max_keys: (4096 - 9) / 12. */
  const MAX_KEYS: int := 340

  function NumKeys(s: seq<byte>): nat
    requires |s| == PAGE_SIZE
  {
    U(s, 1, 4)
  }

  function RightChild(s: seq<byte>): nat
    requires |s| == PAGE_SIZE
  {
    U(s, 5, 4)
  }

  function EntryPos(i: nat): nat {
    INTERNAL_HEADER_SIZE + i * INTERNAL_ENTRY_SIZE
  }

  function EntryChild(s: seq<byte>, i: nat): nat
    requires EntryPos(i) + 12 <= |s|
  {
    U(s, EntryPos(i), 4)
  }

  function EntryKey(s: seq<byte>, i: nat): i64
    requires EntryPos(i) + 12 <= |s|
  {
    I64FromLE(s[EntryPos(i) + 4..EntryPos(i) + 12])
  }

  /** The last entry of a full node ends inside the page, one more would not. */
  lemma MaxKeysExact(n: nat)
    ensures EntryPos(n) <= PAGE_SIZE <==> n <= MAX_KEYS
  {
  }

  ghost predicate InternalOk(s: seq<byte>) {
    && |s| == PAGE_SIZE
    && s[0] == NODE_TYPE_INTERNAL
    && NumKeys(s) <= MAX_KEYS
  }

  function Keys(s: seq<byte>): (ks: seq<i64>)
    requires |s| == PAGE_SIZE && NumKeys(s) <= MAX_KEYS
    ensures |ks| == NumKeys(s) && forall i :: 0 <= i < |ks| ==> ks[i] == EntryKey(s, i)
  {
    seq(NumKeys(s), i requires 0 <= i < NumKeys(s) && |s| == PAGE_SIZE && NumKeys(s) <= MAX_KEYS => EntryKey(s, i))
  }

  function Child(s: seq<byte>, i: nat): nat
    requires |s| == PAGE_SIZE && i <= NumKeys(s) <= MAX_KEYS
  {
    if i < NumKeys(s) then EntryChild(s, i) else RightChild(s)
  }

  function Kids(s: seq<byte>): (cs: seq<nat>)
    requires |s| == PAGE_SIZE && NumKeys(s) <= MAX_KEYS
    ensures |cs| == NumKeys(s) + 1 && forall i :: 0 <= i < |cs| ==> cs[i] == Child(s, i)
  {
    seq(NumKeys(s) + 1, i requires 0 <= i <= NumKeys(s) && |s| == PAGE_SIZE && NumKeys(s) <= MAX_KEYS => Child(s, i))
  }

  lemma EntrySame(s: seq<byte>, r: seq<byte>, lo: nat, hi: nat, i: nat)
    requires SameOutside(s, r, lo, hi)
    requires EntryPos(i) + 12 <= |s| && (EntryPos(i) + 12 <= lo || hi <= EntryPos(i))
    ensures EntryChild(r, i) == EntryChild(s, i) && EntryKey(r, i) == EntryKey(s, i)
  {
    USame(s, r, lo, hi, EntryPos(i), 4);
    SliceSame(s, r, lo, hi, EntryPos(i) + 4, 8);
  }

  lemma HeaderSame(s: seq<byte>, r: seq<byte>, lo: nat, hi: nat)
    requires SameOutside(s, r, lo, hi) && |s| == PAGE_SIZE && INTERNAL_HEADER_SIZE <= lo
    ensures r[0] == s[0] && NumKeys(r) == NumKeys(s) && RightChild(r) == RightChild(s)
  {
    USame(s, r, lo, hi, 1, 4);
    USame(s, r, lo, hi, 5, 4);
  }

  /** internal_set_entry */
  method SetEntry(a: array<byte>, i: nat, child: nat, key: i64)
    requires a.Length == PAGE_SIZE && i < MAX_KEYS && child < TWO32
    modifies a
    ensures SameOutside(old(a[..]), a[..], EntryPos(i), EntryPos(i + 1))
    ensures EntryChild(a[..], i) == child && EntryKey(a[..], i) == key
  {
    Widths();
    WriteU(a, EntryPos(i), 4, child);
    ghost var s := a[..];
    WriteI64(a, EntryPos(i) + 4, key);
    USame(s, a[..], EntryPos(i) + 4, EntryPos(i) + 12, EntryPos(i), 4);
  }

  method SetRightChild(a: array<byte>, child: nat)
    requires a.Length == PAGE_SIZE && child < TWO32
    modifies a
    ensures SameOutside(old(a[..]), a[..], 5, 9)
    ensures RightChild(a[..]) == child && NumKeys(a[..]) == old(NumKeys(a[..])) && a[0] == old(a[0])
  {
    Widths();
    ghost var s := a[..];
    WriteU(a, 5, 4, child);
    USame(s, a[..], 5, 9, 1, 4);
  }

  method SetNumKeys(a: array<byte>, n: nat)
    requires a.Length == PAGE_SIZE && n <= MAX_KEYS
    modifies a
    ensures SameOutside(old(a[..]), a[..], 1, 5)
    ensures NumKeys(a[..]) == n && RightChild(a[..]) == old(RightChild(a[..])) && a[0] == old(a[0])
  {
    Widths();
    ghost var s := a[..];
    WriteU(a, 1, 4, n);
    USame(s, a[..], 1, 5, 5, 4);
  }

  method InitInternal(a: array<byte>)
    requires a.Length == PAGE_SIZE
    modifies a
    ensures InternalOk(a[..]) && NumKeys(a[..]) == 0 && RightChild(a[..]) == 0
  {
    a[0] := NODE_TYPE_INTERNAL;
    SetNumKeys(a, 0);
    SetRightChild(a, 0);
  }

  /** The first entry whose key is not below key. */
  method FindEntry(a: array<byte>, key: i64) returns (pos: nat)
    requires InternalOk(a[..])
    ensures pos == LowerBound(Keys(a[..]), key)
  {
    hide LowerBound, U, EntryKey;
    ghost var ks := Keys(a[..]);
    var nk := NumKeys(a[..]);
    pos := 0;
    while pos < nk && EntryKey(a[..], pos) < key
      invariant pos <= nk
      invariant forall i :: 0 <= i < pos ==> ks[i] < key
    {
      pos := pos + 1;
    }
    LowerBoundIs(ks, key, pos);
  }

  /** One step of the descent: the first entry whose key is not below key, or
      the rightmost child. */
  method FindChild(s: seq<byte>, key: i64) returns (idx: nat, child: nat)
    requires InternalOk(s)
    ensures idx == LowerBound(Keys(s), key) && child == Kids(s)[idx]
  {
    hide LowerBound, U, EntryKey;
    ghost var ks := Keys(s);
    var nk := NumKeys(s);
    idx := 0;
    while idx < nk && key > EntryKey(s, idx)
      invariant idx <= nk
      invariant forall i :: 0 <= i < idx ==> ks[i] < key
    {
      idx := idx + 1;
    }
    LowerBoundIs(ks, key, idx);
    child := if idx < nk then EntryChild(s, idx) else RightChild(s);
  }

  /** The children after child was put just right of key at pos. */
  function InsertChild(cs: seq<nat>, pos: nat, child: nat): seq<nat>
    requires pos < |cs|
  {
    InsertAt(cs, pos + 1, child)
  }

  /** Shift the entries [pos..nk) up by one, last first. */
  method ShiftEntries(a: array<byte>, pos: nat, nk: nat)
    requires InternalOk(a[..]) && pos <= nk == NumKeys(a[..]) && nk < MAX_KEYS
    modifies a
    ensures SameOutside(old(a[..]), a[..], EntryPos(pos + 1), EntryPos(nk + 1))
    ensures forall j :: pos <= j < nk ==>
      EntryChild(a[..], j + 1) == old(EntryChild(a[..], j)) && EntryKey(a[..], j + 1) == old(EntryKey(a[..], j))
  {
    hide U, EntryKey;
    ghost var s := a[..];
    var i := nk;
    while i > pos
      invariant pos <= i <= nk
      invariant SameOutside(s, a[..], EntryPos(i + 1), EntryPos(nk + 1))
      invariant forall j :: i <= j < nk ==>
        EntryChild(a[..], j + 1) == EntryChild(s, j) && EntryKey(a[..], j + 1) == EntryKey(s, j)
    {
      i := i - 1;
      EntrySame(s, a[..], EntryPos(i + 2), EntryPos(nk + 1), i);
      ghost var before := a[..];
      var k, c := EntryKey(a[..], i), EntryChild(a[..], i);
      ChildWidth(a[..], i);
      SetEntry(a, i + 1, c, k);
      forall j | i + 1 <= j < nk
        ensures EntryChild(a[..], j + 1) == EntryChild(s, j) && EntryKey(a[..], j + 1) == EntryKey(s, j)
      {
        EntrySame(before, a[..], EntryPos(i + 1), EntryPos(i + 2), j + 1);
      }
    }
  }

  lemma ChildWidth(s: seq<byte>, i: nat)
    requires EntryPos(i) + 12 <= |s|
    ensures EntryChild(s, i) < TWO32
  {
    Widths();
    BoundLE(s[EntryPos(i)..EntryPos(i) + 4]);
  }

  /** insert_into_internal: the key goes to its lower bound and the child just
      right of it; the slot is found again from the key. */
  method InsertIntoInternal(a: array<byte>, key: i64, child: nat)
    requires InternalOk(a[..]) && NumKeys(a[..]) < MAX_KEYS && child < TWO32
    modifies a
    ensures InternalOk(a[..])
    ensures var pos := LowerBound(old(Keys(a[..])), key);
      && Keys(a[..]) == InsertAt(old(Keys(a[..])), pos, key)
      && Kids(a[..]) == InsertChild(old(Kids(a[..])), pos, child)
  {
    hide U, EntryKey, LowerBound, InsertAt;
    Widths();
    ghost var s0 := a[..];
    var nk := NumKeys(a[..]);
    var pos := FindEntry(a, key);
    ShiftEntries(a, pos, nk);
    ghost var s1 := a[..];
    HeaderSame(s0, s1, EntryPos(pos + 1), EntryPos(nk + 1));
    var oldChild := if pos < nk then EntryChild(a[..], pos + 1) else RightChild(a[..]);
    KidWidth(s0, pos);
    SetEntry(a, pos, oldChild, key);
    ghost var s2 := a[..];
    HeaderSame(s1, s2, EntryPos(pos), EntryPos(pos + 1));
    if pos + 1 <= nk {
      WriteU(a, EntryPos(pos + 1), 4, child);
      HeaderSame(s2, a[..], EntryPos(pos + 1), EntryPos(pos + 1) + 4);
    }
    ghost var s3 := a[..];
    if pos == nk {
      SetRightChild(a, child);
    }
    ghost var s4 := a[..];
    SetNumKeys(a, nk + 1);
    EntryInserted(s0, s1, s2, s3, s4, a[..], pos, key, child);
  }

  lemma KidWidth(s: seq<byte>, i: nat)
    requires |s| == PAGE_SIZE && i <= NumKeys(s) <= MAX_KEYS
    ensures Child(s, i) < TWO32
  {
    if i < NumKeys(s) {
      ChildWidth(s, i);
    } else {
      Widths();
      BoundLE(s[5..9]);
    }
  }

  /** The bytes after the five writes of insert_into_internal. */
  ghost predicate FiveWrites(s0: seq<byte>, s1: seq<byte>, s2: seq<byte>, s3: seq<byte>, s4: seq<byte>, r: seq<byte>,
                             pos: nat, key: i64, child: nat)
  {
    && InternalOk(s0) && pos <= NumKeys(s0) < MAX_KEYS
    && SameOutside(s0, s1, EntryPos(pos + 1), EntryPos(NumKeys(s0) + 1))
    && (forall j :: pos <= j < NumKeys(s0) ==>
      EntryChild(s1, j + 1) == EntryChild(s0, j) && EntryKey(s1, j + 1) == EntryKey(s0, j))
    && SameOutside(s1, s2, EntryPos(pos), EntryPos(pos + 1))
    && EntryChild(s2, pos) == Child(s0, pos) && EntryKey(s2, pos) == key
    && (pos < NumKeys(s0) ==>
      SameOutside(s2, s3, EntryPos(pos + 1), EntryPos(pos + 1) + 4) && EntryChild(s3, pos + 1) == child)
    && (pos == NumKeys(s0) ==> s3 == s2)
    && |s4| == PAGE_SIZE
    && (pos < NumKeys(s0) ==> s4 == s3 && RightChild(s4) == RightChild(s0))
    && (pos == NumKeys(s0) ==> SameOutside(s3, s4, 5, 9) && RightChild(s4) == child)
    && SameOutside(s4, r, 1, 5) && NumKeys(r) == NumKeys(s0) + 1 && RightChild(r) == RightChild(s4)
  }

  lemma EntryInsertedAt(s0: seq<byte>, s1: seq<byte>, s2: seq<byte>, s3: seq<byte>, s4: seq<byte>, r: seq<byte>,
                        pos: nat, key: i64, child: nat, i: nat)
    requires FiveWrites(s0, s1, s2, s3, s4, r, pos, key, child) && i <= NumKeys(s0)
    ensures EntryKey(r, i) == if i < pos then EntryKey(s0, i) else if i == pos then key else EntryKey(s0, i - 1)
    ensures EntryChild(r, i) == if i <= pos then Child(s0, i) else if i == pos + 1 then child else Child(s0, i - 1)
  {
    hide U;
    var nk := NumKeys(s0);
    EntrySame(s4, r, 1, 5, i);
    if pos == nk {
      EntrySame(s3, s4, 5, 9, i);
    } else if i != pos + 1 {
      EntrySame(s2, s3, EntryPos(pos + 1), EntryPos(pos + 1) + 4, i);
    } else {
      SliceSame(s2, s3, EntryPos(pos + 1), EntryPos(pos + 1) + 4, EntryPos(pos + 1) + 4, 8);
    }
    if i != pos {
      EntrySame(s1, s2, EntryPos(pos), EntryPos(pos + 1), i);
    }
    if i < pos {
      EntrySame(s0, s1, EntryPos(pos + 1), EntryPos(nk + 1), i);
    }
  }

  lemma EntryInserted(s0: seq<byte>, s1: seq<byte>, s2: seq<byte>, s3: seq<byte>, s4: seq<byte>, r: seq<byte>,
                      pos: nat, key: i64, child: nat)
    requires FiveWrites(s0, s1, s2, s3, s4, r, pos, key, child)
    ensures Keys(r) == InsertAt(Keys(s0), pos, key)
    ensures Kids(r) == InsertChild(Kids(s0), pos, child)
  {
    hide U, EntryKey, EntryChild, InsertAt;
    var nk := NumKeys(s0);
    forall k | 0 <= k <= nk + 1
      ensures k < pos ==> Keys(r)[k] == Keys(s0)[k]
      ensures pos < k <= nk ==> Keys(r)[k] == Keys(s0)[k - 1]
      ensures k < pos + 1 ==> Kids(r)[k] == Kids(s0)[k]
      ensures pos + 1 < k ==> Kids(r)[k] == Kids(s0)[k - 1]
    {
      if k <= nk {
        EntryInsertedAt(s0, s1, s2, s3, s4, r, pos, key, child, k);
      }
    }
    EntryInsertedAt(s0, s1, s2, s3, s4, r, pos, key, child, pos);
    if pos < nk {
      EntryInsertedAt(s0, s1, s2, s3, s4, r, pos, key, child, pos + 1);
    }
    InsertAtIs(Keys(s0), pos, key, Keys(r));
    InsertAtIs(Kids(s0), pos + 1, child, Kids(r));
  }

  function EntryKeys(es: seq<(nat, i64)>): (ks: seq<i64>)
    ensures |ks| == |es| && forall i :: 0 <= i < |es| ==> ks[i] == es[i].1
  {
    seq(|es|, i requires 0 <= i < |es| => es[i].1)
  }

  function EntryKids(es: seq<(nat, i64)>, right: nat): (cs: seq<nat>)
    ensures |cs| == |es| + 1 && cs[|es|] == right && forall i :: 0 <= i < |es| ==> cs[i] == es[i].0
  {
    seq(|es|, i requires 0 <= i < |es| => es[i].0) + [right]
  }

  /** The entries and the right child of a node. */
  method CollectEntries(s: seq<byte>) returns (es: seq<(nat, i64)>, right: nat)
    requires InternalOk(s)
    ensures EntryKeys(es) == Keys(s) && EntryKids(es, right) == Kids(s)
  {
    hide U, EntryKey;
    right := RightChild(s);
    var nk := NumKeys(s);
    es := [];
    for i := 0 to nk
      invariant |es| == i
      invariant forall j :: 0 <= j < i ==> es[j] == (EntryChild(s, j), EntryKey(s, j))
    {
      es := es + [(EntryChild(s, i), EntryKey(s, i))];
    }
    assert EntryKeys(es) == Keys(s);
    assert EntryKids(es, right) == Kids(s);
  }

  /** The page becomes an internal node of exactly these entries. */
  method WriteEntries(a: array<byte>, es: seq<(nat, i64)>, right: nat)
    requires a.Length == PAGE_SIZE && |es| <= MAX_KEYS && right < TWO32
    requires forall e :: e in es ==> e.0 < TWO32
    modifies a
    ensures InternalOk(a[..]) && Keys(a[..]) == EntryKeys(es) && Kids(a[..]) == EntryKids(es, right)
  {
    hide U, EntryKey;
    InitInternal(a);
    SetNumKeys(a, |es|);
    for i := 0 to |es|
      invariant InternalOk(a[..]) && NumKeys(a[..]) == |es|
      invariant forall j :: 0 <= j < i ==> EntryChild(a[..], j) == es[j].0 && EntryKey(a[..], j) == es[j].1
    {
      ghost var before := a[..];
      SetEntry(a, i, es[i].0, es[i].1);
      HeaderSame(before, a[..], EntryPos(i), EntryPos(i + 1));
      forall j | 0 <= j < i
        ensures EntryChild(a[..], j) == es[j].0 && EntryKey(a[..], j) == es[j].1
      {
        EntrySame(before, a[..], EntryPos(i), EntryPos(i + 1), j);
      }
    }
    ghost var before := a[..];
    SetRightChild(a, right);
    forall j | 0 <= j < |es|
      ensures EntryChild(a[..], j) == es[j].0 && EntryKey(a[..], j) == es[j].1
    {
      EntrySame(before, a[..], 5, 9, j);
    }
    assert Keys(a[..]) == EntryKeys(es);
    assert Kids(a[..]) == EntryKids(es, right);
  }
}
