/** The byte formats, spelled out: leaf and internal pages, log records, rows
    and the metadata page. Numbers are little-endian throughout. */
module Layouts {
  import opened Bytes
  import opened Cells
  import opened Codec
  import opened Results
  import opened Rows
  import opened WalLog
  import opened Metadata
  import LeafPage
  import InternalPage

  // ------------------------------------------------------------------
  // Tree pages
  // ------------------------------------------------------------------

  /** Type 1, cell count, next leaf and data start in bytes 0, 1, 5 and 9; from
      byte 11 on, four bytes of offset and length per cell; a cell is its key
      and its row. */
  lemma LeafLayout(s: seq<byte>)
    requires LeafPage.LeafOk(s)
    ensures s[0] == 1 && |LeafPage.LeafCells(s)| == Num4(s, 1)
    ensures LeafPage.NextLeaf(s) == Num4(s, 5) && LeafPage.DataStart(s) == Num2(s, 9)
    ensures 11 + 4 * Num4(s, 1) <= 4096 == |s|
    ensures forall i :: 0 <= i < Num4(s, 1) ==>
      var off, len := Num2(s, 11 + 4 * i), Num2(s, 13 + 4 * i);
      && 8 <= len && off + len <= 4096
      && LeafPage.LeafCells(s)[i] == Cell(I64FromLE(s[off..off + 8]), s[off + 8..off + len])
  {
    hide FromLE, DataBytes, LeafPage.SlotHolds, LeafPage.Disjoint, LeafPage.CellAt;
    FourBytes(s, 1);
    FourBytes(s, 5);
    TwoBytes(s, 9);
    forall i | 0 <= i < Num4(s, 1)
      ensures 8 <= Num2(s, 13 + 4 * i) && Num2(s, 11 + 4 * i) + Num2(s, 13 + 4 * i) <= 4096
      ensures var off, len := Num2(s, 11 + 4 * i), Num2(s, 13 + 4 * i);
        LeafPage.LeafCells(s)[i] == Cell(I64FromLE(s[off..off + 8]), s[off + 8..off + len])
    {
      SlotLayout(s, i, LeafPage.LeafCells(s)[i], LeafPage.DataStart(s));
    }
  }

  lemma SlotLayout(s: seq<byte>, i: nat, c: Cell, ds: nat)
    requires |s| == 4096 && 15 + 4 * i <= 4096 && LeafPage.SlotHolds(s, i, c, ds)
    ensures var off, len := Num2(s, 11 + 4 * i), Num2(s, 13 + 4 * i);
      && 8 <= len && off + len <= 4096
      && c == Cell(I64FromLE(s[off..off + 8]), s[off + 8..off + len])
  {
    hide FromLE;
    TwoBytes(s, 11 + 4 * i);
    TwoBytes(s, 13 + 4 * i);
  }

  /** Type 2, key count and right child in bytes 0, 1 and 5; from byte 9 on,
      twelve bytes of child and key per entry. */
  lemma NodeLayout(s: seq<byte>)
    requires InternalPage.InternalOk(s)
    ensures s[0] == 2 && |InternalPage.Keys(s)| == Num4(s, 1) <= 340 && |InternalPage.Kids(s)| == Num4(s, 1) + 1
    ensures InternalPage.Kids(s)[Num4(s, 1)] == Num4(s, 5)
    ensures forall i :: 0 <= i < Num4(s, 1) ==>
      && InternalPage.Kids(s)[i] == Num4(s, 9 + 12 * i)
      && InternalPage.Keys(s)[i] == I64FromLE(s[13 + 12 * i..21 + 12 * i])
  {
    hide FromLE;
    FourBytes(s, 1);
    FourBytes(s, 5);
    forall i | 0 <= i < Num4(s, 1)
      ensures InternalPage.Kids(s)[i] == Num4(s, 9 + 12 * i)
    {
      FourBytes(s, 9 + 12 * i);
    }
  }

  // ------------------------------------------------------------------
  // Log records
  // ------------------------------------------------------------------

  /** Type, eight bytes of transaction number, four of page number, the page. */
  lemma RecordLayout(txn: nat, w: Write)
    ensures var b := PageBytes(txn, w);
      && b[0] == 1 && b[13..] == w.data
      && (forall k :: 0 <= k < 8 ==> b[1 + k] == txn / Pow256(k) % 256)
      && (forall k :: 0 <= k < 4 ==> b[9 + k] == w.page / Pow256(k) % 256)
    ensures var c := CommitBytes(txn);
      && c[0] == 2
      && (forall k :: 0 <= k < 8 ==> c[1 + k] == txn / Pow256(k) % 256)
      && (forall k :: 9 <= k < 4109 ==> c[k] == 0)
  {
    hide ToLE, Pow256;
    forall k | 0 <= k < 8 ensures ToLE(txn, 8)[k] == txn / Pow256(k) % 256 {
      LEDigits(txn, 8, k);
    }
    forall k | 0 <= k < 4 ensures ToLE(w.page, 4)[k] == w.page / Pow256(k) % 256 && ToLE(0, 4)[k] == 0 {
      LEDigits(w.page, 4, k);
      LEDigits(0, 4, k);
      ZeroDigit(k);
    }
  }

  lemma ZeroDigit(k: nat)
    ensures 0 / Pow256(k) % 256 == 0
  {
  }

  // ------------------------------------------------------------------
  // Rows and metadata
  // ------------------------------------------------------------------

  /** Eight bytes, two's complement, for an integer; four bytes of length and
      the text for a text. */
  lemma FieldLayout(t: DataType, v: Value)
    requires Fits(t, v)
    ensures v.IntegerValue? ==>
      && |Field(t, v)| == 8
      && forall k :: 0 <= k < 8 ==> Field(t, v)[k] == (if v.n < 0 then v.n + TWO64 else v.n) / Pow256(k) % 256
    ensures v.TextValue? ==>
      && |Field(t, v)| == 4 + |v.s| && Field(t, v)[4..] == v.s
      && forall k :: 0 <= k < 4 ==> Field(t, v)[k] == |v.s| / Pow256(k) % 256
  {
    hide ToLE, Pow256;
    if v.IntegerValue? {
      var n := if v.n < 0 then v.n + TWO64 else v.n;
      forall k | 0 <= k < 8 ensures ToLE(n, 8)[k] == n / Pow256(k) % 256 {
        LEDigits(n, 8, k);
      }
    } else {
      forall k | 0 <= k < 4 ensures ToLE(|v.s|, 4)[k] == |v.s| / Pow256(k) % 256 {
        LEDigits(|v.s|, 4, k);
      }
    }
  }

  /** The bytes of a value: eight, or four and the text. */
  function Width(v: Value): nat {
    if v.TextValue? then 4 + |v.s| else 8
  }

  function RowWidth(vals: seq<Value>): nat {
    if vals == [] then 0 else Width(vals[0]) + RowWidth(vals[1..])
  }

  /** The fields of a row stand one behind the other. */
  lemma {:induction false} RowLayout(cols: seq<Column>, vals: seq<Value>, i: nat)
    requires Conforms(cols, vals) && i < |cols|
    ensures |RowBytes(cols, vals)| == RowWidth(vals)
    ensures Holds(RowBytes(cols, vals), RowWidth(vals[..i]), Field(cols[i].dataType, vals[i]))
    decreases |cols|
  {
    hide Field, Fits, Holds;
    assert Fits(cols[0].dataType, vals[0]);
    var f, rest := Field(cols[0].dataType, vals[0]), RowBytes(cols[1..], vals[1..]);
    FieldLayout(cols[0].dataType, vals[0]);
    FieldWidth(cols[0].dataType, vals[0]);
    forall k | 0 <= k < |cols| - 1 ensures Fits(cols[1..][k].dataType, vals[1..][k]) {
      assert Fits(cols[k + 1].dataType, vals[k + 1]);
    }
    if |cols| > 1 {
      RowLayout(cols[1..], vals[1..], if i > 0 then i - 1 else 0);
    } else {
      assert rest == [] && vals[1..] == [];
    }
    HeldParts(f, rest);
    if i > 0 {
      assert vals[..i][1..] == vals[1..][..i - 1];
      HeldBehind(f, rest, RowWidth(vals[1..][..i - 1]), Field(cols[i].dataType, vals[i]));
    } else {
      assert vals[..0] == [];
    }
  }

  lemma FieldWidth(t: DataType, v: Value)
    requires Fits(t, v)
    ensures |Field(t, v)| == Width(v)
  {
  }

  lemma HeldParts(a: seq<byte>, b: seq<byte>)
    ensures Holds(a + b, 0, a)
  {
  }

  lemma HeldBehind(a: seq<byte>, b: seq<byte>, off: nat, s: seq<byte>)
    requires Holds(b, off, s)
    ensures Holds(a + b, |a| + off, s)
  {
    assert (a + b)[|a| + off..|a| + off + |s|] == b[off..off + |s|];
  }

  /** Anywhere in a buffer a row reads back value by value: what fits its column
      as itself, what does not as 0 or as the empty text. */
  lemma RowReads(buf: seq<byte>, off: nat, cols: seq<Column>, vals: seq<Value>, i: nat)
    requires |cols| == |vals| && i < |cols| && ShortTexts(vals) && Holds(buf, off, RowBytes(cols, vals))
    ensures ParseRow(buf, off, cols).Some?
    ensures var v := ParseRow(buf, off, cols).value[i];
      if Fits(cols[i].dataType, vals[i]) then v == vals[i]
      else if cols[i].dataType.Integer? then v == IntegerValue(0)
      else v == TextValue([])
  {
    hide Holds, RowBytes, ParseRow;
    RowRead(buf, off, cols, vals);
  }

  /** Root page and column count in bytes 0 and 4; from byte 8 on, per column,
      two bytes of length, the name, and 0 for integers or 1 for texts. */
  lemma MetaLayout(root: nat, cols: seq<Column>, i: nat)
    requires root < TWO32 && |cols| < TWO32 && i < |cols|
    ensures var m := MetaBytes(root, cols);
      var p := 8 + |ColumnsBytes(cols[..i])|;
      var n := if |cols[i].name| < 255 then |cols[i].name| else 255;
      && |m| >= p + n + 3 && Num4(m, 0) == root && Num4(m, 4) == |cols|
      && Num2(m, p) == n && m[p + 2..p + 2 + n] == cols[i].name[..n]
      && m[p + 2 + n] == if cols[i].dataType.Integer? then 0 else 1
  {
    hide ToLE, ColumnsBytes, ColumnBytes;
    Bytes.Widths();
    var m, head := MetaBytes(root, cols), ToLE(root, 4) + ToLE(|cols|, 4);
    var before, c, behind := ColumnsBytes(cols[..i]), ColumnBytes(cols[i]), ColumnsBytes(cols[i + 1..]);
    ColumnsSplit(cols, i);
    assert m == head + before + c + behind;
    var p := 8 + |before|;
    assert m[0..4] == ToLE(root, 4) && m[4..8] == ToLE(|cols|, 4);
    FitsLE(root, 4);
    FitsLE(|cols|, 4);
    FourBytes(m, 0);
    FourBytes(m, 4);
    assert m[p..p + |c|] == c;
    ColumnLayout(cols[i]);
    assert m[p + 2..p + |c| - 1] == c[2..|c| - 1];
    assert m[p] == c[0] && m[p + 1] == c[1] && m[p + |c| - 1] == c[|c| - 1];
  }

  lemma ColumnLayout(c: Column)
    ensures var b, n := ColumnBytes(c), if |c.name| < 255 then |c.name| else 255;
      && |b| == n + 3 && Num2(b, 0) == n && b[2..2 + n] == c.name[..n]
      && b[2 + n] == if c.dataType.Integer? then 0 else 1
  {
    hide ToLE;
    Bytes.Widths();
    var b, name := ColumnBytes(c), Cut(c.name);
    assert b[0..2] == ToLE(|name|, 2);
    FitsLE(|name|, 2);
    TwoBytes(b, 0);
    assert name == c.name[..|name|];
  }

  lemma {:induction false} ColumnsSplit(cols: seq<Column>, i: nat)
    requires i < |cols|
    ensures ColumnsBytes(cols) == ColumnsBytes(cols[..i]) + ColumnBytes(cols[i]) + ColumnsBytes(cols[i + 1..])
  {
    hide ColumnBytes;
    if i > 0 {
      ColumnsSplit(cols[1..], i - 1);
      assert cols[..i][1..] == cols[1..][..i - 1] && cols[1..][i..] == cols[i + 1..];
    } else {
      assert cols[..0] == [];
    }
  }

  /** A page whose columns are in order up to one with another type byte is
      refused, however many columns it announces behind it. */
  lemma UnknownTag(s: Page, good: seq<Column>, name: seq<byte>, tag: byte)
    requires |name| < 65536 && tag > 1 && |good| < Num4(s, 4)
    requires Holds(s, 8, ColumnsBytes(good) + (Chunk(2, name) + [tag]))
    ensures ParseMeta(s) == Some(Err(BadMetadata))
  {
    hide ColumnsBytes, Chunk, Holds, ParseColumns;
    FourBytes(s, 4);
    HoldsParts(s, 8, ColumnsBytes(good), Chunk(2, name) + [tag]);
    BadColumn(s, 8 + |ColumnsBytes(good)|, name, tag);
    BadColumns(s, 8, good, U(s, 4, 4));
  }

  lemma BadColumn(s: Page, off: nat, name: seq<byte>, tag: byte)
    requires |name| < 65536 && tag > 1 && Holds(s, off, Chunk(2, name) + [tag])
    ensures ParseColumn(s, off) == Some(Err(BadMetadata))
  {
    hide Chunk, Holds, TakeChunk;
    Bytes.Widths();
    HoldsParts(s, off, Chunk(2, name), [tag]);
    ChunkTaken(s, off, 2, name);
    OneByte(s, off + 2 + |name|, tag);
  }

  lemma {:induction false} BadColumns(s: Page, off: nat, good: seq<Column>, n: nat)
    requires |good| < n && Holds(s, off, ColumnsBytes(good))
    requires ParseColumn(s, off + |ColumnsBytes(good)|) == Some(Err(BadMetadata))
    ensures ParseColumns(s, off, n) == Some(Err(BadMetadata))
    decreases |good|
  {
    hide ColumnBytes, ParseColumn, Holds;
    if good != [] {
      var b := ColumnBytes(good[0]);
      HoldsParts(s, off, b, ColumnsBytes(good[1..]));
      ColumnRead(s, off, good[0]);
      BadColumns(s, off + |b|, good[1..], n - 1);
    }
  }
}
