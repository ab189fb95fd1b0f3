/** The metadata page of a table: its root page and its columns. */
module Metadata {
  import opened Bytes
  import opened Cells
  import opened Results
  import opened WalLog
  import opened Codec
  import opened Rows

  /** A column name is cut to 255 bytes. */
  function Cut(name: seq<byte>): (r: seq<byte>)
    ensures |r| <= 255 && (r == name <==> |name| <= 255)
  {
    if |name| <= 255 then name else name[..255]
  }

  function Tag(t: DataType): byte {
    if t.Integer? then 0 else 1
  }

  function ColumnBytes(c: Column): seq<byte> {
    Chunk(2, Cut(c.name)) + [Tag(c.dataType)]
  }

  function ColumnsBytes(cols: seq<Column>): seq<byte> {
    if cols == [] then [] else ColumnBytes(cols[0]) + ColumnsBytes(cols[1..])
  }

  function MetaBytes(root: nat, cols: seq<Column>): seq<byte> {
    ToLE(root, 4) + ToLE(|cols|, 4) + ColumnsBytes(cols)
  }

  /** The columns fit the page; writing runs past its end otherwise. */
  ghost predicate MetaFits(cols: seq<Column>) {
    8 + |ColumnsBytes(cols)| <= PAGE_SIZE
  }

  lemma {:induction false} ColumnsNext(cols: seq<Column>, i: nat)
    requires i < |cols|
    ensures ColumnsBytes(cols[..i + 1]) == ColumnsBytes(cols[..i]) + ColumnBytes(cols[i])
  {
    hide ColumnBytes;
    if i > 0 {
      ColumnsNext(cols[1..], i - 1);
      assert cols[..i][1..] == cols[1..][..i - 1];
      assert cols[..i + 1][1..] == cols[1..][..i];
    } else {
      assert cols[..1][1..] == [];
    }
  }

  lemma {:induction false} ColumnsGrow(cols: seq<Column>, i: nat)
    requires i <= |cols|
    ensures |ColumnsBytes(cols[..i])| <= |ColumnsBytes(cols)|
    decreases |cols| - i
  {
    if i < |cols| {
      ColumnsNext(cols, i);
      ColumnsGrow(cols, i + 1);
    } else {
      assert cols[..i] == cols;
    }
  }

  lemma {:induction false} FewColumns(cols: seq<Column>)
    ensures 3 * |cols| <= |ColumnsBytes(cols)|
  {
    if cols != [] {
      FewColumns(cols[1..]);
    }
  }

  /** One column at off; the end is the offset after it. */
  method PutColumn(a: array<byte>, off: nat, c: Column) returns (end: nat)
    requires off + |ColumnBytes(c)| <= a.Length
    modifies a
    ensures end == off + |ColumnBytes(c)|
    ensures a[off..end] == ColumnBytes(c) && a[..off] == old(a[..off]) && a[end..] == old(a[end..])
  {
    hide ToLE;
    var name := c.name[..if |c.name| < 255 then |c.name| else 255];
    assert name == Cut(c.name);
    Copy(a, off, ToLE(|name|, 2));
    Copy(a, off + 2, name);
    assert a[off..off + 2] == ToLE(|name|, 2);
    end := off + 2 + |name|;
    a[end] := Tag(c.dataType);
    end := end + 1;
    assert a[off..end] == a[off..off + 2] + a[off + 2..end - 1] + [a[end - 1]];
  }

  /** write_metadata, on the buffer of page 0. */
  method WriteMetadata(a: array<byte>, root: nat, cols: seq<Column>)
    requires a.Length == PAGE_SIZE && MetaFits(cols)
    modifies a
    ensures a[..] == MetaBytes(root, cols) + old(a[..])[|MetaBytes(root, cols)|..]
  {
    hide ToLE, ColumnsBytes, ColumnBytes;
    ghost var s0 := a[..];
    Copy(a, 0, ToLE(root, 4));
    Copy(a, 4, ToLE(|cols|, 4));
    assert a[..4] == a[0..0 + 4];
    ghost var head := a[..8];
    assert head == ToLE(root, 4) + ToLE(|cols|, 4) by {
      assert head == a[..4] + a[4..8];
    }
    var off := 8;
    NoColumnBytes(cols);
    for i := 0 to |cols|
      invariant off == 8 + |ColumnsBytes(cols[..i])| <= PAGE_SIZE
      invariant a[..off] == head + ColumnsBytes(cols[..i]) && a[off..] == s0[off..]
    {
      ColumnsNext(cols, i);
      ColumnsGrow(cols, i + 1);
      ghost var s1 := a[..];
      assert s1[..off] == a[..off];
      var end := PutColumn(a, off, cols[i]);
      assert a[..end] == a[..off] + a[off..end];
      assert a[end..] == s1[off..][end - off..];
      assert s0[end..] == s0[off..][end - off..];
      off := end;
    }
    assert cols[..|cols|] == cols;
    assert a[..] == a[..off] + a[off..];
  }

  lemma NoColumnBytes(cols: seq<Column>)
    ensures ColumnsBytes(cols[..0]) == []
  {
  }

  /** The column at off: None if it runs past the buffer, an error if the type
      tag is unknown. */
  function ParseColumn(s: seq<byte>, off: nat): (r: Option<Result<(Column, nat)>>) {
    match TakeChunk(s, off, 2)
    case None => None
    case Some((name, o)) =>
      if o >= |s| then None
      else if s[o] == 0 then Some(Ok((Column(name, Integer), o + 1)))
      else if s[o] == 1 then Some(Ok((Column(name, Text), o + 1)))
      else Some(Err(BadMetadata))
  }

  function ParseColumns(s: seq<byte>, off: nat, n: nat): (r: Option<Result<seq<Column>>>)
    decreases n
  {
    if n == 0 then Some(Ok([]))
    else
      match ParseColumn(s, off)
      case None => None
      case Some(Err(e)) => Some(Err(e))
      case Some(Ok((c, o))) =>
        match ParseColumns(s, o, n - 1)
        case None => None
        case Some(Err(e)) => Some(Err(e))
        case Some(Ok(cs)) => Some(Ok([c] + cs))
  }

  function ParseMeta(s: Page): Option<Result<(nat, seq<Column>)>> {
    match ParseColumns(s, 8, U(s, 4, 4))
    case None => None
    case Some(Err(e)) => Some(Err(e))
    case Some(Ok(cs)) => Some(Ok((U(s, 0, 4), cs)))
  }

  /** What the loop of read_metadata still has to do, given the columns so far. */
  function Continue(cs: seq<Column>, rest: Option<Result<seq<Column>>>): Option<Result<seq<Column>>> {
    match rest
    case None => None
    case Some(Err(e)) => Some(Err(e))
    case Some(Ok(more)) => Some(Ok(cs + more))
  }

  lemma ContinueNext(s: seq<byte>, off: nat, n: nat, cs: seq<Column>)
    requires n > 0
    ensures match ParseColumn(s, off)
            case None => Continue(cs, ParseColumns(s, off, n)) == None
            case Some(Err(e)) => Continue(cs, ParseColumns(s, off, n)) == Some(Err(e))
            case Some(Ok((c, o))) => Continue(cs, ParseColumns(s, off, n)) == Continue(cs + [c], ParseColumns(s, o, n - 1))
  {
    hide ParseColumn;
    match ParseColumn(s, off)
    case None =>
    case Some(Err(_)) =>
    case Some(Ok((c, o))) =>
      match ParseColumns(s, o, n - 1)
      case None =>
      case Some(Err(_)) =>
      case Some(Ok(more)) => assert cs + ([c] + more) == cs + [c] + more;
  }

  lemma ContinueEnd(s: seq<byte>, off: nat, cs: seq<Column>)
    ensures Continue(cs, ParseColumns(s, off, 0)) == Some(Ok(cs))
    ensures Continue([], ParseColumns(s, off, |cs|)) == ParseColumns(s, off, |cs|)
  {
    assert cs + [] == cs;
    match ParseColumns(s, off, |cs|)
    case Some(Ok(more)) => assert [] + more == more;
    case _ =>
  }

  /** read_metadata, of a page on which no column runs past the end. */
  method ReadMetadata(s: Page) returns (r: Result<(nat, seq<Column>)>)
    requires ParseMeta(s).Some?
    ensures ParseMeta(s) == Some(r)
  {
    hide U, ParseColumns, ParseColumn, Continue;
    var root, ncols := U(s, 0, 4), U(s, 4, 4);
    var columns := [];
    var off: nat := 8;
    ghost var all := ParseColumns(s, 8, ncols);
    EmptyContinue(all);
    for i := 0 to ncols
      invariant Continue(columns, ParseColumns(s, off, ncols - i)) == all
    {
      ContinueNext(s, off, ncols - i, columns);
      var c := ReadColumn(s, off);
      if c.Err? {
        return Err(c.error);
      }
      columns := columns + [c.value.0];
      off := c.value.1;
    }
    ContinueEnd(s, off, columns);
    r := Ok((root, columns));
  }

  lemma EmptyContinue(all: Option<Result<seq<Column>>>)
    ensures Continue([], all) == all
  {
    match all
    case Some(Ok(more)) => assert [] + more == more;
    case _ =>
  }

  method ReadColumn(s: Page, off: nat) returns (r: Result<(Column, nat)>)
    requires ParseColumn(s, off).Some?
    ensures ParseColumn(s, off) == Some(r)
  {
    hide U;
    var len := U(s, off, 2);
    var o := off + 2;
    var name := s[o..o + len];
    o := o + len;
    if s[o] > 1 {
      return Err(BadMetadata);
    }
    r := Ok((Column(name, if s[o] == 0 then Integer else Text), o + 1));
  }

  // ------------------------------------------------------------------
  // Round trip
  // ------------------------------------------------------------------

  function CutAll(cols: seq<Column>): (r: seq<Column>)
    ensures |r| == |cols| && forall i :: 0 <= i < |r| ==> r[i] == cols[i].(name := Cut(cols[i].name))
  {
    seq(|cols|, i requires 0 <= i < |cols| => cols[i].(name := Cut(cols[i].name)))
  }

  lemma ColumnRead(s: seq<byte>, off: nat, c: Column)
    requires Holds(s, off, ColumnBytes(c))
    ensures ParseColumn(s, off) == Some(Ok((c.(name := Cut(c.name)), off + |ColumnBytes(c)|)))
  {
    hide Chunk, Cut, Holds;
    Widths();
    var name := Cut(c.name);
    HoldsParts(s, off, Chunk(2, name), [Tag(c.dataType)]);
    ChunkTaken(s, off, 2, name);
    OneByte(s, off + 2 + |name|, Tag(c.dataType));
  }

  lemma OneByte(s: seq<byte>, off: nat, b: byte)
    requires Holds(s, off, [b])
    ensures off < |s| && s[off] == b
  {
    assert s[off..off + 1][0] == s[off];
  }

  lemma {:induction false} ColumnsRead(s: seq<byte>, off: nat, cols: seq<Column>)
    requires Holds(s, off, ColumnsBytes(cols))
    ensures ParseColumns(s, off, |cols|) == Some(Ok(CutAll(cols)))
    decreases |cols|
  {
    hide ColumnBytes, ParseColumn, Holds, Cut;
    if cols != [] {
      var b := ColumnBytes(cols[0]);
      HoldsParts(s, off, b, ColumnsBytes(cols[1..]));
      ColumnRead(s, off, cols[0]);
      ColumnsRead(s, off + |b|, cols[1..]);
      assert CutAll(cols) == [cols[0].(name := Cut(cols[0].name))] + CutAll(cols[1..]);
    }
  }

  /** A page that starts with the metadata of a table reads back with its names cut. */
  lemma MetaRead(s: Page, root: nat, cols: seq<Column>)
    requires Holds(s, 0, MetaBytes(root, cols)) && root < TWO32
    ensures ParseMeta(s) == Some(Ok((root, CutAll(cols))))
  {
    hide ColumnsBytes, ParseColumns, Holds, ToLE, U;
    Widths();
    FewColumns(cols);
    var head := ToLE(root, 4) + ToLE(|cols|, 4);
    HoldsParts(s, 0, head, ColumnsBytes(cols));
    HoldsParts(s, 0, ToLE(root, 4), ToLE(|cols|, 4));
    MetaShort(s, cols);
    NumberTaken(s, 0, 4, root);
    NumberTaken(s, 4, 4, |cols|);
    ColumnsRead(s, 8, cols);
  }

  lemma MetaShort(s: Page, cols: seq<Column>)
    requires Holds(s, 8, ColumnsBytes(cols))
    ensures |cols| < TWO32
  {
    FewColumns(cols);
  }

  /** read_metadata inverts write_metadata exactly when no name exceeds 255 bytes. */
  lemma MetaRoundTripExact(s: Page, root: nat, cols: seq<Column>)
    requires Holds(s, 0, MetaBytes(root, cols)) && root < TWO32
    ensures ParseMeta(s) == Some(Ok((root, cols))) <==> forall c :: c in cols ==> |c.name| <= 255
  {
    hide ParseMeta, MetaBytes, Holds, Cut;
    MetaRead(s, root, cols);
    if forall c :: c in cols ==> |c.name| <= 255 {
      assert CutAll(cols) == cols;
    } else {
      var i :| 0 <= i < |cols| && |cols[i].name| > 255;
      assert CutAll(cols)[i].name != cols[i].name;
    }
  }

  /** After WriteMetadata the page holds the metadata. */
  lemma WrittenHolds(s: Page, tail: seq<byte>, root: nat, cols: seq<Column>)
    requires s == MetaBytes(root, cols) + tail
    ensures Holds(s, 0, MetaBytes(root, cols))
  {
    hide MetaBytes;
    var b := MetaBytes(root, cols);
    assert s[0..0 + |b|] == b;
  }
}
