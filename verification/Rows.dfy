/** Column types, values, and the byte form of a row. Text is its UTF-8 bytes. */
module Rows {
  import opened Bytes
  import opened Results
  import opened Codec

  datatype DataType = Integer | Text

  datatype Value = IntegerValue(n: i64) | TextValue(s: seq<byte>) | Null

  datatype Column = Column(name: seq<byte>, dataType: DataType)

  /** The bytes of one value in a column; a value of another type is zero-filled. */
  function Field(t: DataType, v: Value): seq<byte> {
    match (t, v)
    case (Integer, IntegerValue(n)) => I64ToLE(n)
    case (Text, TextValue(s)) => Chunk(4, s)
    case (Integer, _) => Zeros(8)
    case (Text, _) => Zeros(4)
  }

  /** The bytes of a row: as many fields as there are both columns and values. */
  function RowBytes(cols: seq<Column>, vals: seq<Value>): seq<byte> {
    if cols == [] || vals == [] then [] else Field(cols[0].dataType, vals[0]) + RowBytes(cols[1..], vals[1..])
  }

  lemma {:induction false} RowBytesNext(cols: seq<Column>, vals: seq<Value>, i: nat)
    requires i < |cols| && i < |vals|
    ensures RowBytes(cols[..i + 1], vals[..i + 1]) == RowBytes(cols[..i], vals[..i]) + Field(cols[i].dataType, vals[i])
  {
    hide Field;
    if i > 0 {
      RowBytesNext(cols[1..], vals[1..], i - 1);
      assert cols[..i][1..] == cols[1..][..i - 1] && vals[..i][1..] == vals[1..][..i - 1];
      assert cols[..i + 1][1..] == cols[1..][..i] && vals[..i + 1][1..] == vals[1..][..i];
    } else {
      assert cols[..1][1..] == [] && vals[..1][1..] == [];
    }
  }

  function Shorter(cols: seq<Column>, vals: seq<Value>): (n: nat)
    ensures n <= |cols| && n <= |vals|
  {
    if |cols| < |vals| then |cols| else |vals|
  }

  lemma {:induction false} RowBytesShorter(cols: seq<Column>, vals: seq<Value>)
    ensures var n := Shorter(cols, vals); RowBytes(cols[..n], vals[..n]) == RowBytes(cols, vals)
  {
    var n := Shorter(cols, vals);
    if n > 0 {
      RowBytesShorter(cols[1..], vals[1..]);
      assert cols[..n][1..] == cols[1..][..n - 1] && vals[..n][1..] == vals[1..][..n - 1];
    }
  }

  lemma {:induction false} RowBytesGrow(cols: seq<Column>, vals: seq<Value>, i: nat)
    requires i <= Shorter(cols, vals)
    ensures |RowBytes(cols[..i], vals[..i])| <= |RowBytes(cols, vals)|
    decreases Shorter(cols, vals) - i
  {
    if i < Shorter(cols, vals) {
      RowBytesNext(cols, vals, i);
      RowBytesGrow(cols, vals, i + 1);
    } else {
      RowBytesShorter(cols, vals);
    }
  }

  /** serialized_size */
  method SerializedSize(cols: seq<Column>, vals: seq<Value>) returns (size: nat)
    ensures size == |RowBytes(cols, vals)|
  {
    hide RowBytes;
    size := 0;
    var n := Shorter(cols, vals);
    NoFields(cols, vals);
    for i := 0 to n
      invariant size == |RowBytes(cols[..i], vals[..i])|
    {
      RowBytesNext(cols, vals, i);
      match (cols[i].dataType, vals[i])
      case (Integer, _) => size := size + 8;
      case (Text, TextValue(s)) => size := size + 4 + |s|;
      case (Text, _) => size := size + 4;
    }
    RowBytesShorter(cols, vals);
  }

  lemma NoFields(cols: seq<Column>, vals: seq<Value>)
    ensures RowBytes(cols[..0], vals[..0]) == []
  {
  }

  method PutField(t: DataType, v: Value, buf: array<byte>, offset: nat) returns (end: nat)
    requires offset + |Field(t, v)| <= buf.Length
    modifies buf
    ensures end == offset + |Field(t, v)|
    ensures SameOutside(old(buf[..]), buf[..], offset, end) && buf[offset..end] == Field(t, v)
  {
    hide Chunk, I64ToLE, ToLE;
    match (t, v)
    case (Integer, IntegerValue(n)) =>
      Copy(buf, offset, I64ToLE(n));
      end := offset + 8;
    case (Text, TextValue(s)) =>
      PutText(buf, offset, s);
      end := offset + 4 + |s|;
    case _ =>
      end := offset + if t.Integer? then 8 else 4;
      ZeroFill(buf, offset, end);
  }

  method PutText(buf: array<byte>, offset: nat, s: seq<byte>)
    requires offset + 4 + |s| <= buf.Length
    modifies buf
    ensures SameOutside(old(buf[..]), buf[..], offset, offset + 4 + |s|)
    ensures buf[offset..offset + 4 + |s|] == Chunk(4, s)
  {
    hide ToLE;
    var end := offset + 4 + |s|;
    Copy(buf, offset, ToLE(|s|, 4));
    Copy(buf, offset + 4, s);
    assert buf[offset..offset + 4] == ToLE(|s|, 4);
    assert buf[offset..end] == buf[offset..offset + 4] + buf[offset + 4..end];
  }

  method ZeroFill(buf: array<byte>, lo: nat, hi: nat)
    requires lo <= hi <= buf.Length
    modifies buf
    ensures SameOutside(old(buf[..]), buf[..], lo, hi) && buf[lo..hi] == Zeros(hi - lo)
  {
    for b := lo to hi
      invariant SameOutside(old(buf[..]), buf[..], lo, b)
      invariant forall i :: lo <= i < b ==> buf[i] == 0
    {
      buf[b] := 0;
    }
  }

  /** serialize: fills exactly the serialized size; the rest of the buffer stays. */
  method Serialize(cols: seq<Column>, vals: seq<Value>, buf: array<byte>)
    requires |RowBytes(cols, vals)| <= buf.Length
    modifies buf
    ensures buf[..] == RowBytes(cols, vals) + old(buf[..])[|RowBytes(cols, vals)|..]
  {
    hide RowBytes, Field;
    var offset := 0;
    var n := Shorter(cols, vals);
    ghost var b0 := buf[..];
    NoFields(cols, vals);
    for i := 0 to n
      invariant offset == |RowBytes(cols[..i], vals[..i])| <= buf.Length
      invariant buf[..offset] == RowBytes(cols[..i], vals[..i]) && buf[offset..] == b0[offset..]
    {
      RowBytesNext(cols, vals, i);
      RowBytesGrow(cols, vals, i + 1);
      ghost var b1 := buf[..];
      var end := PutField(cols[i].dataType, vals[i], buf, offset);
      assert buf[..end] == b1[..offset] + buf[offset..end];
      assert buf[end..] == b1[end..];
      assert b1[end..] == b1[offset..][end - offset..];
      assert b0[end..] == b0[offset..][end - offset..];
      offset := end;
    }
    RowBytesShorter(cols, vals);
    assert buf[..] == buf[..offset] + buf[offset..];
  }

  /** One value; None where the slice would run past the buffer. */
  function ParseField(buf: seq<byte>, off: nat, t: DataType): Option<(Value, nat)> {
    match t
    case Integer => if off + 8 <= |buf| then Some((IntegerValue(I64FromLE(buf[off..off + 8])), off + 8)) else None
    case Text =>
      match TakeChunk(buf, off, 4)
      case None => None
      case Some((s, o)) => Some((TextValue(s), o))
  }

  function ParseRow(buf: seq<byte>, off: nat, cols: seq<Column>): (r: Option<seq<Value>>)
    ensures r.Some? ==> |r.value| == |cols|
    decreases |cols|
  {
    if cols == [] then Some([])
    else
      match ParseField(buf, off, cols[0].dataType)
      case None => None
      case Some((v, o)) =>
        match ParseRow(buf, o, cols[1..])
        case None => None
        case Some(vs) => Some([v] + vs)
  }

  /** deserialize, of a buffer it does not run past. */
  method Deserialize(buf: seq<byte>, cols: seq<Column>) returns (vals: seq<Value>)
    requires ParseRow(buf, 0, cols).Some?
    ensures ParseRow(buf, 0, cols) == Some(vals)
  {
    hide I64FromLE, U, ParseRow;
    vals := [];
    var offset: nat := 0;
    ghost var all := ParseRow(buf, 0, cols).value;
    assert cols[0..] == cols;
    for i := 0 to |cols|
      invariant ParseRow(buf, offset, cols[i..]).Some?
      invariant vals + ParseRow(buf, offset, cols[i..]).value == all
    {
      ParseNext(buf, offset, cols, i);
      match cols[i].dataType {
        case Integer =>
          vals := vals + [IntegerValue(I64FromLE(buf[offset..offset + 8]))];
          offset := offset + 8;
        case Text =>
          var len := U(buf, offset, 4);
          offset := offset + 4;
          vals := vals + [TextValue(buf[offset..offset + len])];
          offset := offset + len;
      }
    }
    NoColumns(buf, offset, cols);
    assert vals + [] == vals;
  }

  lemma ParseNext(buf: seq<byte>, off: nat, cols: seq<Column>, i: nat)
    requires i < |cols| && ParseRow(buf, off, cols[i..]).Some?
    ensures ParseField(buf, off, cols[i].dataType).Some?
    ensures var (v, o) := ParseField(buf, off, cols[i].dataType).value;
      && ParseRow(buf, o, cols[i + 1..]).Some?
      && ParseRow(buf, off, cols[i..]).value == [v] + ParseRow(buf, o, cols[i + 1..]).value
  {
    hide ParseField;
    assert cols[i..][1..] == cols[i + 1..];
  }

  lemma NoColumns(buf: seq<byte>, off: nat, cols: seq<Column>)
    ensures ParseRow(buf, off, cols[|cols|..]) == Some([])
  {
  }

  // ------------------------------------------------------------------
  // Round trip
  // ------------------------------------------------------------------

  ghost predicate Fits(t: DataType, v: Value) {
    (t.Integer? && v.IntegerValue?) || (t.Text? && v.TextValue?)
  }

  /** The type check of an insert. */
  ghost predicate Conforms(cols: seq<Column>, vals: seq<Value>) {
    |cols| == |vals| && forall i :: 0 <= i < |cols| ==> Fits(cols[i].dataType, vals[i])
  }

  ghost predicate ShortTexts(vals: seq<Value>) {
    forall i :: 0 <= i < |vals| && vals[i].TextValue? ==> |vals[i].s| < TWO32
  }

  /** What a value reads back as. */
  function ReadBack(t: DataType, v: Value): Value {
    match (t, v)
    case (Integer, IntegerValue(_)) => v
    case (Text, TextValue(_)) => v
    case (Integer, _) => IntegerValue(0)
    case (Text, _) => TextValue([])
  }

  function ReadBackAll(cols: seq<Column>, vals: seq<Value>): seq<Value>
    requires |cols| == |vals|
  {
    seq(|cols|, i requires 0 <= i < |cols| => ReadBack(cols[i].dataType, vals[i]))
  }

  lemma FieldRead(buf: seq<byte>, off: nat, t: DataType, v: Value)
    requires Codec.Holds(buf, off, Field(t, v)) && (v.TextValue? ==> |v.s| < TWO32)
    ensures ParseField(buf, off, t) == Some((ReadBack(t, v), off + |Field(t, v)|))
  {
    hide FromLE, ToLE, Chunk, I64FromLE, I64ToLE;
    Widths();
    match (t, v)
    case (Integer, IntegerValue(n)) => I64RoundTrip(n);
    case (Text, TextValue(s)) => ChunkTaken(buf, off, 4, s);
    case (Integer, _) =>
      ZeroInteger();
    case (Text, _) =>
      ZeroLE(4);
      assert buf[off + 4..off + 4] == [];
  }

  lemma ZeroInteger()
    ensures I64FromLE(Zeros(8)) == 0
  {
    ZeroLE(8);
  }

  /** A serialized row, anywhere in a buffer, reads back; values of the wrong
      type come back as 0 or the empty text. */
  lemma {:induction false} RowRead(buf: seq<byte>, off: nat, cols: seq<Column>, vals: seq<Value>)
    requires |cols| == |vals| && ShortTexts(vals) && Codec.Holds(buf, off, RowBytes(cols, vals))
    ensures ParseRow(buf, off, cols) == Some(ReadBackAll(cols, vals))
    decreases |cols|
  {
    hide Field, ParseField, ReadBack, Codec.Holds;
    if cols != [] {
      var f := Field(cols[0].dataType, vals[0]);
      HoldsParts(buf, off, f, RowBytes(cols[1..], vals[1..]));
      FieldRead(buf, off, cols[0].dataType, vals[0]);
      RowRead(buf, off + |f|, cols[1..], vals[1..]);
      assert ReadBackAll(cols, vals) == [ReadBack(cols[0].dataType, vals[0])] + ReadBackAll(cols[1..], vals[1..]);
    } else {
      assert ReadBackAll(cols, vals) == [];
    }
  }

  /** deserialize undoes serialize on exactly the rows that pass the type check. */
  lemma RoundTripExact(cols: seq<Column>, vals: seq<Value>)
    requires ShortTexts(vals)
    ensures ParseRow(RowBytes(cols, vals), 0, cols) == Some(vals) <==> Conforms(cols, vals)
  {
    hide ParseRow, RowBytes;
    if |cols| == |vals| {
      var b := RowBytes(cols, vals);
      assert b[0..0 + |b|] == b;
      RowRead(b, 0, cols, vals);
      var back := ReadBackAll(cols, vals);
      if Conforms(cols, vals) {
        assert back == vals;
      } else {
        var i :| 0 <= i < |cols| && !Fits(cols[i].dataType, vals[i]);
        assert back[i] != vals[i];
      }
    }
  }
}
