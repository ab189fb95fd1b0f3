/** The wire protocol: framed messages, and result rows as their payload. */
module Protocol {
  import opened Bytes
  import opened Results
  import opened Codec

  datatype Message =
    | Query(text: seq<byte>)
    | Success(text: seq<byte>)
    | Failure(text: seq<byte>)
    | Rows(headers: seq<seq<byte>>, rows: seq<seq<seq<byte>>>)

  const MSG_QUERY: byte := 1
  const MSG_OK: byte := 2
  const MSG_ERROR: byte := 3
  const MSG_ROWS: byte := 4

  // ------------------------------------------------------------------
  // Encoding
  // ------------------------------------------------------------------

  function StringsBytes(ss: seq<seq<byte>>): seq<byte> {
    if ss == [] then [] else Chunk(4, ss[0]) + StringsBytes(ss[1..])
  }

  function CellsBytes(rows: seq<seq<seq<byte>>>): seq<byte> {
    if rows == [] then [] else StringsBytes(rows[0]) + CellsBytes(rows[1..])
  }

  function RowsBytes(headers: seq<seq<byte>>, rows: seq<seq<seq<byte>>>): seq<byte> {
    ToLE(|headers|, 4) + (StringsBytes(headers) + (ToLE(|rows|, 4) + CellsBytes(rows)))
  }

  function Payload(m: Message): seq<byte> {
    match m
    case Rows(headers, rows) => RowsBytes(headers, rows)
    case _ => m.text
  }

  function TypeByte(m: Message): byte {
    match m
    case Query(_) => MSG_QUERY
    case Success(_) => MSG_OK
    case Failure(_) => MSG_ERROR
    case Rows(_, _) => MSG_ROWS
  }

  /** A message on the wire: length of type and payload, type, payload. */
  function Frame(m: Message): seq<byte> {
    ToLE(|Payload(m)| + 1, 4) + ([TypeByte(m)] + Payload(m))
  }

  lemma {:induction false} StringsNext(ss: seq<seq<byte>>, i: nat)
    requires i < |ss|
    ensures StringsBytes(ss[..i + 1]) == StringsBytes(ss[..i]) + ToLE(|ss[i]|, 4) + ss[i]
  {
    hide ToLE;
    if i > 0 {
      StringsNext(ss[1..], i - 1);
      assert ss[..i][1..] == ss[1..][..i - 1];
      assert ss[..i + 1][1..] == ss[1..][..i];
    } else {
      assert ss[..1][1..] == [];
    }
  }

  lemma {:induction false} CellsNext(rows: seq<seq<seq<byte>>>, i: nat)
    requires i < |rows|
    ensures CellsBytes(rows[..i + 1]) == CellsBytes(rows[..i]) + StringsBytes(rows[i])
  {
    hide StringsBytes;
    if i > 0 {
      CellsNext(rows[1..], i - 1);
      assert rows[..i][1..] == rows[1..][..i - 1];
      assert rows[..i + 1][1..] == rows[1..][..i];
    } else {
      assert rows[..1][1..] == [];
    }
  }

  lemma NoStrings(ss: seq<seq<byte>>)
    ensures StringsBytes(ss[..0]) == [] && StringsBytes(ss[..|ss|]) == StringsBytes(ss)
  {
    assert ss[..|ss|] == ss;
  }

  lemma NoCells(rows: seq<seq<seq<byte>>>)
    ensures CellsBytes(rows[..0]) == [] && CellsBytes(rows[..|rows|]) == CellsBytes(rows)
  {
    assert rows[..|rows|] == rows;
  }

  /** One loop over strings, onto what is there already. */
  method AppendStrings(out0: seq<byte>, ss: seq<seq<byte>>) returns (out: seq<byte>)
    ensures out == out0 + StringsBytes(ss)
  {
    hide StringsBytes, ToLE;
    out := out0;
    NoStrings(ss);
    assert out0 + [] == out0;
    for i := 0 to |ss|
      invariant out == out0 + StringsBytes(ss[..i])
    {
      StringsNext(ss, i);
      out := out + ToLE(|ss[i]|, 4);
      out := out + ss[i];
    }
  }

  /** encode_rows */
  method EncodeRows(headers: seq<seq<byte>>, rows: seq<seq<seq<byte>>>) returns (out: seq<byte>)
    ensures out == RowsBytes(headers, rows)
  {
    hide StringsBytes, CellsBytes, ToLE;
    out := AppendStrings(ToLE(|headers|, 4), headers);
    out := out + ToLE(|rows|, 4);
    ghost var out0 := out;
    NoCells(rows);
    for i := 0 to |rows|
      invariant out == out0 + CellsBytes(rows[..i])
    {
      CellsNext(rows, i);
      out := AppendStrings(out, rows[i]);
    }
  }

  /** The receiving end of a byte stream. */
  class Sink {
    var written: seq<byte>

    constructor ()
      ensures written == []
    {
      written := [];
    }

    method WriteAll(bytes: seq<byte>)
      modifies this
      ensures written == old(written) + bytes
    {
      written := written + bytes;
    }

    /** write_message */
    method WriteMessage(m: Message)
      modifies this
      ensures written == old(written) + Frame(m)
    {
      hide RowsBytes, ToLE;
      var payload;
      match m {
        case Rows(headers, rows) => payload := EncodeRows(headers, rows);
        case _ => payload := m.text;
      }
      WriteAll(ToLE(|payload| + 1, 4));
      WriteAll([TypeByte(m)]);
      WriteAll(payload);
    }
  }

  // ------------------------------------------------------------------
  // Decoding
  // ------------------------------------------------------------------

  /** n strings from off, and the offset after them. */
  function ParseStrings(buf: seq<byte>, off: nat, n: nat): (r: Option<(seq<seq<byte>>, nat)>)
    ensures r.Some? ==> |r.value.0| == n
    decreases n
  {
    if n == 0 then Some(([], off))
    else
      match TakeChunk(buf, off, 4)
      case None => None
      case Some((s, o)) =>
        match ParseStrings(buf, o, n - 1)
        case None => None
        case Some((ss, e)) => Some(([s] + ss, e))
  }

  /** Every row has w cells. */
  predicate Wide(rows: seq<seq<seq<byte>>>, w: nat) {
    forall i :: 0 <= i < |rows| ==> |rows[i]| == w
  }

  /** n rows of w cells each. */
  function ParseCells(buf: seq<byte>, off: nat, n: nat, w: nat): (r: Option<(seq<seq<seq<byte>>>, nat)>)
    ensures r.Some? ==> |r.value.0| == n && Wide(r.value.0, w)
    decreases n
  {
    if n == 0 then Some(([], off))
    else
      match ParseStrings(buf, off, w)
      case None => None
      case Some((row, o)) =>
        match ParseCells(buf, o, n - 1, w)
        case None => None
        case Some((rows, e)) => Some(([row] + rows, e))
  }

  function ParseRows(buf: seq<byte>): Result<Message> {
    match TakeU(buf, 0, 4)
    case None => Err(TruncatedRows)
    case Some((ncols, o)) =>
      match ParseStrings(buf, o, ncols)
      case None => Err(TruncatedRows)
      case Some((headers, o1)) =>
        match TakeU(buf, o1, 4)
        case None => Err(TruncatedRows)
        case Some((nrows, o2)) =>
          match ParseCells(buf, o2, nrows, ncols)
          case None => Err(TruncatedRows)
          case Some((rows, _)) => Ok(Rows(headers, rows))
  }

  lemma StringsStep(buf: seq<byte>, off: nat, n: nat, done: seq<seq<byte>>)
    requires n > 0
    ensures match TakeChunk(buf, off, 4)
            case None => ParseStrings(buf, off, n) == None
            case Some((s, o)) =>
              Prepend(done, ParseStrings(buf, off, n)) == Prepend(done + [s], ParseStrings(buf, o, n - 1))
  {
    hide TakeChunk;
    match TakeChunk(buf, off, 4)
    case None =>
    case Some((s, o)) =>
      match ParseStrings(buf, o, n - 1)
      case None =>
      case Some((ss, _)) => assert done + ([s] + ss) == done + [s] + ss;
  }

  /** A parse result behind the items read already. */
  function Prepend<T>(done: seq<T>, r: Option<(seq<T>, nat)>): Option<(seq<T>, nat)> {
    match r
    case None => None
    case Some((more, e)) => Some((done + more, e))
  }

  lemma PrependNone<T>(r: Option<(seq<T>, nat)>, done: seq<T>, off: nat)
    ensures Prepend([], r) == r && Prepend(done, Some(([], off))) == Some((done, off))
  {
    assert done + [] == done;
    match r
    case None =>
    case Some((more, _)) => assert [] + more == more;
  }

  /** The loop of read_str calls. */
  method TakeStrings(buf: seq<byte>, off: nat, n: nat) returns (r: Option<(seq<seq<byte>>, nat)>)
    ensures r == ParseStrings(buf, off, n)
  {
    hide TakeChunk, Prepend;
    var ss := [];
    var o := off;
    PrependNone(ParseStrings(buf, off, n), [], 0);
    for i := 0 to n
      invariant Prepend(ss, ParseStrings(buf, o, n - i)) == ParseStrings(buf, off, n)
    {
      StringsStep(buf, o, n - i, ss);
      var s := TakeChunk(buf, o, 4);
      if s.None? {
        PrependEmpty(ss);
        return None;
      }
      ss := ss + [s.value.0];
      o := s.value.1;
    }
    PrependNone(None, ss, o);
    r := Some((ss, o));
  }

  lemma PrependEmpty<T>(done: seq<T>)
    ensures Prepend(done, None) == None
  {
  }

  lemma CellsStep(buf: seq<byte>, off: nat, n: nat, w: nat, done: seq<seq<seq<byte>>>)
    requires n > 0
    ensures match ParseStrings(buf, off, w)
            case None => ParseCells(buf, off, n, w) == None
            case Some((row, o)) =>
              Prepend(done, ParseCells(buf, off, n, w)) == Prepend(done + [row], ParseCells(buf, o, n - 1, w))
  {
    hide ParseStrings;
    match ParseStrings(buf, off, w)
    case None =>
    case Some((row, o)) =>
      match ParseCells(buf, o, n - 1, w)
      case None =>
      case Some((rows, _)) => assert done + ([row] + rows) == done + [row] + rows;
  }

  /** decode_rows */
  method DecodeRows(buf: seq<byte>) returns (r: Result<Message>)
    ensures r == ParseRows(buf)
  {
    hide TakeU, TakeChunk, ParseStrings, Prepend, ParseCells;
    var ncols := TakeU(buf, 0, 4);
    if ncols.None? {
      return Err(TruncatedRows);
    }
    var headers := TakeStrings(buf, ncols.value.1, ncols.value.0);
    if headers.None? {
      return Err(TruncatedRows);
    }
    var nrows := TakeU(buf, headers.value.1, 4);
    if nrows.None? {
      return Err(TruncatedRows);
    }
    var rows, o := [], nrows.value.1;
    ghost var all := ParseCells(buf, o, nrows.value.0, ncols.value.0);
    PrependNone(all, [], 0);
    for i := 0 to nrows.value.0
      invariant Prepend(rows, ParseCells(buf, o, nrows.value.0 - i, ncols.value.0)) == all
    {
      CellsStep(buf, o, nrows.value.0 - i, ncols.value.0, rows);
      var row := TakeStrings(buf, o, ncols.value.0);
      if row.None? {
        PrependEmpty(rows);
        return Err(TruncatedRows);
      }
      rows := rows + [row.value.0];
      o := row.value.1;
    }
    LastCells(buf, o, ncols.value.0, rows);
    r := Ok(Rows(headers.value.0, rows));
  }

  lemma LastCells(buf: seq<byte>, o: nat, w: nat, rows: seq<seq<seq<byte>>>)
    ensures Prepend(rows, ParseCells(buf, o, 0, w)) == Some((rows, o))
  {
    assert rows + [] == rows;
  }

  /** The message a payload of the given type stands for. */
  function FromPayload(tag: byte, payload: seq<byte>): Result<Message> {
    if tag == MSG_QUERY then Ok(Query(payload))
    else if tag == MSG_OK then Ok(Success(payload))
    else if tag == MSG_ERROR then Ok(Failure(payload))
    else if tag == MSG_ROWS then ParseRows(payload)
    else Err(UnknownMessage)
  }

  /** The message at off and the offset after it. */
  function ParseMessage(buf: seq<byte>, off: nat): Result<(Message, nat)> {
    match TakeU(buf, off, 4)
    case None => Err(ShortRead)
    case Some((len, o)) =>
      if len < 1 then Err(EmptyFrame)
      else if o + len > |buf| then Err(ShortRead)
      else
        match FromPayload(buf[o], buf[o + 1..o + len])
        case Err(e) => Err(e)
        case Ok(m) => Ok((m, o + len))
  }

  /** What reading at p must give, from the bytes alone: four of length, least
      significant first, one of type, and the payload; everything else is an
      error. Reading stops at e, behind the frame if it was whole. */
  predicate FrameResult(d: seq<byte>, p: nat, r: Result<Message>, e: nat) {
    if p + 4 > |d| then r == Err(ShortRead)
    else
      var len := Num4(d, p);
      if len == 0 then r == Err(EmptyFrame) && e == p + 4
      else if p + 4 + len > |d| then r == Err(ShortRead)
      else
        var tag, payload := d[p + 4], d[p + 5..p + 4 + len];
        && e == p + 4 + len
        && (tag == 1 ==> r == Ok(Query(payload)))
        && (tag == 2 ==> r == Ok(Success(payload)))
        && (tag == 3 ==> r == Ok(Failure(payload)))
        && (tag == 4 ==> r == ParseRows(payload))
        && (tag < 1 || tag > 4 ==> r == Err(UnknownMessage))
  }

  /** The sending end: what has arrived, and how much of it was read. */
  class Source {
    const data: seq<byte>
    var pos: nat

    ghost predicate Valid()
      reads this
    {
      pos <= |data|
    }

    constructor (data: seq<byte>)
      ensures Valid() && this.data == data && pos == 0
    {
      this.data, pos := data, 0;
    }

    /** read_exact of n bytes; a short stream is an error. */
    method ReadExact(n: nat) returns (r: Result<seq<byte>>)
      requires Valid()
      modifies this
      ensures Valid()
      ensures r.Ok? <==> old(pos) + n <= |data|
      ensures r.Ok? ==> r.value == data[old(pos)..old(pos) + n] && pos == old(pos) + n
      ensures r.Err? ==> r.error == ShortRead
    {
      if pos + n > |data| {
        pos := |data|;
        return Err(ShortRead);
      }
      r := Ok(data[pos..pos + n]);
      pos := pos + n;
    }

    /** read_message */
    method ReadMessage() returns (r: Result<Message>)
      requires Valid()
      modifies this
      ensures Valid()
      ensures match ParseMessage(data, old(pos))
              case Ok((m, e)) => r == Ok(m) && pos == e
              case Err(e) => r == Err(e)
      ensures FrameResult(data, old(pos), r, pos)
    {
      hide ParseRows, FromLE;
      ghost var p0 := pos;
      if p0 + 4 <= |data| {
        FourBytes(data, p0);
      }
      var head := ReadExact(4);
      if head.Err? {
        return Err(ShortRead);
      }
      var len := FromLE(head.value);
      assert TakeU(data, p0, 4) == Some((len, p0 + 4));
      if len < 1 {
        return Err(EmptyFrame);
      }
      var tag := ReadExact(1);
      if tag.Err? {
        return Err(ShortRead);
      }
      var payload := ReadExact(len - 1);
      if payload.Err? {
        return Err(ShortRead);
      }
      assert tag.value[0] == data[p0 + 4];
      if tag.value[0] == MSG_ROWS {
        r := DecodeRows(payload.value);
      } else {
        r := FromPayload(tag.value[0], payload.value);
      }
    }
  }

  // ------------------------------------------------------------------
  // Round trip
  // ------------------------------------------------------------------

  /** Every length and count fits its four bytes. */
  ghost predicate Sized(m: Message) {
    && |Payload(m)| + 1 < TWO32
    && (m.Rows? ==> |m.rows| < TWO32)
  }

  /** Every row has one cell per header. */
  ghost predicate Rectangular(m: Message) {
    m.Rows? ==> Wide(m.rows, |m.headers|)
  }

  /** Lengths that fit four bytes. */
  predicate Short(ss: seq<seq<byte>>) {
    forall s :: s in ss ==> |s| < TWO32
  }

  predicate AllShort(rows: seq<seq<seq<byte>>>) {
    forall i :: 0 <= i < |rows| ==> Short(rows[i])
  }

  /** Rows that a payload can hold: one cell per header, lengths and counts
      within four bytes. */
  predicate Encodable(headers: seq<seq<byte>>, rows: seq<seq<seq<byte>>>) {
    && |headers| < TWO32 && |rows| < TWO32
    && Short(headers) && AllShort(rows) && Wide(rows, |headers|)
  }

  lemma {:induction false} StringsRead(buf: seq<byte>, off: nat, ss: seq<seq<byte>>)
    requires Holds(buf, off, StringsBytes(ss)) && Short(ss)
    ensures ParseStrings(buf, off, |ss|) == Some((ss, off + |StringsBytes(ss)|))
    decreases |ss|
  {
    hide Holds, Chunk, TakeChunk;
    if ss != [] {
      Widths();
      assert ss[0] in ss && Short(ss[1..]);
      HoldsParts(buf, off, Chunk(4, ss[0]), StringsBytes(ss[1..]));
      ChunkTaken(buf, off, 4, ss[0]);
      StringsRead(buf, off + 4 + |ss[0]|, ss[1..]);
      assert [ss[0]] + ss[1..] == ss;
    }
  }

  lemma {:induction false} CellsRead(buf: seq<byte>, off: nat, rows: seq<seq<seq<byte>>>, w: nat)
    requires Holds(buf, off, CellsBytes(rows)) && AllShort(rows) && Wide(rows, w)
    ensures ParseCells(buf, off, |rows|, w) == Some((rows, off + |CellsBytes(rows)|))
    decreases |rows|
  {
    hide Holds, StringsBytes, ParseStrings;
    if rows != [] {
      HoldsParts(buf, off, StringsBytes(rows[0]), CellsBytes(rows[1..]));
      StringsRead(buf, off, rows[0]);
      assert Wide(rows[1..], w) && AllShort(rows[1..]);
      CellsRead(buf, off + |StringsBytes(rows[0])|, rows[1..], w);
      assert [rows[0]] + rows[1..] == rows;
    }
  }

  lemma {:induction false} FewStrings(ss: seq<seq<byte>>)
    ensures |ss| <= |StringsBytes(ss)|
  {
    if ss != [] {
      FewStrings(ss[1..]);
    }
  }

  lemma {:induction false} ShortStrings(ss: seq<seq<byte>>)
    ensures |StringsBytes(ss)| < TWO32 ==> Short(ss)
  {
    if ss != [] {
      ShortStrings(ss[1..]);
    }
  }

  lemma {:induction false} ShortCells(rows: seq<seq<seq<byte>>>)
    ensures |CellsBytes(rows)| < TWO32 ==> AllShort(rows)
  {
    if rows != [] {
      ShortStrings(rows[0]);
      ShortCells(rows[1..]);
      hide StringsBytes, Short;
      assert forall i :: 1 <= i < |rows| ==> rows[i] == rows[1..][i - 1];
    }
  }

  lemma SizedRows(headers: seq<seq<byte>>, rows: seq<seq<seq<byte>>>)
    requires Sized(Rows(headers, rows)) && Rectangular(Rows(headers, rows))
    ensures Encodable(headers, rows)
  {
    FewStrings(headers);
    ShortStrings(headers);
    ShortCells(rows);
  }

  /** A payload that begins with the bytes of encodable rows decodes to them. */
  lemma RowsRead(buf: seq<byte>, headers: seq<seq<byte>>, rows: seq<seq<seq<byte>>>)
    requires Encodable(headers, rows) && Holds(buf, 0, RowsBytes(headers, rows))
    ensures ParseRows(buf) == Ok(Rows(headers, rows))
  {
    hide Holds, StringsBytes, CellsBytes, ParseStrings, ParseCells, ToLE, TakeU, Short, AllShort, Wide;
    Widths();
    var tail := ToLE(|rows|, 4) + CellsBytes(rows);
    HoldsParts(buf, 0, ToLE(|headers|, 4), StringsBytes(headers) + tail);
    NumberTaken(buf, 0, 4, |headers|);
    HoldsParts(buf, 4, StringsBytes(headers), tail);
    StringsRead(buf, 4, headers);
    var o := 4 + |StringsBytes(headers)|;
    HoldsParts(buf, o, ToLE(|rows|, 4), CellsBytes(rows));
    NumberTaken(buf, o, 4, |rows|);
    CellsRead(buf, o + 4, rows, |headers|);
  }

  lemma {:induction false} StringsHeld(buf: seq<byte>, off: nat, n: nat)
    requires ParseStrings(buf, off, n).Some? && off <= |buf|
    ensures var (ss, e) := ParseStrings(buf, off, n).value;
      Short(ss) && e == off + |StringsBytes(ss)| && Holds(buf, off, StringsBytes(ss))
    decreases n
  {
    hide Holds, TakeChunk, Chunk;
    if n > 0 {
      Widths();
      ChunkHeld(buf, off, 4);
      var (s, o) := TakeChunk(buf, off, 4).value;
      StringsHeld(buf, o, n - 1);
      var (ss, e) := ParseStrings(buf, o, n - 1).value;
      HoldsParts(buf, off, Chunk(4, s), StringsBytes(ss));
      assert ([s] + ss)[1..] == ss;
    } else {
      NothingHeld(buf, off);
    }
  }

  lemma NothingHeld(buf: seq<byte>, off: nat)
    requires off <= |buf|
    ensures Holds(buf, off, [])
  {
  }

  lemma {:induction false} CellsHeld(buf: seq<byte>, off: nat, n: nat, w: nat)
    requires ParseCells(buf, off, n, w).Some? && off <= |buf|
    ensures var (rows, e) := ParseCells(buf, off, n, w).value;
      AllShort(rows) && e == off + |CellsBytes(rows)| && Holds(buf, off, CellsBytes(rows))
    decreases n
  {
    hide Holds, StringsBytes, ParseStrings, Short;
    if n > 0 {
      StringsHeld(buf, off, w);
      var (row, o) := ParseStrings(buf, off, w).value;
      HeldInside(buf, off, StringsBytes(row));
      CellsHeld(buf, o, n - 1, w);
      var (rows, e) := ParseCells(buf, o, n - 1, w).value;
      HoldsParts(buf, off, StringsBytes(row), CellsBytes(rows));
      assert ([row] + rows)[1..] == rows;
    } else {
      NothingHeld(buf, off);
    }
  }

  lemma HeldInside(buf: seq<byte>, off: nat, s: seq<byte>)
    requires Holds(buf, off, s)
    ensures off + |s| <= |buf|
  {
  }

  /** Whatever a payload decodes to, it begins with its bytes. */
  lemma RowsHeld(buf: seq<byte>)
    requires ParseRows(buf).Ok?
    ensures ParseRows(buf).value.Rows?
    ensures var m := ParseRows(buf).value; Encodable(m.headers, m.rows) && Holds(buf, 0, RowsBytes(m.headers, m.rows))
  {
    hide Holds, StringsBytes, CellsBytes, ParseStrings, ParseCells, ToLE, U, Short, AllShort, Wide;
    Widths();
    NumberHeld(buf, 0, 4);
    var n := U(buf, 0, 4);
    StringsHeld(buf, 4, n);
    var (headers, o) := ParseStrings(buf, 4, n).value;
    HeldInside(buf, 4, StringsBytes(headers));
    NumberHeld(buf, o, 4);
    var k := U(buf, o, 4);
    CellsHeld(buf, o + 4, k, n);
    var rows := ParseCells(buf, o + 4, k, n).value.0;
    var tail := ToLE(k, 4) + CellsBytes(rows);
    HoldsParts(buf, o, ToLE(k, 4), CellsBytes(rows));
    HoldsParts(buf, 4, StringsBytes(headers), tail);
    HoldsParts(buf, 0, ToLE(n, 4), StringsBytes(headers) + tail);
  }

  /** decode_rows, for any bytes: it returns rows exactly if the payload begins
      with the bytes of those rows, and calls it truncated if there are none. */
  lemma DecodeExact(buf: seq<byte>, headers: seq<seq<byte>>, rows: seq<seq<seq<byte>>>)
    ensures ParseRows(buf) == Ok(Rows(headers, rows))
      <==> Encodable(headers, rows) && Holds(buf, 0, RowsBytes(headers, rows))
    ensures ParseRows(buf) == Err(TruncatedRows)
      <==> !exists h, r :: Encodable(h, r) && Holds(buf, 0, RowsBytes(h, r))
  {
    hide ParseRows, RowsBytes, Encodable, Holds;
    RowsOnly(buf);
    if ParseRows(buf).Ok? {
      RowsHeld(buf);
    }
    forall h, r | Encodable(h, r) && Holds(buf, 0, RowsBytes(h, r)) ensures ParseRows(buf) == Ok(Rows(h, r)) {
      RowsRead(buf, h, r);
    }
  }

  lemma RowsOnly(buf: seq<byte>)
    ensures ParseRows(buf).Err? ==> ParseRows(buf) == Err(TruncatedRows)
    ensures ParseRows(buf).Ok? ==> ParseRows(buf).value.Rows?
  {
    hide TakeU, ParseStrings, ParseCells;
  }

  /** A payload cut short anywhere is an error. */
  lemma CutPayload(headers: seq<seq<byte>>, rows: seq<seq<seq<byte>>>, n: nat)
    requires Encodable(headers, rows) && n < |RowsBytes(headers, rows)|
    ensures ParseRows(RowsBytes(headers, rows)[..n]) == Err(TruncatedRows)
  {
    hide ParseRows, RowsBytes, Encodable;
    var whole := RowsBytes(headers, rows);
    RowsOnly(whole[..n]);
    if ParseRows(whole[..n]).Ok? {
      RowsHeld(whole[..n]);
      var m := ParseRows(whole[..n]).value;
      var b := RowsBytes(m.headers, m.rows);
      assert whole[0..0 + |b|] == whole[..n][0..0 + |b|];
      RowsRead(whole, m.headers, m.rows);
      Whole(whole);
      RowsRead(whole, headers, rows);
      assert false;
    }
  }

  lemma Whole(s: seq<byte>)
    ensures Holds(s, 0, s)
  {
    assert s[0..|s|] == s;
  }

  lemma PayloadRead(m: Message)
    requires Sized(m) && Rectangular(m)
    ensures FromPayload(TypeByte(m), Payload(m)) == Ok(m)
  {
    hide RowsBytes, ParseRows;
    if m.Rows? {
      SizedRows(m.headers, m.rows);
      Whole(Payload(m));
      RowsRead(Payload(m), m.headers, m.rows);
    }
  }

  /** Where a frame stands in a stream, its payload is found. */
  lemma FrameParts(buf: seq<byte>, off: nat, m: Message)
    requires Holds(buf, off, Frame(m)) && Sized(m)
    ensures var n := |Payload(m)|;
      && TakeU(buf, off, 4) == Some((n + 1, off + 4))
      && off + 4 + n + 1 <= |buf| && buf[off + 4] == TypeByte(m) && buf[off + 5..off + 5 + n] == Payload(m)
  {
    hide Payload, TypeByte, ToLE, TakeU;
    Widths();
    var body := [TypeByte(m)] + Payload(m);
    HoldsParts(buf, off, ToLE(|Payload(m)| + 1, 4), body);
    NumberTaken(buf, off, 4, |Payload(m)| + 1);
    HoldsParts(buf, off + 4, [TypeByte(m)], Payload(m));
    assert buf[off + 4..off + 5][0] == buf[off + 4];
  }

  /** A message that was read back is rectangular. */
  lemma OnlyRectangular(tag: byte, payload: seq<byte>)
    ensures FromPayload(tag, payload).Ok? ==> Rectangular(FromPayload(tag, payload).value)
  {
    hide TakeU, ParseStrings, ParseCells;
  }

  /** Anywhere in a stream, reading undoes writing exactly for rectangular rows. */
  lemma MessageRoundTripExact(buf: seq<byte>, off: nat, m: Message)
    requires Holds(buf, off, Frame(m)) && Sized(m)
    ensures ParseMessage(buf, off) == Ok((m, off + |Frame(m)|)) <==> Rectangular(m)
  {
    hide Holds, Payload, ParseRows, FromPayload, TakeU, Rectangular;
    FrameParts(buf, off, m);
    if Rectangular(m) {
      PayloadRead(m);
    } else {
      OnlyRectangular(TypeByte(m), Payload(m));
    }
  }

  function Frames(ms: seq<Message>): seq<byte> {
    if ms == [] then [] else Frame(ms[0]) + Frames(ms[1..])
  }

  /** The first n messages from off, and the offset after them. */
  function ParseMany(buf: seq<byte>, off: nat, n: nat): Result<(seq<Message>, nat)>
    decreases n
  {
    if n == 0 then Ok(([], off))
    else
      match ParseMessage(buf, off)
      case Err(e) => Err(e)
      case Ok((m, o)) =>
        match ParseMany(buf, o, n - 1)
        case Err(e) => Err(e)
        case Ok((ms, e)) => Ok(([m] + ms, e))
  }

  /** A stream of messages reads back as exactly those messages, whatever
      follows them. */
  lemma {:induction false} StreamRoundTrip(buf: seq<byte>, off: nat, ms: seq<Message>)
    requires Holds(buf, off, Frames(ms))
    requires forall m :: m in ms ==> Sized(m) && Rectangular(m)
    ensures ParseMany(buf, off, |ms|) == Ok((ms, off + |Frames(ms)|))
    decreases |ms|
  {
    hide Holds, Frame, ParseMessage, Sized, Rectangular;
    if ms != [] {
      HoldsParts(buf, off, Frame(ms[0]), Frames(ms[1..]));
      assert ms[0] in ms;
      MessageRoundTripExact(buf, off, ms[0]);
      StreamRoundTrip(buf, off + |Frame(ms[0])|, ms[1..]);
      assert [ms[0]] + ms[1..] == ms;
    }
  }
}
