/** Length-prefixed byte strings, shared by the row, metadata and wire formats. */
module Codec {
  import opened Bytes
  import opened Results

  /** A string behind its length in w bytes. */
  function Chunk(w: nat, s: seq<byte>): (b: seq<byte>)
    ensures |b| == w + |s|
  {
    ToLE(|s|, w) + s
  }

  /** The w-byte number at off and the offset after it; None past the end. */
  function TakeU(buf: seq<byte>, off: nat, w: nat): (r: Option<(nat, nat)>)
    ensures r.Some? <==> off + w <= |buf|
    ensures r.Some? ==> r.value.1 == off + w
  {
    if off + w <= |buf| then Some((U(buf, off, w), off + w)) else None
  }

  /** The string at off and the offset after it; None if either part is cut off. */
  function TakeChunk(buf: seq<byte>, off: nat, w: nat): (r: Option<(seq<byte>, nat)>)
    ensures r.Some? ==> off + w <= r.value.1 <= |buf|
  {
    match TakeU(buf, off, w)
    case None => None
    case Some((len, o)) => if o + len <= |buf| then Some((buf[o..o + len], o + len)) else None
  }

  /** The bytes s stand in buf at off. */
  ghost predicate Holds(buf: seq<byte>, off: nat, s: seq<byte>) {
    off + |s| <= |buf| && buf[off..off + |s|] == s
  }

  lemma HoldsParts(buf: seq<byte>, off: nat, a: seq<byte>, b: seq<byte>)
    ensures Holds(buf, off, a + b) <==> Holds(buf, off, a) && Holds(buf, off + |a|, b)
  {
    if off + |a + b| <= |buf| {
      var x := buf[off..off + |a + b|];
      assert x[..|a|] == buf[off..off + |a|];
      assert x[|a|..] == buf[off + |a|..off + |a| + |b|];
      assert (a + b)[..|a|] == a && (a + b)[|a|..] == b;
      assert x == x[..|a|] + x[|a|..];
    }
  }

  lemma NumberTaken(buf: seq<byte>, off: nat, w: nat, v: nat)
    requires Holds(buf, off, ToLE(v, w)) && v < Pow256(w)
    ensures TakeU(buf, off, w) == Some((v, off + w))
  {
    FitsLE(v, w);
  }

  /** A string whose length fits its prefix reads back. */
  lemma ChunkTaken(buf: seq<byte>, off: nat, w: nat, s: seq<byte>)
    requires Holds(buf, off, Chunk(w, s)) && |s| < Pow256(w)
    ensures TakeChunk(buf, off, w) == Some((s, off + w + |s|))
  {
    HoldsParts(buf, off, ToLE(|s|, w), s);
    NumberTaken(buf, off, w, |s|);
  }

  /** Whatever number was read, its encoding stands there. */
  lemma NumberHeld(buf: seq<byte>, off: nat, w: nat)
    requires off + w <= |buf|
    ensures U(buf, off, w) < Pow256(w) && Holds(buf, off, ToLE(U(buf, off, w), w))
  {
    BoundLE(buf[off..off + w]);
    BackLE(buf[off..off + w]);
  }

  /** Whatever string was read, it stands there behind its length. */
  lemma ChunkHeld(buf: seq<byte>, off: nat, w: nat)
    requires TakeChunk(buf, off, w).Some?
    ensures var (s, o) := TakeChunk(buf, off, w).value;
      o == off + w + |s| && |s| < Pow256(w) && Holds(buf, off, Chunk(w, s))
  {
    hide FromLE, ToLE, Pow256;
    var (s, o) := TakeChunk(buf, off, w).value;
    NumberHeld(buf, off, w);
    HoldsParts(buf, off, ToLE(|s|, w), s);
  }
}
