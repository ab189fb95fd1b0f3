/** Bytes, fixed-width little-endian integers and in-place byte copies. */
module Bytes {
  type byte = b: int | 0 <= b < 256

  const TWO63: int := 0x8000_0000_0000_0000
  const TWO64: int := 0x1_0000_0000_0000_0000
  const TWO32: int := 0x1_0000_0000

  /** A signed 64-bit integer. */
  type i64 = k: int | -0x8000_0000_0000_0000 <= k < 0x8000_0000_0000_0000

  function Pow256(n: nat): (p: nat)
    ensures p > 0
  {
    if n == 0 then 1 else 256 * Pow256(n - 1)
  }

  /** The low n bytes of v, least significant first: a cast to an n-byte
      unsigned integer followed by to_le_bytes. */
  function ToLE(v: nat, n: nat): (s: seq<byte>)
    ensures |s| == n
    decreases n
  {
    if n == 0 then [] else [v % 256] + ToLE(v / 256, n - 1)
  }

  function FromLE(s: seq<byte>): nat {
    if s == [] then 0 else s[0] + 256 * FromLE(s[1..])
  }

  /** A value that fits survives its encoding. */
  lemma {:induction false} FitsLE(v: nat, n: nat)
    requires v < Pow256(n)
    ensures FromLE(ToLE(v, n)) == v
    decreases n
  {
    if n > 0 {
      FitsLE(v / 256, n - 1);
      assert ToLE(v, n)[1..] == ToLE(v / 256, n - 1);
    }
  }

  /** Byte k of an encoding is base-256 digit k of the number. */
  lemma {:induction false} LEDigits(v: nat, n: nat, k: nat)
    requires k < n
    ensures ToLE(v, n)[k] == v / Pow256(k) % 256
    decreases n
  {
    if k > 0 {
      LEDigits(v / 256, n - 1, k - 1);
      DivDiv(v, Pow256(k - 1));
    }
  }

  lemma DivDiv(v: nat, b: nat)
    requires b > 0
    ensures v / 256 / b == v / (256 * b)
  {
    var q := v / 256 / b;
    assert v / 256 == b * q + v / 256 % b;
    QuotientIs(v, 256 * b, q, 256 * (v / 256 % b) + v % 256);
  }

  lemma QuotientIs(v: nat, d: nat, q: nat, r: nat)
    requires d > 0 && v == d * q + r && r < d
    ensures v / d == q
  {
    var e := v / d - q;
    assert d * e == r - v % d;
    Multiples(d, e);
  }

  lemma Multiples(d: int, e: int)
    requires d >= 0
    ensures e > 0 ==> d * e >= d
    ensures e < 0 ==> d * e <= -d
  {
  }

  /** Bytes that were read as a number are its encoding. */
  lemma {:induction false} BackLE(s: seq<byte>)
    ensures ToLE(FromLE(s), |s|) == s
  {
    if s != [] {
      BackLE(s[1..]);
      assert FromLE(s) / 256 == FromLE(s[1..]) && FromLE(s) % 256 == s[0];
    }
  }

  lemma Widths()
    ensures Pow256(2) == 65536 && Pow256(4) == TWO32 && Pow256(8) == TWO64
  {
    assert Pow256(2) == 65536;
    assert Pow256(4) == 256 * (256 * Pow256(2));
    assert Pow256(6) == 256 * (256 * Pow256(4));
    assert Pow256(8) == 256 * (256 * Pow256(6));
  }

  lemma {:induction false} BoundLE(s: seq<byte>)
    ensures FromLE(s) < Pow256(|s|)
  {
    if s != [] {
      BoundLE(s[1..]);
    }
  }

  function Zeros(n: nat): (z: seq<byte>)
    ensures |z| == n
  {
    seq(n, _ => 0)
  }

  lemma {:induction false} ZeroLE(n: nat)
    ensures FromLE(Zeros(n)) == 0
  {
    if n > 0 {
      ZeroLE(n - 1);
      assert Zeros(n)[1..] == Zeros(n - 1);
    }
  }

  /** Two's complement, eight bytes. */
  function I64ToLE(k: i64): (s: seq<byte>)
    ensures |s| == 8
  {
    ToLE(if k < 0 then k + TWO64 else k, 8)
  }

  function I64FromLE(s: seq<byte>): i64
    requires |s| == 8
  {
    BoundLE(s);
    Widths();
    var v := FromLE(s);
    if v >= TWO63 then v - TWO64 else v
  }

  lemma I64RoundTrip(k: i64)
    ensures I64FromLE(I64ToLE(k)) == k
  {
    Widths();
    FitsLE(if k < 0 then k + TWO64 else k, 8);
  }

  /** The n-byte unsigned integer at offset off. */
  function U(s: seq<byte>, off: nat, n: nat): nat
    requires off + n <= |s|
  {
    FromLE(s[off..off + n])
  }

  /** Two and four bytes as a number, least significant first. */
  function Num2(s: seq<byte>, p: nat): nat
    requires p + 2 <= |s|
  {
    s[p] as int + 256 * (s[p + 1] as int)
  }

  function Num4(s: seq<byte>, p: nat): nat
    requires p + 4 <= |s|
  {
    s[p] as int + 256 * (s[p + 1] as int) + 65536 * (s[p + 2] as int) + 16777216 * (s[p + 3] as int)
  }

  lemma TwoBytes(s: seq<byte>, off: nat)
    requires off + 2 <= |s|
    ensures U(s, off, 2) == Num2(s, off)
  {
    var b := s[off..off + 2];
    assert b[1..][1..] == [];
    assert FromLE(b[1..]) == b[1];
  }

  lemma FourBytes(s: seq<byte>, off: nat)
    requires off + 4 <= |s|
    ensures U(s, off, 4) == Num4(s, off)
  {
    var b := s[off..off + 4];
    TwoBytes(s, off + 2);
    assert b[1..][1..] == s[off + 2..off + 4];
    assert FromLE(b[1..]) == b[1] as int + 256 * FromLE(b[1..][1..]);
  }

  /** Only bytes in [lo, hi) may differ. */
  ghost predicate SameOutside(s: seq<byte>, r: seq<byte>, lo: nat, hi: nat) {
    && |s| == |r|
    && forall i :: 0 <= i < |s| && !(lo <= i < hi) ==> r[i] == s[i]
  }

  /** copy_from_slice: overwrite bs.len() bytes of a from off. */
  method Copy(a: array<byte>, off: nat, bs: seq<byte>)
    requires off + |bs| <= a.Length
    modifies a
    ensures SameOutside(old(a[..]), a[..], off, off + |bs|)
    ensures a[off..off + |bs|] == bs
  {
    forall i | 0 <= i < |bs| {
      a[off + i] := bs[i];
    }
  }

  lemma SliceSame(s: seq<byte>, r: seq<byte>, lo: nat, hi: nat, off: nat, n: nat)
    requires SameOutside(s, r, lo, hi)
    requires off + n <= |s| && (off + n <= lo || hi <= off)
    ensures r[off..off + n] == s[off..off + n]
  {
  }

  lemma USame(s: seq<byte>, r: seq<byte>, lo: nat, hi: nat, off: nat, n: nat)
    requires SameOutside(s, r, lo, hi)
    requires off + n <= |s| && (off + n <= lo || hi <= off)
    ensures U(r, off, n) == U(s, off, n)
  {
    SliceSame(s, r, lo, hi, off, n);
  }

  /** write_u16 / write_u32: the value is truncated to n bytes. */
  method WriteU(a: array<byte>, off: nat, n: nat, v: nat)
    requires off + n <= a.Length
    modifies a
    ensures SameOutside(old(a[..]), a[..], off, off + n)
    ensures v < Pow256(n) ==> U(a[..], off, n) == v
  {
    Copy(a, off, ToLE(v, n));
    assert a[..][off..off + n] == a[off..off + n];
    if v < Pow256(n) {
      FitsLE(v, n);
    }
  }

  method WriteI64(a: array<byte>, off: nat, k: i64)
    requires off + 8 <= a.Length
    modifies a
    ensures SameOutside(old(a[..]), a[..], off, off + 8)
    ensures I64FromLE(a[..][off..off + 8]) == k
  {
    Copy(a, off, I64ToLE(k));
    I64RoundTrip(k);
    assert a[..][off..off + 8] == a[off..off + 8];
  }
}
