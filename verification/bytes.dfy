/** Fixed-width integers as the client lays them out in memory, and the small
    byte-level vocabulary shared by the wire encoders: 32-bit words in
    little-endian order (the host order of an x86 Windows machine), optional
    values, ASCII text and decimal digits. */
module Bytes {

  /** One octet of memory or of the wire. */
  newtype byte = x: int | 0 <= x < 256

  const Int32Min: int := -0x8000_0000
  const Int32Max: int := 0x7FFF_FFFF
  const Two32: int := 0x1_0000_0000

  /** A C `int` on the platforms the client targets. */
  type int32 = x: int | -0x8000_0000 <= x <= 0x7FFF_FFFF

  /** A C `unsigned int`. */
  type uint32 = x: int | 0 <= x <= 0xFFFF_FFFF

  datatype Option<+T> = None | Some(value: T)

  /* ---------------- two's complement ---------------- */

  /** The bit pattern of a signed int read as an unsigned int. */
  function ToUnsigned(x: int32): (u: uint32)
    ensures (u - x) % Two32 == 0
    ensures x >= 0 ==> u == x
  {
    if x < 0 then x + Two32 else x
  }

  /** The conversion of an unsigned int to a signed int on a two's complement
      machine: patterns at or above 2^31 become negative. */
  function FromUnsigned(u: uint32): (x: int32)
    ensures (u - x) % Two32 == 0
    ensures u <= Int32Max ==> x == u
    ensures ToUnsigned(x) == u
  {
    if u > Int32Max then u - Two32 else u
  }

  lemma SignedRoundTrip(x: int32)
    ensures FromUnsigned(ToUnsigned(x)) == x
  {
  }

  /* ---------------- little-endian layout ---------------- */

  function Pow256(n: nat): (r: nat)
    ensures r > 0
  {
    if n == 0 then 1 else 256 * Pow256(n - 1)
  }

  /** The n low-order bytes of u, least significant byte first. */
  function EncodeLE(u: nat, n: nat): (r: seq<byte>)
    ensures |r| == n
  {
    if n == 0 then [] else [(u % 256) as byte] + EncodeLE(u / 256, n - 1)
  }

  /** The value of a little-endian byte string. */
  function DecodeLE(bs: seq<byte>): (r: nat)
    ensures r < Pow256(|bs|)
  {
    if |bs| == 0 then 0 else bs[0] as nat + 256 * DecodeLE(bs[1..])
  }

  lemma {:induction false} DecodeEncodeLE(u: nat, n: nat)
    requires u < Pow256(n)
    ensures DecodeLE(EncodeLE(u, n)) == u
  {
    if n > 0 {
      var r := EncodeLE(u, n);
      var q := u / 256;
      DropByte(u, Pow256(n - 1));
      assert r[1..] == EncodeLE(q, n - 1);
      DecodeEncodeLE(q, n - 1);
      assert DecodeLE(r) == u % 256 + 256 * q;
    }
  }

  /** Dropping the low byte of a value below 256 * p leaves one below p. */
  lemma DropByte(u: nat, p: nat)
    requires u < 256 * p
    ensures u == u % 256 + 256 * (u / 256) && u / 256 < p
  {
  }

  lemma {:induction false} EncodeDecodeLE(bs: seq<byte>)
    ensures EncodeLE(DecodeLE(bs), |bs|) == bs
  {
    if |bs| > 0 {
      var d := DecodeLE(bs);
      SplitByte(bs[0] as nat, DecodeLE(bs[1..]));
      EncodeDecodeLE(bs[1..]);
      assert ((d % 256) as byte) == bs[0];
    }
  }

  /** The low byte and the rest of `b + 256 * t`. */
  lemma SplitByte(b: nat, t: nat)
    requires b < 256
    ensures (b + 256 * t) % 256 == b && (b + 256 * t) / 256 == t
  {
  }

  lemma Pow256Four()
    ensures Pow256(4) == Two32
  {
    assert Pow256(1) == 256;
    assert Pow256(2) == 65536;
    assert Pow256(3) == 16777216;
  }

  /** An unsigned int as four bytes in host (little-endian) order. */
  function U32(u: uint32): (r: seq<byte>)
    ensures |r| == 4
  {
    EncodeLE(u, 4)
  }

  /** A signed int as four bytes: its two's complement pattern. */
  function I32(x: int32): (r: seq<byte>)
    ensures |r| == 4
  {
    U32(ToUnsigned(x))
  }

  /** Reads one unsigned int off the front of a byte string. */
  function ReadU32(bs: seq<byte>): (r: Option<(uint32, seq<byte>)>)
    ensures r.Some? <==> |bs| >= 4
    ensures r.Some? ==> r.value.1 == bs[4..] && U32(r.value.0) == bs[..4]
  {
    if |bs| < 4 then None
    else
      Pow256Four();
      var u := DecodeLE(bs[..4]);
      EncodeDecodeLE(bs[..4]);
      Some((u, bs[4..]))
  }

  /** Reads one signed int off the front of a byte string. */
  function ReadI32(bs: seq<byte>): (r: Option<(int32, seq<byte>)>)
    ensures r.Some? <==> |bs| >= 4
    ensures r.Some? ==> r.value.1 == bs[4..] && I32(r.value.0) == bs[..4]
  {
    match ReadU32(bs)
    case None => None
    case Some((u, rest)) => Some((FromUnsigned(u), rest))
  }

  lemma ReadU32RoundTrip(u: uint32, rest: seq<byte>)
    ensures ReadU32(U32(u) + rest) == Some((u, rest))
  {
    var bs := U32(u) + rest;
    assert bs[..4] == U32(u);
    assert bs[4..] == rest;
    Pow256Four();
    DecodeEncodeLE(u, 4);
  }

  lemma ReadI32RoundTrip(x: int32, rest: seq<byte>)
    ensures ReadI32(I32(x) + rest) == Some((x, rest))
  {
    ReadU32RoundTrip(ToUnsigned(x), rest);
  }

  /* ---------------- packed words ---------------- */

  /** A packed structure of 4-byte int fields, as `#pragma pack(4)` lays it out. */
  function EncodeWords(ws: seq<int32>): (r: seq<byte>)
    ensures |r| == 4 * |ws|
  {
    if |ws| == 0 then [] else I32(ws[0]) + EncodeWords(ws[1..])
  }

  /** Reads n packed int fields. */
  function ReadWords(bs: seq<byte>, n: nat): (r: Option<(seq<int32>, seq<byte>)>)
    ensures r.Some? <==> |bs| >= 4 * n
    ensures r.Some? ==> |r.value.0| == n && r.value.1 == bs[4 * n..]
  {
    if n == 0 then Some(([], bs))
    else
      match ReadI32(bs)
      case None => None
      case Some((w, rest)) =>
        match ReadWords(rest, n - 1)
        case None => None
        case Some((ws, tail)) => Some(([w] + ws, tail))
  }

  lemma {:induction false} ReadWordsRoundTrip(ws: seq<int32>, rest: seq<byte>)
    ensures ReadWords(EncodeWords(ws) + rest, |ws|) == Some((ws, rest))
  {
    if |ws| > 0 {
      var bs := EncodeWords(ws) + rest;
      assert bs == I32(ws[0]) + (EncodeWords(ws[1..]) + rest);
      ReadI32RoundTrip(ws[0], EncodeWords(ws[1..]) + rest);
      ReadWordsRoundTrip(ws[1..], rest);
      assert [ws[0]] + ws[1..] == ws;
    }
  }

  lemma {:induction false} EncodeWordsAppend(a: seq<int32>, b: seq<int32>)
    ensures EncodeWords(a + b) == EncodeWords(a) + EncodeWords(b)
  {
    if |a| > 0 {
      assert (a + b)[0] == a[0];
      assert (a + b)[1..] == a[1..] + b;
      EncodeWordsAppend(a[1..], b);
      calc {
        EncodeWords(a + b);
        I32(a[0]) + EncodeWords(a[1..] + b);
        I32(a[0]) + (EncodeWords(a[1..]) + EncodeWords(b));
        (I32(a[0]) + EncodeWords(a[1..])) + EncodeWords(b);
      }
    } else {
      assert a + b == b;
    }
  }

  lemma EncodeOneWord(x: int32)
    ensures EncodeWords([x]) == I32(x)
  {
    assert EncodeWords([x]) == I32(x) + EncodeWords([]);
  }

  /** Distinct ints have distinct byte images. */
  lemma I32Injective(x: int32, y: int32)
    requires I32(x) == I32(y)
    ensures x == y
  {
    ReadI32RoundTrip(x, []);
    ReadI32RoundTrip(y, []);
  }

  /* ---------------- text ---------------- */

  /** The bytes of an ASCII string literal (each character's code point modulo 256). */
  function Ascii(s: string): (r: seq<byte>)
    ensures |r| == |s|
    ensures forall i :: 0 <= i < |s| && s[i] as int < 256 ==> r[i] as int == s[i] as int
  {
    seq(|s|, i requires 0 <= i < |s| => ((s[i] as int) % 256) as byte)
  }

  predicate IsDigit(b: byte) {
    '0' as int <= b as int <= '9' as int
  }

  function Digit(d: nat): (b: byte)
    requires d < 10
    ensures IsDigit(b) && b as int - '0' as int == d
  {
    (d + '0' as int) as byte
  }

  /** The decimal numeral of n, as `std::ostringstream << n` writes it. */
  function Decimal(n: nat): (r: seq<byte>)
    ensures |r| >= 1
    ensures forall i :: 0 <= i < |r| ==> IsDigit(r[i])
  {
    if n < 10 then [Digit(n)] else Decimal(n / 10) + [Digit(n % 10)]
  }

  /** The number a string of decimal digits denotes. */
  function DigitsValue(ds: seq<byte>): (v: nat)
    requires forall i :: 0 <= i < |ds| ==> IsDigit(ds[i])
  {
    if |ds| == 0 then 0
    else
      assert IsDigit(ds[|ds| - 1]);
      10 * DigitsValue(ds[..|ds| - 1]) + (ds[|ds| - 1] as int - '0' as int)
  }

  lemma {:induction false} DecimalRoundTrip(n: nat)
    ensures DigitsValue(Decimal(n)) == n
  {
    if n >= 10 {
      var d := Decimal(n);
      assert d[..|d| - 1] == Decimal(n / 10);
      DecimalRoundTrip(n / 10);
    }
  }

  /** Distinct numbers have distinct numerals. */
  lemma DecimalInjective(a: nat, b: nat)
    requires Decimal(a) == Decimal(b)
    ensures a == b
  {
    DecimalRoundTrip(a);
    DecimalRoundTrip(b);
  }

  function Pow10(k: nat): (r: nat)
    ensures r > 0
  {
    if k == 0 then 1 else 10 * Pow10(k - 1)
  }

  lemma {:induction false} DecimalLength(n: nat, k: nat)
    requires 1 <= k && n < Pow10(k)
    ensures |Decimal(n)| <= k
  {
    if n >= 10 {
      assert Pow10(1) == 10;
      assert n / 10 < Pow10(k - 1);
      DecimalLength(n / 10, k - 1);
    }
  }

  /** A value that fits a signed int has at most ten decimal digits. */
  lemma DecimalOfInt32(n: nat)
    requires n <= Int32Max
    ensures |Decimal(n)| <= 10
  {
    assert Pow10(10) == 10_000_000_000;
    DecimalLength(n, 10);
  }

  /* ---------------- concatenation of pieces ---------------- */

  lemma Regroup(a: seq<byte>, b: seq<byte>, c: seq<byte>)
    ensures (a + b) + c == a + (b + c)
  {
  }

  /** Regrouping a three-piece message followed by more bytes. */
  lemma RegroupTail(a: seq<byte>, b: seq<byte>, c: seq<byte>, d: seq<byte>)
    ensures (a + (b + c)) + d == a + (b + (c + d))
  {
  }

  /** The bytes of several buffers written one after the other. */
  function Flatten(pieces: seq<seq<byte>>): (r: seq<byte>)
    ensures |pieces| == 0 ==> r == []
  {
    if |pieces| == 0 then [] else Flatten(pieces[..|pieces| - 1]) + pieces[|pieces| - 1]
  }

  lemma FlattenAppend(pieces: seq<seq<byte>>, p: seq<byte>)
    ensures Flatten(pieces + [p]) == Flatten(pieces) + p
  {
    assert (pieces + [p])[..|pieces|] == pieces;
  }

  /** Writing a prefix of the pieces writes a prefix of their bytes. */
  lemma {:induction false} FlattenPrefix(pieces: seq<seq<byte>>, k: nat)
    requires k <= |pieces|
    ensures Flatten(pieces[..k]) <= Flatten(pieces)
  {
    if k < |pieces| {
      FlattenPrefix(pieces[..|pieces| - 1], k);
      assert pieces[..|pieces| - 1][..k] == pieces[..k];
    } else {
      assert pieces[..k] == pieces;
    }
  }
}
