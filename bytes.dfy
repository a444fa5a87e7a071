/**
 * Byte sequences and the fixed-width integer encodings the code relies on:
 * okio's big-endian `writeShort`/`writeLong`, `readShort().toInt()` sign
 * extension, `take(n)`, `trimEnd('\u0000')` and Java's `contentHashCode`.
 * Strings are modelled by their UTF-8 bytes, so a Kotlin `String` is `Bytes`.
 */
module ByteSeq {

  type byte = x: int | 0 <= x < 256
  type Bytes = seq<byte>

  /** 256^k */
  function Pow256(k: nat): (r: nat)
    ensures r >= 1
  {
    if k == 0 then 1 else 256 * Pow256(k - 1)
  }

  const TwoTo16: nat := 65536
  const TwoTo32: nat := 0x1_0000_0000
  const TwoTo63: nat := 0x8000_0000_0000_0000
  const TwoTo64: nat := 0x1_0000_0000_0000_0000

  /** The low `k` bytes of `v`, most significant first (what okio writes). */
  function ToBE(v: int, k: nat): (r: Bytes)
    ensures |r| == k
    decreases k
  {
    if k == 0 then [] else ToBE(v / 256, k - 1) + [v % 256]
  }

  /** The unsigned value of a big-endian byte string (what okio reads). */
  function FromBE(s: Bytes): nat {
    if |s| == 0 then 0 else FromBE(s[..|s| - 1]) * 256 + s[|s| - 1]
  }

  lemma MulAtLeast(d: int, x: int)
    requires d > 0 && x >= 1
    ensures d * x >= d
  {
  }

  lemma DivModUnique(v: int, d: int, q: int, r: int)
    requires d > 0 && 0 <= r < d && v == d * q + r
    ensures v % d == r && v / d == q
  {
    var q', r' := v / d, v % d;
    assert v == d * q' + r';
    assert d * (q - q') == r' - r;
    if q > q' {
      MulAtLeast(d, q - q');
    } else if q < q' {
      MulAtLeast(d, q' - q);
    }
  }

  lemma ModOfScaled(v: int, q: int, r: int, m: nat)
    requires m > 0 && 0 <= r < 256 && v == 256 * q + r
    ensures v % (256 * m) == 256 * (q % m) + r
  {
    var qq, rr := q / m, q % m;
    assert q == m * qq + rr;
    assert 256 * q == (256 * m) * qq + 256 * rr;
    assert v == (256 * m) * qq + (256 * rr + r);
    assert 256 * rr <= 256 * (m - 1);
    DivModUnique(v, 256 * m, qq, 256 * rr + r);
  }

  /** Reading back `k` written bytes gives the value modulo 256^k. */
  lemma {:induction false} FromToBE(v: int, k: nat)
    ensures FromBE(ToBE(v, k)) == v % Pow256(k)
    decreases k
  {
    if k > 0 {
      var s := ToBE(v, k);
      assert s[..k - 1] == ToBE(v / 256, k - 1);
      FromToBE(v / 256, k - 1);
      ModOfScaled(v, v / 256, v % 256, Pow256(k - 1));
    }
  }

  lemma {:induction false} FromBEBound(s: Bytes)
    ensures FromBE(s) < Pow256(|s|)
  {
    if |s| > 0 {
      FromBEBound(s[..|s| - 1]);
    }
  }

  /** Encoding a value that fits reads back as itself. */
  lemma FromToBEFits(v: nat, k: nat)
    requires v < Pow256(k)
    ensures FromBE(ToBE(v, k)) == v
  {
    FromToBE(v, k);
  }

  lemma Pow256Values()
    ensures Pow256(1) == 256 && Pow256(2) == TwoTo16 && Pow256(8) == TwoTo64
  {
  }

  /** Kotlin `Short.toInt()`: sign extension of a 16-bit value. */
  function Signed16(u: nat): int {
    if u >= 32768 then u - 65536 else u
  }

  /** A Kotlin `Long`. */
  type Long = x: int | -0x8000_0000_0000_0000 <= x < 0x8000_0000_0000_0000

  /** Kotlin `Long` of an unsigned 64-bit value (`ULong.toLong()`). */
  function Signed64(u: nat): (r: int)
    ensures u < TwoTo64 ==> -(TwoTo63 as int) <= r < TwoTo63
    ensures u < TwoTo64 ==> r % TwoTo64 == u
  {
    if u >= TwoTo63 then u - TwoTo64 else u
  }

  /** okio `writeLong` then `readLong`: eight big-endian two's-complement bytes restore the value. */
  lemma LongRoundTrip(v: Long)
    ensures Signed64(FromBE(ToBE(v, 8))) == v
  {
    FromToBE(v, 8);
    Pow256Values();
    if v >= 0 {
      DivModUnique(v, TwoTo64, 0, v);
    } else {
      DivModUnique(v, TwoTo64, -1, v + TwoTo64);
    }
  }

  /** Kotlin 64-bit `Long` wrap-around of an exact integer. */
  function WrapLong(x: int): (r: int)
    ensures -(TwoTo63 as int) <= r < TwoTo63
  {
    Signed64(x % TwoTo64)
  }

  function Min(a: int, b: int): (r: int)
    ensures r <= a && r <= b && (r == a || r == b)
  {
    if a <= b then a else b
  }

  /** Kotlin `take(n)` on a byte array. */
  function Take(s: Bytes, n: nat): (r: Bytes)
    ensures |r| == Min(|s|, n) && r == s[..|r|]
  {
    if |s| <= n then s else s[..n]
  }

  function Zeros(n: nat): (r: Bytes)
    ensures |r| == n && forall i :: 0 <= i < n ==> r[i] == 0
  {
    seq(n, _ => 0)
  }

  /** The id-field rule of the wire codec: truncate to `n` bytes, then zero-pad to exactly `n`. */
  function Fixed(s: Bytes, n: nat): (r: Bytes)
    ensures |r| == n
    ensures forall i :: 0 <= i < n ==> r[i] == (if i < |s| then s[i] else 0)
  {
    Take(s, n) + Zeros(n - |Take(s, n)|)
  }

  /** `decodeToString().trimEnd('\u0000')`: trailing zero bytes removed. */
  function TrimNul(s: Bytes): (r: Bytes)
    ensures |r| <= |s| && r == s[..|r|]
    ensures r == [] || r[|r| - 1] != 0
    ensures forall i :: |r| <= i < |s| ==> s[i] == 0
  {
    if |s| == 0 then [] else if s[|s| - 1] == 0 then TrimNul(s[..|s| - 1]) else s
  }

  predicate StartsWith(s: Bytes, prefix: Bytes) {
    |prefix| <= |s| && s[..|prefix|] == prefix
  }

  /** A Kotlin `Int` (32-bit) from an exact integer. */
  function WrapInt(x: int): (r: int)
    ensures -0x8000_0000 <= r < 0x8000_0000
  {
    var u := x % TwoTo32;
    if u >= 0x8000_0000 then u - TwoTo32 else u
  }

  /** Kotlin `Byte` value (signed) of a byte. */
  function SignedByte(b: byte): int {
    if b >= 128 then b - 256 else b
  }

  /** Java's `Arrays.hashCode(byte[])`, i.e. Kotlin `contentHashCode`: 31*h + b over signed bytes, with 32-bit wrap. */
  function ContentHash(s: Bytes): int {
    if |s| == 0 then 1 else WrapInt(31 * ContentHash(s[..|s| - 1]) + SignedByte(s[|s| - 1]))
  }

  /** UTF-8 bytes of an ASCII literal. */
  function Ascii(s: string): (r: Bytes)
    requires forall i :: 0 <= i < |s| ==> s[i] as int < 128
    ensures |r| == |s|
  {
    seq(|s|, i requires 0 <= i < |s| => s[i] as int)
  }
}
