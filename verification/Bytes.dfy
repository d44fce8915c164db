/** Byte strings in the lexicographic order of RocksDB, and big-endian integers. */
module Bytes {
  type Byte = b: int | 0 <= b < 256

  type Key = seq<Byte>

  const I64_MIN: int := -0x8000_0000_0000_0000
  const I64_MAX: int := 0x7FFF_FFFF_FFFF_FFFF

  type I64 = x: int | I64_MIN <= x <= I64_MAX

  const TIMESTAMP_SIZE: nat := 8

  // ----- lexicographic order

  predicate Less(a: Key, b: Key) {
    if b == [] then false
    else if a == [] then true
    else a[0] < b[0] || (a[0] == b[0] && Less(a[1..], b[1..]))
  }

  predicate AtMost(a: Key, b: Key) {
    a == b || Less(a, b)
  }

  lemma {:induction false} Trichotomy(a: Key, b: Key)
    ensures Less(a, b) || a == b || Less(b, a)
    ensures !(Less(a, b) && Less(b, a))
    ensures !Less(a, a)
  {
    if a != [] && b != [] {
      Trichotomy(a[1..], b[1..]);
      if a[0] == b[0] && a[1..] == b[1..] {
        assert a == [a[0]] + a[1..] == b;
      }
    }
    if a != [] {
      Trichotomy(a[1..], a[1..]);
    }
  }

  lemma {:induction false} LessTransitive(a: Key, b: Key, c: Key)
    requires Less(a, b) && Less(b, c)
    ensures Less(a, c)
  {
    if a != [] && a[0] == b[0] == c[0] {
      LessTransitive(a[1..], b[1..], c[1..]);
    }
  }

  /** All the order facts about three keys that the scans use. */
  lemma TotalOrder(a: Key, b: Key, c: Key)
    ensures AtMost(a, b) <==> !Less(b, a)
    ensures AtMost(a, b) && AtMost(b, c) ==> AtMost(a, c)
    ensures AtMost(a, b) && Less(b, c) ==> Less(a, c)
    ensures Less(a, b) && AtMost(b, c) ==> Less(a, c)
    ensures AtMost(a, b) && AtMost(b, a) ==> a == b
  {
    Trichotomy(a, b);
    if Less(a, b) && Less(b, c) {
      LessTransitive(a, b, c);
    }
  }

  lemma {:induction false} LessSamePrefix(p: Key, a: Key, b: Key)
    ensures Less(p + a, p + b) <==> Less(a, b)
  {
    if p == [] {
      assert p + a == a && p + b == b;
    } else {
      assert (p + a)[1..] == p[1..] + a && (p + b)[1..] == p[1..] + b;
      LessSamePrefix(p[1..], a, b);
    }
  }

  /** Whatever lies between two keys with a common prefix has that prefix. */
  lemma {:induction false} Squeeze(p: Key, a: Key, b: Key, x: Key)
    requires AtMost(p + a, x) && AtMost(x, p + b)
    ensures p <= x
  {
    if p != [] {
      assert (p + a)[1..] == p[1..] + a && (p + b)[1..] == p[1..] + b;
      assert x != [] && x[0] == p[0];
      Squeeze(p[1..], a, b, x[1..]);
      assert x == [x[0]] + x[1..] && p == [p[0]] + p[1..];
    }
  }

  // ----- big-endian integers

  function Pow256(n: nat): (r: nat)
    ensures r > 0
  {
    if n == 0 then 1 else 256 * Pow256(n - 1)
  }

  function BigEndian(n: nat, width: nat): (r: Key)
    requires n < Pow256(width)
    ensures |r| == width
    decreases width
  {
    if width == 0 then []
    else
      var unit := Pow256(width - 1);
      DigitBound(n, unit);
      [n / unit] + BigEndian(n % unit, width - 1)
  }

  lemma {:induction false} ScaleGap(a: nat, b: nat, unit: nat)
    ensures a < b ==> unit * a + unit <= unit * b
    decreases b
  {
    if a < b {
      ScaleGap(a, b - 1, unit);
      assert unit * b == unit * (b - 1) + unit;
    }
  }

  lemma DigitBound(n: nat, unit: nat)
    requires unit > 0 && n < 256 * unit
    ensures 0 <= n / unit < 256
    ensures n == unit * (n / unit) + n % unit
  {
    ScaleGap(255, n / unit, unit);
  }

  /** Comparing two numbers digit first. */
  lemma DigitOrder(a: nat, b: nat, unit: nat)
    requires unit > 0
    ensures a < b <==> a / unit < b / unit || (a / unit == b / unit && a % unit < b % unit)
  {
    var qa, qb := a / unit, b / unit;
    assert a == unit * qa + a % unit && b == unit * qb + b % unit;
    ScaleGap(qa, qb, unit);
    ScaleGap(qb, qa, unit);
  }

  function FromBigEndian(bytes: Key): nat {
    if bytes == [] then 0
    else bytes[0] * Pow256(|bytes| - 1) + FromBigEndian(bytes[1..])
  }

  lemma {:induction false} BigEndianRoundTrip(n: nat, width: nat)
    requires n < Pow256(width)
    ensures FromBigEndian(BigEndian(n, width)) == n
    decreases width
  {
    if width > 0 {
      var unit := Pow256(width - 1);
      DigitBound(n, unit);
      BigEndianRoundTrip(n % unit, width - 1);
      var bytes := BigEndian(n, width);
      assert bytes[1..] == BigEndian(n % unit, width - 1);
    }
  }

  /** Big-endian encoding turns numeric order into lexicographic order. */
  lemma {:induction false} BigEndianOrder(a: nat, b: nat, width: nat)
    requires a < Pow256(width) && b < Pow256(width)
    ensures Less(BigEndian(a, width), BigEndian(b, width)) <==> a < b
    decreases width
  {
    if width > 0 {
      var unit := Pow256(width - 1);
      DigitBound(a, unit);
      DigitBound(b, unit);
      BigEndianOrder(a % unit, b % unit, width - 1);
      DigitOrder(a, b, unit);
      var x, y := BigEndian(a, width), BigEndian(b, width);
      assert x[1..] == BigEndian(a % unit, width - 1) && y[1..] == BigEndian(b % unit, width - 1);
    }
  }

  lemma Pow256Of8()
    ensures Pow256(8) == 0x1_0000_0000_0000_0000
  {
    assert Pow256(4) == 0x1_0000_0000;
    assert Pow256(8) == 256 * (256 * (256 * (256 * Pow256(4))));
  }

  // ----- 64-bit two's complement timestamps

  /** The two's complement reading of a signed 64-bit integer. */
  function Unsigned(t: I64): (r: nat)
    ensures r < 0x1_0000_0000_0000_0000
  {
    if t < 0 then t + 0x1_0000_0000_0000_0000 else t
  }

  function ToBeBytes(t: I64): (r: Key)
    ensures |r| == TIMESTAMP_SIZE
  {
    Pow256Of8();
    BigEndian(Unsigned(t), 8)
  }

  lemma {:induction false} FromBigEndianBound(bytes: Key)
    ensures FromBigEndian(bytes) < Pow256(|bytes|)
  {
    if bytes != [] {
      FromBigEndianBound(bytes[1..]);
      var unit := Pow256(|bytes| - 1);
      ScaleGap(bytes[0], 256, unit);
    }
  }

  function FromBeBytes(bytes: Key): I64
    requires |bytes| == TIMESTAMP_SIZE
  {
    Pow256Of8();
    FromBigEndianBound(bytes);
    var n := FromBigEndian(bytes);
    if n > I64_MAX then n - 0x1_0000_0000_0000_0000 else n
  }

  lemma BeBytesRoundTrip(t: I64)
    ensures FromBeBytes(ToBeBytes(t)) == t
  {
    Pow256Of8();
    BigEndianRoundTrip(Unsigned(t), 8);
  }

  lemma BeBytesOrder(a: I64, b: I64)
    ensures Less(ToBeBytes(a), ToBeBytes(b)) <==> Unsigned(a) < Unsigned(b)
  {
    Pow256Of8();
    BigEndianOrder(Unsigned(a), Unsigned(b), 8);
  }

  /** Key order agrees with time order exactly when both timestamps have the same sign. */
  lemma BeBytesOrderIsTimeOrderIffSameSign(a: I64, b: I64)
    ensures (Less(ToBeBytes(a), ToBeBytes(b)) <==> a < b) <==> ((a < 0) == (b < 0))
  {
    BeBytesOrder(a, b);
  }

  lemma {:induction false} BigEndianOfBytes(bytes: Key)
    ensures FromBigEndian(bytes) < Pow256(|bytes|)
    ensures BigEndian(FromBigEndian(bytes), |bytes|) == bytes
  {
    FromBigEndianBound(bytes);
    if bytes != [] {
      var (unit, rest) := (Pow256(|bytes| - 1), bytes[1..]);
      FromBigEndianBound(rest);
      BigEndianOfBytes(rest);
      DivModUnique(bytes[0], FromBigEndian(rest), unit);
    }
  }

  lemma DivModUnique(q: nat, r: nat, unit: nat)
    requires unit > 0 && r < unit
    ensures (q * unit + r) / unit == q && (q * unit + r) % unit == r
  {
    var n := q * unit + r;
    var (q', r') := (n / unit, n % unit);
    assert n == unit * q' + r';
    ScaleGap(q, q', unit);
    ScaleGap(q', q, unit);
  }

  lemma BytesOfBeBytes(bytes: Key)
    requires |bytes| == TIMESTAMP_SIZE
    ensures ToBeBytes(FromBeBytes(bytes)) == bytes
  {
    Pow256Of8();
    FromBigEndianBound(bytes);
    BigEndianOfBytes(bytes);
  }
}
