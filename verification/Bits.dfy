/** Powers of two, bitwise OR and big-endian bytes, on natural numbers. */
module Bits {

  function Pow2(n: nat): (p: nat)
    ensures p > 0
  {
    if n == 0 then 1 else 2 * Pow2(n - 1)
  }

  lemma {:induction false} Pow2Adds(a: nat, b: nat)
    ensures Pow2(a + b) == Pow2(a) * Pow2(b)
  {
    if a > 0 {
      Pow2Adds(a - 1, b);
      assert 2 * Pow2(a - 1) * Pow2(b) == 2 * (Pow2(a - 1) * Pow2(b));
    }
  }

  lemma {:induction false} Pow2Grows(a: nat, b: nat)
    requires a <= b
    ensures Pow2(a) <= Pow2(b)
  {
    if a < b {
      Pow2Grows(a, b - 1);
    }
  }

  lemma MulGrows(a: int, b: int, m: nat)
    ensures a <= b ==> a * m <= b * m
  {
    if a <= b {
      assert b * m - a * m == (b - a) * m;
    }
  }

  /** The quotient and remainder are what they look like. */
  lemma Divides(v: nat, m: nat, q: nat, r: nat)
    requires v == q * m + r && r < m
    ensures v / m == q && v % m == r
  {
    var d, e := v / m, v % m;
    assert v == d * m + e;
    MulGrows(d + 1, q, m);
    MulGrows(q + 1, d, m);
    assert (d + 1) * m == d * m + m && (q + 1) * m == q * m + m;
  }

  lemma QuotientRange(v: nat, m: nat, q: int)
    requires m > 0
    ensures v / m == q <==> q * m <= v < q * m + m
  {
    assert v == v / m * m + v % m;
    MulGrows(q + 1, 0, m);
    assert (q + 1) * m == q * m + m;
    if q * m <= v < q * m + m {
      Divides(v, m, q, v - q * m);
    }
  }

  lemma BlockFits(v: nat, a: nat, m: nat)
    requires m > 0 && v < a * m
    ensures v / m * m + m <= a * m
  {
    var q := v / m;
    assert v == q * m + v % m;
    MulGrows(a, q, m);
    MulGrows(q + 1, a, m);
    assert (q + 1) * m == q * m + m;
  }

  /** The largest multiple of m up to v. */
  function Floor(v: nat, m: nat): (f: nat)
    requires m > 0
    ensures f == v / m * m
  {
    v - v % m
  }

  /** v with its lowest h bits set. */
  function Filled(v: nat, h: nat): nat {
    v / Pow2(h) * Pow2(h) + Pow2(h) - 1
  }

  lemma FilledIs(v: nat, h: nat, q: nat, r: nat)
    requires v == q * Pow2(h) + r && r < Pow2(h)
    ensures Filled(v, h) == q * Pow2(h) + Pow2(h) - 1
  {
    Divides(v, Pow2(h), q, r);
  }

  // ---- Bitwise OR

  function BitOr(a: nat, b: nat): nat {
    if a == 0 && b == 0 then 0
    else 2 * BitOr(a / 2, b / 2) + if a % 2 == 1 || b % 2 == 1 then 1 else 0
  }

  lemma {:induction false} OrZero(a: nat)
    ensures BitOr(a, 0) == a
  {
    if a > 0 {
      OrZero(a / 2);
    }
  }

  /** OR with a number below the lowest bit of the other is a sum. */
  lemma {:induction false} OrAppends(x: nat, y: nat, k: nat)
    requires y < Pow2(k)
    ensures BitOr(x * Pow2(k), y) == x * Pow2(k) + y
  {
    if k == 0 {
      OrZero(x);
    } else {
      var half := x * Pow2(k - 1);
      assert x * Pow2(k) == 2 * half;
      OrAppends(x, y / 2, k - 1);
    }
  }

  lemma FilledDoubles(v: nat, h: nat)
    requires h > 0
    ensures Filled(v, h) == 2 * Filled(v / 2, h - 1) + 1
  {
    var m := Pow2(h - 1);
    var q, r := v / 2 / m, v / 2 % m;
    assert v / 2 == q * m + r;
    assert q * (2 * m) == 2 * (q * m);
    FilledIs(v, h, q, 2 * r + v % 2);
    FilledIs(v / 2, h - 1, q, r);
  }

  /** OR with 2^h - 1 sets the lowest h bits. */
  lemma {:induction false} OrOnesFills(v: nat, h: nat)
    ensures BitOr(v, Pow2(h) - 1) == Filled(v, h)
  {
    if h == 0 {
      OrZero(v);
    } else {
      var ones := Pow2(h) - 1;
      assert ones / 2 == Pow2(h - 1) - 1 && ones % 2 == 1;
      OrOnesFills(v / 2, h - 1);
      FilledDoubles(v, h);
    }
  }

  // ---- Bytes

  type Byte = n: nat | n < 256

  /** The number that bytes stand for, most significant first. */
  function Value(bytes: seq<Byte>): nat {
    if bytes == [] then 0 else bytes[0] * Pow2(8 * (|bytes| - 1)) + Value(bytes[1..])
  }

  lemma Pow2Eight(n: nat)
    requires n > 0
    ensures Pow2(8 * n) == 256 * Pow2(8 * (n - 1))
  {
    Pow2Adds(8, 8 * (n - 1));
    assert Pow2(8) == 256;
  }

  lemma {:induction false} ValueBound(bytes: seq<Byte>)
    ensures Value(bytes) < Pow2(8 * |bytes|)
  {
    if bytes != [] {
      ValueBound(bytes[1..]);
      Pow2Eight(|bytes|);
      MulGrows(bytes[0], 255, Pow2(8 * (|bytes| - 1)));
    }
  }

  function LowByte(v: int): Byte {
    v % 256
  }

  function Below(v: nat, m: nat): (r: nat)
    requires m > 0
    ensures r < m
  {
    v % m
  }

  /** The bytes of a number, most significant first. */
  function BytesOf(v: nat, n: nat): (bytes: seq<Byte>)
    ensures |bytes| == n
    decreases n
  {
    if n == 0 then []
    else
      var rest := Pow2(8 * (n - 1));
      [LowByte(v / rest)] + BytesOf(Below(v, rest), n - 1)
  }

  lemma {:induction false} BytesGiveBack(v: nat, n: nat)
    requires v < Pow2(8 * n)
    ensures Value(BytesOf(v, n)) == v
    decreases n
  {
    if n > 0 {
      var rest := Pow2(8 * (n - 1));
      var q, r := v / rest, v % rest;
      assert v == q * rest + r;
      TopByteFits(v, n, q, r);
      BytesGiveBack(r, n - 1);
      assert BytesOf(v, n)[1..] == BytesOf(r, n - 1);
    }
  }

  lemma TopByteFits(v: nat, n: nat, q: nat, r: nat)
    requires n > 0 && v < Pow2(8 * n) && v == q * Pow2(8 * (n - 1)) + r
    ensures q < 256
  {
    Pow2Eight(n);
    MulGrows(256, q, Pow2(8 * (n - 1)));
  }

  /** The bytes with all but the first `bits` bits set. */
  function BytesFilled(bytes: seq<Byte>, bits: int): (r: seq<Byte>)
    ensures |r| == |bytes|
  {
    if bytes == [] then [] else [ByteFilled(bytes[0], bits)] + BytesFilled(bytes[1..], bits - 8)
  }

  /** One byte of the above, as lastAddr sets it: `0xff >> bits` is 255 / 2^bits. */
  function ByteFilled(b: Byte, bits: int): Byte {
    if bits <= 0 then 255
    else if bits < 8 then BitOr(b, 255 / Pow2(bits)) % 256
    else b
  }

  lemma ShiftedOnes(bits: nat)
    requires bits < 8
    ensures 255 / Pow2(bits) == Pow2(8 - bits) - 1
  {
    Pow2Adds(bits, 8 - bits);
    assert Pow2(8) == 256;
    var a, b := Pow2(bits), Pow2(8 - bits);
    assert (b - 1) * a == b * a - a && b * a == a * b;
    Divides(255, a, b - 1, a - 1);
  }

  lemma ByteIsFilled(b: Byte, bits: nat)
    requires 0 < bits < 8
    ensures ByteFilled(b, bits) == Filled(b, 8 - bits)
  {
    ShiftedOnes(bits);
    OrOnesFills(b, 8 - bits);
    FilledByte(b, 8 - bits);
  }

  lemma FilledByte(b: Byte, h: nat)
    requires h < 8
    ensures Filled(b, h) < 256
  {
    Pow2Adds(h, 8 - h);
    var m, q := Pow2(h), b / Pow2(h);
    assert Pow2(8) == 256 && m * Pow2(8 - h) == 256 && q * m <= b;
    MulGrows(Pow2(8 - h), q, m);
    MulGrows(q + 1, Pow2(8 - h), m);
    assert (q + 1) * m == q * m + m && Pow2(8 - h) * m == m * Pow2(8 - h);
  }

  /** Setting bits byte by byte sets the lowest bits of the number. */
  lemma {:induction false} BytesFilledValue(bytes: seq<Byte>, bits: nat)
    requires bits <= 8 * |bytes|
    ensures Value(BytesFilled(bytes, bits)) == Filled(Value(bytes), 8 * |bytes| - bits)
    decreases |bytes|
  {
    if bytes == [] {
    } else {
      var rest := bytes[1..];
      assert BytesFilled(bytes, bits)[1..] == BytesFilled(rest, bits - 8);
      if bits >= 8 {
        BytesFilledValue(rest, bits - 8);
        FilledBelow(bytes[0], Value(rest), 8 * |rest|, 8 * |bytes| - bits);
      } else {
        FirstFilledValue(bytes, bits);
      }
    }
  }

  lemma FirstFilledValue(bytes: seq<Byte>, bits: nat)
    requires bytes != [] && bits < 8
    ensures Value(BytesFilled(bytes, bits)) == Filled(Value(bytes), 8 * |bytes| - bits)
  {
    var rest := bytes[1..];
    assert BytesFilled(bytes, bits)[1..] == BytesFilled(rest, bits - 8);
    ValueBound(rest);
    AllOnes(rest, bits - 8);
    FirstByteFilled(bytes[0], bits);
    FilledAbove(bytes[0], Value(rest), 8 * |rest|, 8 - bits);
  }

  lemma FirstByteFilled(b: Byte, bits: nat)
    requires bits < 8
    ensures ByteFilled(b, bits) == Filled(b, 8 - bits)
  {
    if bits == 0 {
      assert Pow2(8) == 256;
      FilledIs(b, 8, 0, b);
    } else {
      ByteIsFilled(b, bits);
    }
  }

  lemma {:induction false} AllOnes(bytes: seq<Byte>, bits: int)
    requires bits <= 0
    ensures Value(BytesFilled(bytes, bits)) == Pow2(8 * |bytes|) - 1
  {
    if bytes != [] {
      AllOnes(bytes[1..], bits - 8);
      assert BytesFilled(bytes, bits)[1..] == BytesFilled(bytes[1..], bits - 8);
      Pow2Eight(|bytes|);
    }
  }

  /** v with its part below a multiple of m set to m - 1. */
  function Topped(v: nat, m: nat): nat
    requires m > 0
  {
    v / m * m + m - 1
  }

  lemma ToppedIs(v: nat, m: nat, q: nat, r: nat)
    requires m > 0 && v == q * m + r && r < m
    ensures Topped(v, m) == q * m + m - 1
  {
    Divides(v, m, q, r);
  }

  lemma ToppedBelow(x: nat, y: nat, a: nat, m: nat)
    requires m > 0
    ensures Topped(x * (a * m) + y, m) == x * (a * m) + Topped(y, m)
  {
    var q, r := y / m, y % m;
    assert y == q * m + r;
    assert x * (a * m) == (x * a) * m;
    assert (x * a) * m + q * m == (x * a + q) * m;
    ToppedIs(x * (a * m) + y, m, x * a + q, r);
  }

  lemma ToppedAbove(x: nat, y: nat, p: nat, m: nat)
    requires y < p && m > 0
    ensures p * m > 0 && Topped(x * p + y, p * m) == Topped(x, m) * p + p - 1
  {
    var q, r := x / m, x % m;
    MulGrows(r + 1, m, p);
    ToppedAboveBy(x, y, p, m, q, r);
    Distributes(q, m, r, p);
    ToppedIs(x * p + y, p * m, q, r * p + y);
    Distributes(q, m, m - 1, p);
  }

  lemma Distributes(q: int, m: int, r: int, p: int)
    ensures (q * m + r) * p == q * (p * m) + r * p
  {
    assert (q * m + r) * p == q * m * p + r * p;
    assert q * m * p == q * (m * p) == q * (p * m);
  }

  lemma ToppedAboveBy(x: nat, y: nat, p: nat, m: nat, q: int, r: int)
    requires m > 0 && q == x / m && r == x % m && y < p && (r + 1) * p <= m * p
    ensures x == q * m + r && r * p + y < p * m && q >= 0 && r >= 0
  {
    assert (r + 1) * p == r * p + p && m * p == p * m;
  }

  /** Filling no more than the lower k bits leaves what is above. */
  lemma FilledBelow(x: nat, y: nat, k: nat, h: nat)
    requires h <= k
    ensures Filled(x * Pow2(k) + y, h) == x * Pow2(k) + Filled(y, h)
  {
    Pow2Adds(k - h, h);
    ToppedBelow(x, y, Pow2(k - h), Pow2(h));
  }

  /** Filling the lower k bits and h more is filling h bits of what is above. */
  lemma FilledAbove(x: nat, y: nat, k: nat, h: nat)
    requires y < Pow2(k)
    ensures Filled(x * Pow2(k) + y, k + h) == Filled(x, h) * Pow2(k) + Pow2(k) - 1
  {
    Pow2Adds(k, h);
    ToppedAbove(x, y, Pow2(k), Pow2(h));
  }

  lemma ValueOfFour(b: seq<Byte>)
    requires |b| == 4
    ensures Value(b) == FourBytes(b[0], b[1], b[2], b[3])
  {
    assert b[1..] == [b[1], b[2], b[3]] && b[1..][1..] == [b[2], b[3]] && b[1..][1..][1..] == [b[3]]
        && [b[3]][1..] == [];
    assert Pow2(8) == 256;
    Pow2Adds(8, 8);
    Pow2Adds(16, 8);
    assert Value([b[3]]) == b[3];
    assert Value([b[2], b[3]]) == b[2] * Pow2(8) + Value([b[3]]);
    assert Value([b[1], b[2], b[3]]) == b[1] * Pow2(16) + Value([b[2], b[3]]);
    assert Value(b) == b[0] * Pow2(24) + Value(b[1..]);
  }

  function FourBytes(a: nat, b: nat, c: nat, d: nat): nat {
    a * 0x100_0000 + b * 0x1_0000 + c * 0x100 + d
  }

  lemma FourBytesGiveBack(v: nat)
    requires v < 0x1_0000_0000
    ensures FourBytes(LowByte(v / 0x100_0000), LowByte(v / 0x1_0000), LowByte(v / 0x100), LowByte(v)) == v
  {
    var x := v / 0x100;
    var y := x / 0x100;
    var z := y / 0x100;
    assert v == y * 0x1_0000 + (x % 256) * 0x100 + v % 256;
    assert y == v / 0x1_0000;
    assert v == z * 0x100_0000 + (y % 256) * 0x1_0000 + (x % 256) * 0x100 + v % 256;
    assert z == v / 0x100_0000;
  }
}
