/** Integer arithmetic around powers of two: categories of magnitudes, and quotients. */
module Arithmetic {
  import opened Bytes

  /** Position of the highest one bit. */
  function Log2(w: nat): (k: nat)
    requires w > 0
  {
    if w / 2 == 0 then 0 else 1 + Log2(w / 2)
  }

  lemma {:induction false} Log2Bounds(w: nat)
    requires w > 0
    ensures Pow2(Log2(w)) <= w < 2 * Pow2(Log2(w))
  {
    if w / 2 > 0 {
      Log2Bounds(w / 2);
    }
  }

  lemma {:induction false} Log2Below(w: nat, k: nat)
    requires 0 < w < Pow2(k)
    ensures Log2(w) < k
  {
    Log2Bounds(w);
    if Log2(w) >= k {
      Pow2Monotone(k, Log2(w));
    }
  }

  lemma Log2Small(w: nat)
    requires 0 < w < 0x10000
    ensures Log2(w) <= 15
    ensures w < 0x8000 ==> Log2(w) <= 14
    ensures w >= 0x8000 ==> Log2(w) == 15
  {
    Pow2Values();
    Log2Below(w, 16);
    if w < 0x8000 {
      Log2Below(w, 15);
    } else {
      Log2Bounds(w);
      if Log2(w) < 15 {
        Pow2Monotone(Log2(w) + 1, 15);
      }
    }
  }

  /** The multiple of q at or below w. */
  function Floor(w: nat, q: nat): nat
    requires q > 0
  {
    w / q * q
  }

  /** Adding bit q of w to the multiple of 2q below w gives the multiple of q below w. */
  lemma HalveQuotient(w: nat, q: nat)
    requires q > 0
    ensures Floor(w, 2 * q) + (if w / q % 2 == 1 then q else 0) == Floor(w, q)
  {
    var h, r := w / (2 * q), w % (2 * q);
    assert w == h * (2 * q) + r;
    assert h * (2 * q) == 2 * h * q;
    var g := if r < q then 2 * h else 2 * h + 1;
    assert (2 * h + 1) * q == 2 * h * q + q;
    QuotientIs(w, q, g, w - g * q);
  }

  lemma QuotientIs(w: nat, q: nat, h: nat, r: nat)
    requires r < q && w == h * q + r
    ensures w / q == h
  {
    var t := w / q - h;
    assert t * q == w / q * q - h * q;
    SmallMultiple(t, q, r - w % q);
  }

  lemma SmallMultiple(t: int, q: int, r: int)
    requires t * q == r && -q < r < q
    ensures t == 0
  {
    Grows(t, q);
  }

  lemma Grows(t: int, q: int)
    ensures t > 0 && q >= 0 ==> t * q >= q
    ensures t < 0 && q >= 0 ==> t * q <= -q
  {
    if t > 0 && q >= 0 {
      AtLeastOnce(t, q);
    } else if t < 0 && q >= 0 {
      AtLeastOnce(-t, q);
      assert t * q == -((-t) * q);
    }
  }

  lemma AtLeastOnce(t: nat, q: nat)
    requires t > 0
    ensures t * q >= q
  {
    assert t * q == q + (t - 1) * q;
  }

  lemma TopBit(w: nat)
    requires w > 0
    ensures Floor(w, Pow2(Log2(w))) == Pow2(Log2(w))
  {
    Log2Bounds(w);
    QuotientIs(w, Pow2(Log2(w)), 1, w - Pow2(Log2(w)));
  }

  lemma MultipleOf(k: nat, d: nat)
    requires d > 0
    ensures (k * d) % d == 0
  {
    QuotientIs(k * d, d, k, 0);
  }

  lemma SumOfMultiples(a: nat, b: nat, d: nat)
    requires d > 0 && a % d == 0 && b % d == 0
    ensures (a + b) % d == 0
  {
    var x, y := a / d, b / d;
    assert a == x * d && b == y * d;
    assert x * d + y * d == (x + y) * d;
    MultipleOf(x + y, d);
  }

  lemma Pow2Divides(j: nat, k: nat)
    requires j <= k
    ensures Pow2(k) % Pow2(j) == 0
  {
    ShlShl(1, j, k - j);
    ShlTimes(Pow2(j), k - j);
    MultipleOf(Pow2(k - j), Pow2(j));
    assert Pow2(k) == Pow2(k - j) * Pow2(j);
  }

  lemma RoomForOne(x: nat, y: nat, d: nat)
    requires d > 0 && x % d == 0 && y % d == 0 && x < y
    ensures x + d <= y
  {
    var p, q := x / d, y / d;
    assert x == p * d && y == q * d;
    assert (q - p) * d == y - x by { Spread(q, p, d); }
    if q > p {
      AtLeastOnce(q - p, d);
    } else {
      assert (p - q) * d == x - y by { Spread(p, q, d); }
      AtLeastZero(p - q, d);
      assert false;
    }
  }

  lemma Spread(a: int, b: int, d: int)
    ensures (a - b) * d == a * d - b * d
  {
  }

  lemma AtLeastZero(a: nat, b: nat)
    ensures a * b >= 0
  {
  }

  function Quotient(a: nat, q: nat): nat
    requires q > 0
  {
    a / q
  }

  lemma QuotientExact(a: nat, q: nat)
    requires q > 0 && a % q == 0
    ensures Quotient(a, q) * q == a
  {
  }

  lemma Pow2Next(k: nat)
    ensures Pow2(k + 1) == 2 * Pow2(k)
  {
  }

  lemma ModOnce(x: nat, q: nat)
    requires q <= x < 2 * q
    ensures x % q == x - q
  {
    QuotientIs(x, q, 1, x - q);
  }
}
