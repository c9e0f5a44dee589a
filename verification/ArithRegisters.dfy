/** How the registers of the arithmetic encoder denote an exact interval: the lemmas
    behind each step of jcarith.c, on plain values. */
module ArithRegisters {
  import opened Bytes
  import opened Arithmetic
  import opened ProbabilityTable
  import opened IntervalCoder

  /** Bytes taken out of the C register and not yet certain to be output as they are:
      `zc` zero bytes, the last byte below 0xFF (or -1 for none), `sc` bytes 0xFF. */
  function Tail(buffer: int, sc: nat): seq<byte>
    requires -1 <= buffer < 255
  {
    (if buffer < 0 then [] else [buffer]) + Repeat(255, sc)
  }

  /** The 28-bit C register below the bytes already taken out, with `ct` shifts left
      before the next byte is taken. */
  ghost predicate Denotes(iv: Interval, taken: seq<byte>, c: int, a: int, ct: int)
  {
    && 0 <= ct <= 11 && (taken != [] ==> ct <= 8)
    && 0 <= c && iv.a == a
    && iv.n == 8 * |taken| + 11 - ct
    && iv.low == Shl(Num(taken), 27 - ct) + c
    && c + a <= Shl(if taken == [] then 8 else 9, 24 - ct)
    && iv.low + iv.a <= Pow2(16 + iv.n)
  }

  /** The C register never needs more than 28 bits. */
  lemma RegisterWidth(iv: Interval, taken: seq<byte>, c: int, a: int, ct: int)
    requires Denotes(iv, taken, c, a, ct) && a > 0
    ensures c < 0x10000000
  {
    var m := if taken == [] then 8 else 9;
    ShlShl(m, 24 - ct, ct);
    ShlBound(Shl(m, 24 - ct), ct);
    ShlTimes(m, 24);
    Pow2Values();
  }

  lemma DenotesStart()
    ensures Denotes(WHOLE, [], 0, 0x10000, 11)
  {
    Pow2Values();
    ShlTimes(8, 13);
    ShlTimes(0, 16);
  }

  lemma ShiftKeeps(iv: Interval, taken: seq<byte>, c: int, a: int, ct: int)
    requires Denotes(iv, taken, c, a, ct) && ct > 0
    ensures Denotes(Interval(2 * iv.low, 2 * iv.a, iv.n + 1), taken, 2 * c, 2 * a, ct - 1)
  {
  }

  lemma HalfKeeps(iv: Interval, taken: seq<byte>, c: int, a: int, ct: int, qe: nat, upper: bool)
    requires Denotes(iv, taken, c, a, ct) && qe <= a
    ensures var c' := if upper then c + (a - qe) else c;
            var a' := if upper then qe else a - qe;
            Denotes(Half(iv, qe, upper), taken, c', a', ct)
  {
  }

  /** A byte is due.  Bit 27 of the register is a carry; it never runs past the first
      byte, and after a carry the byte taken out is below 0x20. */
  lemma CarryStops(iv: Interval, taken: seq<byte>, c: int, a: int)
    requires Denotes(iv, taken, c, a, 0) && a > 0
    ensures 0 <= c < 0x9000000
    ensures c >= 0x8000000 ==> c / 0x80000 % 256 < 0x20
    ensures c >= 0x8000000 ==> taken != Repeat(255, |taken|)
  {
    Pow2Values();
    ShlTimes(if taken == [] then 8 else 9, 24);
    if c >= 0x8000000 && taken == Repeat(255, |taken|) {
      NumOnes(|taken|);
      ShlAdd(Num(taken), 1, 27);
      ShlShl(1, 8 * |taken|, 27);
    }
  }

  /** Taking a byte out of the register, carry included, leaves the interval as it is. */
  lemma ByteTaken(iv: Interval, taken: seq<byte>, c: int, a: int, carried: seq<byte>)
    requires Denotes(iv, taken, c, a, 0) && 0 < a <= 0x10000
    requires |carried| == |taken|
    requires Num(carried) == Num(taken) + (if c >= 0x8000000 then 1 else 0)
    ensures c / 0x80000 % 256 < 256
    ensures Denotes(iv, carried + [c / 0x80000 % 256], c % 0x80000, a, 8)
  {
    CarryStops(iv, taken, c, a);
    Pow2Values();
    ShlTimes(9, 16);
    var b := c / 0x80000 % 256;
    NumSnoc(carried, b);
    ShlTimes(Num(taken), 27);
    ShlTimes(Num(carried + [b]), 19);
    var carry := if c >= 0x8000000 then 1 else 0;
    assert c / 0x80000 == carry * 256 + b;
    assert c == (carry * 256 + b) * 0x80000 + c % 0x80000;
    assert Num(carried + [b]) * 0x80000 + c % 0x80000 == Num(taken) * 0x8000000 + c;
  }

  lemma {:induction false} StuffZeros(n: nat)
    ensures Stuff(Repeat(0, n)) == Repeat(0, n)
  {
    if n > 0 {
      assert Repeat(0, n)[1..] == Repeat(0, n - 1);
      StuffZeros(n - 1);
    }
  }

  /** The point of [c, c + a) with the most trailing zero bits, as finish_pass finds it. */
  function FinalPoint(c: nat, a: nat): nat
    requires a > 0
  {
    var temp := (a - 1 + c) / 0x10000 * 0x10000;
    if temp < c then temp + 0x8000 else temp
  }

  lemma FinalPointInside(c: nat, a: nat)
    requires 0x8000 <= a <= 0x10000
    ensures c <= FinalPoint(c, a) < c + a
    ensures FinalPoint(c, a) % 0x8000 == 0
  {
  }

  lemma FinalPointRoundest(c: nat, a: nat, m: nat)
    requires 0x8000 <= a <= 0x10000 && c <= m * 0x10000 < c + a
    ensures FinalPoint(c, a) == m * 0x10000
  {
    assert (a - 1 + c) / 0x10000 == m;
  }

  lemma ShlEven(x: nat, k: nat)
    requires x % 0x8000 == 0 && k > 0
    ensures Shl(x, k) % 0x10000 == 0
    ensures k >= 4 ==> Shl(x, k) % 0x80000 == 0
  {
    hide Shl, Pow2;
    var q := x / 0x8000;
    Pow2Values();
    ShlTimes(q, 15);
    assert x == Shl(q, 15);
    ShlShl(q, 15, k);
    ShlIsMultiple(q, k - 1, 16);
    MultipleOf(Shl(q, k - 1), 0x10000);
    if k >= 4 {
      ShlIsMultiple(q, k - 4, 19);
      MultipleOf(Shl(q, k - 4), 0x80000);
    }
  }

  lemma ShlIsMultiple(q: nat, j: nat, k: nat)
    ensures Shl(q, j + k) == Shl(q, j) * Pow2(k)
  {
    ShlShl(q, j, k);
    ShlTimes(Shl(q, j), k);
  }

  /** The last two bytes that finish_pass takes out of the C register. */
  function FinalBytes(c: nat): (r: seq<byte>)
  {
    [c / 0x80000 % 256, c / 0x800 % 256]
  }

  /** The final point y, written out with both of its last bytes, has the value chosen. */
  lemma FinalValue(taken: seq<byte>, ct: nat, y: nat, z: nat, carried: seq<byte>)
    requires 1 <= ct <= 11 && y % 0x8000 == 0 && z == Shl(y, ct) < 0x9000000
    requires Num(carried) == Num(taken) + (if z >= 0x8000000 then 1 else 0)
    ensures Shl(Num(carried + FinalBytes(z)), 11 - ct) == Shl(Num(taken), 27 - ct) + y
  {
    ShlEven(y, ct);
    FinalDigits(z);
    TwoBytes(carried, z / 0x80000 % 256, z / 0x800 % 256);
    FinalSum(Num(carried), Num(taken), z, z / 0x80000 % 256 * 256 + z / 0x800 % 256);
    Unshift(Num(carried + FinalBytes(z)), Num(taken), y, ct);
  }

  lemma TwoBytes(s: seq<byte>, h: byte, l: byte)
    ensures Num(s + [h, l]) == Num(s) * 0x10000 + (h * 256 + l)
  {
    NumSnoc(s, h);
    NumSnoc(s + [h], l);
    assert s + [h, l] == s + [h] + [l];
  }

  lemma FinalSum(n: nat, t: nat, z: nat, d: nat)
    requires z < 0x10000000 && d * 0x800 == z % 0x8000000
    requires n == t + (if z >= 0x8000000 then 1 else 0)
    ensures (n * 0x10000 + d) * 0x800 == t * 0x8000000 + z
  {
  }

  lemma Unshift(x: nat, t: nat, y: nat, ct: nat)
    requires ct <= 11 && x * 0x800 == t * 0x8000000 + Shl(y, ct)
    ensures Shl(x, 11 - ct) == Shl(t, 27 - ct) + y
  {
    ShlTimes(x, 11);
    ShlTimes(t, 27);
    Pow2Values();
    ShlShl(x, 11 - ct, ct);
    ShlShl(t, 27 - ct, ct);
    ShlAdd(Shl(t, 27 - ct), y, ct);
    ShlOrder(Shl(x, 11 - ct), Shl(t, 27 - ct) + y, ct);
  }

  lemma FinalDigits(z: nat)
    requires z % 0x10000 == 0 && z < 0x9000000
    ensures (z / 0x80000 % 256 * 256 + z / 0x800 % 256) * 0x800 == z % 0x8000000
  {
    var w := z / 0x10000;
    var h, r := w / 2048, w % 2048;
    assert z == 0x10000 * w && z / 0x80000 == w / 8 && z / 0x800 == 32 * w;
    SmallDigits(w, h, r);
    assert z % 0x8000000 == 0x10000 * r;
  }

  lemma SmallDigits(w: nat, h: nat, r: nat)
    requires w == 2048 * h + r && r < 2048
    ensures w / 8 % 256 == r / 8 && 32 * w % 256 == 32 * (r % 8)
  {
    assert w / 8 == 256 * h + r / 8;
    assert 32 * w == 256 * (w / 8) + 32 * (w % 8) && w % 8 == r % 8;
  }

  /** The shifted final point still fits the register, and no carry passes the first byte. */
  lemma FinalFits(iv: Interval, taken: seq<byte>, c: nat, a: nat, ct: nat, y: nat)
    requires Denotes(iv, taken, c, a, ct) && c <= y < c + a
    ensures Shl(y, ct) < 0x9000000
    ensures Shl(y, ct) >= 0x8000000 ==> taken != Repeat(255, |taken|)
  {
    var m := if taken == [] then 8 else 9;
    ShlOrder(y, Shl(m, 24 - ct), ct);
    ShlShl(m, 24 - ct, ct);
    ShlTimes(m, 24);
    Pow2Values();
    if Shl(y, ct) >= 0x8000000 && taken == Repeat(255, |taken|) {
      NumOnes(|taken|);
      ShlAdd(Num(taken), 1, 27);
      ShlShl(1, 8 * |taken|, 27);
      ShlTimes(1, 27);
      // low + y would reach the end of the unit interval
      ShlAdd(Shl(Num(taken), 27 - ct), y, ct);
      ShlShl(Num(taken), 27 - ct, ct);
      ShlShl(1, 16 + iv.n, ct);
      ShlOrder(Shl(Num(taken), 27 - ct) + y, Pow2(16 + iv.n), ct);
    }
  }

  /** A zero byte at the end changes no value. */
  lemma TrailingZeros(p: seq<byte>, n: nat, iv: Interval)
    ensures InInterval(p + Repeat(0, n), iv) == InInterval(p, iv)
  {
    NumConcat(p, Repeat(0, n));
    NumZeros(n);
    ShlShl(Num(p), 8 * n, 16 + iv.n);
    ShlShl(Num(p), 16 + iv.n, 8 * n);
    ShlShl(iv.low, 8 * |p|, 8 * n);
    ShlShl(iv.low + iv.a, 8 * |p|, 8 * n);
    ShlOrder(Shl(iv.low, 8 * |p|), Shl(Num(p), 16 + iv.n), 8 * n);
    ShlOrder(Shl(Num(p), 16 + iv.n), Shl(iv.low + iv.a, 8 * |p|), 8 * n);
  }

  /** Membership for strings of exactly the bytes in the register and before it. */
  lemma AlignedInterval(iv: Interval, taken: seq<byte>, c: nat, a: nat, ct: int, f: seq<byte>)
    requires Denotes(iv, taken, c, a, ct) && |f| == |taken| + 2
    ensures InInterval(f, iv) <==> iv.low <= Shl(Num(f), 11 - ct) < iv.low + iv.a
  {
    ShlShl(Num(f), 11 - ct, 8 * |f|);
    ShlOrder(iv.low, Shl(Num(f), 11 - ct), 8 * |f|);
    ShlOrder(Shl(Num(f), 11 - ct), iv.low + iv.a, 8 * |f|);
  }

  lemma FinalInside(iv: Interval, taken: seq<byte>, c: nat, a: nat, ct: nat, y: nat, carried: seq<byte>)
    requires Denotes(iv, taken, c, a, ct) && 1 <= ct && c <= y < c + a && y % 0x8000 == 0
    requires |carried| == |taken|
    requires Num(carried) == Num(taken) + (if Shl(y, ct) >= 0x8000000 then 1 else 0)
    ensures InInterval(carried + FinalBytes(Shl(y, ct)), iv)
  {
    FinalFits(iv, taken, c, a, ct, y);
    FinalValue(taken, ct, y, Shl(y, ct), carried);
    AlignedInterval(iv, taken, c, a, ct, carried + FinalBytes(Shl(y, ct)));
  }

  /** A value in the interval that is a multiple of 2 to the power 16 is the final point. */
  lemma FinalIsOnlyMultiple(iv: Interval, taken: seq<byte>, c: nat, a: nat, ct: nat, x: nat, k: nat)
    requires Denotes(iv, taken, c, a, ct) && 1 <= ct && 0x8000 <= a <= 0x10000
    requires k >= 16 && iv.low <= Shl(x, k) < iv.low + iv.a
    ensures Shl(x, k) == Shl(Num(taken), 27 - ct) + FinalPoint(c, a)
  {
    var t := Shl(Num(taken), 11 - ct);
    var u := Shl(x, k - 16);
    ShlShl(x, k - 16, 16);
    ShlShl(Num(taken), 11 - ct, 16);
    ShlTimes(u, 16);
    ShlTimes(t, 16);
    Pow2Values();
    assert Shl(x, k) == u * 0x10000;
    assert Shl(Num(taken), 27 - ct) == t * 0x10000;
    FinalPointRoundest(c, a, u - t);
  }

  /** Every string in the interval has as many bytes as the final point without its
      trailing zeros. */
  lemma FinalShortest(iv: Interval, taken: seq<byte>, c: nat, a: nat, ct: nat, carried: seq<byte>,
                      p: seq<byte>, n: nat, w: seq<byte>)
    requires Denotes(iv, taken, c, a, ct) && 1 <= ct && 0x8000 <= a <= 0x10000
    requires |carried| == |taken|
    requires Num(carried) == Num(taken) + (if Shl(FinalPoint(c, a), ct) >= 0x8000000 then 1 else 0)
    requires p + Repeat(0, n) == carried + FinalBytes(Shl(FinalPoint(c, a), ct)) && Trimmed(p)
    requires InInterval(w, iv)
    ensures |p| <= |w|
  {
    var r := |taken| + 2 - |w|;
    if r > 1 || (r == 1 && ct < 4) {
      PaddedCoincides(iv, taken, c, a, ct, carried, w, r);
      TrimmedIsShortest(p, n, w, r);
    } else if r == 1 {
      FinalPointInside(c, a);
      LastByteClear(FinalPoint(c, a), ct);
      DropLastZero(p, n, carried, FinalBytes(Shl(FinalPoint(c, a), ct)));
    }
  }

  lemma DropLastZero(p: seq<byte>, n: nat, s: seq<byte>, t: seq<byte>)
    requires p + Repeat(0, n) == s + t && Trimmed(p) && |t| == 2 && t[1] == 0
    ensures |p| <= |s| + 1
  {
    assert (s + t)[|s| + 1] == 0;
  }

  /** A string in the interval, padded with zeros to the length of the final point, is it. */
  lemma PaddedCoincides(iv: Interval, taken: seq<byte>, c: nat, a: nat, ct: nat, carried: seq<byte>,
                        w: seq<byte>, r: nat)
    requires Denotes(iv, taken, c, a, ct) && 1 <= ct && 0x8000 <= a <= 0x10000
    requires |carried| == |taken|
    requires Num(carried) == Num(taken) + (if Shl(FinalPoint(c, a), ct) >= 0x8000000 then 1 else 0)
    requires InInterval(w, iv) && |w| + r == |taken| + 2 && 8 * r + (11 - ct) >= 16
    ensures w + Repeat(0, r) == carried + FinalBytes(Shl(FinalPoint(c, a), ct))
  {
    var y := FinalPoint(c, a);
    var f := carried + FinalBytes(Shl(y, ct));
    var g := w + Repeat(0, r);
    TrailingZeros(w, r, iv);
    PaddedIsFinal(iv, taken, c, a, ct, w, r);
    FinalPointInside(c, a);
    FinalFits(iv, taken, c, a, ct, y);
    FinalValue(taken, ct, y, Shl(y, ct), carried);
    ShlOrder(Num(f), Num(g), 11 - ct);
    NumInjective(f, g);
  }

  lemma TrimmedIsShortest(p: seq<byte>, n: nat, w: seq<byte>, r: nat)
    requires Trimmed(p) && p + Repeat(0, n) == w + Repeat(0, r)
    ensures |p| <= |w|
  {
    assert p == (w + Repeat(0, r))[..|p|];
  }

  lemma PaddedIsFinal(iv: Interval, taken: seq<byte>, c: nat, a: nat, ct: nat, w: seq<byte>, r: nat)
    requires Denotes(iv, taken, c, a, ct) && 1 <= ct && 0x8000 <= a <= 0x10000
    requires |w| + r == |taken| + 2 && 8 * r + (11 - ct) >= 16
    requires InInterval(w + Repeat(0, r), iv)
    ensures Shl(Num(w + Repeat(0, r)), 11 - ct) == Shl(Num(taken), 27 - ct) + FinalPoint(c, a)
  {
    var g := w + Repeat(0, r);
    AlignedInterval(iv, taken, c, a, ct, g);
    NumConcat(w, Repeat(0, r));
    NumZeros(r);
    var k := 8 * r;
    assert Num(g) == Shl(Num(w), k);
    ShlShl(Num(w), k, 11 - ct);
    FinalIsOnlyMultiple(iv, taken, c, a, ct, Num(w), k + (11 - ct));
  }

  lemma LastByteClear(y: nat, ct: nat)
    requires y % 0x8000 == 0 && ct >= 4
    ensures Shl(y, ct) / 0x800 % 256 == 0
  {
    ShlEven(y, ct);
    var q := Shl(y, ct) / 0x80000;
    assert Shl(y, ct) == q * 0x80000;
  }

  /** What finish_pass outputs lies in the interval, and nothing shorter does. */
  lemma FinalSegment(iv: Interval, taken: seq<byte>, c: nat, a: nat, ct: nat, carried: seq<byte>,
                     p: seq<byte>, n: nat)
    requires Denotes(iv, taken, c, a, ct) && 1 <= ct && 0x8000 <= a <= 0x10000
    requires |carried| == |taken|
    requires Num(carried) == Num(taken) + (if Shl(FinalPoint(c, a), ct) >= 0x8000000 then 1 else 0)
    requires p + Repeat(0, n) == carried + FinalBytes(Shl(FinalPoint(c, a), ct)) && Trimmed(p)
    ensures InInterval(p, iv)
    ensures forall w :: InInterval(w, iv) ==> |p| <= |w|
  {
    FinalPointInside(c, a);
    FinalInside(iv, taken, c, a, ct, FinalPoint(c, a), carried);
    TrailingZeros(p, n, iv);
    forall w | InInterval(w, iv)
      ensures |p| <= |w|
    {
      FinalShortest(iv, taken, c, a, ct, carried, p, n, w);
    }
  }
}
