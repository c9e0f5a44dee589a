/** Signs, magnitude categories and bit patterns as sequences of binary decisions
    (figures F.6 to F.9 and F.21 to F.24 of ITU-T T.81), and their decoding. */
module Magnitudes {
  import opened Arithmetic
  import opened Blocks
  import opened Bytes
  import opened Markers
  import opened ProbabilityTable
  import opened IntervalCoder
  import opened ArithDecoding

  /** Unary code of the category above 1: `while (v2 >>= 1) encode 1`, then a 0. */
  function Category(st: nat, w: nat): seq<Decision>
    requires w > 0 && st + Log2(w) < ALL_BINS
    decreases w
  {
    if w / 2 == 0 then [Decision(st, 0)]
    else [Decision(st, 1)] + Category(st + 1, w / 2)
  }

  /** `while (m >>= 1) encode the bit m of w`, with m = 2^k. */
  function Pattern(st: bin, w: nat, k: nat): seq<Decision>
  {
    if k == 0 then []
    else [Decision(st, w / Pow2(k - 1) % 2)] + Pattern(st, w, k - 1)
  }

  /** What a nonzero DC difference exceeds 1 by in magnitude; st is the bin of its first
      decision. */
  function DcMagnitude(b: nat, st: bin, w: nat): seq<Decision>
    requires b + DC_STAT_BINS <= ALL_BINS && w < 0x10000
  {
    if w == 0 then [Decision(st, 0)]
    else
      Log2Small(w);
      [Decision(st, 1)] + (Category(b + 20, w) + Pattern(b + 20 + Log2(w) + 14, w, Log2(w)))
  }

  /** A DC difference with the area of its table at b and conditioning context ctx. */
  function DcDiff(b: nat, ctx: nat, v: int): seq<Decision>
    requires b + DC_STAT_BINS <= ALL_BINS && ctx <= 16 && -0x10000 < v < 0x10000
  {
    if v == 0 then [Decision(b + ctx, 0)]
    else
      var s, w := if v > 0 then 0 else 1, (if v > 0 then v else -v) - 1;
      [Decision(b + ctx, 1)] + ([Decision(b + ctx + 1, s)] + DcMagnitude(b, b + ctx + 2 + s, w))
  }

  /** The magnitude v of an AC coefficient; st is the bin of its first decision and x the
      one where the categories above 2 start. */
  function AcMagnitude(st: bin, x: nat, v: nat): seq<Decision>
    requires x + 28 <= ALL_BINS && 1 <= v <= 0x8000
  {
    var w := v - 1;
    if w == 0 then [Decision(st, 0)]
    else if w / 2 == 0 then [Decision(st, 1)] + [Decision(st, 0)]
    else
      Log2Small(w);
      [Decision(st, 1)] + ([Decision(st, 1)] + (Category(x, w / 2) + Pattern(x + Log2(w / 2) + 14, w, Log2(w))))
  }

  /** Conditioning category of a difference with magnitude category m (section
      F.1.4.4.1.2), with the bounds L and U of the table. */
  function NextContext(m: nat, sign: bit, lower: nat, upper: nat): (c: nat)
    ensures c <= 16
  {
    if m < Pow2(lower) / 2 then 0
    else if m > Pow2(upper) / 2 then 12 + sign * 4
    else 4 + sign * 4
  }

  /** Magnitude category of a difference: 0 for 1, else the highest power of two in
      what exceeds 1. */
  function CategoryOf(v: int): nat
  {
    var w := if v > 0 then v - 1 else -v - 1;
    if w <= 0 then 0 else Pow2(Log2(w))
  }

  function ContextAfter(v: int, lower: nat, upper: nat): (c: nat)
    ensures c <= 16
  {
    if v == 0 then 0 else NextContext(CategoryOf(v), if v > 0 then 0 else 1, lower, upper)
  }

  // ----- decoding

  /** The unary category, from m = 2^k at bin st: the state, k and st at its end, and
      whether the magnitude stayed in range. */
  function DecodeCategory(src: seq<byte>, d: Dec, st: nat, k: nat): (r: (Dec, nat, nat, bool))
    requires DecOk(d) && k <= 14 && st + (14 - k) < ALL_BINS
    ensures DecOk(r.0)
    ensures r.3 ==> k <= r.1 <= 14 && r.2 == st + (r.1 - k)
    decreases 14 - k
  {
    var (bit, e) := Decode(src, d, st);
    if bit == 0 then (e, k, st, true)
    else if k + 1 == 15 then (e, k + 1, st, false)
    else DecodeCategory(src, e, st + 1, k + 1)
  }

  /** The bits below m = 2^k, added to v. */
  function DecodePattern(src: seq<byte>, d: Dec, st: bin, k: nat, v: nat): (r: (Dec, nat))
    requires DecOk(d)
    ensures DecOk(r.0)
    ensures v <= r.1 < v + Pow2(k)
    decreases k
  {
    if k == 0 then (d, v)
    else
      var (bit, e) := Decode(src, d, st);
      DecodePattern(src, e, st, k - 1, if bit == 1 then v + Pow2(k - 1) else v)
  }

  /** What a nonzero DC difference exceeds 1 by: the state, the amount, the category and
      whether it was in range. */
  function DecodeDcMagnitude(src: seq<byte>, d: Dec, b: nat, st: bin): (r: (Dec, nat, nat, bool))
    requires DecOk(d) && b + DC_STAT_BINS <= ALL_BINS
    ensures DecOk(r.0) && r.1 < 0x8000
  {
    var (m, d1) := Decode(src, d, st);
    if m == 0 then (d1, 0, 0, true)
    else
      var (d2, k, st', ok) := DecodeCategory(src, d1, b + 20, 0);
      if !ok then (d2, 0, 0, false)
      else
        Pow2Values();
        Pow2Monotone(k, 14);
        var (d3, w) := DecodePattern(src, d2, st' + 14, k, Pow2(k));
        (d3, w, Pow2(k), true)
  }

  /** A DC difference: the state, the value, the next context, and whether it was in
      range; out of range the value and the context are not used. */
  function DecodeDcDiff(src: seq<byte>, d: Dec, b: nat, ctx: nat, lower: nat, upper: nat): (r: (Dec, int, nat, bool))
    requires DecOk(d) && b + DC_STAT_BINS <= ALL_BINS && ctx <= 16
    ensures DecOk(r.0) && r.2 <= 16
    ensures -0x8000 <= r.1 <= 0x8000
  {
    var (nonzero, d1) := Decode(src, d, b + ctx);
    if nonzero == 0 then (d1, 0, 0, true)
    else
      var (sign, d2) := Decode(src, d1, b + ctx + 1);
      var (d3, w, m, ok) := DecodeDcMagnitude(src, d2, b, b + ctx + 2 + sign);
      (d3, if sign == 1 then -(w + 1) else w + 1, NextContext(m, sign, lower, upper), ok)
  }

  /** The magnitude of an AC coefficient: state, value, in range. */
  function DecodeAcMagnitude(src: seq<byte>, d: Dec, st: bin, x: nat): (r: (Dec, nat, bool))
    requires DecOk(d) && x + 28 <= ALL_BINS
    ensures DecOk(r.0)
    ensures 1 <= r.1 <= 0x8000
  {
    var (m1, d1) := Decode(src, d, st);
    if m1 == 0 then (d1, 1, true)
    else
      var (m2, d2) := Decode(src, d1, st);
      if m2 == 0 then (d2, 2, true)
      else
        var (d3, k, st', ok) := DecodeCategory(src, d2, x, 1);
        if !ok then (d3, 1, false)
        else
          Pow2Values();
          Pow2Monotone(k, 14);
          var (d4, w) := DecodePattern(src, d3, st' + 14, k, Pow2(k));
          (d4, w + 1, true)
  }

  // ----- decoding undoes coding

  lemma {:induction false} CategoryDecodes(src: seq<byte>, d: Dec, st: nat, w: nat, k: nat)
    requires DecOk(d) && w > 0 && k <= 14 && st + (14 - k) < ALL_BINS
    requires st + Log2(w) < ALL_BINS
    requires Follows(src, d, Category(st, w))
    ensures var (e, k', st', ok) := DecodeCategory(src, d, st, k);
            && (ok <==> k + Log2(w) <= 14)
            && (ok ==> k' == k + Log2(w) && st' == st + Log2(w) && e == After(src, d, Category(st, w)))
    decreases w
  {
    hide Decode;
    if w / 2 == 0 {
      FollowsOne(src, d, Decision(st, 0));
    } else {
      FollowsCons(src, d, Decision(st, 1), Category(st + 1, w / 2));
      if k + 1 < 15 {
        CategoryDecodes(src, Decode(src, d, st).1, st + 1, w / 2, k + 1);
      }
    }
  }

  lemma {:induction false} PatternDecodes(src: seq<byte>, d: Dec, st: bin, w: nat, k: nat)
    requires DecOk(d) && Follows(src, d, Pattern(st, w, k))
    ensures DecodePattern(src, d, st, k, Floor(w, Pow2(k))) == (After(src, d, Pattern(st, w, k)), w)
    decreases k
  {
    hide Decode;
    if k == 0 {
      assert Floor(w, 1) == w;
    } else {
      var q := Pow2(k - 1);
      FollowsCons(src, d, Decision(st, w / q % 2), Pattern(st, w, k - 1));
      HalveQuotient(w, q);
      PatternDecodes(src, Decode(src, d, st).1, st, w, k - 1);
    }
  }

  /** The amount is found in range exactly when it is below 2^15, and then is found. */
  lemma DcMagnitudeDecodes(src: seq<byte>, d: Dec, b: nat, st: bin, w: nat)
    requires DecOk(d) && b + DC_STAT_BINS <= ALL_BINS && w < 0x10000
    requires Follows(src, d, DcMagnitude(b, st, w))
    ensures var (e, w', m, ok) := DecodeDcMagnitude(src, d, b, st);
            && (ok <==> w < 0x8000)
            && (ok ==> w' == w && m == (if w == 0 then 0
              else Pow2(Log2(w))) && e == After(src, d, DcMagnitude(b, st, w)))
  {
    hide Decode, Follows, After, Shl;
    if w == 0 {
      FollowsOne(src, d, Decision(st, 0));
    } else {
      Log2Small(w);
      var k := Log2(w);
      var cat, pat := Category(b + 20, w), Pattern(b + 20 + k + 14, w, k);
      FollowsCons(src, d, Decision(st, 1), cat + pat);
      var d1 := Decode(src, d, st).1;
      FollowsConcat(src, d1, cat, pat);
      CategoryDecodes(src, d1, b + 20, w, 0);
      if k <= 14 {
        TopBit(w);
        PatternDecodes(src, After(src, d1, cat), b + 20 + k + 14, w, k);
      }
    }
  }

  /** A coded DC difference is found in range exactly when its magnitude is at most 2^15,
      and then it decodes to itself with the context the encoder goes on with. */
  lemma DcDiffDecodes(src: seq<byte>, d: Dec, b: nat, ctx: nat, v: int, lower: nat, upper: nat)
    requires DecOk(d) && b + DC_STAT_BINS <= ALL_BINS && ctx <= 16 && -0x10000 < v < 0x10000
    requires Follows(src, d, DcDiff(b, ctx, v))
    ensures var (e, v', c, ok) := DecodeDcDiff(src, d, b, ctx, lower, upper);
            && (ok <==> -0x8000 <= v <= 0x8000)
            && (ok ==> v' == v && c == ContextAfter(v, lower, upper) && e == After(src, d, DcDiff(b, ctx, v)))
  {
    hide Decode, Follows, After, NextContext, DcMagnitude, DecodeDcMagnitude;
    if v == 0 {
      FollowsOne(src, d, Decision(b + ctx, 0));
    } else {
      var s, w := if v > 0 then 0 else 1, (if v > 0 then v else -v) - 1;
      var ds := DcMagnitude(b, b + ctx + 2 + s, w);
      FollowsCons(src, d, Decision(b + ctx, 1), [Decision(b + ctx + 1, s)] + ds);
      var d1 := Decode(src, d, b + ctx).1;
      FollowsCons(src, d1, Decision(b + ctx + 1, s), ds);
      DcMagnitudeDecodes(src, Decode(src, d1, b + ctx + 1).1, b, b + ctx + 2 + s, w);
    }
  }

  lemma AcMagnitudeDecodes(src: seq<byte>, d: Dec, st: bin, x: nat, v: nat)
    requires DecOk(d) && x + 28 <= ALL_BINS && 1 <= v <= 0x8000
    requires Follows(src, d, AcMagnitude(st, x, v))
    ensures DecodeAcMagnitude(src, d, st, x) == (After(src, d, AcMagnitude(st, x, v)), v, true)
  {
    hide Decode, Follows, After, Shl;
    var w := v - 1;
    var d1 := Decode(src, d, st).1;
    if w == 0 {
      FollowsOne(src, d, Decision(st, 0));
    } else if w / 2 == 0 {
      FollowsCons(src, d, Decision(st, 1), [Decision(st, 0)]);
      FollowsOne(src, d1, Decision(st, 0));
    } else {
      Log2Small(w);
      var k := Log2(w);
      var cat, pat := Category(x, w / 2), Pattern(x + Log2(w / 2) + 14, w, k);
      FollowsCons(src, d, Decision(st, 1), [Decision(st, 1)] + (cat + pat));
      FollowsCons(src, d1, Decision(st, 1), cat + pat);
      var d2 := Decode(src, d1, st).1;
      FollowsConcat(src, d2, cat, pat);
      CategoryDecodes(src, d2, x, w / 2, 1);
      TopBit(w);
      PatternDecodes(src, After(src, d2, cat), x + Log2(w / 2) + 14, w, k);
    }
  }
}
