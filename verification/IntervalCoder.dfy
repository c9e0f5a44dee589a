/** The adaptive binary arithmetic coder in exact arithmetic: what the registers of
    jcarith.c and jdarith.c stand for (ITU-T T.81, sections D.1.1 to D.1.5). */
module IntervalCoder {
  import opened JpegLib
  import opened Bytes
  import opened ProbabilityTable

  // The statistics areas laid end to end: 16 DC areas, 16 AC areas and the fixed bin.
  const DC_STAT_BINS := 64
  const AC_STAT_BINS := 256
  const FIXED_BIN := 5120
  const ALL_BINS := 5124

  type bin = b: nat | b < ALL_BINS

  type Stats = s: seq<stat> | |s| == ALL_BINS witness seq(ALL_BINS, _ => Stat(0, 0))

  /** A binary decision and the statistics bin it is coded with. */
  datatype Decision = Decision(bin: bin, bit: bit)

  /** The interval [low, low + a) in units of 2 to the power -(16 + n). */
  datatype Interval = Interval(low: nat, a: nat, n: nat)

  datatype Coder = Coder(iv: Interval, stats: Stats)

  const WHOLE := Interval(0, 0x10000, 0)

  ghost predicate Normal(iv: Interval)
  {
    && 0x8000 <= iv.a <= 0x10000
    && iv.low + iv.a <= Pow2(16 + iv.n)
  }

  /** Whether the less probable symbol is the one given the upper sub-interval: not when
      its estimate is larger than what is left for the more probable one. */
  predicate TakesUpper(a: nat, sv: stat, b: bit)
    requires LineOf(sv).qe <= a
  {
    var rest := a - LineOf(sv).qe;
    (b != sv.mps) == (rest >= LineOf(sv).qe)
  }

  function Half(iv: Interval, qe: nat, upper: bool): Interval
    requires qe <= iv.a
  {
    if upper then Interval(iv.low + (iv.a - qe), qe, iv.n)
    else Interval(iv.low, iv.a - qe, iv.n)
  }

  function Estimate(a: nat, sv: stat, b: bit): stat
    requires LineOf(sv).qe <= a
  {
    if b != sv.mps then AfterLps(sv)
    else if a - LineOf(sv).qe < 0x8000 then AfterMps(sv)
    else sv
  }

  function Normalise(iv: Interval): (r: Interval)
    requires 0 < iv.a <= 0x10000
    ensures 0x8000 <= r.a <= 0x10000
    decreases 0x10000 - iv.a
  {
    if iv.a >= 0x8000 then iv else Normalise(Interval(2 * iv.low, 2 * iv.a, iv.n + 1))
  }

  /** One decision: split, select, adapt the estimate, renormalise. */
  function Code(c: Coder, d: Decision): Coder
    requires 0x8000 <= c.iv.a <= 0x10000
  {
    var sv := c.stats[d.bin];
    Coder(Normalise(Half(c.iv, LineOf(sv).qe, TakesUpper(c.iv.a, sv, d.bit))),
          c.stats[d.bin := Estimate(c.iv.a, sv, d.bit)])
  }

  function Run(c: Coder, ds: seq<Decision>): (r: Coder)
    requires 0x8000 <= c.iv.a <= 0x10000
    ensures 0x8000 <= r.iv.a <= 0x10000
  {
    if ds == [] then c else Code(Run(c, ds[..|ds| - 1]), ds[|ds| - 1])
  }

  lemma LogGrows(c: Coder, log: seq<Decision>, d: Decision)
    requires 0x8000 <= c.iv.a <= 0x10000
    ensures Run(c, log + [d]) == Code(Run(c, log), d)
  {
    assert (log + [d])[..|log|] == log;
  }

  lemma {:induction false} RunConcat(c: Coder, xs: seq<Decision>, ys: seq<Decision>)
    requires 0x8000 <= c.iv.a <= 0x10000
    ensures Run(c, xs + ys) == Run(Run(c, xs), ys)
  {
    if ys == [] {
      assert xs + ys == xs;
    } else {
      assert (xs + ys)[..|xs + ys| - 1] == xs + ys[..|ys| - 1];
      RunConcat(c, xs, ys[..|ys| - 1]);
    }
  }

  /** The byte string p, read as a fraction and followed by zeros, lies in the interval. */
  ghost predicate InInterval(p: seq<byte>, iv: Interval)
  {
    && Shl(iv.low, 8 * |p|) <= Shl(Num(p), 16 + iv.n)
    && Shl(Num(p), 16 + iv.n) < Shl(iv.low + iv.a, 8 * |p|)
  }

  lemma {:induction false} NormaliseKeeps(iv: Interval, p: seq<byte>)
    requires 0 < iv.a <= 0x10000
    ensures InInterval(p, Normalise(iv)) == InInterval(p, iv)
    ensures iv.low + iv.a <= Pow2(16 + iv.n) ==> Normal(Normalise(iv))
    decreases 0x10000 - iv.a
  {
    if iv.a < 0x8000 {
      var jv := Interval(2 * iv.low, 2 * iv.a, iv.n + 1);
      ShlAdd(iv.low, iv.low, 8 * |p|);
      ShlAdd(iv.low + iv.a, iv.low + iv.a, 8 * |p|);
      NormaliseKeeps(jv, p);
    }
  }

  /** A point of the interval is in exactly one of the two parts. */
  lemma HalvesPartition(iv: Interval, qe: nat, p: seq<byte>)
    requires qe <= iv.a
    ensures InInterval(p, iv) == (InInterval(p, Half(iv, qe, true)) || InInterval(p, Half(iv, qe, false)))
    ensures !(InInterval(p, Half(iv, qe, true)) && InInterval(p, Half(iv, qe, false)))
  {
    ShlOrder(iv.low, iv.low + (iv.a - qe), 8 * |p|);
    ShlOrder(iv.low + (iv.a - qe), iv.low + iv.a, 8 * |p|);
  }

  lemma CodeKeeps(c: Coder, d: Decision, p: seq<byte>)
    requires 0x8000 <= c.iv.a <= 0x10000
    ensures InInterval(p, Code(c, d).iv) ==> InInterval(p, c.iv)
    ensures Normal(c.iv) ==> Normal(Code(c, d).iv)
  {
    var sv := c.stats[d.bin];
    var upper := TakesUpper(c.iv.a, sv, d.bit);
    HalvesPartition(c.iv, LineOf(sv).qe, p);
    NormaliseKeeps(Half(c.iv, LineOf(sv).qe, upper), p);
  }

  /** Coding more decisions only narrows the interval. */
  lemma {:induction false} RunKeeps(c: Coder, ds: seq<Decision>, p: seq<byte>)
    requires 0x8000 <= c.iv.a <= 0x10000
    ensures InInterval(p, Run(c, ds).iv) ==> InInterval(p, c.iv)
    ensures Normal(c.iv) ==> Normal(Run(c, ds).iv)
  {
    if ds != [] {
      RunKeeps(c, ds[..|ds| - 1], p);
      CodeKeeps(Run(c, ds[..|ds| - 1]), ds[|ds| - 1], p);
    }
  }
}
