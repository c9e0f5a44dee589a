/** The MCU level of jcarith.c: the encode_mcu routines, restarts and passes. */
module ArithEntropyEncoding {
  import opened JpegLib
  import opened Arithmetic
  import opened Blocks
  import opened Bytes
  import opened Markers
  import opened Segments
  import opened ProbabilityTable
  import opened IntervalCoder
  import opened ArithEncoding
  import opened Magnitudes
  import opened Coefficients
  import opened McuCoding
  import opened ScanCoding
  import opened Restarts

  /** The complete intervals are coded by the segments output from index `from`, one
      marker behind each. */
  ghost predicate Record(sc: Scan, ri: nat, out: seq<byte>, from: nat, start: nat,
                         segs: seq<seq<Mcu>>, ps: seq<seq<byte>>, ss: seq<Stats>)
  {
    && sc.Valid() && SegsFit(sc, segs) && |segs| == |ps| == |ss|
    && from <= start <= |out|
    && out[from..start] == Chain(ps)
    && (forall i :: 0 <= i < |segs| ==> Codes(sc, ss[i], segs[i], ps[i]) && |segs[i]| == ri)
    && (ri == 0 ==> segs == [])
  }

  lemma CodesNow(sc: Scan, s0: Stats, mcus: seq<Mcu>, p: seq<byte>, model: Coder)
    requires sc.Valid() && AllFit(sc, mcus) && Fresh(sc, s0)
    requires model == Run(Coder(WHOLE, s0), SegDecisions(sc, PRED0, mcus)) && InInterval(p, model.iv)
    ensures Codes(sc, s0, mcus, p)
  {
  }

  lemma EmptySegment(sc: Scan)
    requires sc.Valid()
    ensures AllFit(sc, []) && SegPred(sc, PRED0, []) == PRED0 && SegDecisions(sc, PRED0, []) == []
  {
  }

  lemma RecordStart(sc: Scan, ri: nat, out: seq<byte>)
    requires sc.Valid()
    ensures Record(sc, ri, out, |out|, |out|, [], [], [])
  {
  }

  lemma RecordLengths(sc: Scan, ri: nat, out: seq<byte>, from: nat, start: nat,
                      segs: seq<seq<Mcu>>, ps: seq<seq<byte>>, ss: seq<Stats>)
    requires Record(sc, ri, out, from, start, segs, ps, ss)
    ensures |segs| == |ps| == |ss| && from <= start <= |out|
  {
  }

  lemma RecordPrefix(sc: Scan, ri: nat, out: seq<byte>, out': seq<byte>, from: nat, start: nat,
                     segs: seq<seq<Mcu>>, ps: seq<seq<byte>>, ss: seq<Stats>)
    requires Record(sc, ri, out, from, start, segs, ps, ss) && out <= out'
    ensures Record(sc, ri, out', from, start, segs, ps, ss)
  {
    hide Codes, Chain;
    assert out'[from..start] == out[from..start];
  }

  /** A finished segment and its marker extend the record. */
  lemma RecordGrows(sc: Scan, ri: nat, out: seq<byte>, from: nat, start: nat, segs: seq<seq<Mcu>>, ps: seq<seq<byte>>,
                    ss: seq<Stats>, cur: seq<Mcu>, p: seq<byte>, s0: Stats)
    requires Record(sc, ri, out, from, start, segs, ps, ss) && ri != 0
    requires AllFit(sc, cur) && |cur| == ri && Codes(sc, s0, cur, p) && Stuffed(out, start, p)
    ensures var o := out + [0xFF] + [M_RST0 + |ps| % 8];
            Record(sc, ri, o, from, |o|, segs + [cur], ps + [p], ss + [s0])
  {
    hide Codes, Chain;
    ChainGrows(out, from, start, ps, p);
    var o := out + [0xFF] + [M_RST0 + |ps| % 8];
    assert o[from..|o|] == o[from..];
  }

  /** The last segment completes the scan. */
  lemma RecordEnds(sc: Scan, ri: nat, out: seq<byte>, from: nat, start: nat, segs: seq<seq<Mcu>>, ps: seq<seq<byte>>,
                   ss: seq<Stats>, cur: seq<Mcu>, p: seq<byte>, s0: Stats)
    requires Record(sc, ri, out, from, start, segs, ps, ss)
    requires AllFit(sc, cur) && Codes(sc, s0, cur, p) && Stuffed(out, start, p)
    requires (ri != 0 ==> |cur| <= ri) && (segs != [] ==> cur != [])
    ensures out[from..] == Join(ps + [p], 0)
    ensures Cut(segs + [cur], ri) && Flatten(segs + [cur]) == Flatten(segs) + cur
    ensures SegsFit(sc, segs + [cur]) && |segs| == |ps| == |ss|
    ensures forall i :: 0 <= i < |segs| + 1 ==> Codes(sc, (ss + [s0])[i], (segs + [cur])[i], (ps + [p])[i])
  {
    hide Codes, Chain, Join, AllFit, Flatten, Cut, Stuff;
    ChainJoins(ps, p);
    assert out[from..] == out[from..start] + out[start..];
    FlattenSnoc(segs, cur);
    LastCut(segs, ri, cur);
    CodesSnoc(sc, segs, ps, ss, cur, p, s0);
  }

  lemma CodesSnoc(sc: Scan, segs: seq<seq<Mcu>>, ps: seq<seq<byte>>, ss: seq<Stats>, cur: seq<Mcu>, p: seq<byte>,
    s0: Stats)
    requires sc.Valid() && SegsFit(sc, segs) && AllFit(sc, cur) && |segs| == |ps| == |ss|
    requires (forall i :: 0 <= i < |segs| ==> Codes(sc, ss[i], segs[i], ps[i])) && Codes(sc, s0, cur, p)
    ensures SegsFit(sc, segs + [cur])
    ensures forall i :: 0 <= i < |segs| + 1 ==> Codes(sc, (ss + [s0])[i], (segs + [cur])[i], (ps + [p])[i])
  {
    hide Codes, AllFit;
  }

  class ArithEntropyEncoder {
    const coder: ArithEncoder
    const order: seq<nat>
    var sc: Scan
    var lastDcVal: seq<int>
    var dcContext: seq<nat>
    var restartInterval: nat
    var restartsToGo: nat
    var nextRestartNum: nat

    // What has been coded since start_pass.
    ghost var scanStart: nat         // where in the output the scan starts
    ghost var segs: seq<seq<Mcu>>    // the complete restart intervals
    ghost var cur: seq<Mcu>          // the current one
    ghost var ps: seq<seq<byte>>     // their segments before stuffing
    ghost var ss: seq<Stats>         // and the statistics each started with

    constructor (order: seq<nat>)
      requires ValidOrder(order)
      ensures fresh(coder) && fresh(coder.stats) && coder.Valid() && coder.out == []
      ensures coder.stats[FIXED_BIN] == Stat(0, 113) && this.order == order
    {
      coder := new ArithEncoder();
      this.order := order;
      lastDcVal, dcContext := [0, 0, 0, 0], [0, 0, 0, 0];
      restartInterval, restartsToGo, nextRestartNum := 0, 0, 0;
    }

    ghost predicate Ready()
      reads `sc, `lastDcVal, `dcContext, coder, coder.stats
    {
      && coder.Valid() && ValidOrder(order) && sc.Valid()
      && Pred(lastDcVal, dcContext).Small()
    }

    ghost predicate Recorded()
      reads `sc, `restartInterval, `scanStart, `segs, `ps, `ss, coder
    {
      Record(sc, restartInterval, coder.out, scanStart, coder.start, segs, ps, ss)
    }

    /** The current interval is what the coder has coded since its segment started. */
    ghost predicate Consistent()
      reads `sc, `lastDcVal, `dcContext, `restartInterval, `scanStart, `segs, `cur, `ps, `ss, coder, coder.stats
    {
      && Ready() && Recorded() && AllFit(sc, cur)
      && coder.log == SegDecisions(sc, PRED0, cur)
      && Pred(lastDcVal, dcContext) == SegPred(sc, PRED0, cur)
      && Fresh(sc, coder.stats0)
    }

    /** Between MCUs. */
    ghost predicate Valid()
      reads this, coder, coder.stats
    {
      && Consistent()
      && restartsToGo == (if restartInterval == 0 then 0 else restartInterval - |cur|)
      && (restartInterval != 0 ==> |cur| <= restartInterval)
      && nextRestartNum == |segs| % 8
      && (segs != [] ==> cur != [])
    }

    /** After the restart accounting, in front of the blocks of an MCU. */
    ghost predicate Counted()
      reads this, coder, coder.stats
    {
      && Consistent()
      && restartsToGo == (if restartInterval == 0 then 0 else restartInterval - |cur| - 1)
      && (restartInterval != 0 ==> |cur| < restartInterval)
      && nextRestartNum == |segs| % 8
    }

    /** All MCUs coded since start_pass, blocks in zigzag order. */
    ghost function Mcus(): seq<Mcu>
      reads `segs, `cur
    {
      Flatten(segs) + cur
    }

    lemma CategoryStep(st: nat, v: nat, m: nat)
      requires v / 2 > 0 && st + Log2(v) < ALL_BINS
      ensures Category(st, v) == [Decision(st, 1)] + Category(st + 1, v / 2)
      ensures Log2(v) == Log2(v / 2) + 1 && Shl(m * 2, Log2(v / 2)) == Shl(m, Log2(v))
    {
      ShlShl(m, 1, Log2(v / 2));
    }

    lemma LogStep(log: seq<Decision>, x: Decision, rest: seq<Decision>, goal: seq<Decision>)
      requires log + ([x] + rest) == goal
      ensures (log + [x]) + rest == goal
    {
    }

    lemma CategoryEnd(st: nat, v: nat, m: nat)
      requires v / 2 == 0 && v > 0 && st < ALL_BINS
      ensures Category(st, v) == [Decision(st, 0)] && Log2(v) == 0 && Shl(m, 0) == m
    {
    }

    /** The unary category: `while (v2 >>= 1) ...; arith_encode(cinfo, st, 0)`. */
    method EncodeCategory(st0: nat, v: nat, m0: nat) returns (m: nat, st: nat)
      requires coder.Valid() && v > 0 && st0 + Log2(v) < ALL_BINS
      modifies coder, coder.stats
      ensures coder.Valid() && coder.log == old(coder.log) + Category(st0, v)
      ensures coder.Continues(old(coder.start), old(coder.stats0), old(coder.out))
      ensures m == Shl(m0, Log2(v)) && st == st0 + Log2(v)
    {
      hide ArithEncoder.Valid, Category, Shl, Log2;
      m, st := m0, st0;
      ghost var goal, end, top := coder.log + Category(st0, v), st0 + Log2(v), Shl(m0, Log2(v));
      var v2 := v;
      while v2 / 2 != 0
        invariant coder.Valid() && v2 > 0 && st + Log2(v2) == end && Shl(m, Log2(v2)) == top
        invariant coder.log + Category(st, v2) == goal
        invariant coder.Continues(old(coder.start), old(coder.stats0), old(coder.out))
        decreases v2
      {
        CategoryStep(st, v2, m);
        LogStep(coder.log, Decision(st, 1), Category(st + 1, v2 / 2), goal);
        coder.ArithEncode(st, 1);
        v2 := v2 / 2;
        m := m * 2;
        st := st + 1;
      }
      CategoryEnd(st, v2, m);
      coder.ArithEncode(st, 0);
    }

    /** The bit pattern: `while (m >>= 1) arith_encode(cinfo, st, (m & v) ? 1 : 0)`. */
    method EncodePattern(st: bin, v: nat, m: nat, ghost k: nat)
      requires coder.Valid() && (m == Pow2(k) || (m == 0 && k == 0))
      modifies coder, coder.stats
      ensures coder.Valid() && coder.log == old(coder.log) + Pattern(st, v, k)
      ensures coder.Continues(old(coder.start), old(coder.stats0), old(coder.out))
    {
      hide ArithEncoder.Valid;
      var mm := m / 2;
      ghost var j := k;
      while mm != 0
        invariant coder.Valid()
        invariant mm == if j == 0 then 0 else Pow2(j - 1)
        invariant coder.log + Pattern(st, v, j) == old(coder.log) + Pattern(st, v, k)
        invariant coder.Continues(old(coder.start), old(coder.stats0), old(coder.out))
        decreases j
      {
        ghost var log := coder.log;
        assert Pattern(st, v, j) == [Decision(st, v / mm % 2)] + Pattern(st, v, j - 1);
        coder.ArithEncode(st, v / mm % 2);
        assert log + Pattern(st, v, j) == coder.log + Pattern(st, v, j - 1);
        mm := mm / 2;
        j := j - 1;
      }
    }

    /** Encode_DC_DIFF for the difference between m and the last DC value. */
    method EncodeDc(ci: nat, m0: int)
      requires Ready() && ci < |sc.dcTbl| && -0x8000 <= m0 < 0x8000
      modifies `lastDcVal, `dcContext, coder, coder.stats
      ensures coder.Valid()
      ensures coder.log == old(coder.log) + DcDiff(sc.DcArea(ci), old(dcContext)[ci], m0 - old(lastDcVal)[ci])
      ensures coder.Continues(old(coder.start), old(coder.stats0), old(coder.out))
      ensures lastDcVal == old(lastDcVal)[ci := m0]
      ensures dcContext == old(dcContext)[ci := ContextAfter(m0 - old(lastDcVal)[ci], sc.dcL[sc.dcTbl[ci]],
        sc.dcU[sc.dcTbl[ci]])]
    {
      hide ArithEncoder.Valid, DcDiff, Log2;
      var tbl := sc.dcTbl[ci];
      var v: int := m0 - lastDcVal[ci];
      var m := EncodeDiff(sc.DcArea(ci), dcContext[ci], v);
      if v == 0 {
        dcContext := dcContext[ci := 0];
      } else {
        lastDcVal := lastDcVal[ci := m0];
        dcContext := dcContext[ci := if v > 0 then 4 else 8];
        if m < Pow2(sc.dcL[tbl]) / 2 {
          dcContext := dcContext[ci := 0];
        } else if m > Pow2(sc.dcU[tbl]) / 2 {
          dcContext := dcContext[ci := dcContext[ci] + 8];
        }
      }
    }

    /** The decisions for a DC difference; its magnitude category is returned. */
    method EncodeDiff(base: nat, context: nat, v0: int) returns (m: nat)
      requires coder.Valid() && base + DC_STAT_BINS <= ALL_BINS && context <= 16 && -0x10000 < v0 < 0x10000
      modifies coder, coder.stats
      ensures coder.Valid() && coder.log == old(coder.log) + DcDiff(base, context, v0)
      ensures coder.Continues(old(coder.start), old(coder.stats0), old(coder.out))
      ensures m == CategoryOf(v0)
    {
      hide ArithEncoder.Valid, DcMagnitude, Log2, Pow2;
      var st: nat := base + context;
      var v: int := v0;
      m := 0;
      if v == 0 {
        coder.ArithEncode(st, 0);
      } else {
        ghost var s := if v > 0 then 0 else 1;
        coder.ArithEncode(st, 1);
        if v > 0 {
          coder.ArithEncode(st + 1, 0);
          st := st + 2;
        } else {
          v := -v;
          coder.ArithEncode(st + 1, 1);
          st := st + 3;
        }
        ghost var log := coder.log;
        assert log == old(coder.log) + [Decision(base + context, 1)] + [Decision(base + context + 1, s)];
        v := v - 1;
        m := EncodeDcMagnitude(base, st, v);
        assert coder.log == old(coder.log) + ([Decision(base + context, 1)]
          + ([Decision(base + context + 1, s)] + DcMagnitude(base, st, v)));
      }
    }

    /** Magnitude category and bit pattern of a DC difference; the category is returned. */
    method EncodeDcMagnitude(base: nat, st0: bin, v: nat) returns (m: nat)
      requires coder.Valid() && base + DC_STAT_BINS <= ALL_BINS && v < 0x10000
      modifies coder, coder.stats
      ensures coder.Valid() && coder.log == old(coder.log) + DcMagnitude(base, st0, v)
      ensures coder.Continues(old(coder.start), old(coder.stats0), old(coder.out))
      ensures m == if v == 0 then 0 else Pow2(Log2(v))
    {
      hide ArithEncoder.Valid, Category, Pattern, DcMagnitude, Log2, Shl, Pow2;
      m := 0;
      DcMagnitudeIs(base, st0, v);
      if v != 0 {
        coder.ArithEncode(st0, 1);
        var st: nat;
        m, st := EncodeCategory(base + 20, v, 1);
        EncodePattern(st + 14, v, m, Log2(v));
      } else {
        coder.ArithEncode(st0, 0);
      }
    }

    lemma DcMagnitudeIs(base: nat, st: bin, v: nat)
      requires base + DC_STAT_BINS <= ALL_BINS && v < 0x10000
      ensures v == 0 ==> DcMagnitude(base, st, v) == [Decision(st, 0)]
      ensures v > 0 ==> Log2(v) <= 15 && Shl(1, Log2(v)) == Pow2(Log2(v))
      ensures v > 0 ==>
        DcMagnitude(base, st, v) == [Decision(st, 1)] + (Category(base + 20, v)
        + Pattern(base + 34 + Log2(v), v, Log2(v)))
    {
      if v > 0 {
        Log2Small(v);
      }
    }

    /** Magnitude of an AC coefficient: category and bit pattern, from bin st0. */
    method EncodeAcMagnitude(ci: nat, k: nat, st0: bin, v0: nat)
      requires coder.Valid() && sc.Valid() && ci < |sc.acTbl| && 1 <= k < DCTSIZE2 && 1 <= v0 <= 0x8000
      modifies coder, coder.stats
      ensures coder.Valid() && coder.log == old(coder.log) + AcMagnitude(st0, sc.Ac(ci).HighBin(k), v0)
      ensures coder.Continues(old(coder.start), old(coder.stats0), old(coder.out))
    {
      hide ArithEncoder.Valid, Scan.Valid, AcTable.HighBin, AboveOne;
      var v := v0 - 1;
      if v != 0 {
        coder.ArithEncode(st0, 1);
        EncodeAboveOne(ci, k, st0, v);
        Appended(old(coder.log), [Decision(st0, 1)], AboveOne(st0, sc.Ac(ci).HighBin(k), v));
      } else {
        coder.ArithEncode(st0, 0);
      }
      AcMagnitudeIs(st0, sc.Ac(ci).HighBin(k), v0);
    }

    /** What follows the first decision of a magnitude v + 1 above 1. */
    ghost function AboveOne(st: bin, x: nat, v: nat): seq<Decision>
      requires x + 28 <= ALL_BINS && 1 <= v < 0x8000
    {
      Log2Small(v);
      if v / 2 == 0 then [Decision(st, 0)]
      else [Decision(st, 1)] + (Category(x, v / 2) + Pattern(x + Log2(v / 2) + 14, v, Log2(v)))
    }

    lemma AcMagnitudeIs(st: bin, x: nat, v: nat)
      requires x + 28 <= ALL_BINS && 1 <= v <= 0x8000
      ensures AcMagnitude(st, x, v) == if v == 1 then [Decision(st, 0)] else [Decision(st, 1)] + AboveOne(st, x, v - 1)
    {
      hide Category, Pattern, Log2;
    }

    lemma Appended(a: seq<Decision>, b: seq<Decision>, c: seq<Decision>)
      ensures (a + b) + c == a + (b + c)
    {
    }

    method EncodeAboveOne(ci: nat, k: nat, st0: bin, v: nat)
      requires coder.Valid() && sc.Valid() && ci < |sc.acTbl| && 1 <= k < DCTSIZE2 && 1 <= v < 0x8000
      modifies coder, coder.stats
      ensures coder.Valid() && coder.log == old(coder.log) + AboveOne(st0, sc.Ac(ci).HighBin(k), v)
      ensures coder.Continues(old(coder.start), old(coder.stats0), old(coder.out))
    {
      hide ArithEncoder.Valid, Scan.Valid, AcTable.HighBin, Category, Pattern, Log2;
      HighAt(ci, k);
      Log2Small(v);
      var v2 := v / 2;
      if v2 != 0 {
        coder.ArithEncode(st0, 1);
        var high := sc.Ac(ci).b + if k <= sc.acK[sc.acTbl[ci]] then 189 else 217;
        EncodeHigh(high, v);
        Appended(old(coder.log), [Decision(st0, 1)], Category(high, v2) + Pattern(high + Log2(v2) + 14, v, Log2(v)));
      } else {
        coder.ArithEncode(st0, 0);
      }
    }

    lemma HighAt(ci: nat, k: nat)
      requires sc.Valid() && ci < |sc.acTbl| && 1 <= k < DCTSIZE2
      ensures sc.acTbl[ci] < |sc.acK| && sc.Ac(ci).b + 245 <= ALL_BINS
      ensures sc.Ac(ci).HighBin(k) == sc.Ac(ci).b + if k <= sc.acK[sc.acTbl[ci]] then 189 else 217
    {
    }

    /** The category and the bits below the highest of a magnitude above 2. */
    method EncodeHigh(high: nat, v: nat)
      requires coder.Valid() && 2 <= v < 0x8000 && high + 28 <= ALL_BINS
      modifies coder, coder.stats
      ensures Log2(v / 2) <= 13
      ensures coder.Valid() && coder.log == old(coder.log) + (Category(high, v / 2)
        + Pattern(high + Log2(v / 2) + 14, v, Log2(v)))
      ensures coder.Continues(old(coder.start), old(coder.stats0), old(coder.out))
    {
      hide ArithEncoder.Valid, Category, Pattern, Log2, Shl, Pow2;
      HalfSmall(v);
      var m, st := EncodeCategory(high, v / 2, 2);
      EncodePattern(st + 14, v, m, Log2(v));
    }

    lemma HalfSmall(v: nat)
      requires 2 <= v < 0x8000
      ensures Log2(v / 2) <= 13 && Log2(v) == Log2(v / 2) + 1 && Shl(2, Log2(v / 2)) == Pow2(Log2(v))
    {
      Log2Small(v);
      ShlShl(1, 1, Log2(v / 2));
    }

    /** A nonzero coefficient at position k: that it is, its sign and its magnitude. */
    method EncodeNonzero(ci: nat, k: nat, st: nat, sign: bit, v: nat)
      requires coder.Valid() && sc.Valid() && ci < |sc.acTbl| && 1 <= k < DCTSIZE2 && 1 <= v <= 0x8000
      requires st == sc.Ac(ci).b + 3 * (k - 1)
      modifies coder, coder.stats
      ensures coder.Valid()
      ensures var ac := sc.Ac(ci);
              coder.log == old(coder.log) + ([Decision(ac.Bin(k, 1), 1)]
                + ([Decision(FIXED_BIN, sign)] + AcMagnitude(ac.Bin(k, 2), ac.HighBin(k), v)))
      ensures coder.Continues(old(coder.start), old(coder.stats0), old(coder.out))
    {
      hide ArithEncoder.Valid, AcMagnitude;
      coder.ArithEncode(st + 1, 1);
      coder.ArithEncode(FIXED_BIN, sign);
      EncodeAcMagnitude(ci, k, st + 2, v);
    }

    /** The coefficient at zigzag position k, shifted, as magnitude and sign. */
    method Coefficient(block: Block, k: nat) returns (v: nat, sign: bit)
      requires ValidOrder(order) && k < DCTSIZE2
      ensures v == Abs(Transform(Zigzag(order, block)[k], sc.al))
      ensures v != 0 ==> sign == SignBit(Transform(Zigzag(order, block)[k], sc.al))
      ensures v <= 0x8000
    {
      TransformSmall(block[order[k]], sc.al);
      var x: int := block[order[k]];
      if x >= 0 {
        v, sign := Quotient(x, Pow2(sc.al)), 0;
      } else {
        x := -x;
        v, sign := Quotient(x, Pow2(sc.al)), 1;
      }
    }

    /** Establishes the end-of-block index from position k downwards. */
    method FindEob(block: Block, k: nat) returns (ke: nat)
      requires ValidOrder(order) && k < DCTSIZE2
      ensures ke == EndOfBlock(Transformed(Zigzag(order, block), sc.al), k)
    {
      ghost var t := Transformed(Zigzag(order, block), sc.al);
      ke := k;
      while ke > 0
        invariant ke <= k && EndOfBlock(t, ke) == EndOfBlock(t, k)
      {
        var v, sign := Coefficient(block, ke);
        if v != 0 {
          break;
        }
        ke := ke - 1;
      }
    }

    /** Encode_AC_Coefficients, first pass over the band ss..se of block. */
    method EncodeAcFirst(ci: nat, block: Block, ss: nat, se: nat)
      requires coder.Valid() && ValidOrder(order) && sc.Valid() && ci < |sc.acTbl| && 1 <= ss <= se < DCTSIZE2
      modifies coder, coder.stats
      ensures coder.Valid() && coder.log == old(coder.log) + AcPart(sc.Ac(ci), Zigzag(order, block), ss, se, sc.al)
      ensures coder.Continues(old(coder.start), old(coder.stats0), old(coder.out))
    {
      hide ArithEncoder.Valid, AcRun, Transform, EndOfBlock;
      var ac := sc.Ac(ci);
      var ke := FindEob(block, se);
      ghost var t := Transformed(Zigzag(order, block), sc.al);
      ghost var goal := coder.log + AcPart(ac, Zigzag(order, block), ss, se, sc.al);
      BandSmall(Zigzag(order, block), sc.al);
      var k := ss;
      while k <= ke
        invariant ss <= k <= se + 1 && coder.Valid()
        invariant coder.log + AcFirst(ac, t, k, ke, se) == goal
        invariant coder.Continues(old(coder.start), old(coder.stats0), old(coder.out))
      {
        ghost var log := coder.log;
        coder.ArithEncode(ac.b + 3 * (k - 1), 0);  // EOB decision
        assert log + AcFirst(ac, t, k, ke, se) == coder.log + AcRun(ac, t, k, ke, se);
        k := EncodeRun(ci, block, k, ke, se);
      }
      if k <= se {
        coder.ArithEncode(ac.b + 3 * (k - 1), 1);
      }
    }

    /** A zero run and the nonzero coefficient that ends it; the position after it. */
    method EncodeRun(ci: nat, block: Block, k0: nat, ghost ke: nat, ghost se: nat) returns (k: nat)
      requires coder.Valid() && ValidOrder(order) && sc.Valid() && ci < |sc.acTbl| && 1 <= k0 <= ke <= se < DCTSIZE2
      requires Transform(Zigzag(order, block)[ke], sc.al) != 0
      requires forall j :: 0 <= j < DCTSIZE2 ==> Abs(Transformed(Zigzag(order, block), sc.al)[j]) <= 0x8000
      modifies coder, coder.stats
      ensures coder.Valid() && k0 < k <= ke + 1
      ensures var t := Transformed(Zigzag(order, block), sc.al);
              coder.log + AcFirst(sc.Ac(ci), t, k, ke, se) == old(coder.log) + AcRun(sc.Ac(ci), t, k0, ke, se)
      ensures coder.Continues(old(coder.start), old(coder.stats0), old(coder.out))
    {
      hide ArithEncoder.Valid, AcMagnitude, Transform, AcFirst;
      var ac := sc.Ac(ci);
      ghost var t := Transformed(Zigzag(order, block), sc.al);
      ghost var goal := coder.log + AcRun(ac, t, k0, ke, se);
      k := k0;
      var st: nat := ac.b + 3 * (k - 1);
      var v, sign := Coefficient(block, k);
      while v == 0
        invariant k0 <= k <= ke && coder.Valid() && st == ac.b + 3 * (k - 1)
        invariant v == Abs(t[k]) && (v != 0 ==> sign == SignBit(t[k]))
        invariant coder.log + AcRun(ac, t, k, ke, se) == goal
        invariant coder.Continues(old(coder.start), old(coder.stats0), old(coder.out))
        decreases ke - k
      {
        LogStep(coder.log, Decision(st + 1, 0), AcRun(ac, t, k + 1, ke, se), goal);
        coder.ArithEncode(st + 1, 0);
        st := st + 3;
        k := k + 1;
        v, sign := Coefficient(block, k);
      }
      NonzeroStep(coder.log, ac, t, k, ke, se, goal);
      EncodeNonzero(ci, k, st, sign, v);
      k := k + 1;
    }

    lemma NonzeroStep(log: seq<Decision>, ac: AcTable, t: seq<int>, k: nat, ke: nat, se: nat, goal: seq<Decision>)
      requires ac.Valid() && 1 <= k <= ke <= se < DCTSIZE2 && se < |t| && t[ke] != 0 && t[k] != 0
      requires forall j :: k <= j <= ke ==> Abs(t[j]) <= 0x8000
      requires log + AcRun(ac, t, k, ke, se) == goal
      ensures log + ([Decision(ac.Bin(k, 1), 1)] + ([Decision(FIXED_BIN, SignBit(t[k]))]
                     + AcMagnitude(ac.Bin(k, 2), ac.HighBin(k), Abs(t[k])))) + AcFirst(ac, t, k + 1, ke, se) == goal
    {
      hide AcMagnitude, AcFirst;
    }

    /** Encode_AC_Coefficients of a sequential scan, where no point transform applies and k
        is counted before its increment. */
    method EncodeAcSequential(ci: nat, block: Block)
      requires coder.Valid() && ValidOrder(order) && sc.Valid() && ci < |sc.acTbl| && sc.al == 0 && sc.limSe != 0
      modifies coder, coder.stats
      ensures coder.Valid() && coder.log == old(coder.log) + AcPart(sc.Ac(ci), Zigzag(order, block), 1, sc.limSe, 0)
      ensures coder.Continues(old(coder.start), old(coder.stats0), old(coder.out))
    {
      hide ArithEncoder.Valid, AcRun, EndOfBlock;
      var ac := sc.Ac(ci);
      ghost var t := Transformed(Zigzag(order, block), 0);
      BandSmall(Zigzag(order, block), 0);
      SameBand(Zigzag(order, block));
      ghost var goal := coder.log + AcPart(ac, Zigzag(order, block), 1, sc.limSe, 0);
      var ke := FindEob(block, sc.limSe);
      hide Transform;
      var k := 0;
      while k < ke
        invariant 0 <= k <= sc.limSe && coder.Valid() && (k <= ke || ke == 0)
        invariant coder.log + AcFirst(ac, t, k + 1, ke, sc.limSe) == goal
        invariant coder.Continues(old(coder.start), old(coder.stats0), old(coder.out))
      {
        ghost var log := coder.log;
        coder.ArithEncode(ac.b + 3 * k, 0);  // EOB decision
        assert log + AcFirst(ac, t, k + 1, ke, sc.limSe) == coder.log + AcRun(ac, t, k + 1, ke, sc.limSe);
        k := EncodeSequentialRun(ci, block, k, ke);
      }
      if k < sc.limSe {
        coder.ArithEncode(ac.b + 3 * k, 1);
      }
    }

    lemma SameBand(z: Block)
      ensures forall j :: 0 <= j < DCTSIZE2 ==> Transformed(z, 0)[j] == z[j]
    {
      forall j | 0 <= j < DCTSIZE2
        ensures Transformed(z, 0)[j] == z[j]
      {
        TransformSmall(z[j], 0);
        assert Approx(z[j], 0) == Transform(z[j], 0) * 1;
      }
    }

    method EncodeSequentialRun(ci: nat, block: Block, k0: nat, ghost ke: nat) returns (k: nat)
      requires coder.Valid() && ValidOrder(order) && sc.Valid() && ci < |sc.acTbl| && k0 < ke <= sc.limSe
      requires forall j :: 0 <= j < DCTSIZE2 ==> Abs(Transformed(Zigzag(order, block), 0)[j]) <= 0x8000
      requires forall j :: 0 <= j < DCTSIZE2 ==> Transformed(Zigzag(order, block), 0)[j] == Zigzag(order, block)[j]
      requires Zigzag(order, block)[ke] != 0
      modifies coder, coder.stats
      ensures coder.Valid() && k0 < k <= ke
      ensures var t := Transformed(Zigzag(order, block), 0);
              coder.log + AcFirst(sc.Ac(ci), t, k + 1, ke, sc.limSe) == old(coder.log)
                + AcRun(sc.Ac(ci), t, k0 + 1, ke, sc.limSe)
      ensures coder.Continues(old(coder.start), old(coder.stats0), old(coder.out))
    {
      hide ArithEncoder.Valid, AcMagnitude, Transform, AcFirst;
      var ac, se := sc.Ac(ci), sc.limSe;
      ghost var t := Transformed(Zigzag(order, block), 0);
      ghost var goal := coder.log + AcRun(ac, t, k0 + 1, ke, se);
      var st: nat := ac.b + 3 * k0;
      k := k0 + 1;
      var v: int := block[order[k]];
      while v == 0
        invariant k0 < k <= ke && coder.Valid() && st == ac.b + 3 * (k - 1)
        invariant v == t[k]
        invariant coder.log + AcRun(ac, t, k, ke, se) == goal
        invariant coder.Continues(old(coder.start), old(coder.stats0), old(coder.out))
        decreases ke - k
      {
        LogStep(coder.log, Decision(st + 1, 0), AcRun(ac, t, k + 1, ke, se), goal);
        coder.ArithEncode(st + 1, 0);
        st := st + 3;
        k := k + 1;
        v := block[order[k]];
      }
      NonzeroStep(coder.log, ac, t, k, ke, se, goal);
      var sign := if v > 0 then 0 else 1;
      if v < 0 {
        v := -v;
      }
      EncodeNonzero(ci, k, st, sign, v);
    }

    /** Establishes the previous stage's end-of-block index. */
    method FindPreviousEob(block: Block, k: nat) returns (kex: nat)
      requires ValidOrder(order) && k < DCTSIZE2
      ensures kex == EndOfBlock(Transformed(Zigzag(order, block), sc.al + 1), k)
    {
      ghost var t := Transformed(Zigzag(order, block), sc.al + 1);
      kex := k;
      while kex > 0
        invariant kex <= k && EndOfBlock(t, kex) == EndOfBlock(t, k)
      {
        var x: int := block[order[kex]];
        if Quotient(if x >= 0 then x else -x, Pow2(sc.al + 1)) != 0 {
          break;
        }
        kex := kex - 1;
      }
    }

    /** Encode_AC_Coefficients_SA. */
    method EncodeAcRefine(ci: nat, block: Block)
      requires coder.Valid() && ValidOrder(order) && sc.Valid() && ci < |sc.acTbl| && sc.mode.AcRefinePass?
      modifies coder, coder.stats
      ensures coder.Valid() && coder.log == old(coder.log) + AcRefinePart(sc.Ac(ci), Zigzag(order, block), sc.ss, sc.se,
        sc.al)
      ensures coder.Continues(old(coder.start), old(coder.stats0), old(coder.out))
    {
      hide ArithEncoder.Valid, AcRefineRun, Transform, EndOfBlock;
      var ac, se := sc.Ac(ci), sc.se;
      var ke := FindEob(block, se);
      var kex := FindPreviousEob(block, ke);
      ghost var t := Transformed(Zigzag(order, block), sc.al);
      ghost var goal := coder.log + AcRefinePart(ac, Zigzag(order, block), sc.ss, se, sc.al);
      var k := sc.ss;
      while k <= ke
        invariant sc.ss <= k <= se + 1 && coder.Valid()
        invariant coder.log + AcRefine(ac, t, k, kex, ke, se) == goal
        invariant coder.Continues(old(coder.start), old(coder.stats0), old(coder.out))
      {
        ghost var log := coder.log;
        if k > kex {
          coder.ArithEncode(ac.b + 3 * (k - 1), 0);  // EOB decision
        }
        assert log + AcRefine(ac, t, k, kex, ke, se) == coder.log + AcRefineRun(ac, t, k, kex, ke, se);
        k := EncodeRefineRun(ci, block, k, kex, ke);
      }
      if k <= se {
        coder.ArithEncode(ac.b + 3 * (k - 1), 1);
      }
    }

    method EncodeRefineRun(ci: nat, block: Block, k0: nat, ghost kex: nat, ghost ke: nat) returns (k: nat)
      requires coder.Valid() && ValidOrder(order) && sc.Valid() && ci < |sc.acTbl| && 1 <= k0 <= ke <= sc.se < DCTSIZE2
      requires Transform(Zigzag(order, block)[ke], sc.al) != 0
      modifies coder, coder.stats
      ensures coder.Valid() && k0 < k <= ke + 1
      ensures var t := Transformed(Zigzag(order, block), sc.al);
              coder.log + AcRefine(sc.Ac(ci), t, k, kex, ke, sc.se) == old(coder.log)
                + AcRefineRun(sc.Ac(ci), t, k0, kex, ke, sc.se)
      ensures coder.Continues(old(coder.start), old(coder.stats0), old(coder.out))
    {
      hide ArithEncoder.Valid, Transform, AcRefine;
      var ac, se := sc.Ac(ci), sc.se;
      ghost var t := Transformed(Zigzag(order, block), sc.al);
      ghost var goal := coder.log + AcRefineRun(ac, t, k0, kex, ke, se);
      k := k0;
      var st: nat := ac.b + 3 * (k - 1);
      var v, sign := Coefficient(block, k);
      while v == 0
        invariant k0 <= k <= ke && coder.Valid() && st == ac.b + 3 * (k - 1)
        invariant v == Abs(t[k]) && (v != 0 ==> sign == SignBit(t[k]))
        invariant coder.log + AcRefineRun(ac, t, k, kex, ke, se) == goal
        invariant coder.Continues(old(coder.start), old(coder.stats0), old(coder.out))
        decreases ke - k
      {
        LogStep(coder.log, Decision(st + 1, 0), AcRefineRun(ac, t, k + 1, kex, ke, se), goal);
        coder.ArithEncode(st + 1, 0);
        st := st + 3;
        k := k + 1;
        v, sign := Coefficient(block, k);
      }
      RefinedStep(coder.log, ac, t, k, kex, ke, se, goal);
      EncodeRefined(st, v, sign);
      k := k + 1;
    }

    lemma RefinedStep(log: seq<Decision>, ac: AcTable, t: seq<int>, k: nat, kex: nat, ke: nat, se: nat,
      goal: seq<Decision>)
      requires ac.Valid() && 1 <= k <= ke <= se < DCTSIZE2 && se < |t| && t[ke] != 0 && t[k] != 0
      requires log + AcRefineRun(ac, t, k, kex, ke, se) == goal
      ensures log + (if Abs(t[k]) / 2 != 0 then [Decision(ac.Bin(k, 2), Abs(t[k]) % 2)]
                     else [Decision(ac.Bin(k, 1), 1), Decision(FIXED_BIN, SignBit(t[k]))])
              + AcRefine(ac, t, k + 1, kex, ke, se) == goal
    {
      hide AcRefine;
    }

    /** A coefficient with magnitude v > 0: its next bit, or its sign if it is new. */
    method EncodeRefined(st: nat, v: nat, sign: bit)
      requires coder.Valid() && st + 2 < ALL_BINS && v > 0
      modifies coder, coder.stats
      ensures coder.Valid() && coder.Continues(old(coder.start), old(coder.stats0), old(coder.out))
      ensures coder.log == old(coder.log)
        + if v / 2 != 0 then [Decision(st + 2, v % 2)] else [Decision(st + 1, 1), Decision(FIXED_BIN, sign)]
    {
      hide ArithEncoder.Valid;
      if v / 2 != 0 {  // previously nonzero coefficient
        coder.ArithEncode(st + 2, v % 2);
      } else {  // newly nonzero coefficient
        coder.ArithEncode(st + 1, 1);
        coder.ArithEncode(FIXED_BIN, sign);
      }
    }

    /** All decisions for one block, by the coding mode of the scan. */
    method EncodeBlock(ci: nat, block: Block)
      requires Ready() && ci < |sc.dcTbl|
      modifies `lastDcVal, `dcContext, coder, coder.stats
      ensures Ready()
      ensures coder.log == old(coder.log) + BlockDecisions(sc, old(Pred(lastDcVal, dcContext)), ci,
        Zigzag(order, block))
      ensures Pred(lastDcVal, dcContext) == PredAfter(sc, old(Pred(lastDcVal, dcContext)), ci, Zigzag(order, block))
      ensures coder.Continues(old(coder.start), old(coder.stats0), old(coder.out))
    {
      hide ArithEncoder.Valid, AcPart, AcRefinePart, DcDiff, Shift, ContextAfter;
      ShiftSmall(block[0], sc.al);
      match sc.mode
      case Sequential =>
        EncodeDc(ci, block[0]) by { SequentialShift(block[0]); }
        SequentialShift(block[0]);
        if sc.limSe != 0 {
          EncodeAcSequential(ci, block);
        }
      case DcFirst => EncodeDc(ci, Shift(block[0], sc.al));
      case AcFirstPass => EncodeAcFirst(ci, block, sc.ss, sc.se);
      case DcRefine => coder.ArithEncode(FIXED_BIN, Shift(block[0], sc.al) % 2);
      case AcRefinePass => EncodeAcRefine(ci, block);
    }

    lemma SequentialShift(x: int)
      ensures Shift(x, 0) == x
    {
    }

    /** Zeroes the statistics areas of the scan and the predictions that belong to them. */
    method ResetStats()
      requires sc.Valid() && coder.stats.Length == ALL_BINS && |lastDcVal| == |dcContext| == MAX_COMPS_IN_SCAN
      modifies `lastDcVal, `dcContext, coder.stats
      ensures coder.stats[..] == Reset(sc, old(coder.stats[..]))
      ensures |lastDcVal| == |dcContext| == MAX_COMPS_IN_SCAN
      ensures forall ci :: 0 <= ci < MAX_COMPS_IN_SCAN ==>
        lastDcVal[ci] == (if sc.CodesDc() && ci < |sc.dcTbl| then 0 else old(lastDcVal)[ci])
      ensures forall ci :: 0 <= ci < MAX_COMPS_IN_SCAN ==>
        dcContext[ci] == (if sc.CodesDc() && ci < |sc.dcTbl| then 0 else old(dcContext)[ci])
    {
      ZeroAreas(sc, coder.stats);
      if sc.CodesDc() {
        for ci := 0 to |sc.dcTbl|
          invariant |lastDcVal| == |dcContext| == MAX_COMPS_IN_SCAN
          invariant coder.stats[..] == Reset(sc, old(coder.stats[..]))
          invariant forall j :: 0 <= j < MAX_COMPS_IN_SCAN ==> lastDcVal[j] == (if j < ci then 0 else old(lastDcVal)[j])
          invariant forall j :: 0 <= j < MAX_COMPS_IN_SCAN ==> dcContext[j] == (if j < ci then 0 else old(dcContext)[j])
        {
          lastDcVal := lastDcVal[ci := 0];
          dcContext := dcContext[ci := 0];
        }
      }
    }

    /** Ends the current interval: its segment, the restart marker, and a fresh start. */
    method EmitRestart(restartNum: nat)
      requires Valid() && restartInterval != 0 && |cur| == restartInterval && restartNum == nextRestartNum
      modifies `lastDcVal, `dcContext, `segs, `cur, `ps, `ss, coder, coder.stats
      ensures Consistent()
      ensures segs == old(segs) + [old(cur)] && cur == [] && old(coder.out) <= coder.out
    {
      hide Codes, Record, SegPred, Fresh, ArithEncoder.Valid;
      ghost var mcus := cur;
      EndSegment(restartNum);
      BeginSegment(mcus);
      assert SegPred(sc, PRED0, []) == PRED0 && SegDecisions(sc, PRED0, []) == [] by {
        EmptySegment(sc);
      }
    }

    /** The segment is finished and the marker emitted. */
    method EndSegment(restartNum: nat)
      requires Valid() && restartInterval != 0 && |cur| == restartInterval && restartNum == nextRestartNum
      modifies `segs, `cur, `ps, `ss, coder
      ensures Record(sc, restartInterval, coder.out, scanStart, |coder.out|, segs, ps, ss)
      ensures segs == old(segs) + [old(cur)] && cur == [] && old(coder.out) <= coder.out
      ensures coder.stats.Length == ALL_BINS && coder.stats[FIXED_BIN] == Stat(0, 113)
    {
      hide Codes, Record, SegPred, SegDecisions, Fresh, Run, ArithEncoder.Valid, Scan.Valid;
      SegmentsSoFar();
      FinishSegment();
      RecordLengths(sc, restartInterval, coder.out, scanStart, coder.start, segs, ps, ss);
      RecordGrows(sc, restartInterval, coder.out, scanStart, coder.start, segs, ps, ss, cur, coder.plain, coder.stats0);
      segs, cur, ps, ss := segs + [cur], [], ps + [coder.plain], ss + [coder.stats0];
      coder.EmitByte(0xFF);
      coder.EmitByte(M_RST0 + restartNum);
    }

    lemma SegmentsSoFar()
      requires Valid()
      ensures Recorded() && AllFit(sc, cur) && nextRestartNum == |segs| % 8
    {
    }

    /** The bytes of the current interval are completed. */
    method FinishSegment()
      requires Valid()
      modifies coder
      ensures Recorded() && old(coder.out) <= coder.out && Stuffed(coder.out, coder.start, coder.plain)
      ensures sc.Valid() && AllFit(sc, cur) && Codes(sc, coder.stats0, cur, coder.plain)
      ensures coder.stats.Length == ALL_BINS && coder.stats[FIXED_BIN] == Stat(0, 113)
    {
      hide Codes, Record, SegPred, SegDecisions, InInterval, Fresh, Run;
      FixedStays(Coder(WHOLE, coder.stats0), coder.log) by { FreshFixed(sc, coder.stats0); }
      assert coder.stats[..][FIXED_BIN] == Stat(0, 113);
      coder.FinishPass();
      CodesNow(sc, coder.stats0, cur, coder.plain, coder.model);
      RecordPrefix(sc, restartInterval, old(coder.out), coder.out, scanStart, coder.start, segs, ps, ss);
    }

    /** Statistics, predictions and registers are initialised for the next segment. */
    method BeginSegment(ghost mcus: seq<Mcu>)
      requires ValidOrder(order) && AllFit(sc, mcus) && coder.stats.Length == ALL_BINS
      requires Record(sc, restartInterval, coder.out, scanStart, |coder.out|, segs, ps, ss)
      requires Pred(lastDcVal, dcContext) == SegPred(sc, PRED0, mcus)
      requires coder.stats[FIXED_BIN] == Stat(0, 113)
      modifies `lastDcVal, `dcContext, coder, coder.stats
      ensures Ready() && Recorded() && coder.out == old(coder.out)
      ensures coder.log == [] && Pred(lastDcVal, dcContext) == PRED0 && Fresh(sc, coder.stats0)
    {
      hide SegPred, ArithEncoder.Valid;
      ghost var pr := Pred(lastDcVal, dcContext);
      ResetFresh(sc, coder.stats[..]);
      ResetStats();
      PredRestored(sc, mcus, pr, Pred(lastDcVal, dcContext));
      coder.ResetRegisters();
    }

    /** The restart accounting in front of every MCU. */
    method CountMcu()
      requires Valid()
      modifies `lastDcVal, `dcContext, `segs, `cur, `ps, `ss, `restartsToGo, `nextRestartNum, coder, coder.stats
      ensures Counted() && Mcus() == old(Mcus()) && old(coder.out) <= coder.out
    {
      hide ArithEntropyEncoder.Consistent;
      if restartInterval != 0 {
        if restartsToGo == 0 {
          FlattenSnoc(segs, cur);
          EmitRestart(nextRestartNum);
          assert Flatten(segs) + [] == Flatten(segs);
          restartsToGo := restartInterval;
          nextRestartNum := (nextRestartNum + 1) % 8;
        }
        restartsToGo := restartsToGo - 1;
      }
    }

    /** Encodes one MCU, its blocks in natural order. */
    method EncodeMcu(mcu: Mcu)
      requires Valid() && McuFits(sc, mcu)
      modifies `lastDcVal, `dcContext, `segs, `cur, `ps, `ss, `restartsToGo, `nextRestartNum, coder, coder.stats
      ensures Valid() && Mcus() == old(Mcus()) + [Zigzags(order, mcu)] && old(coder.out) <= coder.out
    {
      assert ValidOrder(order);
      hide ArithEntropyEncoder.Valid, ArithEntropyEncoder.Counted, ArithEntropyEncoder.Mcus, Zigzags, ValidOrder,
        Scan.Valid;
      CountMcu();
      EncodeCounted(mcu, Zigzags(order, mcu));
    }

    method EncodeCounted(mcu: Mcu, ghost z: Mcu)
      requires Counted() && McuFits(sc, mcu) && ValidOrder(order) && z == Zigzags(order, mcu)
      modifies `lastDcVal, `dcContext, `cur, coder, coder.stats
      ensures Valid() && Mcus() == old(Mcus()) + [z] && old(coder.out) <= coder.out
    {
      hide Consistent, Mcus, Zigzags, ValidOrder, Scan.Valid, ArithEncoder.Valid, Flatten, McuFits, Ready, Recorded;
      EncodeBlocks(mcu);
    }

    method EncodeBlocks(mcu: Mcu)
      requires Consistent() && McuFits(sc, mcu)
      modifies `lastDcVal, `dcContext, `cur, coder, coder.stats
      ensures Consistent() && old(coder.out) <= coder.out
      ensures |cur| == old(|cur|) + 1 && Mcus() == old(Mcus()) + [Zigzags(order, mcu)]
    {
      hide ArithEncoder.Valid, Record, Fresh, BlockDecisions, PredAfter, SegDecisions, SegPred, Flatten;
      ghost var z, log0, pr0, out0 := Zigzags(order, mcu), coder.log, Pred(lastDcVal, dcContext), coder.out;
      SegSnoc(sc, PRED0, cur, z);
      for i := 0 to |mcu|
        invariant Ready() && cur == old(cur)
        invariant coder.log + McuDecisions(sc, Pred(lastDcVal, dcContext), z, i) == log0 + McuDecisions(sc, pr0, z, 0)
        invariant PredAfterMcu(sc, Pred(lastDcVal, dcContext), z, i) == PredAfterMcu(sc, pr0, z, 0)
        invariant coder.Continues(old(coder.start), old(coder.stats0), out0)
      {
        ghost var log, pr := coder.log, Pred(lastDcVal, dcContext);
        EncodeBlock(sc.membership[i], mcu[i]);
        assert log + McuDecisions(sc, pr, z, i) == coder.log + McuDecisions(sc, Pred(lastDcVal, dcContext), z, i + 1);
      }
      assert Flatten(segs) + (cur + [z]) == (Flatten(segs) + cur) + [z];
      cur := cur + [z];
      RecordPrefix(sc, restartInterval, out0, coder.out, scanStart, coder.start, segs, ps, ss);
    }

    method Initialise(scan: Scan, interval: nat)
      modifies this
      ensures sc == scan && lastDcVal == dcContext == [0, 0, 0, 0]
      ensures restartInterval == restartsToGo == interval && nextRestartNum == 0
      ensures scanStart == |coder.out| && segs == [] && cur == [] && ps == [] && ss == []
    {
      sc := scan;
      lastDcVal, dcContext := [0, 0, 0, 0], [0, 0, 0, 0];
      restartInterval, restartsToGo, nextRestartNum := interval, interval, 0;
      scanStart, segs, cur, ps, ss := |coder.out|, [], [], [], [];
    }

    /** Initialises for a scan. */
    method StartPass(scan: Scan, interval: nat)
      requires scan.Valid() && ValidOrder(order) && coder.stats.Length == ALL_BINS
      requires coder.stats[FIXED_BIN] == Stat(0, 113)
      modifies this, coder, coder.stats
      ensures Valid() && sc == scan && restartInterval == interval && Mcus() == []
      ensures scanStart == |coder.out| && coder.out == old(coder.out)
    {
      hide ArithEncoder.Valid, Record, Fresh, Reset, SegDecisions, SegPred, InDcAreas, InAcAreas, AllFit;
      Initialise(scan, interval);
      RecordStart(sc, interval, coder.out);
      EmptySegment(sc);
      BeginSegment([]);
    }

    /** Ends the scan: the bytes output since start_pass are its segments joined by restart
        markers, and each segment codes its restart interval. */
    method FinishPass()
      requires Valid()
      modifies `segs, `cur, `ps, `ss, coder
      ensures old(coder.out) <= coder.out && scanStart <= |coder.out|
      ensures ps != [] && coder.out[scanStart..] == Join(ps, 0)
      ensures Cut(segs, restartInterval) && Flatten(segs) == old(Mcus())
      ensures SegsFit(sc, segs) && |segs| == |ps| == |ss|
      ensures forall i :: 0 <= i < |segs| ==> Codes(sc, ss[i], segs[i], ps[i])
    {
      hide Codes, SegPred, SegDecisions, InInterval, Fresh, Run, Stuffed, Chain, Flatten, Join;
      coder.FinishPass();
      CodesNow(sc, coder.stats0, cur, coder.plain, coder.model);
      RecordPrefix(sc, restartInterval, old(coder.out), coder.out, scanStart, coder.start, segs, ps, ss);
      RecordEnds(sc, restartInterval, coder.out, scanStart, coder.start, segs, ps, ss, cur, coder.plain, coder.stats0);
      hide Record, Cut;
      segs, cur, ps, ss := segs + [cur], [], ps + [coder.plain], ss + [coder.stats0];
    }

    lemma BandSmall(z: Block, al: nat)
      ensures forall j :: 0 <= j < DCTSIZE2 ==> Abs(Transformed(z, al)[j]) <= 0x8000
    {
      forall j | 0 <= j < DCTSIZE2
        ensures Abs(Transformed(z, al)[j]) <= 0x8000
      {
        TransformSmall(z[j], al);
      }
    }
  }
}
