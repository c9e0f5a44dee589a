/** Whole scans with restart intervals: every segment is coded on its own, and the decoder
    finds its way from each to the next. */
module ScanCoding {
  import opened JpegLib
  import opened Arithmetic
  import opened Blocks
  import opened Bytes
  import opened Markers
  import opened ProbabilityTable
  import opened IntervalCoder
  import opened ArithDecoding
  import opened ArithRoundTrip
  import opened Magnitudes
  import opened Coefficients
  import opened McuCoding

  // ----- statistics areas

  function AcBase(t: nat): nat
  {
    NUM_ARITH_TBLS * DC_STAT_BINS + t * AC_STAT_BINS
  }

  /** Bin i is in an area used by one of the first n components. */
  predicate InDcAreas(sc: Scan, n: nat, i: nat)
  {
    sc.CodesDc() && exists ci ::
        0 <= ci < n && ci < |sc.dcTbl| && sc.dcTbl[ci] * DC_STAT_BINS <= i < sc.dcTbl[ci] * DC_STAT_BINS + DC_STAT_BINS
  }

  predicate InAcAreas(sc: Scan, n: nat, i: nat)
  {
    sc.CodesAc() && exists ci ::
        0 <= ci < n && ci < |sc.acTbl| && AcBase(sc.acTbl[ci]) <= i < AcBase(sc.acTbl[ci]) + AC_STAT_BINS
  }

  predicate InDcArea(sc: Scan, i: nat)
  {
    InDcAreas(sc, |sc.dcTbl|, i)
  }

  predicate InAcArea(sc: Scan, i: nat)
  {
    InAcAreas(sc, |sc.acTbl|, i)
  }

  predicate Used(sc: Scan, i: nat)
  {
    InDcArea(sc, i) || InAcArea(sc, i) || i == FIXED_BIN
  }

  /** The areas a scan uses are zeroed at its start and at every restart; the fixed bin
      keeps its state. */
  function Reset(sc: Scan, s: Stats): (r: Stats)
    ensures forall i :: 0 <= i < ALL_BINS ==> r[i] == if InDcArea(sc, i) || InAcArea(sc, i) then Stat(0, 0) else s[i]
  {
    seq(ALL_BINS, i requires 0 <= i < ALL_BINS => if InDcArea(sc, i) || InAcArea(sc, i) then Stat(0, 0) else s[i])
  }

  /** MEMZERO of one area. */
  method ZeroArea(stats: array<stat>, b: nat, n: nat)
    requires stats.Length == ALL_BINS && b + n <= ALL_BINS
    modifies stats
    ensures forall i :: 0 <= i < ALL_BINS ==> stats[i] == if b <= i < b + n then Stat(0, 0) else old(stats[i])
  {
    for i := b to b + n
      invariant forall j :: 0 <= j < ALL_BINS ==> stats[j] == if b <= j < i then Stat(0, 0) else old(stats[j])
    {
      stats[i] := Stat(0, 0);
    }
  }

  /** The loop over the components of the scan that zeroes their areas. */
  method ZeroAreas(sc: Scan, stats: array<stat>)
    requires sc.Valid() && stats.Length == ALL_BINS
    modifies stats
    ensures stats[..] == Reset(sc, old(stats[..]))
  {
    for ci := 0 to |sc.dcTbl|
      invariant forall i :: 0 <= i < ALL_BINS ==>
        stats[i] == if InDcAreas(sc, ci, i) || InAcAreas(sc, ci, i) then Stat(0, 0) else old(stats[i])
    {
      ghost var before := stats[..];
      if sc.CodesDc() {
        ZeroArea(stats, sc.DcArea(ci), DC_STAT_BINS);
      }
      if sc.CodesAc() {
        ZeroArea(stats, sc.Ac(ci).b, AC_STAT_BINS);
      }
      OneMoreComponent(sc, ci, before, stats[..], old(stats[..]));
    }
  }

  lemma OneMoreComponent(sc: Scan, ci: nat, before: Stats, after: Stats, s: Stats)
    requires sc.Valid() && ci < |sc.dcTbl|
    requires forall i :: 0 <= i < ALL_BINS ==>
      before[i] == if InDcAreas(sc, ci, i) || InAcAreas(sc, ci, i) then Stat(0, 0) else s[i]
    requires forall i :: 0 <= i < ALL_BINS ==>
      after[i] == if (sc.CodesDc() && sc.DcArea(ci) <= i < sc.DcArea(ci) + DC_STAT_BINS)
                     || (sc.CodesAc() && sc.Ac(ci).b <= i < sc.Ac(ci).b + AC_STAT_BINS) then Stat(0, 0) else before[i]
    ensures forall i :: 0 <= i < ALL_BINS ==>
      after[i] == if InDcAreas(sc, ci + 1, i) || InAcAreas(sc, ci + 1, i) then Stat(0, 0) else s[i]
  {
    forall i | 0 <= i < ALL_BINS
      ensures InDcAreas(sc, ci + 1, i) == (InDcAreas(sc, ci, i)
        || (sc.CodesDc() && sc.DcArea(ci) <= i < sc.DcArea(ci) + DC_STAT_BINS))
      ensures InAcAreas(sc, ci + 1, i) == (InAcAreas(sc, ci, i)
        || (sc.CodesAc() && sc.Ac(ci).b <= i < sc.Ac(ci).b + AC_STAT_BINS))
    {
      hide Scan.CodesDc, Scan.CodesAc, Scan.Valid;
    }
    hide InDcAreas, InAcAreas, Scan.CodesDc, Scan.CodesAc;
  }

  ghost predicate Fresh(sc: Scan, s: Stats)
  {
    && s[FIXED_BIN] == Stat(0, 113)
    && forall i :: 0 <= i < ALL_BINS && (InDcArea(sc, i) || InAcArea(sc, i)) ==> s[i] == Stat(0, 0)
  }

  lemma ResetFresh(sc: Scan, s: Stats)
    requires sc.Valid() && s[FIXED_BIN] == Stat(0, 113)
    ensures Fresh(sc, Reset(sc, s))
  {
    forall ci | 0 <= ci < |sc.dcTbl|
      ensures sc.dcTbl[ci] * DC_STAT_BINS + DC_STAT_BINS <= FIXED_BIN
      ensures AcBase(sc.acTbl[ci]) + AC_STAT_BINS <= FIXED_BIN
    {
    }
  }

  ghost predicate Agree(sc: Scan, s: Stats, s': Stats)
  {
    forall i :: 0 <= i < ALL_BINS && Used(sc, i) ==> s[i] == s'[i]
  }

  ghost predicate BinsUsed(sc: Scan, ds: seq<Decision>)
  {
    forall i :: 0 <= i < |ds| ==> Used(sc, ds[i].bin)
  }

  /** Coding depends only on the bins it touches. */
  lemma {:induction false} RunAgree(sc: Scan, k: Coder, k': Coder, ds: seq<Decision>)
    requires 0x8000 <= k.iv.a <= 0x10000 && k.iv == k'.iv
    requires Agree(sc, k.stats, k'.stats) && BinsUsed(sc, ds)
    ensures Run(k, ds).iv == Run(k', ds).iv
    ensures Agree(sc, Run(k, ds).stats, Run(k', ds).stats)
  {
    hide Used;
    if ds != [] {
      var n := |ds| - 1;
      RunAgree(sc, k, k', ds[..n]);
      assert Used(sc, ds[n].bin);
    }
  }

  // ----- which bins are touched

  ghost predicate Within(ds: seq<Decision>, lo: nat, hi: nat)
  {
    forall i :: 0 <= i < |ds| ==> lo <= ds[i].bin < hi || ds[i].bin == FIXED_BIN
  }

  lemma {:induction false} CategoryBins(st: nat, w: nat)
    requires w > 0 && st + Log2(w) < ALL_BINS
    ensures Within(Category(st, w), st, st + Log2(w) + 1)
    decreases w
  {
    if w / 2 > 0 {
      CategoryBins(st + 1, w / 2);
    }
  }

  lemma {:induction false} PatternBins(st: bin, w: nat, k: nat)
    ensures Within(Pattern(st, w, k), st, st + 1)
  {
    if k > 0 {
      PatternBins(st, w, k - 1);
    }
  }

  lemma DcMagnitudeBins(b: nat, st: bin, w: nat)
    requires b + DC_STAT_BINS <= ALL_BINS && b <= st < b + 49 && w < 0x10000
    ensures Within(DcMagnitude(b, st, w), b, if w < 0x8000 then b + 49 else b + 50)
  {
    hide Category, Pattern, Log2;
    if w > 0 {
      Log2Small(w);
      CategoryBins(b + 20, w);
      PatternBins(b + 20 + Log2(w) + 14, w, Log2(w));
    }
  }

  /** A DC difference touches bins 0 to 48 of its area, or 49 if it is out of the range of
      the decoder. */
  lemma DcBins(b: nat, ctx: nat, v: int)
    requires b + DC_STAT_BINS <= ALL_BINS && ctx <= 16 && -0x10000 < v < 0x10000
    ensures Within(DcDiff(b, ctx, v), b, if -0x8000 <= v <= 0x8000 then b + 49 else b + 50)
  {
    hide DcMagnitude;
    if v != 0 {
      var s, w := if v > 0 then 0 else 1, (if v > 0 then v else -v) - 1;
      DcMagnitudeBins(b, b + ctx + 2 + s, w);
      WithinBehind(Decision(b + ctx, 1), Decision(b + ctx + 1, s), DcMagnitude(b, b + ctx + 2 + s, w), b,
        if w < 0x8000 then b + 49 else b + 50);
    }
  }

  lemma WithinBehind(x: Decision, y: Decision, ds: seq<Decision>, lo: nat, hi: nat)
    requires lo <= x.bin < hi && lo <= y.bin < hi && Within(ds, lo, hi)
    ensures Within([x] + ([y] + ds), lo, hi)
  {
  }

  lemma MagnitudeBins(ac: AcTable, k: nat, v: nat)
    requires ac.Valid() && 1 <= k < DCTSIZE2 && 1 <= v <= 0x8000
    ensures Within(AcMagnitude(ac.Bin(k, 2), ac.HighBin(k), v), ac.b, ac.b + 245)
  {
    hide Category, Pattern, Log2;
    var w := v - 1;
    if w / 2 > 0 {
      Log2Small(w);
      Log2Small(w / 2);
      HalfLog(w);
      CategoryBins(ac.HighBin(k), w / 2);
      PatternBins(ac.HighBin(k) + Log2(w / 2) + 14, w, Log2(w));
      hide AcTable.HighBin;
      assert AcMagnitude(ac.Bin(k, 2), ac.HighBin(k), v) == [Decision(ac.Bin(k, 2), 1)] + ([Decision(ac.Bin(k, 2), 1)]
        + (Category(ac.HighBin(k), w / 2) + Pattern(ac.HighBin(k) + Log2(w / 2) + 14, w, Log2(w))));
    }
  }

  lemma HalfLog(w: nat)
    requires w / 2 > 0
    ensures Log2(w) == Log2(w / 2) + 1
  {
  }

  /** The AC coefficients of a block touch bins 0 to 244 of their area and the fixed bin. */
  lemma {:induction false} FirstBins(ac: AcTable, t: seq<int>, k: nat, ke: nat, se: nat)
    requires ac.Valid() && 1 <= k && ke <= se < DCTSIZE2 && se < |t| && k <= se + 1
    requires ke >= k ==> t[ke] != 0
    requires forall j :: k <= j <= ke ==> Abs(t[j]) <= 0x8000
    ensures Within(AcFirst(ac, t, k, ke, se), ac.b, ac.b + 245)
    ensures k <= ke ==> Within(AcRun(ac, t, k, ke, se), ac.b, ac.b + 245)
    decreases ke + 1 - k
  {
    hide AcMagnitude;
    if k <= ke {
      FirstBins(ac, t, k + 1, ke, se);
      if t[k] != 0 {
        MagnitudeBins(ac, k, Abs(t[k]));
      }
    }
  }

  lemma {:induction false} RefineBins(ac: AcTable, t: seq<int>, k: nat, kex: nat, ke: nat, se: nat)
    requires ac.Valid() && 1 <= k && ke <= se < DCTSIZE2 && se < |t| && k <= se + 1
    requires ke >= k ==> t[ke] != 0
    ensures Within(AcRefine(ac, t, k, kex, ke, se), ac.b, ac.b + 245)
    ensures k <= ke ==> Within(AcRefineRun(ac, t, k, kex, ke, se), ac.b, ac.b + 245)
    decreases ke + 1 - k
  {
    if k <= ke {
      hide AcRefine;
      RefineBins(ac, t, k + 1, kex, ke, se);
    }
  }

  lemma BlockBins(sc: Scan, pr: Pred, ci: nat, z: Block)
    requires sc.Valid() && pr.Small() && ci < |sc.dcTbl|
    ensures BinsUsed(sc, BlockDecisions(sc, pr, ci, z))
  {
    if sc.CodesDc() {
      ShiftSmall(z[0], sc.al);
      DcBins(sc.DcArea(ci), pr.context[ci], Diff(sc, pr, ci, z));
      DcUsed(sc, ci, DcPart(sc, pr, ci, z));
    }
    if sc.CodesAc() {
      AcBins(sc, ci, z);
    }
    hide DcPart, AcPart, AcRefinePart, Within, Scan.Ac;
  }

  lemma AcBins(sc: Scan, ci: nat, z: Block)
    requires sc.Valid() && ci < |sc.acTbl| && sc.CodesAc()
    ensures var (ss, se) := (sc.Pass().FirstAc(), sc.Pass().LastAc());
            BinsUsed(sc, AcPart(sc.Ac(ci), z, ss, se, sc.al)) && BinsUsed(sc, AcRefinePart(sc.Ac(ci), z, ss, se, sc.al))
  {
    hide BinsUsed, AcFirst, AcRefine, EndOfBlock, Within;
    var (ss, se) := (sc.Pass().FirstAc(), sc.Pass().LastAc());
    var t := Transformed(z, sc.al);
    forall j | 0 <= j < |t|
      ensures Abs(t[j]) <= 0x8000
    {
      TransformSmall(z[j], sc.al);
    }
    FirstBins(sc.Ac(ci), t, ss, EndOfBlock(t, se), se);
    RefineBins(sc.Ac(ci), t, ss, EndOfBlock(Transformed(z, sc.al + 1), EndOfBlock(t, se)), EndOfBlock(t, se), se);
    AcUsed(sc, ci, AcPart(sc.Ac(ci), z, ss, se, sc.al));
    AcUsed(sc, ci, AcRefinePart(sc.Ac(ci), z, ss, se, sc.al));
  }

  lemma DcUsed(sc: Scan, ci: nat, ds: seq<Decision>)
    requires sc.Valid() && ci < |sc.dcTbl| && sc.CodesDc()
    requires Within(ds, sc.DcArea(ci), sc.DcArea(ci) + 50)
    ensures BinsUsed(sc, ds)
  {
  }

  lemma AcUsed(sc: Scan, ci: nat, ds: seq<Decision>)
    requires sc.Valid() && ci < |sc.acTbl| && sc.CodesAc()
    requires Within(ds, sc.Ac(ci).b, sc.Ac(ci).b + 245)
    ensures BinsUsed(sc, ds)
  {
    assert sc.Ac(ci).b == AcBase(sc.acTbl[ci]);
  }

  lemma {:induction false} McuBins(sc: Scan, pr: Pred, mcu: Mcu, i: nat)
    requires sc.Valid() && pr.Small() && McuFits(sc, mcu) && i <= |mcu|
    ensures BinsUsed(sc, McuDecisions(sc, pr, mcu, i))
    decreases |mcu| - i
  {
    hide Used, BlockDecisions, PredAfter;
    if i < |mcu| {
      BlockBins(sc, pr, sc.membership[i], mcu[i]);
      McuBins(sc, PredAfter(sc, pr, sc.membership[i], mcu[i]), mcu, i + 1);
    }
  }

  // ----- one segment

  ghost predicate AllFit(sc: Scan, mcus: seq<Mcu>)
  {
    forall i :: 0 <= i < |mcus| ==> McuFits(sc, mcus[i])
  }

  function SegDecisions(sc: Scan, pr: Pred, mcus: seq<Mcu>): seq<Decision>
    requires sc.Valid() && pr.Small() && AllFit(sc, mcus)
    decreases |mcus|
  {
    if mcus == [] then []
    else McuDecisions(sc, pr, mcus[0], 0) + SegDecisions(sc, PredAfterMcu(sc, pr, mcus[0], 0), mcus[1..])
  }

  function SegPred(sc: Scan, pr: Pred, mcus: seq<Mcu>): (r: Pred)
    requires sc.Valid() && pr.Small() && AllFit(sc, mcus)
    ensures r.Small()
    decreases |mcus|
  {
    if mcus == [] then pr else SegPred(sc, PredAfterMcu(sc, pr, mcus[0], 0), mcus[1..])
  }

  lemma {:induction false} SegSnoc(sc: Scan, pr: Pred, mcus: seq<Mcu>, mcu: Mcu)
    requires sc.Valid() && pr.Small() && AllFit(sc, mcus) && McuFits(sc, mcu)
    ensures AllFit(sc, mcus + [mcu])
    ensures SegDecisions(sc, pr, mcus + [mcu]) == SegDecisions(sc, pr, mcus)
      + McuDecisions(sc, SegPred(sc, pr, mcus), mcu, 0)
    ensures SegPred(sc, pr, mcus + [mcu]) == PredAfterMcu(sc, SegPred(sc, pr, mcus), mcu, 0)
    decreases |mcus|
  {
    hide McuDecisions, PredAfterMcu;
    assert AllFit(sc, mcus + [mcu]);
    if mcus == [] {
      assert (mcus + [mcu])[1..] == [];
    } else {
      assert (mcus + [mcu])[1..] == mcus[1..] + [mcu];
      SegSnoc(sc, PredAfterMcu(sc, pr, mcus[0], 0), mcus[1..], mcu);
    }
  }

  ghost predicate SegInRange(sc: Scan, pr: Pred, mcus: seq<Mcu>)
    requires sc.Valid() && pr.Small() && AllFit(sc, mcus)
    decreases |mcus|
  {
    mcus == [] ||
    (McuInRange(sc, pr, mcus[0], 0) && SegInRange(sc, PredAfterMcu(sc, pr, mcus[0], 0), mcus[1..]))
  }

  lemma {:induction false} SegBins(sc: Scan, pr: Pred, mcus: seq<Mcu>)
    requires sc.Valid() && pr.Small() && AllFit(sc, mcus)
    ensures BinsUsed(sc, SegDecisions(sc, pr, mcus))
    decreases |mcus|
  {
    hide Used, McuDecisions, PredAfterMcu, McuInRange;
    if mcus != [] {
      McuBins(sc, pr, mcus[0], 0);
      SegBins(sc, PredAfterMcu(sc, pr, mcus[0], 0), mcus[1..]);
    }
  }

  /** The segment p codes these MCUs, from some statistics that were fresh for the scan. */
  ghost predicate Codes(sc: Scan, s0: Stats, mcus: seq<Mcu>, p: seq<byte>)
    requires sc.Valid() && AllFit(sc, mcus)
  {
    Fresh(sc, s0) && InInterval(p, Run(Coder(WHOLE, s0), SegDecisions(sc, PRED0, mcus)).iv)
  }
}
