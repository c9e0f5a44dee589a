/** What the arithmetic decoder does on any byte stream, corrupt ones included: which
    statistics bins it uses, and what it leaves alone. */
module ArithBins {
  import opened JpegLib
  import opened Arithmetic
  import opened Blocks
  import opened Bytes
  import opened Markers
  import opened ProbabilityTable
  import opened IntervalCoder
  import opened ArithDecoding
  import opened Magnitudes
  import opened Coefficients
  import opened McuCoding
  import opened ScanCoding

  /** e is reached from d by decoding some decisions, all with bins of this set. */
  ghost predicate Reads(src: seq<byte>, d: Dec, e: Dec, bins: set<nat>)
    requires DecOk(d)
  {
    exists ds :: Trail(src, d, e, bins, ds)
  }

  ghost predicate Trail(src: seq<byte>, d: Dec, e: Dec, bins: set<nat>, ds: seq<Decision>)
    requires DecOk(d)
  {
    Follows(src, d, ds) && After(src, d, ds) == e && forall j :: 0 <= j < |ds| ==> ds[j].bin in bins
  }

  lemma Nothing(src: seq<byte>, d: Dec, bins: set<nat>)
    requires DecOk(d)
    ensures Reads(src, d, d, bins)
  {
    FollowsNone(src, d);
    assert Trail(src, d, d, bins, []);
  }

  lemma OneRead(src: seq<byte>, d: Dec, st: bin, bins: set<nat>)
    requires DecOk(d) && st in bins
    ensures Reads(src, d, Decode(src, d, st).1, bins)
  {
    hide Decode, Follows, After;
    var x := Decision(st, Decode(src, d, st).0);
    FollowsOne(src, d, x);
    assert Trail(src, d, Decode(src, d, st).1, bins, [x]);
  }

  lemma Then(src: seq<byte>, d: Dec, e: Dec, f: Dec, bins: set<nat>)
    requires DecOk(d) && DecOk(e) && Reads(src, d, e, bins) && Reads(src, e, f, bins)
    ensures Reads(src, d, f, bins)
  {
    hide Follows, After;
    var xs :| Trail(src, d, e, bins, xs);
    var ys :| Trail(src, e, f, bins, ys);
    FollowsConcat(src, d, xs, ys);
    assert Trail(src, d, f, bins, xs + ys);
  }

  ghost predicate Has(bins: set<nat>, lo: nat, hi: nat)
  {
    forall i :: lo <= i <= hi ==> i in bins
  }

  // ----- the five kinds of decoding

  lemma {:induction false} CategoryReads(src: seq<byte>, d: Dec, st: nat, k: nat, bins: set<nat>)
    requires DecOk(d) && k <= 14 && st + (14 - k) < ALL_BINS && Has(bins, st, st + (14 - k))
    ensures Reads(src, d, DecodeCategory(src, d, st, k).0, bins)
    decreases 14 - k
  {
    hide Decode, Reads, DecOk;
    assert st in bins;
    OneRead(src, d, st, bins);
    var (bit, e) := Decode(src, d, st);
    if bit != 0 && k + 1 < 15 {
      CategoryReads(src, e, st + 1, k + 1, bins);
      Then(src, d, e, DecodeCategory(src, e, st + 1, k + 1).0, bins);
    }
  }

  lemma {:induction false} PatternReads(src: seq<byte>, d: Dec, st: bin, k: nat, v: nat, bins: set<nat>)
    requires DecOk(d) && st in bins
    ensures Reads(src, d, DecodePattern(src, d, st, k, v).0, bins)
    decreases k
  {
    hide Decode, Reads, DecOk;
    if k == 0 {
      Nothing(src, d, bins);
    } else {
      OneRead(src, d, st, bins);
      var (bit, e) := Decode(src, d, st);
      var v' := if bit == 1 then v + Pow2(k - 1) else v;
      PatternReads(src, e, st, k - 1, v', bins);
      Then(src, d, e, DecodePattern(src, e, st, k - 1, v').0, bins);
    }
  }

  lemma DcMagnitudeReads(src: seq<byte>, d: Dec, b: nat, st: bin, bins: set<nat>)
    requires DecOk(d) && b + DC_STAT_BINS <= ALL_BINS && st in bins && Has(bins, b, b + 48)
    ensures Reads(src, d, DecodeDcMagnitude(src, d, b, st).0, bins)
  {
    hide Decode, Reads, DecOk, DecodeCategory, DecodePattern;
    OneRead(src, d, st, bins);
    var (m, d1) := Decode(src, d, st);
    if m != 0 {
      CategoryReads(src, d1, b + 20, 0, bins);
      var (d2, k, st', ok) := DecodeCategory(src, d1, b + 20, 0);
      Then(src, d, d1, d2, bins);
      if ok {
        assert st' + 14 in bins;
        PatternReads(src, d2, st' + 14, k, Pow2(k), bins);
        Then(src, d, d2, DecodePattern(src, d2, st' + 14, k, Pow2(k)).0, bins);
      }
    }
  }

  /** A DC difference is decoded with bins 0 to 48 of its area. */
  lemma DcDiffReads(src: seq<byte>, d: Dec, b: nat, ctx: nat, lower: nat, upper: nat, bins: set<nat>)
    requires DecOk(d) && b + DC_STAT_BINS <= ALL_BINS && ctx <= 16 && Has(bins, b, b + 48)
    ensures Reads(src, d, DecodeDcDiff(src, d, b, ctx, lower, upper).0, bins)
  {
    hide Decode, Reads, DecOk, DecodeDcMagnitude, NextContext;
    assert b + ctx in bins && b + ctx + 1 in bins;
    OneRead(src, d, b + ctx, bins);
    var (nonzero, d1) := Decode(src, d, b + ctx);
    if nonzero != 0 {
      OneRead(src, d1, b + ctx + 1, bins);
      var (sign, d2) := Decode(src, d1, b + ctx + 1);
      Then(src, d, d1, d2, bins);
      assert b + ctx + 2 + sign in bins;
      DcMagnitudeReads(src, d2, b, b + ctx + 2 + sign, bins);
      Then(src, d, d2, DecodeDcMagnitude(src, d2, b, b + ctx + 2 + sign).0, bins);
    }
  }

  lemma AcMagnitudeReads(src: seq<byte>, d: Dec, st: bin, x: nat, bins: set<nat>)
    requires DecOk(d) && x + 28 <= ALL_BINS && st in bins && Has(bins, x, x + 27)
    ensures Reads(src, d, DecodeAcMagnitude(src, d, st, x).0, bins)
  {
    hide Decode, Reads, DecOk, DecodeCategory, DecodePattern;
    OneRead(src, d, st, bins);
    var (m1, d1) := Decode(src, d, st);
    if m1 != 0 {
      OneRead(src, d1, st, bins);
      var (m2, d2) := Decode(src, d1, st);
      Then(src, d, d1, d2, bins);
      if m2 != 0 {
        CategoryReads(src, d2, x, 1, bins);
        var (d3, k, st', ok) := DecodeCategory(src, d2, x, 1);
        Then(src, d, d2, d3, bins);
        if ok {
          assert st' + 14 in bins;
          PatternReads(src, d3, st' + 14, k, Pow2(k), bins);
          Then(src, d, d3, DecodePattern(src, d3, st' + 14, k, Pow2(k)).0, bins);
        }
      }
    }
  }

  /** The bins of AC coding with one table: 0 to 244 of its area, and the fixed one. */
  ghost predicate Covers(ac: AcTable, bins: set<nat>)
  {
    Has(bins, ac.b, ac.b + 244) && FIXED_BIN in bins
  }

  lemma BinCovered(ac: AcTable, k: nat, bins: set<nat>)
    requires ac.Valid() && Covers(ac, bins) && 1 <= k < DCTSIZE2
    ensures forall i: nat :: i <= 2 ==> ac.Bin(k, i) in bins
    ensures Has(bins, ac.HighBin(k), ac.HighBin(k) + 27)
  {
    assert forall i: nat :: i <= 2 ==> ac.Bin(k, i) in bins;
  }

  lemma {:induction false} FirstReads(src: seq<byte>, d: Dec, ac: AcTable, z: seq<jcoef>, k: nat, se: nat, al: nat,
    bins: set<nat>)
    requires DecOk(d) && ac.Valid() && 1 <= k <= se + 1 && se < DCTSIZE2 && se < |z| && Covers(ac, bins)
    ensures Reads(src, d, DecodeFirst(src, d, ac, z, k, se, al).0, bins)
    decreases se + 1 - k, 1
  {
    hide Decode, Reads, DecOk, Covers, DecodeRun;
    if k > se {
      Nothing(src, d, bins);
    } else {
      BinCovered(ac, k, bins);
      OneRead(src, d, ac.Bin(k, 0), bins);
      var (eob, d1) := Decode(src, d, ac.Bin(k, 0));
      if eob != 1 {
        RunReads(src, d1, ac, z, k, se, al, bins);
        Then(src, d, d1, DecodeRun(src, d1, ac, z, k, se, al).0, bins);
      }
    }
  }

  lemma {:induction false} RunReads(src: seq<byte>, d: Dec, ac: AcTable, z: seq<jcoef>, k: nat, se: nat, al: nat,
    bins: set<nat>)
    requires DecOk(d) && ac.Valid() && 1 <= k <= se < DCTSIZE2 && se < |z| && Covers(ac, bins)
    ensures Reads(src, d, DecodeRun(src, d, ac, z, k, se, al).0, bins)
    decreases se + 1 - k, 0
  {
    hide Decode, Reads, DecOk, DecodeFirst, DecodeAcMagnitude, Jcoef;
    BinCovered(ac, k, bins);
    OneRead(src, d, ac.Bin(k, 1), bins);
    var (nonzero, d1) := Decode(src, d, ac.Bin(k, 1));
    if nonzero == 0 {
      if k + 1 <= se {
        RunReads(src, d1, ac, z, k + 1, se, al, bins);
        Then(src, d, d1, DecodeRun(src, d1, ac, z, k + 1, se, al).0, bins);
      }
    } else {
      OneRead(src, d1, FIXED_BIN, bins);
      var (sign, d2) := Decode(src, d1, FIXED_BIN);
      Then(src, d, d1, d2, bins);
      AcMagnitudeReads(src, d2, ac.Bin(k, 2), ac.HighBin(k), bins);
      var (d3, v, ok) := DecodeAcMagnitude(src, d2, ac.Bin(k, 2), ac.HighBin(k));
      Then(src, d, d2, d3, bins);
      if ok {
        var z' := z[k := Jcoef(Signed(sign, v) * Pow2(al))];
        FirstReads(src, d3, ac, z', k + 1, se, al, bins);
        Then(src, d, d3, DecodeFirst(src, d3, ac, z', k + 1, se, al).0, bins);
      }
    }
  }

  lemma {:induction false} RefineReads(src: seq<byte>, d: Dec, ac: AcTable, z: seq<jcoef>, k: nat, kex: nat, se: nat,
    al: nat, bins: set<nat>)
    requires DecOk(d) && ac.Valid() && 1 <= k <= se + 1 && se < DCTSIZE2 && se < |z| && Covers(ac, bins)
    ensures Reads(src, d, DecodeRefine(src, d, ac, z, k, kex, se, al).0, bins)
    decreases se + 1 - k, 1
  {
    hide Decode, Reads, DecOk, Covers, DecodeRefineRun;
    if k > se {
      Nothing(src, d, bins);
    } else if k > kex {
      BinCovered(ac, k, bins);
      OneRead(src, d, ac.Bin(k, 0), bins);
      var (eob, d1) := Decode(src, d, ac.Bin(k, 0));
      if eob != 1 {
        RefineRunReads(src, d1, ac, z, k, kex, se, al, bins);
        Then(src, d, d1, DecodeRefineRun(src, d1, ac, z, k, kex, se, al).0, bins);
      }
    } else {
      RefineRunReads(src, d, ac, z, k, kex, se, al, bins);
    }
  }

  lemma {:induction false} RefineRunReads(src: seq<byte>, d: Dec, ac: AcTable, z: seq<jcoef>, k: nat, kex: nat, se: nat,
    al: nat, bins: set<nat>)
    requires DecOk(d) && ac.Valid() && 1 <= k <= se < DCTSIZE2 && se < |z| && Covers(ac, bins)
    ensures Reads(src, d, DecodeRefineRun(src, d, ac, z, k, kex, se, al).0, bins)
    decreases se + 1 - k, 0
  {
    hide Decode, Reads, DecOk, DecodeRefine, Jcoef, Enlarge;
    BinCovered(ac, k, bins);
    if z[k] != 0 {
      OneRead(src, d, ac.Bin(k, 2), bins);
      var (more, d1) := Decode(src, d, ac.Bin(k, 2));
      var z' := if more == 1 then z[k := Enlarge(z[k], al)] else z;
      RefineReads(src, d1, ac, z', k + 1, kex, se, al, bins);
      Then(src, d, d1, DecodeRefine(src, d1, ac, z', k + 1, kex, se, al).0, bins);
    } else {
      OneRead(src, d, ac.Bin(k, 1), bins);
      var (nonzero, d1) := Decode(src, d, ac.Bin(k, 1));
      if nonzero == 1 {
        OneRead(src, d1, FIXED_BIN, bins);
        var (sign, d2) := Decode(src, d1, FIXED_BIN);
        Then(src, d, d1, d2, bins);
        var z' := z[k := Jcoef(Signed(sign, Pow2(al)))];
        RefineReads(src, d2, ac, z', k + 1, kex, se, al, bins);
        Then(src, d, d2, DecodeRefine(src, d2, ac, z', k + 1, kex, se, al).0, bins);
      } else if k + 1 <= se {
        RefineRunReads(src, d1, ac, z, k + 1, kex, se, al, bins);
        Then(src, d, d1, DecodeRefineRun(src, d1, ac, z, k + 1, kex, se, al).0, bins);
      }
    }
  }

  // ----- blocks, MCUs and scans

  /** The bins a scan may use: of each component bins 0 to 48 of its DC area and 0 to 244
      of its AC area, as far as the scan codes DC and AC coefficients, and the fixed bin. */
  predicate Coded(sc: Scan, i: nat)
  {
    || i == FIXED_BIN
    || (sc.CodesDc() && exists ci :: 0 <= ci < |sc.dcTbl| && 0 <= i - sc.dcTbl[ci] * DC_STAT_BINS <= 48)
    || (sc.CodesAc() && exists ci :: 0 <= ci < |sc.acTbl| && 0 <= i - AcBase(sc.acTbl[ci]) <= 244)
  }

  function ScanBins(sc: Scan): set<nat>
  {
    set i | 0 <= i < ALL_BINS && Coded(sc, i)
  }

  lemma AreasCovered(sc: Scan, ci: nat)
    requires sc.Valid() && ci < |sc.dcTbl|
    ensures sc.CodesDc() ==> Has(ScanBins(sc), sc.DcArea(ci), sc.DcArea(ci) + 48)
    ensures sc.CodesAc() ==> Covers(sc.Ac(ci), ScanBins(sc))
    ensures FIXED_BIN in ScanBins(sc)
  {
  }

  lemma BlockReads(src: seq<byte>, sc: Scan, d: Dec, pr: Pred, ci: nat, z: Block)
    requires sc.Valid() && DecOk(d) && pr.Valid() && ci < |sc.dcTbl|
    ensures Reads(src, d, DecodeBlock(src, sc, d, pr, ci, z).0, ScanBins(sc))
  {
    hide Decode, Reads, DecOk, DecodeDcDiff, DecodeFirst, DecodeRefine, Covers, Jcoef, EndOfBlock, ScanBins, SetBit;
    var bins := ScanBins(sc);
    AreasCovered(sc, ci);
    var tbl := sc.dcTbl[ci];
    match sc.mode
    case Sequential =>
      DcDiffReads(src, d, sc.DcArea(ci), pr.context[ci], sc.dcL[tbl], sc.dcU[tbl], bins);
      var (d1, pr1, z1, ok) := DecodeDc(src, sc, d, pr, ci, z);
      if ok && sc.limSe != 0 {
        FirstReads(src, d1, sc.Ac(ci), z1, 1, sc.limSe, 0, bins);
        Then(src, d, d1, DecodeFirst(src, d1, sc.Ac(ci), z1, 1, sc.limSe, 0).0, bins);
      }
    case DcFirst => DcDiffReads(src, d, sc.DcArea(ci), pr.context[ci], sc.dcL[tbl], sc.dcU[tbl], bins);
    case AcFirstPass => FirstReads(src, d, sc.Ac(ci), z, sc.ss, sc.se, sc.al, bins);
    case DcRefine => OneRead(src, d, FIXED_BIN, bins);
    case AcRefinePass => RefineReads(src, d, sc.Ac(ci), z, sc.ss, EndOfBlock(z, sc.se), sc.se, sc.al, bins);
  }

  /** On any input, decoding an MCU uses only the bins of the scan. */
  lemma {:induction false} McuReads(src: seq<byte>, sc: Scan, d: Dec, pr: Pred, mcu: Mcu, i: nat)
    requires sc.Valid() && DecOk(d) && pr.Valid() && McuFits(sc, mcu) && i <= |mcu|
    ensures Reads(src, d, DecodeMcu(src, sc, d, pr, mcu, i).0, ScanBins(sc))
    decreases |mcu| - i
  {
    hide Reads, DecOk, DecodeBlock, ScanBins;
    var bins := ScanBins(sc);
    if i == |mcu| {
      Nothing(src, d, bins);
    } else {
      BlockReads(src, sc, d, pr, sc.membership[i], mcu[i]);
      var (d1, pr1, z1, ok) := DecodeBlock(src, sc, d, pr, sc.membership[i], mcu[i]);
      if ok {
        McuReads(src, sc, d1, pr1, mcu[i := z1], i + 1);
        Then(src, d, d1, DecodeMcu(src, sc, d1, pr1, mcu[i := z1], i + 1).0, bins);
      }
    }
  }

  /** Decoding changes no other bin. */
  lemma {:induction false} OthersKept(src: seq<byte>, d: Dec, ds: seq<Decision>, bins: set<nat>)
    requires DecOk(d) && forall j :: 0 <= j < |ds| ==> ds[j].bin in bins
    ensures forall i :: 0 <= i < ALL_BINS && i !in bins ==> After(src, d, ds).stats[i] == d.stats[i]
    decreases |ds|
  {
    hide DecOk;
    if ds != [] {
      OthersKept(src, Decode(src, d, ds[0].bin).1, ds[1..], bins);
    }
  }

  lemma TrailKeeps(src: seq<byte>, d: Dec, e: Dec, bins: set<nat>)
    requires DecOk(d) && Reads(src, d, e, bins)
    ensures forall i :: 0 <= i < ALL_BINS && i !in bins ==> e.stats[i] == d.stats[i]
  {
    var ds :| Trail(src, d, e, bins, ds);
    OthersKept(src, d, ds, bins);
  }
}
