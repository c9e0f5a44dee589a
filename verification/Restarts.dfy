/** Restart markers: finding them (jdmarker.c) and resuming at them, and the round trip of
    whole scans. */
module Restarts {
  import opened JpegLib
  import opened Arithmetic
  import opened Blocks
  import opened Bytes
  import opened Markers
  import opened Segments
  import opened ProbabilityTable
  import opened IntervalCoder
  import opened ArithDecoding
  import opened ArithRoundTrip
  import opened Coefficients
  import opened McuCoding
  import opened ScanCoding
  import opened ArithBins

  /** The predictions as process_restart leaves them: zero for the components of the scan. */
  function PredReset(sc: Scan, pr: Pred): (r: Pred)
    requires pr.Valid()
    ensures r.Valid()
    ensures forall j :: 0 <= j < MAX_COMPS_IN_SCAN ==>
      && r.lastDc[j] == (if sc.CodesDc() && j < |sc.dcTbl| then 0 else pr.lastDc[j])
      && r.context[j] == (if sc.CodesDc() && j < |sc.dcTbl| then 0 else pr.context[j])
  {
    Pred(seq(MAX_COMPS_IN_SCAN, j requires 0 <= j < MAX_COMPS_IN_SCAN => if sc.CodesDc()
      && j < |sc.dcTbl| then 0 else pr.lastDc[j]),
         seq(MAX_COMPS_IN_SCAN, j requires 0 <= j < MAX_COMPS_IN_SCAN => if sc.CodesDc()
           && j < |sc.dcTbl| then 0 else pr.context[j]))
  }

  /** The decoder between MCUs: registers, predictions, MCUs left in the interval, the number
      of the restart marker expected next and the number of warnings so far.  An overflow
      has given a warning and set ct to -1, and nothing more is decoded until the next
      restart. */
  datatype ScanDec = ScanDec(d: Dec, pr: Pred, togo: nat, next: nat, warnings: nat)
  {
    predicate Failed() { d.ct == -1 }

    ghost predicate Valid() { (Failed() || DecOk(d)) && pr.Valid() && next < 8 }
  }

  function StartOfSegment(i: Input, s: Stats): Dec
  {
    Dec(0, 0, -16, i, s)
  }

  function ProcessRestart(src: seq<byte>, sc: Scan, ri: nat, s: ScanDec): (r: ScanDec)
    requires s.Valid()
    ensures r.Valid() && r.togo == ri && !r.Failed()
  {
    var i := ReadRestart(src, s.d.input, s.next, 0).0;
    ScanDec(StartOfSegment(i, Reset(sc, s.d.stats)), PredReset(sc, s.pr), ri, (s.next + 1) % 8, s.warnings)
  }

  /** decode_mcu with its restart accounting, ri being the restart interval or 0. */
  function NextMcu(src: seq<byte>, sc: Scan, ri: nat, s0: ScanDec, y: Mcu): (r: (ScanDec, Mcu))
    requires sc.Valid() && s0.Valid() && McuFits(sc, y)
    ensures r.0.Valid() && McuFits(sc, r.1)
  {
    var s1 := if ri != 0 && s0.togo == 0 then ProcessRestart(src, sc, ri, s0) else s0;
    var s := if ri != 0 then s1.(togo := s1.togo - 1) else s1;
    if s.Failed() then (s, y)
    else
      var (d, pr, y', ok) := DecodeMcu(src, sc, s.d, s.pr, y, 0);
      (s.(d := if ok then d else d.(ct := -1), pr := pr, warnings := if ok then s.warnings else s.warnings + 1), y')
  }

  function NextMcus(src: seq<byte>, sc: Scan, ri: nat, s: ScanDec, ys: seq<Mcu>): (r: (ScanDec, seq<Mcu>))
    requires sc.Valid() && s.Valid() && AllFit(sc, ys)
    ensures r.0.Valid() && |r.1| == |ys| && AllFit(sc, r.1)
    decreases |ys|
  {
    if ys == [] then (s, [])
    else
      var (s1, y1) := NextMcu(src, sc, ri, s, ys[0]);
      var (s2, rest) := NextMcus(src, sc, ri, s1, ys[1..]);
      (s2, [y1] + rest)
  }

  lemma {:induction false} NextMcusConcat(src: seq<byte>, sc: Scan, ri: nat, s: ScanDec, xs: seq<Mcu>, ys: seq<Mcu>)
    requires sc.Valid() && s.Valid() && AllFit(sc, xs) && AllFit(sc, ys)
    ensures AllFit(sc, xs + ys)
    ensures var (s1, x') := NextMcus(src, sc, ri, s, xs);
            var (s2, y') := NextMcus(src, sc, ri, s1, ys);
            NextMcus(src, sc, ri, s, xs + ys) == (s2, x' + y')
    decreases |xs|
  {
    hide NextMcu;
    assert AllFit(sc, xs + ys);
    if xs == [] {
      assert xs + ys == ys;
      var y' := NextMcus(src, sc, ri, s, ys).1;
      assert [] + y' == y';
    } else {
      assert (xs + ys)[1..] == xs[1..] + ys && (xs + ys)[0] == xs[0];
      var (s0, x0) := NextMcu(src, sc, ri, s, xs[0]);
      NextMcusConcat(src, sc, ri, s0, xs[1..], ys);
      var (s1, x') := NextMcus(src, sc, ri, s0, xs[1..]);
      var y' := NextMcus(src, sc, ri, s1, ys).1;
      assert [x0] + (x' + y') == ([x0] + x') + y';
    }
  }

  // ----- round trip

  /** The MCUs of one interval, no restart among them. */
  lemma {:induction false} SegmentMcus(src: seq<byte>, sc: Scan, ri: nat, s: ScanDec, pr: Pred, mcus: seq<Mcu>,
    ys: seq<Mcu>)
    requires sc.Valid() && s.Valid() && !s.Failed() && pr.Small() && s.pr == pr
    requires AllFit(sc, mcus) && AllFit(sc, ys) && SegInRange(sc, pr, mcus) && AllReady(sc.Pass(), mcus, ys)
    requires ri != 0 ==> |mcus| <= s.togo
    requires Follows(src, s.d, SegDecisions(sc, pr, mcus))
    ensures var (s', ys') := NextMcus(src, sc, ri, s, ys);
            && !s'.Failed() && s'.d == After(src, s.d, SegDecisions(sc, pr, mcus))
            && s'.pr == SegPred(sc, pr, mcus) && s'.next == s.next && s'.warnings == s.warnings
            && s'.togo == (if ri != 0 then s.togo - |mcus| else s.togo)
            && AllRefined(sc.Pass(), mcus, ys, ys')
    decreases |mcus|
  {
    hide Follows, After, McuDecisions, NextMcu, PredAfterMcu, McuInRange, McuReady, McuRefined, DecOk, Scan.Valid,
      Pred.Valid;
    if mcus == [] {
      FollowsNone(src, s.d);
    } else {
      var ds, pr1 := McuDecisions(sc, pr, mcus[0], 0), PredAfterMcu(sc, pr, mcus[0], 0);
      FollowsConcat(src, s.d, ds, SegDecisions(sc, pr1, mcus[1..]));
      assert McuReady(sc.Pass(), mcus[0], ys[0]);
      FirstMcu(src, sc, ri, s, pr, mcus[0], ys[0]);
      var (s1, y1) := NextMcu(src, sc, ri, s, ys[0]);
      RestReady(sc.Pass(), mcus, ys);
      SegmentMcus(src, sc, ri, s1, pr1, mcus[1..], ys[1..]);
    }
  }

  lemma FirstMcu(src: seq<byte>, sc: Scan, ri: nat, s: ScanDec, pr: Pred, mcu: Mcu, y: Mcu)
    requires sc.Valid() && s.Valid() && !s.Failed() && pr.Small() && s.pr == pr && (ri != 0 ==> s.togo > 0)
    requires McuFits(sc, mcu) && McuFits(sc, y) && McuInRange(sc, pr, mcu, 0) && McuReady(sc.Pass(), mcu, y)
    requires Follows(src, s.d, McuDecisions(sc, pr, mcu, 0))
    ensures var (s1, y1) := NextMcu(src, sc, ri, s, y);
            && !s1.Failed() && s1.d == After(src, s.d, McuDecisions(sc, pr, mcu, 0)) && s1.pr
              == PredAfterMcu(sc, pr, mcu, 0)
            && s1.next == s.next && s1.togo == (if ri != 0 then s.togo - 1 else s.togo) && s1.warnings == s.warnings
              && McuRefined(sc.Pass(), mcu, y, y1)
  {
    assert DecOk(s.d);
    hide Follows, After, McuDecisions, DecodeMcu, PredAfterMcu, McuInRange;
    ReadyParts(sc, mcu, y);
    McuDecodes(src, sc, s.d, pr, mcu, y, 0);
  }

  lemma RestReady(p: Pass, mcus: seq<Mcu>, ys: seq<Mcu>)
    requires AllReady(p, mcus, ys) && mcus != []
    ensures AllReady(p, mcus[1..], ys[1..])
  {
    hide McuReady;
    forall i | 0 <= i < |mcus[1..]|
      ensures McuReady(p, mcus[1..][i], ys[1..][i])
    {
      assert McuReady(p, mcus[i + 1], ys[i + 1]);
    }
  }

  lemma ReadyParts(sc: Scan, mcu: Mcu, y: Mcu)
    requires McuReady(sc.Pass(), mcu, y)
    ensures |y| == |mcu| && forall i :: 0 <= i < |mcu| ==> sc.Pass().Ready(mcu[i], y[i])
  {
  }

  // ----- the encoder's side of restarts

  /** The bin of fixed probability never changes. */
  lemma {:induction false} FixedStays(k: Coder, ds: seq<Decision>)
    requires 0x8000 <= k.iv.a <= 0x10000 && k.stats[FIXED_BIN] == Stat(0, 113)
    ensures Run(k, ds).stats[FIXED_BIN] == Stat(0, 113)
  {
    if ds != [] {
      FixedStays(k, ds[..|ds| - 1]);
      WalkIsLookup(0, 113);
      hide Normalise, Half, Walk;
    }
  }

  lemma {:induction false} McuPredUnused(sc: Scan, pr: Pred, mcu: Mcu, i: nat)
    requires sc.Valid() && pr.Small() && McuFits(sc, mcu) && i <= |mcu| && !sc.CodesDc()
    ensures PredAfterMcu(sc, pr, mcu, i) == pr
    decreases |mcu| - i
  {
    if i < |mcu| {
      McuPredUnused(sc, pr, mcu, i + 1);
    }
  }

  lemma {:induction false} SegPredUnused(sc: Scan, pr: Pred, mcus: seq<Mcu>)
    requires sc.Valid() && pr.Small() && AllFit(sc, mcus) && !sc.CodesDc()
    ensures SegPred(sc, pr, mcus) == pr
    decreases |mcus|
  {
    if mcus != [] {
      McuPredUnused(sc, pr, mcus[0], 0);
      SegPredUnused(sc, pr, mcus[1..]);
    }
  }

  /** Predictions of components outside the scan are left alone. */
  lemma {:induction false} McuPredOutside(sc: Scan, pr: Pred, mcu: Mcu, i: nat)
    requires sc.Valid() && pr.Small() && McuFits(sc, mcu) && i <= |mcu|
    ensures var r := PredAfterMcu(sc, pr, mcu, i);
            forall j :: |sc.dcTbl| <= j < MAX_COMPS_IN_SCAN ==>
              r.lastDc[j] == pr.lastDc[j] && r.context[j] == pr.context[j]
    decreases |mcu| - i
  {
    if i < |mcu| {
      var pr1 := PredAfter(sc, pr, sc.membership[i], mcu[i]);
      assert forall j :: |sc.dcTbl| <= j < MAX_COMPS_IN_SCAN ==>
        pr1.lastDc[j] == pr.lastDc[j] && pr1.context[j] == pr.context[j];
      hide PredAfter;
      McuPredOutside(sc, pr1, mcu, i + 1);
    }
  }

  lemma {:induction false} SegPredOutside(sc: Scan, pr: Pred, mcus: seq<Mcu>)
    requires sc.Valid() && pr.Small() && AllFit(sc, mcus)
    ensures var r := SegPred(sc, pr, mcus);
            forall j :: |sc.dcTbl| <= j < MAX_COMPS_IN_SCAN ==>
              r.lastDc[j] == pr.lastDc[j] && r.context[j] == pr.context[j]
    decreases |mcus|
  {
    hide PredAfterMcu;
    if mcus != [] {
      McuPredOutside(sc, pr, mcus[0], 0);
      SegPredOutside(sc, PredAfterMcu(sc, pr, mcus[0], 0), mcus[1..]);
    }
  }

  /** Zeroing the predictions of the scan's components restores the initial ones. */
  lemma PredRestored(sc: Scan, mcus: seq<Mcu>, pr: Pred, r: Pred)
    requires sc.Valid() && AllFit(sc, mcus) && pr == SegPred(sc, PRED0, mcus)
    requires |r.lastDc| == |r.context| == MAX_COMPS_IN_SCAN
    requires forall j :: 0 <= j < MAX_COMPS_IN_SCAN ==>
               && r.lastDc[j] == (if sc.CodesDc() && j < |sc.dcTbl| then 0 else pr.lastDc[j])
               && r.context[j] == (if sc.CodesDc() && j < |sc.dcTbl| then 0 else pr.context[j])
    ensures r == PRED0
  {
    hide SegPred;
    SegPredOutside(sc, PRED0, mcus);
    if !sc.CodesDc() {
      SegPredUnused(sc, PRED0, mcus);
    }
    assert forall j :: 0 <= j < MAX_COMPS_IN_SCAN ==> r.lastDc[j] == 0 && r.context[j] == 0;
  }

  // ----- segments with an overflow

  lemma BlockFails(src: seq<byte>, sc: Scan, d: Dec, pr: Pred, ci: nat, z: Block, y: Block)
    requires sc.Valid() && DecOk(d) && pr.Small() && ci < |sc.dcTbl|
    requires !DcInRange(sc, pr, ci, z) && Follows(src, d, BlockDecisions(sc, pr, ci, z))
    ensures !DecodeBlock(src, sc, d, pr, ci, y).3
  {
    hide Follows, After, DecodeFirst, DecodeDc, DcPart, AcPart, Shift, DecOk;
    if sc.mode.Sequential? && sc.limSe != 0 {
      FollowsConcat(src, d, DcPart(sc, pr, ci, z), AcPart(sc.Ac(ci), z, 1, sc.limSe, 0));
    } else {
      assert DcPart(sc, pr, ci, z) + [] == DcPart(sc, pr, ci, z);
    }
    DcDecodes(src, sc, d, pr, ci, z, y);
  }

  lemma {:induction false} McuFails(src: seq<byte>, sc: Scan, d: Dec, pr: Pred, mcu: Mcu, y: Mcu, i: nat)
    requires sc.Valid() && DecOk(d) && pr.Small() && McuFits(sc, mcu) && |y| == |mcu| && i <= |mcu|
    requires !McuInRange(sc, pr, mcu, i) && forall j :: i <= j < |mcu| ==> sc.Pass().Ready(mcu[j], y[j])
    requires Follows(src, d, McuDecisions(sc, pr, mcu, i))
    ensures !DecodeMcu(src, sc, d, pr, y, i).3
    decreases |mcu| - i
  {
    hide Follows, After, BlockDecisions, DecodeBlock, Pass.Refined, Pass.Ready, DecOk, DcInRange, PredAfter;
    var ci := sc.membership[i];
    var rest := McuDecisions(sc, PredAfter(sc, pr, ci, mcu[i]), mcu, i + 1);
    FollowsConcat(src, d, BlockDecisions(sc, pr, ci, mcu[i]), rest);
    if DcInRange(sc, pr, ci, mcu[i]) {
      BlockDecodes(src, sc, d, pr, ci, mcu[i], y[i]);
      var (d1, pr1, y1, ok) := DecodeBlock(src, sc, d, pr, ci, y[i]);
      McuFails(src, sc, d1, pr1, mcu, y[i := y1], i + 1);
    } else {
      BlockFails(src, sc, d, pr, ci, mcu[i], y[i]);
    }
  }

  /** After an overflow the rest of the segment is skipped. */
  lemma {:induction false} Skips(src: seq<byte>, sc: Scan, ri: nat, s: ScanDec, ys: seq<Mcu>)
    requires sc.Valid() && s.Valid() && s.Failed() && AllFit(sc, ys) && (ri != 0 ==> |ys| <= s.togo)
    ensures NextMcus(src, sc, ri, s, ys) == (s.(togo := if ri != 0 then s.togo - |ys| else s.togo), ys)
    decreases |ys|
  {
    hide DecodeMcu, DecOk;
    if ys != [] {
      assert [ys[0]] + ys[1..] == ys;
      Skips(src, sc, ri, NextMcu(src, sc, ri, s, ys[0]).0, ys[1..]);
    }
  }

  /** A difference out of range gives one warning. */
  lemma {:induction false} SegmentFails(src: seq<byte>, sc: Scan, ri: nat, s: ScanDec, pr: Pred, mcus: seq<Mcu>,
    ys: seq<Mcu>)
    requires sc.Valid() && s.Valid() && !s.Failed() && pr.Small() && s.pr == pr
    requires AllFit(sc, mcus) && AllFit(sc, ys) && !SegInRange(sc, pr, mcus) && AllReady(sc.Pass(), mcus, ys)
    requires ri != 0 ==> |mcus| <= s.togo
    requires Follows(src, s.d, SegDecisions(sc, pr, mcus))
    ensures var s' := NextMcus(src, sc, ri, s, ys).0;
            && s'.Failed() && s'.warnings == s.warnings + 1 && s'.next == s.next
            && s'.togo == (if ri != 0 then s.togo - |mcus| else s.togo)
    decreases |mcus|
  {
    hide Follows, After, McuDecisions, NextMcu, PredAfterMcu, McuInRange, McuReady, DecOk, Scan.Valid, Pred.Valid;
    var ds, pr1 := McuDecisions(sc, pr, mcus[0], 0), PredAfterMcu(sc, pr, mcus[0], 0);
    FollowsConcat(src, s.d, ds, SegDecisions(sc, pr1, mcus[1..]));
    assert McuReady(sc.Pass(), mcus[0], ys[0]);
    RestReady(sc.Pass(), mcus, ys);
    if McuInRange(sc, pr, mcus[0], 0) {
      FirstMcu(src, sc, ri, s, pr, mcus[0], ys[0]);
      SegmentFails(src, sc, ri, NextMcu(src, sc, ri, s, ys[0]).0, pr1, mcus[1..], ys[1..]);
    } else {
      FirstFails(src, sc, ri, s, pr, mcus[0], ys[0]);
      Skips(src, sc, ri, NextMcu(src, sc, ri, s, ys[0]).0, ys[1..]);
    }
  }

  lemma FirstFails(src: seq<byte>, sc: Scan, ri: nat, s: ScanDec, pr: Pred, mcu: Mcu, y: Mcu)
    requires sc.Valid() && s.Valid() && !s.Failed() && pr.Small() && s.pr == pr && (ri != 0 ==> s.togo > 0)
    requires McuFits(sc, mcu) && McuFits(sc, y) && !McuInRange(sc, pr, mcu, 0) && McuReady(sc.Pass(), mcu, y)
    requires Follows(src, s.d, McuDecisions(sc, pr, mcu, 0))
    ensures var s1 := NextMcu(src, sc, ri, s, y).0;
            && s1.Failed() && s1.Valid() && s1.warnings == s.warnings + 1 && s1.next == s.next
            && s1.togo == (if ri != 0 then s.togo - 1 else s.togo)
  {
    assert DecOk(s.d);
    hide Follows, After, McuDecisions, DecodeMcu, PredAfterMcu, McuInRange;
    ReadyParts(sc, mcu, y);
    McuFails(src, sc, s.d, pr, mcu, y, 0);
  }

  // ----- what any bytes do within a segment

  lemma {:induction false} RenormReads(src: seq<byte>, d: Dec, p: seq<byte>, m: nat, mk: byte, tail: seq<byte>)
    returns (m': nat)
    requires DecOk(d) && IsMarker(mk) && ReadSoFar(src, d.input, p, m, mk, tail)
    ensures ReadSoFar(src, Renorm(src, d).input, p, m', mk, tail)
    decreases if d.a == 0 then 0x10000 - d.ct else 0x10000 - d.a
  {
    if d.a >= 0x8000 {
      m' := m;
    } else {
      RenormStepOk(src, d);
      NextDataReads(src, d.input, p, m, mk, tail);
      hide ReadSoFar, NextData;
      m' := RenormReads(src, RenormStep(src, d), p, if d.ct - 1 < 0 then m + 1 else m, mk, tail);
    }
  }

  lemma {:induction false} AfterReads(src: seq<byte>, d: Dec, ds: seq<Decision>, p: seq<byte>, m: nat, mk: byte,
    tail: seq<byte>) returns (m': nat)
    requires DecOk(d) && IsMarker(mk) && ReadSoFar(src, d.input, p, m, mk, tail)
    ensures ReadSoFar(src, After(src, d, ds).input, p, m', mk, tail)
    decreases |ds|
  {
    hide ReadSoFar, DecOk, Renorm;
    if ds == [] {
      m' := m;
    } else {
      var j := RenormReads(src, d, p, m, mk, tail);
      assert Decode(src, d, ds[0].bin).1.input == Renorm(src, d).input;
      m' := AfterReads(src, Decode(src, d, ds[0].bin).1, ds[1..], p, j, mk, tail);
    }
  }

  /** The restart marker expected is found from any state inside the segment before it;
      bytes are skipped, with a warning, exactly when the segment was not read to its end. */
  lemma RestartFound(src: seq<byte>, i: Input, p: seq<byte>, m: nat, next: nat, tail: seq<byte>)
    requires next < 8 && ReadSoFar(src, i, p, m, M_RST0 + next, tail)
    ensures var (j, discarded, expected) := ReadRestart(src, i, next, 0);
            && expected && j.marker == 0 && j.pos <= |src| && src[j.pos..] == tail
            && discarded == (if m < |p| then |Stuff(p[m..])| else 0)
  {
    if m <= |p| {
      MarkerFound(src, i.pos, p[m..], M_RST0 + next, tail, 0);
    }
  }

  /** Unless a restart is due, decoding is a run of decisions with bins of the scan. */
  lemma {:induction false} SegmentTrail(src: seq<byte>, sc: Scan, ri: nat, s: ScanDec, ys: seq<Mcu>) returns (e: Dec)
    requires sc.Valid() && s.Valid() && !s.Failed() && AllFit(sc, ys) && (ri != 0 ==> |ys| <= s.togo)
    ensures var s' := NextMcus(src, sc, ri, s, ys).0;
            Reads(src, s.d, e, ScanBins(sc)) && s'.d == if s'.Failed() then e.(ct := -1) else e
    decreases |ys|
  {
    hide Reads, DecodeMcu, ScanBins, DecOk;
    var bins := ScanBins(sc);
    if ys == [] {
      e := s.d;
      Nothing(src, s.d, bins);
    } else {
      McuReads(src, sc, s.d, s.pr, ys[0], 0);
      var s1 := NextMcu(src, sc, ri, s, ys[0]).0;
      e := DecodeMcu(src, sc, s.d, s.pr, ys[0], 0).0;
      if s1.Failed() {
        Skips(src, sc, ri, s1, ys[1..]);
      } else {
        var f := SegmentTrail(src, sc, ri, s1, ys[1..]);
        Then(src, s.d, e, f, bins);
        e := f;
      }
    }
  }

  lemma {:induction false} FixedKept(src: seq<byte>, d: Dec, ds: seq<Decision>)
    requires DecOk(d) && d.stats[FIXED_BIN] == Stat(0, 113)
    ensures After(src, d, ds).stats[FIXED_BIN] == Stat(0, 113)
    decreases |ds|
  {
    WalkIsLookup(0, 113);
    hide DecOk, Walk;
    if ds != [] {
      FixedKept(src, Decode(src, d, ds[0].bin).1, ds[1..]);
    }
  }

  lemma TrailReads(src: seq<byte>, d: Dec, e: Dec, bins: set<nat>, p: seq<byte>, m: nat, mk: byte, tail: seq<byte>)
    returns (m': nat)
    requires DecOk(d) && IsMarker(mk) && ReadSoFar(src, d.input, p, m, mk, tail) && Reads(src, d, e, bins)
    requires d.stats[FIXED_BIN] == Stat(0, 113)
    ensures ReadSoFar(src, e.input, p, m', mk, tail) && e.stats[FIXED_BIN] == Stat(0, 113)
  {
    hide ReadSoFar, Follows;
    var ds :| Trail(src, d, e, bins, ds);
    m' := AfterReads(src, d, ds, p, m, mk, tail);
    FixedKept(src, d, ds);
  }

  /** The predictions of components outside the scan are zero. */
  ghost predicate Outside(sc: Scan, pr: Pred)
  {
    pr.Valid() && forall j :: 0 <= j < MAX_COMPS_IN_SCAN && !(sc.CodesDc() && j < |sc.dcTbl|) ==>
      pr.lastDc[j] == 0 && pr.context[j] == 0
  }

  lemma {:induction false} McuOutside(src: seq<byte>, sc: Scan, d: Dec, pr: Pred, mcu: Mcu, i: nat)
    requires sc.Valid() && DecOk(d) && McuFits(sc, mcu) && i <= |mcu| && Outside(sc, pr)
    ensures Outside(sc, DecodeMcu(src, sc, d, pr, mcu, i).1)
    decreases |mcu| - i
  {
    hide DecodeFirst, DecodeRefine, DecOk, Decode, Jcoef;
    if i < |mcu| {
      var (d1, pr1, z1, ok) := DecodeBlock(src, sc, d, pr, sc.membership[i], mcu[i]);
      assert Outside(sc, pr1);
      if ok {
        McuOutside(src, sc, d1, pr1, mcu[i := z1], i + 1);
      }
    }
  }

  lemma {:induction false} AlwaysOutside(src: seq<byte>, sc: Scan, ri: nat, s: ScanDec, ys: seq<Mcu>)
    requires sc.Valid() && s.Valid() && AllFit(sc, ys) && Outside(sc, s.pr)
    ensures Outside(sc, NextMcus(src, sc, ri, s, ys).0.pr)
    decreases |ys|
  {
    hide DecodeMcu, DecOk, ReadRestart;
    if ys != [] {
      var s1 := if ri != 0 && s.togo == 0 then ProcessRestart(src, sc, ri, s) else s;
      if !s1.Failed() {
        McuOutside(src, sc, s1.d, s1.pr, ys[0], 0);
      }
      AlwaysOutside(src, sc, ri, NextMcu(src, sc, ri, s, ys[0]).0, ys[1..]);
    }
  }

  // ----- one segment

  /** A decoder at the start of a segment that codes these MCUs decodes them, or gives a
      warning if some DC difference is out of range, whatever the statistics areas of other
      tables hold; and it ends inside the segment or at its marker. */
  lemma OneSegment(src: seq<byte>, sc: Scan, ri: nat, s: ScanDec, mcus: seq<Mcu>, ys: seq<Mcu>,
                   s0: Stats, p: seq<byte>, mk: byte, tail: seq<byte>) returns (m: nat)
    requires sc.Valid() && s.Valid() && !s.Failed() && s.pr == PRED0 && IsMarker(mk)
    requires s.d == StartOfSegment(s.d.input, s.d.stats) && ReadSoFar(src, s.d.input, p, 0, mk, tail)
    requires Fresh(sc, s.d.stats)
    requires AllFit(sc, mcus) && AllFit(sc, ys) && AllReady(sc.Pass(), mcus, ys)
    requires ri != 0 ==> |mcus| <= s.togo
    requires Codes(sc, s0, mcus, p)
    ensures var (s', ys') := NextMcus(src, sc, ri, s, ys);
            && Outside(sc, s'.pr) && s'.next == s.next && s'.togo == (if ri != 0 then s.togo - |mcus| else s.togo)
            && (if SegInRange(sc, PRED0, mcus) then AllRefined(sc.Pass(), mcus, ys, ys') && s'.warnings == s.warnings
                else s'.warnings == s.warnings + 1)
            && s'.d.stats[FIXED_BIN] == Stat(0, 113) && ReadSoFar(src, s'.d.input, p, m, mk, tail)
  {
    hide NextMcus, AllRefined, AllReady, ReadSoFar, Reads, ScanBins, Used, Fresh, Codes, AllFit, SegInRange,
      SegDecisions, Follows;
    SegmentFollows(src, sc, s, mcus, s0, p, mk, tail);
    if SegInRange(sc, PRED0, mcus) {
      SegmentMcus(src, sc, ri, s, PRED0, mcus, ys);
    } else {
      SegmentFails(src, sc, ri, s, PRED0, mcus, ys);
    }
    ReadyLength(sc.Pass(), mcus, ys);
    var e := SegmentTrail(src, sc, ri, s, ys);
    FreshFixed(sc, s.d.stats);
    m := TrailReads(src, s.d, e, ScanBins(sc), p, 0, mk, tail);
    AlwaysOutside(src, sc, ri, s, ys);
  }

  lemma FreshFixed(sc: Scan, s: Stats)
    requires Fresh(sc, s)
    ensures s[FIXED_BIN] == Stat(0, 113)
  {
  }

  lemma ReadyLength(p: Pass, mcus: seq<Mcu>, ys: seq<Mcu>)
    requires AllReady(p, mcus, ys)
    ensures |ys| == |mcus|
  {
  }

  lemma SegmentFollows(src: seq<byte>, sc: Scan, s: ScanDec, mcus: seq<Mcu>, s0: Stats, p: seq<byte>, mk: byte,
    tail: seq<byte>)
    requires sc.Valid() && s.Valid() && !s.Failed() && IsMarker(mk) && AllFit(sc, mcus)
    requires s.d == StartOfSegment(s.d.input, s.d.stats) && ReadSoFar(src, s.d.input, p, 0, mk, tail)
    requires Fresh(sc, s.d.stats) && Codes(sc, s0, mcus, p)
    ensures Follows(src, s.d, SegDecisions(sc, PRED0, mcus))
  {
    var ds := SegDecisions(sc, PRED0, mcus);
    var k, k0 := Coder(WHOLE, s.d.stats), Coder(WHOLE, s0);
    SegBins(sc, PRED0, mcus);
    RunAgree(sc, k, k0, ds);
    TracksStart(src, s.d.input, p, mk, tail, s.d.stats);
    DecodesAll(src, s.d, k, ds, p, mk, tail);
  }

  // ----- whole scans

  ghost predicate SegsFit(sc: Scan, segs: seq<seq<Mcu>>)
  {
    forall i :: 0 <= i < |segs| ==> AllFit(sc, segs[i])
  }

  /** Segment i of the scan codes the MCUs of restart interval i. */
  ghost predicate AllCode(sc: Scan, segs: seq<seq<Mcu>>, ps: seq<seq<byte>>, ss: seq<Stats>)
    requires sc.Valid() && SegsFit(sc, segs)
  {
    && |segs| == |ps| == |ss|
    && forall i :: 0 <= i < |segs| ==> Codes(sc, ss[i], segs[i], ps[i])
  }

  /** The number of restart intervals with a DC difference out of the decoder's range. */
  ghost function OutOfRange(sc: Scan, segs: seq<seq<Mcu>>): nat
    requires sc.Valid() && SegsFit(sc, segs)
  {
    if segs == [] then 0 else (if SegInRange(sc, PRED0, segs[0]) then 0 else 1) + OutOfRange(sc, segs[1..])
  }

  /** The MCUs of all other intervals are refined by the scan. */
  ghost predicate Recovered(sc: Scan, segs: seq<seq<Mcu>>, ys: seq<Mcu>, ys': seq<Mcu>)
    requires sc.Valid() && SegsFit(sc, segs)
  {
    && |ys| == |ys'| == |Flatten(segs)|
    && (segs == [] ||
        var n := |segs[0]|;
        && (SegInRange(sc, PRED0, segs[0]) ==> AllRefined(sc.Pass(), segs[0], ys[..n], ys'[..n]))
        && Recovered(sc, segs[1..], ys[n..], ys'[n..]))
  }

  lemma {:induction false} AllRecovered(sc: Scan, segs: seq<seq<Mcu>>, ys: seq<Mcu>, ys': seq<Mcu>)
    requires sc.Valid() && SegsFit(sc, segs) && Recovered(sc, segs, ys, ys') && OutOfRange(sc, segs) == 0
    ensures AllRefined(sc.Pass(), Flatten(segs), ys, ys')
    ensures forall i :: 0 <= i < |segs| ==> SegInRange(sc, PRED0, segs[i])
    decreases |segs|
  {
    hide SegInRange;
    if segs != [] {
      var n := |segs[0]|;
      AllRecovered(sc, segs[1..], ys[n..], ys'[n..]);
      JoinRefined(sc.Pass(), segs[0], Flatten(segs[1..]), ys[..n], ys[n..], ys'[..n], ys'[n..]);
      assert ys[..n] + ys[n..] == ys && ys'[..n] + ys'[n..] == ys';
      assert forall i :: 0 < i < |segs| ==> segs[i] == segs[1..][i - 1];
    }
  }

  lemma SplitReady(sc: Scan, xs: seq<Mcu>, zs: seq<Mcu>, ys: seq<Mcu>)
    requires AllFit(sc, xs + zs) && AllFit(sc, ys) && AllReady(sc.Pass(), xs + zs, ys)
    ensures |ys| == |xs| + |zs| && AllFit(sc, zs)
    ensures AllFit(sc, ys[..|xs|]) && AllFit(sc, ys[|xs|..])
    ensures AllReady(sc.Pass(), xs, ys[..|xs|]) && AllReady(sc.Pass(), zs, ys[|xs|..])
  {
    hide McuReady, AllReady;
    SplitAllReady(sc.Pass(), xs, zs, ys);
    forall i | 0 <= i < |zs|
      ensures McuFits(sc, zs[i])
    {
      assert McuFits(sc, (xs + zs)[|xs| + i]);
    }
  }

  /** With the interval used up, the next MCU starts with the restart. */
  lemma RestartFirst(src: seq<byte>, sc: Scan, ri: nat, s: ScanDec, ys: seq<Mcu>)
    requires sc.Valid() && s.Valid() && AllFit(sc, ys) && ys != []
    requires ri != 0 && s.togo == 0
    ensures NextMcus(src, sc, ri, s, ys) == NextMcus(src, sc, ri, ProcessRestart(src, sc, ri, s), ys)
  {
    hide DecodeMcu, ReadRestart;
    assert NextMcu(src, sc, ri, s, ys[0]) == NextMcu(src, sc, ri, ProcessRestart(src, sc, ri, s), ys[0]);
  }

  lemma RestartState(src: seq<byte>, sc: Scan, ri: nat, s: ScanDec)
    requires sc.Valid() && s.Valid() && Outside(sc, s.pr) && s.d.stats[FIXED_BIN] == Stat(0, 113)
    ensures var r := ProcessRestart(src, sc, ri, s);
            && r.Valid() && !r.Failed() && r.pr == PRED0 && r.togo == ri && r.next == (s.next + 1) % 8 && r.warnings
              == s.warnings
            && r.d == StartOfSegment(r.d.input, r.d.stats) && Fresh(sc, r.d.stats)
            && r.d.input == ReadRestart(src, s.d.input, s.next, 0).0
  {
    hide ReadRestart;
    var pr := PredReset(sc, s.pr);
    assert forall j :: 0 <= j < MAX_COMPS_IN_SCAN ==> pr.lastDc[j] == 0 && pr.context[j] == 0;
    assert pr == PRED0;
    ResetFresh(sc, s.d.stats);
  }

  lemma RestOfCut(sc: Scan, segs: seq<seq<Mcu>>, ri: nat)
    requires Cut(segs, ri) && |segs| > 1 && SegsFit(sc, segs)
    ensures Cut(segs[1..], ri) && SegsFit(sc, segs[1..]) && Flatten(segs[1..]) != []
    ensures ri != 0 && |segs[0]| == ri
  {
    assert segs[1..][|segs| - 2] == segs[|segs| - 1];
    NotEmpty(segs[1..]);
  }

  /** Whole scans: for every division of MCUs into restart intervals, the segments that
      code them, joined by restart markers and followed by any marker, decode with one
      warning for each interval in which a DC difference is out of range, and the
      coefficients of all other intervals are refined by this scan. */
  lemma {:induction false} ScanDecodes(src: seq<byte>, sc: Scan, ri: nat, s: ScanDec, segs: seq<seq<Mcu>>,
                                       ys: seq<Mcu>, ps: seq<seq<byte>>, ss: seq<Stats>, mk: byte, tail: seq<byte>)
    requires sc.Valid() && s.Valid() && !s.Failed() && s.pr == PRED0 && IsMarker(mk)
    requires s.d == StartOfSegment(s.d.input, s.d.stats) && s.d.input.marker == 0 && s.togo == ri
    requires Fresh(sc, s.d.stats)
    requires Cut(segs, ri) && SegsFit(sc, segs) && AllFit(sc, Flatten(segs)) && AllCode(sc, segs, ps, ss)
    requires s.d.input.pos <= |src| && src[s.d.input.pos..] == Join(ps, s.next) + Ending(mk, tail)
    requires AllFit(sc, ys) && AllReady(sc.Pass(), Flatten(segs), ys)
    ensures var (s', ys') := NextMcus(src, sc, ri, s, ys);
            s'.warnings == s.warnings + OutOfRange(sc, segs) && Recovered(sc, segs, ys, ys')
    decreases |segs|
  {
    hide Follows, After, NextMcus, DecOk, Codes, SegInRange, Fresh, AllReady, AllRefined, Outside, Scan.Valid,
      Stuff;
    var p, seg := ps[0], segs[0];
    assert AllFit(sc, seg) && Codes(sc, ss[0], seg, p);
    assert p[0..] == p;
    if |segs| == 1 {
      assert segs[1..] == [] && Flatten(segs) == seg;
      var m := OneSegment(src, sc, ri, s, seg, ys, ss[0], p, mk, tail);
      ReadyLength(sc.Pass(), seg, ys);
      LastRecovered(sc, segs, ys, NextMcus(src, sc, ri, s, ys).1);
    } else {
      var rst := M_RST0 + s.next;
      var tail1 := Join(ps[1..], (s.next + 1) % 8) + Ending(mk, tail);
      SplitReady(sc, seg, Flatten(segs[1..]), ys);
      var y0, y1 := ys[..|seg|], ys[|seg|..];
      assert src[s.d.input.pos..] == Stuff(p) + Ending(rst, tail1);
      var m := OneSegment(src, sc, ri, s, seg, y0, ss[0], p, rst, tail1);
      var (s1, x0) := NextMcus(src, sc, ri, s, y0);
      RestartFound(src, s1.d.input, p, m, s.next, tail1);
      RestartState(src, sc, ri, s1);
      RestOfCut(sc, segs, ri);
      assert AllCode(sc, segs[1..], ps[1..], ss[1..]);
      ScanDecodes(src, sc, ri, ProcessRestart(src, sc, ri, s1), segs[1..], y1, ps[1..], ss[1..], mk, tail);
      RestartFirst(src, sc, ri, s1, y1);
      assert ys == y0 + y1;
      NextMcusConcat(src, sc, ri, s, y0, y1);
      var x1 := NextMcus(src, sc, ri, s1, y1).1;
      assert (x0 + x1)[..|seg|] == x0 && (x0 + x1)[|seg|..] == x1;
    }
  }

  lemma LastRecovered(sc: Scan, segs: seq<seq<Mcu>>, ys: seq<Mcu>, ys': seq<Mcu>)
    requires sc.Valid() && |segs| == 1 && SegsFit(sc, segs) && |ys| == |ys'| == |segs[0]|
    requires SegInRange(sc, PRED0, segs[0]) ==> AllRefined(sc.Pass(), segs[0], ys, ys')
    ensures Recovered(sc, segs, ys, ys')
  {
    hide SegInRange, AllRefined;
    var n := |segs[0]|;
    assert ys[..n] == ys && ys'[..n] == ys' && segs[1..] == [] && Flatten(segs) == segs[0];
  }

  // ----- any bytes

  /** A bin as it was, or zeroed with the area it is in. */
  ghost predicate KeptOrReset(sc: Scan, ri: nat, s: Stats, r: Stats, i: bin)
  {
    r[i] == s[i] || (ri != 0 && r[i] == Stat(0, 0) && (InDcArea(sc, i) || InAcArea(sc, i)))
  }

  lemma NextMcuKeeps(src: seq<byte>, sc: Scan, ri: nat, s: ScanDec, y: Mcu)
    requires sc.Valid() && s.Valid() && McuFits(sc, y)
    ensures forall i: bin :: !Coded(sc, i) ==> KeptOrReset(sc, ri, s.d.stats, NextMcu(src, sc, ri, s, y).0.d.stats, i)
  {
    hide DecodeMcu, Reads, DecOk, Coded, Trail;
    var s1 := if ri != 0 && s.togo == 0 then ProcessRestart(src, sc, ri, s) else s;
    if !s1.Failed() {
      McuReads(src, sc, s1.d, s1.pr, y, 0);
      TrailKeeps(src, s1.d, DecodeMcu(src, sc, s1.d, s1.pr, y, 0).0, ScanBins(sc));
    }
  }

  /** Over a whole scan of any bytes, from any state: the registers stay in range unless
      decoding has stopped at an overflow, and all bins but those of the scan are left
      alone, or zeroed at restarts with the area they are in. */
  lemma {:induction false} AnyStream(src: seq<byte>, sc: Scan, ri: nat, s: ScanDec, ys: seq<Mcu>)
    requires sc.Valid() && s.Valid() && AllFit(sc, ys)
    ensures var e := NextMcus(src, sc, ri, s, ys).0;
            && (e.Failed() || DecOk(e.d))
            && forall i: bin :: !Coded(sc, i) ==> KeptOrReset(sc, ri, s.d.stats, e.d.stats, i)
    decreases |ys|
  {
    hide NextMcu, Coded, DecOk;
    if ys != [] {
      NextMcuKeeps(src, sc, ri, s, ys[0]);
      AnyStream(src, sc, ri, NextMcu(src, sc, ri, s, ys[0]).0, ys[1..]);
    }
  }
}
