/** One MCU in each of the five arithmetic coding modes: the decisions the encoder makes,
    what the decoder does with them, and that it undoes them. */
module McuCoding {
  import opened JpegLib
  import opened Arithmetic
  import opened Blocks
  import opened Bytes
  import opened Markers
  import opened ProbabilityTable
  import opened IntervalCoder
  import opened ArithDecoding
  import opened Magnitudes
  import opened Coefficients

  /** The parameters of a scan: spectral band, successive approximation, last coefficient
      of a block (0 for 1x1 blocks), the component of each block of an MCU, and for each
      component its tables with the conditioning bounds L, U and Kx of each. */
  datatype Scan = Scan(mode: Mode, ss: nat, se: nat, al: nat, limSe: nat, membership: seq<nat>,
                       dcTbl: seq<nat>, acTbl: seq<nat>, dcL: seq<nat>, dcU: seq<nat>, acK: seq<nat>)
  {
    /** What jcmaster.c and the start_pass routines have established. */
    ghost predicate Valid()
    {
      && 1 <= |dcTbl| == |acTbl| <= MAX_COMPS_IN_SCAN
      && (forall i :: 0 <= i < |dcTbl| ==> dcTbl[i] < NUM_ARITH_TBLS && acTbl[i] < NUM_ARITH_TBLS)
      && (forall i :: 0 <= i < |membership| ==> membership[i] < |dcTbl|)
      && |dcL| == |dcU| == |acK| == NUM_ARITH_TBLS
      && Pass().Valid()
      && (mode.AcFirstPass? || mode.AcRefinePass? ==> |membership| == 1)
    }

    function Pass(): Blocks.Pass
    {
      Blocks.Pass(mode, ss, se, al, limSe)
    }

    function DcArea(ci: nat): (b: nat)
      requires Valid() && ci < |dcTbl|
      ensures b + DC_STAT_BINS <= ALL_BINS
    {
      dcTbl[ci] * DC_STAT_BINS
    }

    function Ac(ci: nat): (t: AcTable)
      requires Valid() && ci < |acTbl|
      ensures t.Valid()
    {
      AcTable(NUM_ARITH_TBLS * DC_STAT_BINS + acTbl[ci] * AC_STAT_BINS, acK[acTbl[ci]])
    }

    predicate CodesDc()
    {
      Pass().CodesDc()
    }

    predicate CodesAc()
    {
      Pass().CodesAc()
    }
  }

  /** The predictions of an entropy-coded segment: the last DC value and the conditioning
      context of each component. */
  datatype Pred = Pred(lastDc: seq<int>, context: seq<nat>)
  {
    ghost predicate Valid()
    {
      && |lastDc| == |context| == MAX_COMPS_IN_SCAN
      && (forall i :: 0 <= i < |context| ==> context[i] <= 16)
    }

    /** On the encoder's side, where the predictions are shifted coefficients. */
    ghost predicate Small()
    {
      Valid() && forall i :: 0 <= i < |lastDc| ==> -0x8000 <= lastDc[i] < 0x8000
    }
  }

  const PRED0 := Pred([0, 0, 0, 0], [0, 0, 0, 0])

  function Diff(sc: Scan, pr: Pred, ci: nat, z: Block): int
    requires ci < |pr.lastDc|
  {
    Shift(z[0], sc.al) - pr.lastDc[ci]
  }

  /** The DC part of a block in a first pass or sequential scan. */
  function DcPart(sc: Scan, pr: Pred, ci: nat, z: Block): seq<Decision>
    requires sc.Valid() && pr.Small() && ci < |sc.dcTbl|
  {
    ShiftSmall(z[0], sc.al);
    DcDiff(sc.DcArea(ci), pr.context[ci], Diff(sc, pr, ci, z))
  }

  function PredAfter(sc: Scan, pr: Pred, ci: nat, z: Block): (r: Pred)
    requires sc.Valid() && pr.Small() && ci < |sc.dcTbl|
    ensures r.Small()
  {
    if sc.CodesDc() then
      ShiftSmall(z[0], sc.al);
      var tbl := sc.dcTbl[ci];
      Pred(pr.lastDc[ci := Shift(z[0], sc.al)],
           pr.context[ci := ContextAfter(Diff(sc, pr, ci, z), sc.dcL[tbl], sc.dcU[tbl])])
    else pr
  }

  function AcPart(ac: AcTable, z: Block, ss: nat, se: nat, al: nat): seq<Decision>
    requires ac.Valid() && 1 <= ss <= se < DCTSIZE2
  {
    var t := Transformed(z, al);
    assert forall j :: 0 <= j < |t| ==> Abs(t[j]) <= 0x8000 by {
      forall j | 0 <= j < |t|
        ensures Abs(t[j]) <= 0x8000
      {
        TransformSmall(z[j], al);
      }
    }
    AcFirst(ac, t, ss, EndOfBlock(t, se), se)
  }

  /** kex is the last position already nonzero before this pass, that is, nonzero with one
      bit less. */
  function AcRefinePart(ac: AcTable, z: Block, ss: nat, se: nat, al: nat): seq<Decision>
    requires ac.Valid() && 1 <= ss <= se < DCTSIZE2
  {
    var t := Transformed(z, al);
    var ke := EndOfBlock(t, se);
    AcRefine(ac, t, ss, EndOfBlock(Transformed(z, al + 1), ke), ke, se)
  }

  /** All decisions for one block of component ci. */
  function BlockDecisions(sc: Scan, pr: Pred, ci: nat, z: Block): seq<Decision>
    requires sc.Valid() && pr.Small() && ci < |sc.dcTbl|
  {
    match sc.mode
    case Sequential =>
      DcPart(sc, pr, ci, z) + (if sc.limSe == 0 then [] else AcPart(sc.Ac(ci), z, 1, sc.limSe, 0))
    case DcFirst => DcPart(sc, pr, ci, z)
    case AcFirstPass => AcPart(sc.Ac(ci), z, sc.ss, sc.se, sc.al)
    case DcRefine => [Decision(FIXED_BIN, Shift(z[0], sc.al) % 2)]
    case AcRefinePass => AcRefinePart(sc.Ac(ci), z, sc.ss, sc.se, sc.al)
  }

  ghost predicate McuFits(sc: Scan, mcu: Mcu)
  {
    |mcu| == |sc.membership|
  }

  /** The decisions for the blocks of an MCU from index i. */
  function McuDecisions(sc: Scan, pr: Pred, mcu: Mcu, i: nat): seq<Decision>
    requires sc.Valid() && pr.Small() && McuFits(sc, mcu) && i <= |mcu|
    decreases |mcu| - i
  {
    if i == |mcu| then []
    else
      var ci := sc.membership[i];
      BlockDecisions(sc, pr, ci, mcu[i]) + McuDecisions(sc, PredAfter(sc, pr, ci, mcu[i]), mcu, i + 1)
  }

  function PredAfterMcu(sc: Scan, pr: Pred, mcu: Mcu, i: nat): (r: Pred)
    requires sc.Valid() && pr.Small() && McuFits(sc, mcu) && i <= |mcu|
    ensures r.Small()
    decreases |mcu| - i
  {
    if i == |mcu| then pr
    else PredAfterMcu(sc, PredAfter(sc, pr, sc.membership[i], mcu[i]), mcu, i + 1)
  }

  // ----- decoding

  function DecodeDc(src: seq<byte>, sc: Scan, d: Dec, pr: Pred, ci: nat, z: Block): (r: (Dec, Pred, Block, bool))
    requires sc.Valid() && DecOk(d) && pr.Valid() && ci < |sc.dcTbl|
    ensures DecOk(r.0) && r.1.Valid()
  {
    var tbl := sc.dcTbl[ci];
    var (e, v, c, ok) := DecodeDcDiff(src, d, sc.DcArea(ci), pr.context[ci], sc.dcL[tbl], sc.dcU[tbl]);
    if !ok then (e, pr, z, false)
    else
      var dc := pr.lastDc[ci] + v;
      (e, Pred(pr.lastDc[ci := dc], pr.context[ci := c]), z[0 := Jcoef(dc * Pow2(sc.al))], true)
  }

  /** One block: the state, the predictions, the block, and whether no overflow was met. */
  function DecodeBlock(src: seq<byte>, sc: Scan, d: Dec, pr: Pred, ci: nat, z: Block): (r: (Dec, Pred, Block, bool))
    requires sc.Valid() && DecOk(d) && pr.Valid() && ci < |sc.dcTbl|
    ensures DecOk(r.0) && r.1.Valid()
  {
    match sc.mode
    case Sequential =>
      var (d1, pr1, z1, ok) := DecodeDc(src, sc, d, pr, ci, z);
      if !ok || sc.limSe == 0 then (d1, pr1, z1, ok)
      else
        var (d2, z2, ok2) := DecodeFirst(src, d1, sc.Ac(ci), z1, 1, sc.limSe, 0);
        (d2, pr1, z2, ok2)
    case DcFirst => DecodeDc(src, sc, d, pr, ci, z)
    case AcFirstPass =>
      var (d1, z1, ok) := DecodeFirst(src, d, sc.Ac(ci), z, sc.ss, sc.se, sc.al);
      (d1, pr, z1, ok)
    case DcRefine =>
      var (b, d1) := Decode(src, d, FIXED_BIN);
      (d1, pr, if b == 1 then z[0 := SetBit(z[0], sc.al)] else z, true)
    case AcRefinePass =>
      var (d1, z1, ok) := DecodeRefine(src, d, sc.Ac(ci), z, sc.ss, EndOfBlock(z, sc.se), sc.se, sc.al);
      (d1, pr, z1, ok)
  }

  function DecodeMcu(src: seq<byte>, sc: Scan, d: Dec, pr: Pred, mcu: Mcu, i: nat): (r: (Dec, Pred, Mcu, bool))
    requires sc.Valid() && DecOk(d) && pr.Valid() && McuFits(sc, mcu) && i <= |mcu|
    ensures DecOk(r.0) && r.1.Valid() && McuFits(sc, r.2)
    decreases |mcu| - i
  {
    if i == |mcu| then (d, pr, mcu, true)
    else
      var (d1, pr1, z1, ok) := DecodeBlock(src, sc, d, pr, sc.membership[i], mcu[i]);
      if ok then DecodeMcu(src, sc, d1, pr1, mcu[i := z1], i + 1) else (d1, pr1, mcu[i := z1], false)
  }

  // ----- decoding undoes coding

  /** The magnitudes the decoder can represent. */
  ghost predicate DcInRange(sc: Scan, pr: Pred, ci: nat, z: Block)
    requires sc.Valid() && pr.Small() && ci < |sc.dcTbl|
  {
    sc.CodesDc() ==> -0x8000 <= Diff(sc, pr, ci, z) <= 0x8000
  }

  /** Found in range exactly when the difference is at most 2^15 in magnitude. */
  lemma DcDecodes(src: seq<byte>, sc: Scan, d: Dec, pr: Pred, ci: nat, z: Block, y: Block)
    requires sc.Valid() && DecOk(d) && pr.Small() && ci < |sc.dcTbl| && sc.CodesDc()
    requires Follows(src, d, DcPart(sc, pr, ci, z))
    ensures var (e, pr', y', ok) := DecodeDc(src, sc, d, pr, ci, y);
            && (ok <==> DcInRange(sc, pr, ci, z))
            && (ok ==> e == After(src, d, DcPart(sc, pr, ci, z)) && pr' == PredAfter(sc, pr, ci, z)
                       && y'[0] == Shift(z[0], sc.al) * Pow2(sc.al) && y'[1..] == y[1..])
  {
    hide DcDiff, DecodeDcDiff, Follows, After, ContextAfter, Shift, Jcoef;
    var tbl := sc.dcTbl[ci];
    ShiftSmall(z[0], sc.al);
    ShiftBack(z[0], sc.al);
    DcDiffDecodes(src, d, sc.DcArea(ci), pr.context[ci], Diff(sc, pr, ci, z), sc.dcL[tbl], sc.dcU[tbl]);
  }

  lemma AcDecodes(src: seq<byte>, d: Dec, ac: AcTable, z: Block, y: Block, ss: nat, se: nat, al: nat)
    requires ac.Valid() && DecOk(d) && 1 <= ss <= se < DCTSIZE2
    requires forall k :: ss <= k <= se ==> y[k] == 0
    requires Follows(src, d, AcPart(ac, z, ss, se, al))
    ensures var (e, y', ok) := DecodeFirst(src, d, ac, y, ss, se, al);
            && ok && e == After(src, d, AcPart(ac, z, ss, se, al))
            && forall k :: 0 <= k < DCTSIZE2 ==> y'[k] == if ss <= k <= se then Approx(z[k], al) else y[k]
  {
    hide AcFirst, DecodeFirst, Follows, After, Transform, Jcoef;
    var t := Transformed(z, al);
    forall k | 0 <= k < DCTSIZE2
      ensures Abs(t[k]) <= 0x8000 && Jcoef(t[k] * Pow2(al)) == Approx(z[k], al)
    {
      TransformSmall(z[k], al);
    }
    FirstDecodes(src, d, ac, t, y, ss, EndOfBlock(t, se), se, al);
  }

  lemma RefineAcDecodes(src: seq<byte>, d: Dec, ac: AcTable, z: Block, y: Block, ss: nat, se: nat, al: nat)
    requires ac.Valid() && DecOk(d) && 1 <= ss <= se < DCTSIZE2
    requires forall k :: ss <= k <= se ==> y[k] == Approx(z[k], al + 1)
    requires Follows(src, d, AcRefinePart(ac, z, ss, se, al))
    ensures var (e, y', ok) := DecodeRefine(src, d, ac, y, ss, EndOfBlock(y, se), se, al);
            && ok && e == After(src, d, AcRefinePart(ac, z, ss, se, al))
            && forall k :: 0 <= k < DCTSIZE2 ==> y'[k] == if ss <= k <= se then Approx(z[k], al) else y[k]
  {
    hide AcRefine, DecodeRefine, Follows, After, Transform, EndOfBlock;
    var t, prev := Transformed(z, al), Transformed(z, al + 1);
    var ke := EndOfBlock(t, se);
    var kex, kex' := EndOfBlock(prev, ke), EndOfBlock(y, se);
    forall k | ss <= k <= se
      ensures Refinable(t[k], y[k], al)
      ensures prev[k] != 0 <==> y[k] != 0
      ensures prev[k] != 0 ==> t[k] != 0
    {
      TransformTwice(z[k], al);
      TransformSmall(z[k], al);
      assert Pow2(al + 1) == 2 * Pow2(al);
      if prev[k] != 0 {
        Grows(prev[k], Pow2(al + 1));
      }
    }
    assert kex' >= ss ==> kex == kex';
    assert kex' < ss ==> kex < ss;
    if kex' < ss {
      KexBelow(ac, t, ss, kex, kex', ke, se);
    }
    RefineDecodes(src, d, ac, t, y, ss, kex', ke, se, al);
  }

  /** Any block in any mode: what the encoder's decisions say, the decoder does. */
  lemma BlockDecodes(src: seq<byte>, sc: Scan, d: Dec, pr: Pred, ci: nat, z: Block, y: Block)
    requires sc.Valid() && DecOk(d) && pr.Small() && ci < |sc.dcTbl|
    requires DcInRange(sc, pr, ci, z) && sc.Pass().Ready(z, y)
    requires Follows(src, d, BlockDecisions(sc, pr, ci, z))
    ensures var (e, pr', y', ok) := DecodeBlock(src, sc, d, pr, ci, y);
            && ok && e == After(src, d, BlockDecisions(sc, pr, ci, z)) && pr' == PredAfter(sc, pr, ci, z)
            && sc.Pass().Refined(z, y, y')
  {
    hide Follows, After, Decode, DecodeDc, DecodeFirst, DecodeRefine, DcPart, AcPart, AcRefinePart, Approx, Shift,
      DecOk;
    match sc.mode
    case Sequential =>
      if sc.limSe == 0 {
        assert DcPart(sc, pr, ci, z) + [] == DcPart(sc, pr, ci, z);
        DcDecodes(src, sc, d, pr, ci, z, y);
      } else {
        FollowsConcat(src, d, DcPart(sc, pr, ci, z), AcPart(sc.Ac(ci), z, 1, sc.limSe, 0));
        DcDecodes(src, sc, d, pr, ci, z, y);
        var (d1, pr1, y1, ok) := DecodeDc(src, sc, d, pr, ci, y);
        AcDecodes(src, d1, sc.Ac(ci), z, y1, 1, sc.limSe, 0);
      }
    case DcFirst => DcDecodes(src, sc, d, pr, ci, z, y);
    case AcFirstPass => AcDecodes(src, d, sc.Ac(ci), z, y, sc.ss, sc.se, sc.al);
    case DcRefine =>
      FollowsOne(src, d, Decision(FIXED_BIN, Shift(z[0], sc.al) % 2));
    case AcRefinePass => RefineAcDecodes(src, d, sc.Ac(ci), z, y, sc.ss, sc.se, sc.al);
  }

  ghost predicate McuInRange(sc: Scan, pr: Pred, mcu: Mcu, i: nat)
    requires sc.Valid() && pr.Small() && McuFits(sc, mcu) && i <= |mcu|
    decreases |mcu| - i
  {
    i == |mcu| ||
    (&& DcInRange(sc, pr, sc.membership[i], mcu[i])
     && McuInRange(sc, PredAfter(sc, pr, sc.membership[i], mcu[i]), mcu, i + 1))
  }

  lemma {:induction false} McuDecodes(src: seq<byte>, sc: Scan, d: Dec, pr: Pred, mcu: Mcu, y: Mcu, i: nat)
    requires sc.Valid() && DecOk(d) && pr.Small() && McuFits(sc, mcu) && |y| == |mcu| && i <= |mcu|
    requires McuInRange(sc, pr, mcu, i)
    requires forall j :: i <= j < |mcu| ==> sc.Pass().Ready(mcu[j], y[j])
    requires Follows(src, d, McuDecisions(sc, pr, mcu, i))
    ensures var (e, pr', y', ok) := DecodeMcu(src, sc, d, pr, y, i);
            && ok && e == After(src, d, McuDecisions(sc, pr, mcu, i)) && pr' == PredAfterMcu(sc, pr, mcu, i)
            && (forall j :: i <= j < |mcu| ==> sc.Pass().Refined(mcu[j], y[j], y'[j]))
            && (forall j :: 0 <= j < i ==> y'[j] == y[j])
    decreases |mcu| - i
  {
    hide Follows, After, BlockDecisions, DecodeBlock, Pass.Refined, Pass.Ready, DecOk, DcInRange, PredAfter;
    if i == |mcu| {
      FollowsNone(src, d);
    } else {
      var ci := sc.membership[i];
      var rest := McuDecisions(sc, PredAfter(sc, pr, ci, mcu[i]), mcu, i + 1);
      FollowsConcat(src, d, BlockDecisions(sc, pr, ci, mcu[i]), rest);
      BlockDecodes(src, sc, d, pr, ci, mcu[i], y[i]);
      var (d1, pr1, y1, ok) := DecodeBlock(src, sc, d, pr, ci, y[i]);
      McuDecodes(src, sc, d1, pr1, mcu, y[i := y1], i + 1);
    }
  }
}
