/** MCUs and restart intervals of a Huffman-coded scan in its five coding modes: the items
    the encoder emits, what the decoder does with them, and that it undoes them. */
module HuffmanScan {
  import opened JpegLib
  import opened Bytes
  import opened Arithmetic
  import opened Blocks
  import opened BitStreams
  import opened BitWriting
  import opened CodeTable
  import opened HuffmanDecoding
  import opened HuffmanItems
  import opened HuffmanBlocks
  import opened HuffmanFirst
  import opened HuffmanRefine

  /** A scan: its pass, the component of each block of an MCU, the tables of each component,
      and for sequential decoding the number of coefficients wanted of each block. */
  datatype HScan = HScan(pass: Pass, membership: seq<nat>, dcTbl: seq<nat>, acTbl: seq<nat>, coefLimit: seq<nat>)
  {
    ghost predicate Valid()
    {
      && pass.Valid() && 1 <= |dcTbl| == |acTbl| <= MAX_COMPS_IN_SCAN
      && (forall i :: 0 <= i < |dcTbl| ==> dcTbl[i] < NUM_HUFF_TBLS && acTbl[i] < NUM_HUFF_TBLS)
      && (forall i :: 0 <= i < |membership| ==> membership[i] < |dcTbl|)
      && |coefLimit| == |membership| && (forall i :: 0 <= i < |coefLimit| ==> coefLimit[i] <= pass.limSe + 1)
      && (pass.mode.AcFirstPass? || pass.mode.AcRefinePass? ==> |membership| == 1)
    }

    predicate UsesDc(tbl: nat)
    {
      tbl < NUM_HUFF_TBLS && pass.CodesDc() && tbl in dcTbl
    }

    predicate UsesAc(tbl: nat)
    {
      tbl < NUM_HUFF_TBLS && pass.CodesAc() && tbl in acTbl
    }

    /** All coefficients are wanted. */
    ghost predicate Full()
    {
      forall i :: 0 <= i < |coefLimit| ==> coefLimit[i] > pass.limSe
    }
  }

  type Preds = p: seq<int> | |p| == MAX_COMPS_IN_SCAN witness [0, 0, 0, 0]

  const NO_PREDS: Preds := [0, 0, 0, 0]

  /** Between MCUs: the last DC values, and the pending end-of-band run with its correction
      bits. */
  datatype EncState = EncState(preds: Preds, e: nat, corr: seq<bit>)

  const ENC0 := EncState(NO_PREDS, 0, [])

  // ----- encoding

  /** The items of one block of component ci, and the state after it. */
  function BlockItems(sc: HScan, st: EncState, ci: nat, z: Block): (seq<Item>, EncState)
    requires sc.Valid() && ci < |sc.dcTbl|
  {
    var p := sc.pass;
    match p.mode
    case Sequential =>
      (DcItems(sc.dcTbl[ci], z[0] - st.preds[ci]) + AcItems(sc.acTbl[ci], z, 1, 0, p.limSe),
        st.(preds := st.preds[ci := z[0]]))
    case DcFirst =>
      (DcItems(sc.dcTbl[ci], Shift(z[0], p.al) - st.preds[ci]), st.(preds := st.preds[ci := Shift(z[0], p.al)]))
    case DcRefine => ([Raw(Shift(z[0], p.al) % 2, 1)], st)
    case AcFirstPass =>
      var (items, e) := FirstBlock(sc.acTbl[0], Transformed(z, p.al), p.ss, p.se, st.e);
      (items, st.(e := e))
    case AcRefinePass =>
      var (items, e, corr) := RefBlock(sc.acTbl[0], Transformed(z, p.al), p.ss, p.se, st.e, st.corr);
      (items, st.(e := e, corr := corr))
  }

  /** What the encoder can code: it fails on larger coefficients. */
  ghost predicate BlockFits(sc: HScan, st: EncState, ci: nat, z: Block)
    requires sc.Valid() && ci < |sc.dcTbl|
  {
    var p := sc.pass;
    match p.mode
    case Sequential => NBits(Abs(z[0] - st.preds[ci])) <= MAX_COEF_BITS + 1 && SmallAc(z, 1, p.limSe)
    case DcFirst => NBits(Abs(Shift(z[0], p.al) - st.preds[ci])) <= MAX_COEF_BITS + 1
    case AcFirstPass => SmallAc(Transformed(z, p.al), p.ss, p.se)
    case _ => true
  }

  ghost predicate Fits(sc: HScan, mcu: Mcu)
  {
    |mcu| == |sc.membership|
  }

  ghost predicate AllFit(sc: HScan, mcus: seq<Mcu>)
  {
    forall i :: 0 <= i < |mcus| ==> Fits(sc, mcus[i])
  }

  function McuItems(sc: HScan, st: EncState, mcu: Mcu, i: nat): (seq<Item>, EncState)
    requires sc.Valid() && Fits(sc, mcu) && i <= |mcu|
    decreases |mcu| - i
  {
    if i == |mcu| then ([], st)
    else
      var (items, st1) := BlockItems(sc, st, sc.membership[i], mcu[i]);
      var (rest, st2) := McuItems(sc, st1, mcu, i + 1);
      (items + rest, st2)
  }

  ghost predicate McuCodable(sc: HScan, st: EncState, mcu: Mcu, i: nat)
    requires sc.Valid() && Fits(sc, mcu) && i <= |mcu|
    decreases |mcu| - i
  {
    i == |mcu| ||
    (BlockFits(sc, st, sc.membership[i], mcu[i]) && McuCodable(sc, BlockItems(sc, st, sc.membership[i], mcu[i]).1, mcu,
      i + 1))
  }

  /** emit_eobrun at the end of a segment. */
  function EndItems(sc: HScan, st: EncState): seq<Item>
    requires sc.Valid()
  {
    match sc.pass.mode
    case AcFirstPass => EobItems(sc.acTbl[0], st.e)
    case AcRefinePass => FlushItems(sc.acTbl[0], st.e, st.corr)
    case _ => []
  }

  /** The items of the MCUs of a restart interval. */
  function SegItems(sc: HScan, st: EncState, mcus: seq<Mcu>): seq<Item>
    requires sc.Valid() && AllFit(sc, mcus)
    decreases |mcus|
  {
    if mcus == [] then EndItems(sc, st)
    else
      var (items, st1) := McuItems(sc, st, mcus[0], 0);
      items + SegItems(sc, st1, mcus[1..])
  }

  ghost predicate SegCodable(sc: HScan, st: EncState, mcus: seq<Mcu>)
    requires sc.Valid() && AllFit(sc, mcus)
    decreases |mcus|
  {
    mcus == [] || (McuCodable(sc, st, mcus[0], 0) && SegCodable(sc, McuItems(sc, st, mcus[0], 0).1, mcus[1..]))
  }

  // ----- decoding

  /** The position in the segment's bits, the last DC values, and the run of blocks to skip. */
  datatype DecState = DecState(at: nat, preds: Preds, run: nat)

  /** One block: block number blkn of an MCU. */
  function DecodeBlock(sc: HScan, ts: Tables, d: seq<bit>, st: DecState, blkn: nat, y: Block): (DecState, Block)
    requires sc.Valid() && ts.Valid() && blkn < |sc.membership|
  {
    var p, ci := sc.pass, sc.membership[blkn];
    match p.mode
    case Sequential =>
      var (diff, at1) := DecodeDcDiff(ts.dc[sc.dcTbl[ci]], d, st.at);
      var dc := st.preds[ci] + diff;
      var limit := sc.coefLimit[blkn];
      var y1 := if limit > 0 then y[0 := Jcoef(dc)] else y;
      var (y2, at2) := DecodeAc(ts.ac[sc.acTbl[ci]], d, at1, y1, 1, limit, p.limSe);
      (st.(at := at2, preds := if limit > 0 then st.preds[ci := dc] else st.preds), y2)
    case DcFirst =>
      var (diff, at1) := DecodeDcDiff(ts.dc[sc.dcTbl[ci]], d, st.at);
      var dc := st.preds[ci] + diff;
      (st.(at := at1, preds := st.preds[ci := dc]), y[0 := Jcoef(dc * Pow2(p.al))])
    case DcRefine =>
      (st.(at := st.at + 1), if Peek(d, st.at, 1) == 1 then y[0 := SetBit(y[0], p.al)] else y)
    case AcFirstPass =>
      var (y', at', run) := DecodeFirst(ts.ac[sc.acTbl[0]], d, st.at, st.run, y, p.ss, p.se, p.al);
      (st.(at := at', run := run), y')
    case AcRefinePass =>
      var (y', at', run) := DecodeRefine(ts.ac[sc.acTbl[0]], d, st.at, st.run, y, p.ss, p.se, p.al);
      (st.(at := at', run := run), y')
  }

  function DecodeMcu(sc: HScan, ts: Tables, d: seq<bit>, st: DecState, mcu: Mcu, i: nat): (r: (DecState, Mcu))
    requires sc.Valid() && ts.Valid() && Fits(sc, mcu) && i <= |mcu|
    ensures Fits(sc, r.1)
    decreases |mcu| - i
  {
    if i == |mcu| then (st, mcu)
    else
      var (st1, y) := DecodeBlock(sc, ts, d, st, i, mcu[i]);
      DecodeMcu(sc, ts, d, st1, mcu[i := y], i + 1)
  }

  function DecodeMcus(sc: HScan, ts: Tables, d: seq<bit>, st: DecState, ys: seq<Mcu>): (r: (DecState, seq<Mcu>))
    requires sc.Valid() && ts.Valid() && AllFit(sc, ys)
    ensures |r.1| == |ys| && AllFit(sc, r.1)
    decreases |ys|
  {
    if ys == [] then (st, [])
    else
      var (st1, y) := DecodeMcu(sc, ts, d, st, ys[0], 0);
      var (st2, rest) := DecodeMcus(sc, ts, d, st1, ys[1..]);
      (st2, [y] + rest)
  }

  // ----- decoding undoes coding: sequential and DC modes

  predicate Simple(sc: HScan)
  {
    sc.pass.mode.Sequential? || sc.pass.mode.DcFirst? || sc.pass.mode.DcRefine?
  }

  lemma SequentialDecodes(sc: HScan, ts: Tables, d: seq<bit>, st: EncState, at: nat, i: nat, z: Block, y: Block)
    requires sc.Valid() && ts.Valid() && i < |sc.membership| && sc.pass.mode.Sequential? && sc.Full()
    requires BlockFits(sc, st, sc.membership[i], z) && sc.pass.Ready(z, y)
    requires Next(ts, d, at, BlockItems(sc, st, sc.membership[i], z).0)
    ensures var (items, st1) := BlockItems(sc, st, sc.membership[i], z);
            var (ds, y') := DecodeBlock(sc, ts, d, DecState(at, st.preds, 0), i, y);
            ds == DecState(at + Length(ts, items), st1.preds, 0) && sc.pass.Refined(z, y, y')
  {
    hide Next, Length, DcItems, AcItems, DecodeDcDiff, DecodeAc, NBits, Jcoef, SmallAc;
    var ci, se := sc.membership[i], sc.pass.limSe;
    var dc, ac := DcItems(sc.dcTbl[ci], z[0] - st.preds[ci]), AcItems(sc.acTbl[ci], z, 1, 0, se);
    NextConcat(ts, d, at, dc, ac);
    DcDecodes(ts, d, at, sc.dcTbl[ci], z[0] - st.preds[ci]);
    JcoefId(z[0]);
    var y1 := y[0 := z[0]];
    AcDecodes(ts, d, at + Length(ts, dc), sc.acTbl[ci], z, y1, 1, 0, sc.coefLimit[i], se);
    AllTransformed(z);
    FullRefined(sc, i, z, y, y1, DecodeAc(ts.ac[sc.acTbl[ci]], d, at + Length(ts, dc), y1, 1, sc.coefLimit[i], se).0);
  }

  lemma AllTransformed(z: Block)
    ensures Shift(z[0], 0) * Pow2(0) == z[0]
    ensures forall k :: 0 <= k < DCTSIZE2 ==> Approx(z[k], 0) == z[k]
  {
    forall k | 0 <= k < DCTSIZE2
      ensures Approx(z[k], 0) == z[k]
    {
      TransformSmall(z[k], 0);
    }
  }

  lemma FullRefined(sc: HScan, i: nat, z: Block, y: Block, y1: Block, y': Block)
    requires sc.Valid() && sc.Full() && i < |sc.membership| && sc.pass.mode.Sequential? && y1 == y[0 := z[0]]
    requires Restored(z, y1, y', 1, sc.coefLimit[i], sc.pass.limSe)
    requires Shift(z[0], 0) * Pow2(0) == z[0] && forall k :: 0 <= k < DCTSIZE2 ==> Approx(z[k], 0) == z[k]
    ensures sc.pass.Refined(z, y, y')
  {
    hide Shift, Approx, Pow2;
  }

  lemma DcFirstDecodes(sc: HScan, ts: Tables, d: seq<bit>, st: EncState, at: nat, i: nat, z: Block, y: Block)
    requires sc.Valid() && ts.Valid() && i < |sc.membership| && sc.pass.mode.DcFirst?
    requires BlockFits(sc, st, sc.membership[i], z) && Next(ts, d, at, BlockItems(sc, st, sc.membership[i], z).0)
    ensures var (items, st1) := BlockItems(sc, st, sc.membership[i], z);
            var (ds, y') := DecodeBlock(sc, ts, d, DecState(at, st.preds, 0), i, y);
            ds == DecState(at + Length(ts, items), st1.preds, 0) && sc.pass.Refined(z, y, y')
  {
    hide Next, Length, DcItems, DecodeDcDiff, NBits, Jcoef, Shift, Pow2;
    var ci := sc.membership[i];
    DcDecodes(ts, d, at, sc.dcTbl[ci], Shift(z[0], sc.pass.al) - st.preds[ci]);
    ShiftBack(z[0], sc.pass.al);
  }

  lemma DcRefineDecodes(sc: HScan, ts: Tables, d: seq<bit>, st: EncState, at: nat, i: nat, z: Block, y: Block)
    requires sc.Valid() && ts.Valid() && i < |sc.membership| && sc.pass.mode.DcRefine? && sc.pass.Ready(z, y)
    requires Next(ts, d, at, BlockItems(sc, st, sc.membership[i], z).0)
    ensures var (items, st1) := BlockItems(sc, st, sc.membership[i], z);
            var (ds, y') := DecodeBlock(sc, ts, d, DecState(at, st.preds, 0), i, y);
            ds == DecState(at + Length(ts, items), st1.preds, 0) && sc.pass.Refined(z, y, y')
  {
    hide Next, Length, SetBit, Shift, Peek, Pow2;
    RawDecodes(ts, d, at, Shift(z[0], sc.pass.al) % 2, 1);
  }

  lemma SimpleDecodes(sc: HScan, ts: Tables, d: seq<bit>, st: EncState, at: nat, i: nat, z: Block, y: Block)
    requires sc.Valid() && ts.Valid() && i < |sc.membership| && Simple(sc) && sc.Full()
    requires BlockFits(sc, st, sc.membership[i], z) && sc.pass.Ready(z, y)
    requires Next(ts, d, at, BlockItems(sc, st, sc.membership[i], z).0)
    ensures var (items, st1) := BlockItems(sc, st, sc.membership[i], z);
            var (ds, y') := DecodeBlock(sc, ts, d, DecState(at, st.preds, 0), i, y);
            ds == DecState(at + Length(ts, items), st1.preds, 0) && sc.pass.Refined(z, y, y')
  {
    hide Next, Length, BlockItems, DecodeBlock, Pass.Refined;
    match sc.pass.mode
    case Sequential => SequentialDecodes(sc, ts, d, st, at, i, z, y);
    case DcFirst => DcFirstDecodes(sc, ts, d, st, at, i, z, y);
    case DcRefine => DcRefineDecodes(sc, ts, d, st, at, i, z, y);
  }

  lemma {:induction false} SimpleMcuDecodes(sc: HScan, ts: Tables, d: seq<bit>, st: EncState, at: nat, mcu: Mcu, y: Mcu,
    i: nat)
    requires sc.Valid() && ts.Valid() && Simple(sc) && sc.Full() && Fits(sc, mcu) && Fits(sc, y) && i <= |mcu|
    requires McuCodable(sc, st, mcu, i) && Next(ts, d, at, McuItems(sc, st, mcu, i).0)
    requires forall j :: i <= j < |mcu| ==> sc.pass.Ready(mcu[j], y[j])
    ensures var (items, st1) := McuItems(sc, st, mcu, i);
            var (ds, y') := DecodeMcu(sc, ts, d, DecState(at, st.preds, 0), y, i);
            && ds == DecState(at + Length(ts, items), st1.preds, 0)
            && (forall j :: 0 <= j < i ==> y'[j] == y[j])
            && (forall j :: i <= j < |mcu| ==> sc.pass.Refined(mcu[j], y[j], y'[j]))
    decreases |mcu| - i
  {
    hide Next, Length, BlockItems, DecodeBlock, Pass.Refined, Pass.Ready, BlockFits;
    if i == |mcu| {
      NextNone(ts, d, at);
    } else {
      var (items, st1) := BlockItems(sc, st, sc.membership[i], mcu[i]);
      var rest := McuItems(sc, st1, mcu, i + 1).0;
      NextConcat(ts, d, at, items, rest);
      SimpleDecodes(sc, ts, d, st, at, i, mcu[i], y[i]);
      var y1 := DecodeBlock(sc, ts, d, DecState(at, st.preds, 0), i, y[i]).1;
      SimpleMcuDecodes(sc, ts, d, st1, at + Length(ts, items), mcu, y[i := y1], i + 1);
    }
  }

  lemma {:induction false} SimpleSegDecodes(sc: HScan, ts: Tables, d: seq<bit>, st: EncState, at: nat, mcus: seq<Mcu>,
    ys: seq<Mcu>)
    requires sc.Valid() && ts.Valid() && Simple(sc) && sc.Full() && AllFit(sc, mcus) && AllFit(sc, ys)
    requires SegCodable(sc, st, mcus) && Next(ts, d, at, SegItems(sc, st, mcus)) && AllReady(sc.pass, mcus, ys)
    ensures var (ds, ys') := DecodeMcus(sc, ts, d, DecState(at, st.preds, 0), ys);
            ds.at == at + Length(ts, SegItems(sc, st, mcus)) && ds.run == 0 && AllRefined(sc.pass, mcus, ys, ys')
    decreases |mcus|
  {
    hide Next, Length, McuItems, DecodeMcu, McuReady, McuCodable;
    if mcus == [] {
      NextNone(ts, d, at);
    } else {
      var (items, st1) := McuItems(sc, st, mcus[0], 0);
      NextConcat(ts, d, at, items, SegItems(sc, st1, mcus[1..]));
      assert McuReady(sc.pass, mcus[0], ys[0]);
      ReadyBlocks(sc.pass, mcus[0], ys[0]);
      SimpleMcuDecodes(sc, ts, d, st, at, mcus[0], ys[0], 0);
      assert forall i :: 0 <= i < |mcus| - 1 ==> mcus[1..][i] == mcus[i + 1] && ys[1..][i] == ys[i + 1];
      SimpleSegDecodes(sc, ts, d, st1, at + Length(ts, items), mcus[1..], ys[1..]);
    }
  }

  lemma ReadyBlocks(p: Pass, mcu: Mcu, y: Mcu)
    requires McuReady(p, mcu, y)
    ensures |y| == |mcu| && forall i :: 0 <= i < |mcu| ==> p.Ready(mcu[i], y[i])
  {
  }

  // ----- decoding undoes coding: AC modes

  predicate Ac(sc: HScan)
  {
    sc.pass.mode.AcFirstPass? || sc.pass.mode.AcRefinePass?
  }

  /** The single blocks of the MCUs, transformed. */
  function Bands(sc: HScan, mcus: seq<Mcu>): (b: seq<seq<int>>)
    requires forall i :: 0 <= i < |mcus| ==> |mcus[i]| == 1
    ensures |b| == |mcus| && forall i :: 0 <= i < |mcus| ==> b[i] == Transformed(mcus[i][0], sc.pass.al)
  {
    seq(|mcus|, i requires 0 <= i < |mcus| => Transformed(mcus[i][0], sc.pass.al))
  }

  function Singles(mcus: seq<Mcu>): (b: seq<Block>)
    requires forall i :: 0 <= i < |mcus| ==> |mcus[i]| == 1
    ensures |b| == |mcus| && forall i :: 0 <= i < |mcus| ==> b[i] == mcus[i][0]
  {
    seq(|mcus|, i requires 0 <= i < |mcus| => mcus[i][0])
  }

  lemma OneBlock(sc: HScan, st: EncState, mcu: Mcu)
    requires sc.Valid() && Ac(sc) && Fits(sc, mcu)
    ensures McuItems(sc, st, mcu, 0) == BlockItems(sc, st, 0, mcu[0])
    ensures McuCodable(sc, st, mcu, 0) == BlockFits(sc, st, 0, mcu[0])
  {
    var (items, st1) := BlockItems(sc, st, 0, mcu[0]);
    hide BlockItems, BlockFits;
    assert McuItems(sc, st1, mcu, 1) == ([], st1);
    assert items + [] == items;
  }

  /** The items of a segment are those of its bands. */
  lemma {:induction false} SegIsBands(sc: HScan, st: EncState, mcus: seq<Mcu>)
    requires sc.Valid() && Ac(sc) && AllFit(sc, mcus)
    ensures SegItems(sc, st, mcus) ==
      if sc.pass.mode.AcFirstPass? then FirstItems(sc.acTbl[0], Bands(sc, mcus), sc.pass.ss, sc.pass.se, st.e)
      else RefItems(sc.acTbl[0], Bands(sc, mcus), sc.pass.ss, sc.pass.se, st.e, st.corr)
    decreases |mcus|
  {
    hide FirstBlock, RefBlock, McuItems;
    if mcus != [] {
      OneBlock(sc, st, mcus[0]);
      var st1 := BlockItems(sc, st, 0, mcus[0][0]).1;
      SegIsBands(sc, st1, mcus[1..]);
      assert Bands(sc, mcus)[1..] == Bands(sc, mcus[1..]);
    }
  }

  /** Codable segments have small coefficients. */
  lemma {:induction false} CodableBands(sc: HScan, st: EncState, mcus: seq<Mcu>)
    requires sc.Valid() && sc.pass.mode.AcFirstPass? && AllFit(sc, mcus) && SegCodable(sc, st, mcus)
    ensures AllFirstFit(Bands(sc, mcus), sc.pass.ss, sc.pass.se, sc.pass.al)
    decreases |mcus|
  {
    hide McuItems, McuCodable, FirstFits;
    if mcus != [] {
      OneBlock(sc, st, mcus[0]);
      CodableBands(sc, McuItems(sc, st, mcus[0], 0).1, mcus[1..]);
      BandFits(sc, st, mcus[0][0]);
      forall i | 0 <= i < |mcus|
        ensures FirstFits(Bands(sc, mcus)[i], sc.pass.ss, sc.pass.se, sc.pass.al)
      {
        if i > 0 {
          assert Bands(sc, mcus[1..])[i - 1] == Bands(sc, mcus)[i];
        }
      }
    }
  }

  lemma BandFits(sc: HScan, st: EncState, z: Block)
    requires sc.Valid() && sc.pass.mode.AcFirstPass? && BlockFits(sc, st, 0, z)
    ensures FirstFits(Transformed(z, sc.pass.al), sc.pass.ss, sc.pass.se, sc.pass.al)
  {
    var t := Transformed(z, sc.pass.al);
    hide NBits;
    forall j | sc.pass.ss <= j <= sc.pass.se
      ensures -0x8000 <= t[j] * Pow2(sc.pass.al) < 0x8000
    {
      TransformSmall(z[j], sc.pass.al);
    }
  }

  lemma OneBlockDecoded(sc: HScan, ts: Tables, d: seq<bit>, st: DecState, mcu: Mcu)
    requires sc.Valid() && ts.Valid() && Ac(sc) && Fits(sc, mcu)
    ensures var (st1, y) := DecodeBlock(sc, ts, d, st, 0, mcu[0]);
            DecodeMcu(sc, ts, d, st, mcu, 0) == (st1, [y])
  {
    var (st1, y) := DecodeBlock(sc, ts, d, st, 0, mcu[0]);
    hide DecodeBlock;
    assert mcu[0 := y] == [y];
    assert DecodeMcu(sc, ts, d, st1, [y], 1) == (st1, [y]);
  }

  /** Decoding MCUs is decoding bands. */
  lemma {:induction false} DecodesBands(sc: HScan, ts: Tables, d: seq<bit>, st: DecState, ys: seq<Mcu>)
    requires sc.Valid() && ts.Valid() && Ac(sc) && AllFit(sc, ys)
    ensures var (ds, ys') := DecodeMcus(sc, ts, d, st, ys);
            && (forall i :: 0 <= i < |ys'| ==> |ys'[i]| == 1)
            && (Singles(ys'), ds.at, ds.run) == (
                 if sc.pass.mode.AcFirstPass? then
                   DecodeFirsts(ts.ac[sc.acTbl[0]], d, st.at, st.run, Singles(ys), sc.pass.ss, sc.pass.se, sc.pass.al)
                 else
                   DecodeRefines(ts.ac[sc.acTbl[0]], d, st.at, st.run, Singles(ys), sc.pass.ss, sc.pass.se, sc.pass.al))
    decreases |ys|
  {
    hide DecodeFirst, DecodeRefine, DecodeMcu;
    if ys != [] {
      OneBlockDecoded(sc, ts, d, st, ys[0]);
      var (st1, y) := DecodeMcu(sc, ts, d, st, ys[0], 0);
      DecodesBands(sc, ts, d, st1, ys[1..]);
      assert Singles(ys)[1..] == Singles(ys[1..]);
      var rest := DecodeMcus(sc, ts, d, st1, ys[1..]).1;
      assert Singles([y] + rest) == [y[0]] + Singles(rest);
    }
  }

  lemma FirstSegDecodes(sc: HScan, ts: Tables, d: seq<bit>, at: nat, mcus: seq<Mcu>, ys: seq<Mcu>)
    requires sc.Valid() && ts.Valid() && sc.pass.mode.AcFirstPass? && AllFit(sc, mcus) && AllFit(sc, ys)
    requires SegCodable(sc, ENC0, mcus) && Next(ts, d, at, SegItems(sc, ENC0, mcus)) && AllReady(sc.pass, mcus, ys)
    ensures var (ds, ys') := DecodeMcus(sc, ts, d, DecState(at, NO_PREDS, 0), ys);
            ds.at == at + Length(ts, SegItems(sc, ENC0, mcus)) && ds.run == 0 && AllRefined(sc.pass, mcus, ys, ys')
  {
    hide Next, Length, SegItems, SegCodable, FirstItems, DecodeMcus, DecodeFirsts, AllFirstFit, AllScaled, Scaled,
      BandZero, AllReady, AllRefined;
    var p, tbl := sc.pass, sc.acTbl[0];
    var blocks := Bands(sc, mcus);
    SegIsBands(sc, ENC0, mcus);
    CodableBands(sc, ENC0, mcus);
    AllBandZero(sc, mcus, ys);
    FirstDecodes(ts, d, at, tbl, blocks, Singles(ys), p.ss, p.se, p.al, 0);
    DecodesBands(sc, ts, d, DecState(at, NO_PREDS, 0), ys);
    var ys' := DecodeMcus(sc, ts, d, DecState(at, NO_PREDS, 0), ys).1;
    ScaledRefined(sc, mcus, ys, ys');
  }

  lemma AllBandZero(sc: HScan, mcus: seq<Mcu>, ys: seq<Mcu>)
    requires sc.Valid() && sc.pass.mode.AcFirstPass? && AllFit(sc, mcus) && AllFit(sc, ys)
      && AllReady(sc.pass, mcus, ys)
    ensures |ys| == |mcus| && forall i :: 0 <= i < |ys| ==> BandZero(Singles(ys)[i], sc.pass.ss, sc.pass.se)
  {
    forall i | 0 <= i < |ys|
      ensures BandZero(Singles(ys)[i], sc.pass.ss, sc.pass.se)
    {
      assert McuReady(sc.pass, mcus[i], ys[i]);
      assert sc.pass.Ready(mcus[i][0], ys[i][0]);
    }
  }

  lemma ScaledRefined(sc: HScan, mcus: seq<Mcu>, ys: seq<Mcu>, ys': seq<Mcu>)
    requires sc.Valid() && sc.pass.mode.AcFirstPass? && AllFit(sc, mcus) && AllFit(sc, ys) && AllFit(sc, ys')
    requires AllScaled(Bands(sc, mcus), Singles(ys), Singles(ys'), sc.pass.ss, sc.pass.se, sc.pass.al)
    ensures AllRefined(sc.pass, mcus, ys, ys')
  {
    forall i | 0 <= i < |mcus|
      ensures McuRefined(sc.pass, mcus[i], ys[i], ys'[i])
    {
      assert Scaled(Bands(sc, mcus)[i], Singles(ys)[i], Singles(ys')[i], sc.pass.ss, sc.pass.se, sc.pass.al);
      hide Pow2, Transform;
      assert sc.pass.Refined(mcus[i][0], ys[i][0], ys'[i][0]);
    }
  }

  lemma RefSegDecodes(sc: HScan, ts: Tables, d: seq<bit>, at: nat, mcus: seq<Mcu>, ys: seq<Mcu>)
    requires sc.Valid() && ts.Valid() && sc.pass.mode.AcRefinePass? && AllFit(sc, mcus) && AllFit(sc, ys)
    requires Next(ts, d, at, SegItems(sc, ENC0, mcus)) && AllReady(sc.pass, mcus, ys)
    ensures var (ds, ys') := DecodeMcus(sc, ts, d, DecState(at, NO_PREDS, 0), ys);
            ds.at == at + Length(ts, SegItems(sc, ENC0, mcus)) && ds.run == 0 && AllRefined(sc.pass, mcus, ys, ys')
  {
    hide Next, Length, SegItems, RefItems, DecodeMcus, DecodeRefines, AllDone, BlocksRefinable, AllReady, AllRefined;
    var p, tbl := sc.pass, sc.acTbl[0];
    var blocks := Bands(sc, mcus);
    SegIsBands(sc, ENC0, mcus);
    BandsRefinable(sc, mcus, ys);
    RefDecodes(ts, d, at, tbl, blocks, Singles(ys), p.ss, p.se, p.al, 0, []);
    DecodesBands(sc, ts, d, DecState(at, NO_PREDS, 0), ys);
    var ys' := DecodeMcus(sc, ts, d, DecState(at, NO_PREDS, 0), ys).1;
    DoneRefined(sc, mcus, ys, ys');
  }

  lemma BandsRefinable(sc: HScan, mcus: seq<Mcu>, ys: seq<Mcu>)
    requires sc.Valid() && sc.pass.mode.AcRefinePass? && AllFit(sc, mcus) && AllFit(sc, ys)
      && AllReady(sc.pass, mcus, ys)
    ensures BlocksRefinable(Bands(sc, mcus), Singles(ys), sc.pass.ss, sc.pass.se, sc.pass.al)
  {
    forall i | 0 <= i < |mcus|
      ensures AllRefinable(Bands(sc, mcus)[i], Singles(ys)[i], sc.pass.ss, sc.pass.se, sc.pass.al)
    {
      assert McuReady(sc.pass, mcus[i], ys[i]);
      assert sc.pass.Ready(mcus[i][0], ys[i][0]);
      BandRefinable(sc.pass, mcus[i][0], ys[i][0]);
    }
  }

  lemma BandRefinable(p: Pass, z: Block, y: Block)
    requires p.Valid() && p.mode.AcRefinePass? && p.Ready(z, y)
    ensures AllRefinable(Transformed(z, p.al), y, p.ss, p.se, p.al)
  {
    hide Transform;
    forall k | p.ss <= k <= p.se
      ensures Refinable(Transformed(z, p.al)[k], y[k], p.al)
    {
      TransformTwice(z[k], p.al);
      TransformSmall(z[k], p.al);
      assert Pow2(p.al + 1) == 2 * Pow2(p.al);
    }
  }

  lemma DoneRefined(sc: HScan, mcus: seq<Mcu>, ys: seq<Mcu>, ys': seq<Mcu>)
    requires sc.Valid() && sc.pass.mode.AcRefinePass? && AllFit(sc, mcus) && AllFit(sc, ys) && AllFit(sc, ys')
    requires AllDone(Bands(sc, mcus), Singles(ys), Singles(ys'), sc.pass.ss, sc.pass.se, sc.pass.al)
    ensures AllRefined(sc.pass, mcus, ys, ys')
  {
    forall i | 0 <= i < |mcus|
      ensures McuRefined(sc.pass, mcus[i], ys[i], ys'[i])
    {
      assert Done(Bands(sc, mcus)[i], Singles(ys)[i], Singles(ys')[i], sc.pass.ss, sc.pass.se + 1, sc.pass.al);
      hide Pow2, Transform;
      assert sc.pass.Refined(mcus[i][0], ys[i][0], ys'[i][0]);
    }
  }

  /** Whole restart intervals, in every mode. */
  lemma SegDecodes(sc: HScan, ts: Tables, d: seq<bit>, at: nat, mcus: seq<Mcu>, ys: seq<Mcu>)
    requires sc.Valid() && ts.Valid() && sc.Full() && AllFit(sc, mcus) && AllFit(sc, ys)
    requires SegCodable(sc, ENC0, mcus) && Next(ts, d, at, SegItems(sc, ENC0, mcus)) && AllReady(sc.pass, mcus, ys)
    ensures var (ds, ys') := DecodeMcus(sc, ts, d, DecState(at, NO_PREDS, 0), ys);
            ds.at == at + Length(ts, SegItems(sc, ENC0, mcus)) && ds.run == 0 && AllRefined(sc.pass, mcus, ys, ys')
  {
    hide Next, Length, SegItems, SegCodable, DecodeMcus, AllReady, AllRefined;
    if Simple(sc) {
      SimpleSegDecodes(sc, ts, d, ENC0, at, mcus, ys);
    } else if sc.pass.mode.AcFirstPass? {
      FirstSegDecodes(sc, ts, d, at, mcus, ys);
    } else {
      RefSegDecodes(sc, ts, d, at, mcus, ys);
    }
  }
}
