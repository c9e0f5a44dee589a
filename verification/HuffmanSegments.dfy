/** Restart intervals of a Huffman-coded scan as the encoder meets them: MCU by MCU, then
    their bytes. */
module HuffmanSegments {
  import opened JpegLib
  import opened Bytes
  import opened Blocks
  import opened Markers
  import opened Segments
  import opened BitStreams
  import opened BitWriting
  import opened CodeTable
  import opened HuffmanItems
  import opened HuffmanBlocks
  import opened HuffmanFirst
  import opened HuffmanRefine
  import opened HuffmanScan

  /** The items sent so far of a restart interval, and the state. */
  function Sent(sc: HScan, mcus: seq<Mcu>): (seq<Item>, EncState)
    requires sc.Valid() && AllFit(sc, mcus)
  {
    if mcus == [] then ([], ENC0)
    else
      var n := |mcus| - 1;
      var (items, st) := Sent(sc, mcus[..n]);
      var (more, st1) := McuItems(sc, st, mcus[n], 0);
      (items + more, st1)
  }

  ghost predicate SentOk(sc: HScan, mcus: seq<Mcu>)
    requires sc.Valid() && AllFit(sc, mcus)
  {
    mcus == [] || (SentOk(sc, mcus[..|mcus| - 1]) && McuCodable(sc, Sent(sc, mcus[..|mcus| - 1]).1, mcus[|mcus| - 1],
      0))
  }

  lemma SentSnoc(sc: HScan, mcus: seq<Mcu>, mcu: Mcu)
    requires sc.Valid() && AllFit(sc, mcus) && Fits(sc, mcu)
    ensures AllFit(sc, mcus + [mcu])
    ensures var (items, st) := Sent(sc, mcus);
            var (more, st1) := McuItems(sc, st, mcu, 0);
            && Sent(sc, mcus + [mcu]) == (items + more, st1)
            && SentOk(sc, mcus + [mcu]) == (SentOk(sc, mcus) && McuCodable(sc, st, mcu, 0))
  {
    hide McuItems, McuCodable;
    assert (mcus + [mcu])[..|mcus|] == mcus;
  }

  lemma {:induction false} SegSplit(sc: HScan, xs: seq<Mcu>, ys: seq<Mcu>)
    requires sc.Valid() && AllFit(sc, xs) && AllFit(sc, ys)
    ensures AllFit(sc, xs + ys)
    ensures SegItems(sc, ENC0, xs + ys) == Sent(sc, xs).0 + SegItems(sc, Sent(sc, xs).1, ys)
    ensures SegCodable(sc, ENC0, xs + ys) == (SentOk(sc, xs) && SegCodable(sc, Sent(sc, xs).1, ys))
    decreases |xs|
  {
    hide McuItems, McuCodable, EndItems;
    if xs == [] {
      assert xs + ys == ys && [] + SegItems(sc, ENC0, ys) == SegItems(sc, ENC0, ys);
    } else {
      var n := |xs| - 1;
      var x := xs[n];
      var zs := [x] + ys;
      SegSplit(sc, xs[..n], zs);
      assert xs[..n] + zs == xs + ys && zs[0] == x && zs[1..] == ys;
      var (items, st) := Sent(sc, xs[..n]);
      var (more, st1) := McuItems(sc, st, x, 0);
      Regroup(items, more, SegItems(sc, st1, ys));
    }
  }

  lemma Regroup(a: seq<Item>, b: seq<Item>, c: seq<Item>)
    ensures a + (b + c) == (a + b) + c
  {
  }

  /** At the end of an interval the pending run is sent. */
  lemma SegEnds(sc: HScan, mcus: seq<Mcu>)
    requires sc.Valid() && AllFit(sc, mcus)
    ensures SegItems(sc, ENC0, mcus) == Sent(sc, mcus).0 + EndItems(sc, Sent(sc, mcus).1)
    ensures SegCodable(sc, ENC0, mcus) == SentOk(sc, mcus)
  {
    hide EndItems;
    SegSplit(sc, mcus, []);
    assert mcus + [] == mcus;
  }

  /** Predictions outside the scan, and all in scans that code no DC coefficients, are left
      alone. */
  ghost predicate Untouched(sc: HScan, a: Preds, b: Preds)
  {
    forall j :: 0 <= j < MAX_COMPS_IN_SCAN && (j >= |sc.dcTbl| || !sc.pass.CodesDc()) ==> a[j] == b[j]
  }

  lemma BlockPredsKept(sc: HScan, st: EncState, ci: nat, z: Block)
    requires sc.Valid() && ci < |sc.dcTbl|
    ensures Untouched(sc, st.preds, BlockItems(sc, st, ci, z).1.preds)
  {
    hide DcItems, AcItems, FirstBlock, RefBlock, Shift;
  }

  lemma {:induction false} McuPredsKept(sc: HScan, st: EncState, mcu: Mcu, i: nat)
    requires sc.Valid() && Fits(sc, mcu) && i <= |mcu|
    ensures Untouched(sc, st.preds, McuItems(sc, st, mcu, i).1.preds)
    decreases |mcu| - i
  {
    hide BlockItems;
    if i < |mcu| {
      var st1 := BlockItems(sc, st, sc.membership[i], mcu[i]).1;
      BlockPredsKept(sc, st, sc.membership[i], mcu[i]);
      McuPredsKept(sc, st1, mcu, i + 1);
    }
  }

  lemma {:induction false} SentPredsKept(sc: HScan, mcus: seq<Mcu>)
    requires sc.Valid() && AllFit(sc, mcus)
    ensures Untouched(sc, NO_PREDS, Sent(sc, mcus).1.preds)
  {
    hide McuItems;
    if mcus != [] {
      var n := |mcus| - 1;
      SentPredsKept(sc, mcus[..n]);
      McuPredsKept(sc, Sent(sc, mcus[..n]).1, mcus[n], 0);
    }
  }

  /** The items of complete restart intervals. */
  function AllItems(sc: HScan, segs: seq<seq<Mcu>>): seq<Item>
    requires sc.Valid() && forall i :: 0 <= i < |segs| ==> AllFit(sc, segs[i])
  {
    if segs == [] then [] else AllItems(sc, segs[..|segs| - 1]) + SegItems(sc, ENC0, segs[|segs| - 1])
  }

  lemma AllItemsSnoc(sc: HScan, segs: seq<seq<Mcu>>, seg: seq<Mcu>)
    requires sc.Valid() && AllFit(sc, seg) && forall i :: 0 <= i < |segs| ==> AllFit(sc, segs[i])
    ensures AllItems(sc, segs + [seg]) == AllItems(sc, segs) + SegItems(sc, ENC0, seg)
  {
    hide SegItems;
    assert (segs + [seg])[..|segs|] == segs;
  }

  // ----- items of a scan

  /** A symbol of a table the scan uses and of its alphabet, or a value that fits its bits. */
  predicate Sound(sc: HScan, i: Item)
  {
    match i
    case DcSym(tbl, sym) => sc.UsesDc(tbl) && sym <= 15
    case AcSym(tbl, sym) => sc.UsesAc(tbl) && sym < MAX_SYMBOLS && sym % 16 <= MAX_COEF_BITS
    case Raw(v, n) => v < Pow2(n)
  }

  ghost predicate AllSound(sc: HScan, items: seq<Item>)
  {
    forall i :: 0 <= i < |items| ==> Sound(sc, items[i])
  }

  lemma SoundSnoc(sc: HScan, items: seq<Item>, x: Item)
    ensures AllSound(sc, items + [x]) <==> AllSound(sc, items) && Sound(sc, x)
  {
    hide Sound;
    assert (items + [x])[|items|] == x;
    assert forall i :: 0 <= i < |items| ==> (items + [x])[i] == items[i];
  }

  lemma {:induction false} SoundBits(sc: HScan, items: seq<Item>, b: seq<bit>)
    ensures AllSound(sc, items + RawBits(b)) <==> AllSound(sc, items)
    decreases |b|
  {
    if b == [] {
      assert items + RawBits(b) == items;
    } else {
      var n := |b| - 1;
      SoundBits(sc, items, b[..n]);
      SoundSnoc(sc, items + RawBits(b[..n]), Raw(b[n], 1));
      assert Pow2(1) == 2;
      assert items + RawBits(b) == (items + RawBits(b[..n])) + [Raw(b[n], 1)];
    }
  }

  /** A table without codes. */
  function NoTable(): HuffTable
  {
    Table(seq(MAX_LENGTH + 1, _ => 0), seq(MAX_SYMBOLS, _ => 0))
  }

  lemma {:induction false} NoSizes(l: nat)
    requires l <= MAX_LENGTH
    ensures SizesTo(NoTable(), l) == []
  {
    if l > 0 {
      NoSizes(l - 1);
    }
  }

  lemma NoTableEmpty()
    ensures CountsOk(NoTable()) && Sizes(NoTable()) == []
  {
    NoSizes(MAX_LENGTH);
    assert Area(Sizes(NoTable()), 0) == 0;
  }

  /** The tables with the given numbers, and otherwise none. */
  function Selected(tables: seq<HuffTable>, used: seq<nat>): (t: seq<HuffTable>)
    requires |tables| == NUM_HUFF_TBLS
    ensures |t| == NUM_HUFF_TBLS
    ensures forall i :: 0 <= i < NUM_HUFF_TBLS ==> t[i] == if i in used then tables[i] else NoTable()
  {
    seq(NUM_HUFF_TBLS, i requires 0 <= i < NUM_HUFF_TBLS => if i in used then tables[i] else NoTable())
  }

  /** Those of the tables defined that the scan uses. */
  function TablesOf(sc: HScan, dc: seq<HuffTable>, ac: seq<HuffTable>): Tables
    requires |dc| == |ac| == NUM_HUFF_TBLS
  {
    Tables(Selected(dc, if sc.pass.CodesDc() then sc.dcTbl else []),
      Selected(ac, if sc.pass.CodesAc() then sc.acTbl else []))
  }

  predicate TableUsable(t: HuffTable, isDC: bool)
  {
    CountsOk(t) && SymbolsOk(t, isDC)
  }

  /** The derived table is that of a valid table. */
  ghost predicate DerivedFor(c: CTable, t: HuffTable)
  {
    CountsOk(t) && Encodes(c, t)
  }

  ghost predicate Usable(sc: HScan, dc: seq<HuffTable>, ac: seq<HuffTable>)
    requires |dc| == |ac| == NUM_HUFF_TBLS
  {
    forall i :: 0 <= i < NUM_HUFF_TBLS ==>
      (sc.UsesDc(i) ==> TableUsable(dc[i], true)) && (sc.UsesAc(i) ==> TableUsable(ac[i], false))
  }

  // ----- intervals that can be coded, and their bytes

  /** Full restart intervals without coefficients too large to code. */
  ghost predicate FullSegs(sc: HScan, ri: nat, segs: seq<seq<Mcu>>)
    requires sc.Valid()
  {
    && (forall i :: 0 <= i < |segs| ==> AllFit(sc, segs[i]) && SegCodable(sc, ENC0, segs[i]) && |segs[i]| == ri)
    && (ri == 0 ==> segs == [])
  }

  /** The bytes of a segment: bits, filled up with ones. */
  ghost predicate Padded(p: seq<byte>, b: seq<bit>)
  {
    exists pad :: 0 <= pad < 8 && ByteBits(p) == b + Ones(pad)
  }

  ghost predicate SegCoded(sc: HScan, ts: Tables, mcus: seq<Mcu>, p: seq<byte>)
    requires sc.Valid() && ts.Valid()
  {
    && AllFit(sc, mcus) && SegCodable(sc, ENC0, mcus)
    && AllCodable(ts, SegItems(sc, ENC0, mcus)) && Padded(p, Bits(ts, SegItems(sc, ENC0, mcus)))
  }

  /** The complete intervals are coded by the segments output from index `from`, one marker
      behind each. */
  ghost predicate Record(sc: HScan, ts: Tables, out: seq<byte>, from: nat, start: nat, segs: seq<seq<Mcu>>,
    ps: seq<seq<byte>>)
  {
    && sc.Valid() && ts.Valid() && |segs| == |ps| && from <= start <= |out| && out[from..start] == Chain(ps)
    && forall i :: 0 <= i < |segs| ==> SegCoded(sc, ts, segs[i], ps[i])
  }

  lemma RecordLengths(sc: HScan, ts: Tables, out: seq<byte>, from: nat, start: nat, segs: seq<seq<Mcu>>,
    ps: seq<seq<byte>>)
    requires Record(sc, ts, out, from, start, segs, ps)
    ensures |segs| == |ps| && from <= start <= |out|
  {
  }

  lemma RecordStart(sc: HScan, ts: Tables, out: seq<byte>)
    requires sc.Valid() && ts.Valid()
    ensures Record(sc, ts, out, |out|, |out|, [], [])
  {
  }

  lemma RecordPrefix(sc: HScan, ts: Tables, out: seq<byte>, out': seq<byte>, from: nat, start: nat, segs: seq<seq<Mcu>>,
    ps: seq<seq<byte>>)
    requires Record(sc, ts, out, from, start, segs, ps) && out <= out'
    ensures Record(sc, ts, out', from, start, segs, ps)
  {
    hide SegCoded, Chain;
    assert out'[from..start] == out[from..start];
  }

  /** A finished segment and its marker extend the record. */
  lemma RecordGrows(sc: HScan, ts: Tables, out: seq<byte>, from: nat, start: nat, segs: seq<seq<Mcu>>,
    ps: seq<seq<byte>>, cur: seq<Mcu>, p: seq<byte>)
    requires Record(sc, ts, out, from, start, segs, ps) && SegCoded(sc, ts, cur, p) && Written(out, start, p)
    ensures var o := out + [0xFF] + [M_RST0 + |ps| % 8];
            Record(sc, ts, o, from, |o|, segs + [cur], ps + [p])
  {
    hide SegCoded, Chain;
    ChainGrows(out, from, start, ps, p);
    var o := out + [0xFF] + [M_RST0 + |ps| % 8];
    assert o[from..|o|] == o[from..];
  }

  /** The last segment completes the scan. */
  lemma RecordEnds(sc: HScan, ts: Tables, out: seq<byte>, from: nat, start: nat, segs: seq<seq<Mcu>>,
    ps: seq<seq<byte>>, cur: seq<Mcu>, p: seq<byte>)
    requires Record(sc, ts, out, from, start, segs, ps) && SegCoded(sc, ts, cur, p) && Written(out, start, p)
    ensures out[from..] == Join(ps + [p], 0) && |segs| == |ps|
    ensures forall i :: 0 <= i < |segs| + 1 ==> SegCoded(sc, ts, (segs + [cur])[i], (ps + [p])[i])
  {
    hide SegCoded, Chain, Join;
    ChainJoins(ps, p);
    assert out[from..] == out[from..start] + out[start..];
  }

  lemma SegsCut(sc: HScan, ri: nat, segs: seq<seq<Mcu>>, cur: seq<Mcu>)
    requires sc.Valid() && FullSegs(sc, ri, segs) && (ri != 0 ==> |cur| <= ri) && (segs != [] ==> cur != [])
    ensures Cut(segs + [cur], ri) && Flatten(segs + [cur]) == Flatten(segs) + cur
  {
    hide SegCodable, AllFit, Flatten;
    FlattenSnoc(segs, cur);
    LastCut(segs, ri, cur);
  }
}
