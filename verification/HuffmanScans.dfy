/** The encoder and the decoder put together: whole scans through both, with given tables or
    with tables made for the scan. */
module HuffmanScans {
  import opened JpegLib
  import opened Bytes
  import opened Blocks
  import opened Markers
  import opened Segments
  import opened BitStreams
  import opened CodeTable
  import opened HuffmanDecoding
  import opened HuffmanItems
  import opened HuffmanScan
  import opened HuffmanSegments
  import opened HuffmanStatistics
  import opened HuffmanAlphabets
  import opened HuffmanRestarts
  import opened HuffmanEncoding
  import opened HuffmanEntropyDecoding

  /** The intervals of a scan have MCUs of the right size. */
  lemma {:induction false} IntervalsFit(sc: HScan, ri: nat, zs: seq<Mcu>)
    requires AllFit(sc, zs)
    ensures forall i :: 0 <= i < |Intervals(zs, ri)| ==> AllFit(sc, Intervals(zs, ri)[i])
    decreases |zs|
  {
    if ri != 0 && |zs| > ri {
      IntervalsFit(sc, ri, zs[ri..]);
    }
  }

  /** No coefficient of the scan is too large to code. */
  ghost predicate ScanCodable(sc: HScan, ri: nat, zs: seq<Mcu>)
    requires sc.Valid() && AllFit(sc, zs)
  {
    IntervalsFit(sc, ri, zs);
    forall i :: 0 <= i < |Intervals(zs, ri)| ==> SegCodable(sc, ENC0, Intervals(zs, ri)[i])
  }

  /** All that is emitted for a scan. */
  function ScanItems(sc: HScan, ri: nat, zs: seq<Mcu>): seq<Item>
    requires sc.Valid() && AllFit(sc, zs)
  {
    IntervalsFit(sc, ri, zs);
    AllItems(sc, Intervals(zs, ri))
  }

  lemma {:induction false} PartsCodable(sc: HScan, ts: Tables, segs: seq<seq<Mcu>>)
    requires sc.Valid() && ts.Valid() && forall i :: 0 <= i < |segs| ==> AllFit(sc, segs[i])
    ensures AllCodable(ts, AllItems(sc, segs)) <==> forall i :: 0 <= i < |segs| ==>
      AllCodable(ts, SegItems(sc, ENC0, segs[i]))
    decreases |segs|
  {
    hide SegItems, AllCodable;
    if segs == [] {
      NothingCodable(ts);
    } else {
      var n := |segs| - 1;
      PartsCodable(sc, ts, segs[..n]);
      CodableConcat(ts, AllItems(sc, segs[..n]), SegItems(sc, ENC0, segs[n]));
      assert forall i :: 0 <= i < n ==> segs[..n][i] == segs[i];
    }
  }

  lemma NothingCodable(ts: Tables)
    requires ts.Valid()
    ensures AllCodable(ts, [])
  {
  }

  /** An MCU inside an interval that can be coded. */
  lemma InsideGoes(sc: HScan, ts: Tables, seg: seq<Mcu>, n: nat)
    requires sc.Valid() && ts.Valid() && AllFit(sc, seg) && n < |seg| && SegCodable(sc, ENC0, seg)
    ensures AllFit(sc, seg[..n]) && Fits(sc, seg[n]) && McuCodable(sc, Sent(sc, seg[..n]).1, seg[n], 0)
    ensures AllCodable(ts, SegItems(sc, ENC0, seg)) ==> AllCodable(ts, McuItems(sc, Sent(sc, seg[..n]).1, seg[n], 0).0)
  {
    hide McuItems, McuCodable, AllCodable, SegItems, SegCodable;
    assert seg == seg[..n] + [seg[n]] + seg[n + 1..];
    assert AllFit(sc, seg[..n + 1]) && AllFit(sc, seg[n + 1..]) && AllFit(sc, seg[..n]);
    assert seg[..n + 1] == seg[..n] + [seg[n]];
    assert seg == seg[..n + 1] + seg[n + 1..];
    SegSplit(sc, seg[..n + 1], seg[n + 1..]);
    SentSnoc(sc, seg[..n], seg[n]);
    var (items, st) := Sent(sc, seg[..n]);
    CodableConcat(ts, Sent(sc, seg[..n + 1]).0, SegItems(sc, Sent(sc, seg[..n + 1]).1, seg[n + 1..]));
    CodableConcat(ts, items, McuItems(sc, st, seg[n], 0).0);
  }

  /** The end of an interval that can be coded. */
  lemma EndGoes(sc: HScan, ts: Tables, seg: seq<Mcu>)
    requires sc.Valid() && ts.Valid() && AllFit(sc, seg) && AllCodable(ts, SegItems(sc, ENC0, seg))
    ensures AllCodable(ts, EndItems(sc, Sent(sc, seg).1))
  {
    hide AllCodable, SegItems, Sent, EndItems;
    SegEnds(sc, seg);
    CodableConcat(ts, Sent(sc, seg).0, EndItems(sc, Sent(sc, seg).1));
  }

  /** What the encoder has to meet in order not to fail. */
  ghost predicate Clear(enc: HuffEncoder, zs: seq<Mcu>)
    requires enc.sc.Valid() && enc.ts.Valid() && AllFit(enc.sc, zs)
    reads enc`sc, enc`ts, enc`gather, enc`restartInterval
  {
    ScanCodable(enc.sc, enc.restartInterval, zs) && (enc.gather
      || AllCodable(enc.ts, ScanItems(enc.sc, enc.restartInterval, zs)))
  }

  /** The record of the encoder after i MCUs. */
  lemma RecordIs(enc: HuffEncoder, zs: seq<Mcu>, i: nat)
    requires enc.Valid() && i <= |zs| && enc.Mcus() == zs[..i]
    ensures enc.segs + [enc.cur] == Intervals(zs[..i], enc.restartInterval)
    ensures enc.State() == Sent(enc.sc, enc.cur).1
  {
    hide SegCodable, Sent, SentOk, Record, AllItems, HuffEncoder.Logged, FullSegs, HScan.Valid;
    SegsCut(enc.sc, enc.restartInterval, enc.segs, enc.cur);
    CutIntervals(enc.segs + [enc.cur], enc.restartInterval);
  }

  /** If the whole scan can be coded the next MCU goes through. */
  lemma NextGoes(enc: HuffEncoder, zs: seq<Mcu>, i: nat)
    requires enc.Valid() && enc.ts.Valid() && i < |zs| && enc.Mcus() == zs[..i] && AllFit(enc.sc, zs) && Clear(enc, zs)
    ensures enc.Goes(zs[i])
  {
    hide SegCodable, SegItems, Sent, SentOk, Record, AllItems, FullSegs, Intervals, McuItems, McuCodable, AllCodable,
      EndItems, HuffEncoder.Logged;
    var sc, ts, ri := enc.sc, enc.ts, enc.restartInterval;
    RecordIs(enc, zs, i);
    IntervalsNext(zs, ri, i);
    IntervalsFit(sc, ri, zs);
    var b, n := Intervals(zs, ri), |enc.segs|;
    assert Intervals(zs[..i], ri)[n] == enc.cur;
    if !enc.gather {
      PartsCodable(sc, ts, b);
    }
    if enc.Due() {
      if !enc.gather {
        EndGoes(sc, ts, enc.cur);
      }
      InsideGoes(sc, ts, b[n + 1], 0);
      NothingSentYet(sc, b[n + 1]);
    } else {
      InsideGoes(sc, ts, b[n], |enc.cur|);
    }
  }

  lemma NothingSentYet(sc: HScan, seg: seq<Mcu>)
    requires sc.Valid()
    ensures AllFit(sc, seg[..0]) && Sent(sc, seg[..0]).1 == ENC0
  {
  }

  /** MCU number i. */
  method EncodeNext(enc: HuffEncoder, ghost zs: seq<Mcu>, ghost i: nat, mcu: Mcu) returns (ok: bool)
    requires enc.Valid() && ValidOrder(enc.order) && enc.sc.Valid() && enc.ts.Valid() && Fits(enc.sc, mcu)
      && AllFit(enc.sc, zs)
    requires i < |zs| && enc.Mcus() == zs[..i] && zs[i] == Zigzags(enc.order, mcu)
    modifies enc.writer, enc.dcCounts, enc.acCounts, enc.bitBuffer
    modifies enc`log, enc`lastDcVal, enc`eobrun, enc`be, enc`earlier, enc`segs, enc`cur, enc`ps, enc`restartsToGo,
      enc`nextRestartNum
    ensures old(enc.writer.out) <= enc.writer.out && (Clear(enc, zs) ==> ok)
    ensures ok ==> enc.Valid() && enc.Mcus() == zs[..i + 1]
  {
    hide HuffEncoder.Valid, HuffEncoder.Goes, Clear, HScan.Valid, ValidOrder, Zigzags;
    assert zs[..i + 1] == zs[..i] + [zs[i]];
    if Clear(enc, zs) {
      NextGoes(enc, zs, i);
    }
    ok := enc.EncodeMcu(mcu);
  }

  /** Codes MCU after MCU; does not fail if the whole scan can be coded. */
  method EncodeAll(enc: HuffEncoder, mcus: seq<Mcu>) returns (ok: bool)
    requires enc.Valid() && ValidOrder(enc.order) && enc.sc.Valid() && enc.ts.Valid() && enc.Mcus() == []
      && AllFit(enc.sc, mcus)
    requires AllFit(enc.sc, ZigzagAll(enc.order, mcus))
    modifies enc.writer, enc.dcCounts, enc.acCounts, enc.bitBuffer
    modifies enc`log, enc`lastDcVal, enc`eobrun, enc`be, enc`earlier, enc`segs, enc`cur, enc`ps, enc`restartsToGo,
      enc`nextRestartNum
    ensures old(enc.writer.out) <= enc.writer.out
    ensures Clear(enc, ZigzagAll(enc.order, mcus)) ==> ok
    ensures ok ==> enc.Valid() && enc.Mcus() == ZigzagAll(enc.order, mcus)
  {
    hide HuffEncoder.Valid, HuffEncoder.Mcus, Clear, HScan.Valid;
    ghost var zs := ZigzagAll(enc.order, mcus);
    for i := 0 to |mcus|
      invariant enc.Valid() && enc.Mcus() == zs[..i] && old(enc.writer.out) <= enc.writer.out
    {
      ok := EncodeNext(enc, zs, i, mcus[i]);
      if !ok {
        return;
      }
    }
    assert zs[..|mcus|] == zs;
    ok := true;
  }

  lemma ZigzagsFit(sc: HScan, order: seq<nat>, mcus: seq<Mcu>)
    requires ValidOrder(order) && AllFit(sc, mcus)
    ensures AllFit(sc, ZigzagAll(order, mcus))
  {
  }

  /** Tables that can be used, no coefficient too large, and a code for every symbol. */
  ghost predicate Encodable(sc: HScan, ri: nat, dc: seq<HuffTable>, ac: seq<HuffTable>, zs: seq<Mcu>)
    requires sc.Valid() && |dc| == |ac| == NUM_HUFF_TBLS && AllFit(sc, zs)
  {
    Usable(sc, dc, ac) && TablesOf(sc, dc, ac).Valid() && ScanCodable(sc, ri, zs)
      && AllCodable(TablesOf(sc, dc, ac), ScanItems(sc, ri, zs))
  }

  /** Encodes a scan with the given tables and ends it with the marker mk; fails exactly on
      tables that cannot be used, coefficients too large, and missing codes. */
  method EncodeScan(order: seq<nat>, sc: HScan, ri: nat, dc: seq<HuffTable>, ac: seq<HuffTable>, mcus: seq<Mcu>,
    mk: byte)
    returns (ok: bool, bytes: seq<byte>, ghost ps: seq<seq<byte>>)
    requires ValidOrder(order) && sc.Valid() && |dc| == |ac| == NUM_HUFF_TBLS && AllFit(sc, mcus)
    ensures AllFit(sc, ZigzagAll(order, mcus))
    ensures ok == Encodable(sc, ri, dc, ac, ZigzagAll(order, mcus))
    ensures ok ==> ps != [] && bytes == Join(ps, 0) + Ending(mk, [])
    ensures ok ==> AllCoded(sc, TablesOf(sc, dc, ac), Intervals(ZigzagAll(order, mcus), ri), ps)
  {
    hide HuffEncoder.Valid, HuffEncoder.Shape, Usable, TablesOf, ScanCodable, ScanItems, AllCodable, Join, SegCoded,
      Intervals, Cut, Flatten, EndItems;
    ghost var zs, ts := ZigzagAll(order, mcus), TablesOf(sc, dc, ac);
    ZigzagsFit(sc, order, mcus);
    bytes, ps := [], [];
    var enc := new HuffEncoder(order);
    ok := enc.StartPass(sc, ri, false, dc, ac);
    if !ok {
      return;
    }
    UsableValid(sc, dc, ac);
    ok := EncodeAll(enc, mcus);
    if !ok {
      return;
    }
    if Encodable(sc, ri, dc, ac, zs) {
      LastGoes(enc, zs);
    }
    ok := enc.FinishPass();
    if !ok {
      return;
    }
    CutIntervals(enc.segs, ri);
    ps := enc.ps;
    assert enc.writer.out[0..] == enc.writer.out;
    bytes := enc.writer.out + [0xFF, mk];
    CodedIsEncodable(sc, ri, dc, ac, zs, ps);
  }

  lemma LastGoes(enc: HuffEncoder, zs: seq<Mcu>)
    requires enc.Valid() && enc.ts.Valid() && enc.sc.Valid() && enc.Mcus() == zs && AllFit(enc.sc, zs) && Clear(enc, zs)
      && !enc.gather
    ensures AllCodable(enc.ts, EndItems(enc.sc, enc.State()))
  {
    hide SegCodable, SegItems, Sent, SentOk, Record, AllItems, FullSegs, Intervals, AllCodable, EndItems,
      HuffEncoder.Logged;
    var sc, ts, b := enc.sc, enc.ts, Intervals(zs, enc.restartInterval);
    assert zs[..|zs|] == zs;
    RecordIs(enc, zs, |zs|);
    IntervalsFit(sc, enc.restartInterval, zs);
    PartsCodable(sc, ts, b);
    assert b[|enc.segs|] == enc.cur;
    EndGoes(sc, ts, enc.cur);
  }

  lemma CodedIsEncodable(sc: HScan, ri: nat, dc: seq<HuffTable>, ac: seq<HuffTable>, zs: seq<Mcu>, ps: seq<seq<byte>>)
    requires sc.Valid() && |dc| == |ac| == NUM_HUFF_TBLS && AllFit(sc, zs) && Usable(sc, dc, ac)
      && TablesOf(sc, dc, ac).Valid()
    requires AllCoded(sc, TablesOf(sc, dc, ac), Intervals(zs, ri), ps)
    ensures Encodable(sc, ri, dc, ac, zs)
  {
    hide SegItems, SegCodable, Usable, TablesOf, AllCodable, Intervals, Padded;
    IntervalsFit(sc, ri, zs);
    var segs := Intervals(zs, ri);
    forall i | 0 <= i < |segs|
      ensures SegCodable(sc, ENC0, segs[i]) && AllCodable(TablesOf(sc, dc, ac), SegItems(sc, ENC0, segs[i]))
    {
      assert SegCoded(sc, TablesOf(sc, dc, ac), segs[i], ps[i]);
    }
    PartsCodable(sc, TablesOf(sc, dc, ac), segs);
  }

  /** Makes optimal tables for a scan; fails exactly on coefficients too large, if no code is
      too deep. */
  method GatherScan(order: seq<nat>, sc: HScan, ri: nat, dc: seq<HuffTable>, ac: seq<HuffTable>, mcus: seq<Mcu>)
    returns (ok: bool, dcMade: seq<HuffTable>, acMade: seq<HuffTable>)
    requires ValidOrder(order) && sc.Valid() && |dc| == |ac| == NUM_HUFF_TBLS && AllFit(sc, mcus)
    requires mcus != [] && AllInMcu(sc)
    requires AllFit(sc, ZigzagAll(order, mcus)) && Countable(sc, ScanItems(sc, ri, ZigzagAll(order, mcus)))
    ensures ok ==>
      |dcMade| == |acMade| == NUM_HUFF_TBLS && Gathered(sc, ScanItems(sc, ri, ZigzagAll(order, mcus)), dcMade, acMade)
    ensures ok ==>
      ScanCodable(sc, ri, ZigzagAll(order, mcus)) && AllSound(sc, ScanItems(sc, ri, ZigzagAll(order, mcus)))
    ensures !ok ==>
      !ScanCodable(sc, ri, ZigzagAll(order, mcus)) || SomeDeep(sc, ScanItems(sc, ri, ZigzagAll(order, mcus)))
  {
    hide HuffEncoder.Valid, HuffEncoder.Shape, ScanCodable, AllItems, SegItems, SegCodable, Intervals, Cut, Flatten,
      AllSound, Countable, EveryTableUsed, AllInMcu, Gathered, SomeDeep, AllFit;
    ghost var zs := ZigzagAll(order, mcus);
    dcMade, acMade := dc, ac;
    var enc := new HuffEncoder(order);
    ok := enc.StartPass(sc, ri, true, dc, ac);
    StartedValid(enc);
    ok := EncodeAll(enc, mcus);
    if !ok {
      return;
    }
    WholeRecord(enc, zs);
    ScanHas(sc, ri, zs);
    ok, dcMade, acMade := enc.FinishGathering(dc, ac);
    CutIntervals(enc.segs, ri);
    AllSegsCodable(sc, ri, zs);
  }

  /** A scan of at least one MCU sends a symbol of every table. */
  lemma ScanHas(sc: HScan, ri: nat, zs: seq<Mcu>)
    requires sc.Valid() && AllFit(sc, zs) && zs != [] && AllInMcu(sc)
    ensures EveryTableUsed(sc, ScanItems(sc, ri, zs))
  {
    hide AllItems, EveryTableUsed, AllInMcu;
    IntervalsFit(sc, ri, zs);
    LastInterval(zs, ri);
    AllHave(sc, Intervals(zs, ri));
  }

  lemma {:induction false} LastInterval<T>(xs: seq<T>, ri: nat)
    requires xs != []
    ensures var b := Intervals(xs, ri); b != [] && b[|b| - 1] != []
    decreases |xs|
  {
    if ri != 0 && |xs| > ri {
      LastInterval(xs[ri..], ri);
    }
  }

  lemma StartedValid(enc: HuffEncoder)
    requires enc.Valid()
    ensures enc.sc.Valid() && enc.ts.Valid()
  {
    hide HuffEncoder.Counted, HuffEncoder.Output;
  }

  lemma WholeRecord(enc: HuffEncoder, zs: seq<Mcu>)
    requires enc.Valid() && enc.sc.Valid() && enc.Mcus() == zs && AllFit(enc.sc, zs)
    ensures enc.sc.Valid() && AllFit(enc.sc, enc.cur) && forall i :: 0 <= i < |enc.segs| ==> AllFit(enc.sc, enc.segs[i])
    ensures AllItems(enc.sc, enc.segs) + SegItems(enc.sc, ENC0, enc.cur) == ScanItems(enc.sc, enc.restartInterval, zs)
  {
    hide SegCodable, Sent, SentOk, Record, AllItems, HuffEncoder.Logged, SegItems, Intervals;
    assert zs[..|zs|] == zs;
    RecordIs(enc, zs, |zs|);
    IntervalsFit(enc.sc, enc.restartInterval, zs);
    AllItemsSnoc(enc.sc, enc.segs, enc.cur);
  }

  lemma AllSegsCodable(sc: HScan, ri: nat, zs: seq<Mcu>)
    requires sc.Valid() && AllFit(sc, zs)
    requires forall i :: 0 <= i < |Intervals(zs, ri)| ==>
      AllFit(sc, Intervals(zs, ri)[i]) && SegCodable(sc, ENC0, Intervals(zs, ri)[i])
    ensures ScanCodable(sc, ri, zs)
  {
  }

  // ----- decoding

  /** Decodes a scan over blocks that hold ys so far. */
  method DecodeScan(order: seq<nat>, sc: HScan, ri: nat, dc: seq<HuffTable>, ac: seq<HuffTable>, src: seq<byte>,
    ys: seq<Mcu>)
    returns (ok: bool, r: seq<Mcu>, dec: HuffDecoder)
    requires ValidOrder(order) && sc.Valid() && |dc| == |ac| == NUM_HUFF_TBLS && AllFit(sc, ys)
    ensures ok == AllDecodable(sc, dc, ac) && fresh(dec) && fresh(dec.reader)
    ensures ok ==>
      |r| == |ys| && AllFit(sc, ZigzagAll(order, ys)) && TablesOf(sc, dc, ac).Valid() && dec.Valid() && dec.reader.src
      == src
    ensures ok ==>
      var (s, z) := NextMcus(src, sc, TablesOf(sc, dc, ac), ri, ScanStart(Input(0, 0), ri), ZigzagAll(order, ys));
                   ZigzagAll(order, r) == z && dec.Now() == s
  {
    hide NextMcus, NextMcu, HuffDecoder.Valid, AllDecodable, TablesOf;
    r := [];
    dec := new HuffDecoder(order, src);
    ok := dec.StartPass(sc, ri, dc, ac);
    if !ok {
      return;
    }
    ghost var ts, s0 := TablesOf(sc, dc, ac), ScanStart(Input(0, 0), ri);
    TablesValid(dec);
    NoMcus(src, sc, ts, ri, s0);
    for i := 0 to |ys|
      invariant dec.Valid() && dec.sc == sc && dec.ts == ts && dec.restartInterval == ri && dec.reader.src == src && |r|
        == i
      invariant fresh(dec) && fresh(dec.reader) && |dec.lastDcVal| == MAX_COMPS_IN_SCAN
      invariant AllFit(sc, ZigzagAll(order, ys[..i]))
      invariant NextMcus(src, sc, ts, ri, s0, ZigzagAll(order, ys[..i])) == (dec.Now(), ZigzagAll(order, r))
    {
      OneMore(src, sc, ts, ri, s0, ZigzagAll(order, ys[..i]), Zigzags(order, ys[i]));
      var mcu := DecodeOne(dec, ys[i]);
      assert ZigzagAll(order, ys[..i + 1]) == ZigzagAll(order, ys[..i]) + [Zigzags(order, ys[i])];
      assert ZigzagAll(order, r + [mcu]) == ZigzagAll(order, r) + [Zigzags(order, mcu)];
      r := r + [mcu];
    }
    assert ys[..|ys|] == ys;
  }

  lemma TablesValid(dec: HuffDecoder)
    requires dec.Valid()
    ensures dec.ts.Valid() && |dec.lastDcVal| == MAX_COMPS_IN_SCAN && dec.nextRestartNum < 8 && ValidOrder(dec.order)
      && dec.sc.Valid()
  {
  }

  lemma NoMcus(src: seq<byte>, sc: HScan, ts: Tables, ri: nat, s: Scanning)
    requires sc.Valid() && ts.Valid() && s.next < 8
    ensures NextMcus(src, sc, ts, ri, s, []) == (s, [])
  {
  }

  /** One MCU over blocks that hold y so far. */
  method DecodeOne(dec: HuffDecoder, y: Mcu) returns (mcu: Mcu)
    requires dec.Valid() && Fits(dec.sc, y)
    modifies dec.reader, dec`lastDcVal, dec`eobrun, dec`restartsToGo, dec`nextRestartNum, dec`extraneous, dec`resyncs,
      dec`start, dec`clean
    ensures dec.Valid() && dec.reader.src == old(dec.reader.src) && ValidOrder(dec.order) && dec.sc.Valid()
      && dec.ts.Valid()
    ensures |dec.lastDcVal| == MAX_COMPS_IN_SCAN && old(|dec.lastDcVal|) == MAX_COMPS_IN_SCAN
      && old(dec.nextRestartNum) < 8
    ensures (dec.Now(), Zigzags(dec.order, mcu))
      == NextMcu(dec.reader.src, dec.sc, dec.ts, dec.restartInterval, old(dec.Now()), Zigzags(dec.order, y))
  {
    TablesValid(dec);
    hide NextMcu, HuffDecoder.Valid, HScan.Valid;
    var blocks := Allocate(y);
    assert Contents(dec.order, blocks) == Zigzags(dec.order, y);
    dec.DecodeNextMcu(blocks);
    TablesValid(dec);
    mcu := Collect(blocks);
    assert Zigzags(dec.order, mcu) == Contents(dec.order, blocks);
  }

  lemma OneMore(src: seq<byte>, sc: HScan, ts: Tables, ri: nat, s: Scanning, zs: seq<Mcu>, z: Mcu)
    requires sc.Valid() && ts.Valid() && s.next < 8 && AllFit(sc, zs) && Fits(sc, z)
    ensures AllFit(sc, zs + [z])
    ensures var (s1, x1) := NextMcus(src, sc, ts, ri, s, zs);
            var (s2, y2) := NextMcu(src, sc, ts, ri, s1, z);
            NextMcus(src, sc, ts, ri, s, zs + [z]) == (s2, x1 + [y2])
  {
    hide NextMcu;
    NextMcusConcat(src, sc, ts, ri, s, zs, [z]);
    var s1 := NextMcus(src, sc, ts, ri, s, zs).0;
    assert [z][1..] == [];
    var (s2, y2) := NextMcu(src, sc, ts, ri, s1, z);
    NoMcus(src, sc, ts, ri, s2);
    assert NextMcus(src, sc, ts, ri, s1, [z]) == (s2, [y2] + []);
    assert [y2] + [] == [y2];
  }

  // ----- round trips

  lemma UsableDecodable(sc: HScan, dc: seq<HuffTable>, ac: seq<HuffTable>)
    requires |dc| == |ac| == NUM_HUFF_TBLS && Usable(sc, dc, ac)
    ensures AllDecodable(sc, dc, ac)
  {
    hide CountsOk;
    forall i | 0 <= i < NUM_HUFF_TBLS
      ensures (sc.UsesDc(i) ==> Decodable(dc[i], true)) && (sc.UsesAc(i) ==> Decodable(ac[i], false))
    {
      assert (sc.UsesDc(i) ==> TableUsable(dc[i], true)) && (sc.UsesAc(i) ==> TableUsable(ac[i], false));
    }
  }

  /** What is decoded is what was encoded: for every scan, restart interval, MCU sequence
      and following marker, whatever the encoder accepts decodes to the blocks refined by
      exactly this scan, from all the data and without running out of them, skipping bytes
      or resynchronising. */
  method RoundTrip(order: seq<nat>, sc: HScan, ri: nat, dc: seq<HuffTable>, ac: seq<HuffTable>, mcus: seq<Mcu>,
    mk: byte, ys: seq<Mcu>)
    returns (ok: bool, r: seq<Mcu>, dec: HuffDecoder?)
    requires ValidOrder(order) && sc.Valid() && sc.Full() && |dc| == |ac| == NUM_HUFF_TBLS && IsMarker(mk)
    requires AllFit(sc, mcus) && AllFit(sc, ys) && AllReady(sc.pass, ZigzagAll(order, mcus), ZigzagAll(order, ys))
    ensures AllFit(sc, ZigzagAll(order, mcus)) && ok == Encodable(sc, ri, dc, ac, ZigzagAll(order, mcus))
    ensures ok ==> AllRefined(sc.pass, ZigzagAll(order, mcus), ZigzagAll(order, ys), ZigzagAll(order, r))
    ensures ok ==> dec != null && !dec.reader.insufficientData && dec.extraneous == 0 && dec.resyncs == 0
  {
    hide NextMcus, Join, AllRefined, AllReady, Cut, SegCoded, Encodable, AllDecodable, TablesOf, HuffDecoder.Valid,
      HScan.Valid, HScan.Full, Intervals;
    ghost var zs, ts := ZigzagAll(order, mcus), TablesOf(sc, dc, ac);
    r, dec := [], null;
    var bytes;
    ghost var ps;
    ok, bytes, ps := EncodeScan(order, sc, ri, dc, ac, mcus, mk);
    if !ok {
      return;
    }
    EncodableParts(sc, ri, dc, ac, zs);
    assert bytes[0..] == bytes;
    IntervalsOf(zs, ri);
    var ok', d;
    ok', r, d := DecodeScan(order, sc, ri, dc, ac, bytes, ys);
    dec := d;
    ScanDecodes(bytes, sc, ts, ri, ScanStart(Input(0, 0), ri), Intervals(zs, ri), ZigzagAll(order, ys), ps, mk, []);
    TablesValid(d);
    AllWell(d);
  }

  lemma EncodableParts(sc: HScan, ri: nat, dc: seq<HuffTable>, ac: seq<HuffTable>, zs: seq<Mcu>)
    requires sc.Valid() && |dc| == |ac| == NUM_HUFF_TBLS && AllFit(sc, zs) && Encodable(sc, ri, dc, ac, zs)
    ensures AllDecodable(sc, dc, ac) && TablesOf(sc, dc, ac).Valid()
  {
    UsableDecodable(sc, dc, ac);
  }

  lemma AllWell(dec: HuffDecoder)
    requires dec.Valid() && |dec.lastDcVal| == MAX_COMPS_IN_SCAN && dec.Now().clean && dec.Now().UsedUp(dec.reader.src)
    ensures !dec.reader.insufficientData && dec.extraneous == 0 && dec.resyncs == 0
  {
  }

  /** With tables made for the scan, encoding cannot fail: if no coefficient is too large
      and no code too deep, the second pass meets a code for every symbol, and its output
      decodes. */
  method OptimizedRoundTrip(order: seq<nat>, sc: HScan, ri: nat, dc: seq<HuffTable>, ac: seq<HuffTable>, mcus: seq<Mcu>,
    mk: byte, ys: seq<Mcu>)
    returns (ok: bool, r: seq<Mcu>, dec: HuffDecoder?)
    requires ValidOrder(order) && sc.Valid() && sc.Full() && |dc| == |ac| == NUM_HUFF_TBLS && IsMarker(mk)
    requires AllFit(sc, mcus) && AllFit(sc, ys) && AllReady(sc.pass, ZigzagAll(order, mcus), ZigzagAll(order, ys))
    requires mcus != [] && AllInMcu(sc)
    requires AllFit(sc, ZigzagAll(order, mcus)) && Countable(sc, ScanItems(sc, ri, ZigzagAll(order, mcus)))
    ensures ScanCodable(sc, ri, ZigzagAll(order, mcus)) && !SomeDeep(sc, ScanItems(sc, ri, ZigzagAll(order, mcus))) ==>
      ok
    ensures ok ==> AllRefined(sc.pass, ZigzagAll(order, mcus), ZigzagAll(order, ys), ZigzagAll(order, r))
    ensures ok ==> dec != null && !dec.reader.insufficientData && dec.extraneous == 0 && dec.resyncs == 0
  {
    hide AllRefined, AllReady, Countable, AllInMcu, Gathered, SomeDeep, ScanCodable, ScanItems, HScan.Valid, HScan.Full,
      AllSound, AllCodable, Usable, TablesOf;
    r, dec := [], null;
    var dcMade, acMade;
    ok, dcMade, acMade := GatherScan(order, sc, ri, dc, ac, mcus);
    if ok {
      TablesCover(sc, ScanItems(sc, ri, ZigzagAll(order, mcus)), dcMade, acMade);
      ok, r, dec := RoundTrip(order, sc, ri, dcMade, acMade, mcus, mk, ys);
    }
  }
}
