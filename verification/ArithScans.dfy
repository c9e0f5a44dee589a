/** The two objects put together: a scan encoded by one and decoded by the other. */
module ArithScans {
  import opened JpegLib
  import opened Arithmetic
  import opened Blocks
  import opened Bytes
  import opened Markers
  import opened Segments
  import opened ProbabilityTable
  import opened IntervalCoder
  import opened ArithDecoding
  import opened ArithRoundTrip
  import opened Coefficients
  import opened McuCoding
  import opened ScanCoding
  import opened Restarts
  import opened ArithEncoding
  import opened ArithEntropyEncoding
  import opened ArithEntropyDecoding

  /** Encodes a scan and ends it with the marker mk. */
  method EncodeScan(order: seq<nat>, sc: Scan, ri: nat, mcus: seq<Mcu>, mk: byte)
    returns (bytes: seq<byte>, ghost ps: seq<seq<byte>>, ghost ss: seq<Stats>)
    requires ValidOrder(order) && sc.Valid() && AllFit(sc, mcus)
    ensures ps != [] && bytes == Join(ps, 0) + Ending(mk, [])
    ensures var segs := Intervals(ZigzagAll(order, mcus), ri);
            && SegsFit(sc, segs) && |segs| == |ps| == |ss| && Cut(segs, ri) && Flatten(segs) == ZigzagAll(order, mcus)
            && forall i :: 0 <= i < |segs| ==> Codes(sc, ss[i], segs[i], ps[i])
  {
    hide ArithEntropyEncoder.Valid, ArithEncoder.Valid, Codes, Join, Cut, Flatten, Intervals;
    var enc := new ArithEntropyEncoder(order);
    enc.StartPass(sc, ri);
    for i := 0 to |mcus|
      invariant enc.Valid() && enc.sc == sc && enc.restartInterval == ri && enc.scanStart == 0
      invariant enc.Mcus() == ZigzagAll(order, mcus[..i])
    {
      enc.EncodeMcu(mcus[i]);
      assert ZigzagAll(order, mcus[..i + 1]) == ZigzagAll(order, mcus[..i]) + [Zigzags(order, mcus[i])];
    }
    assert mcus[..|mcus|] == mcus;
    enc.FinishPass();
    CutIntervals(enc.segs, ri);
    ps, ss := enc.ps, enc.ss;
    bytes := enc.coder.out;
    assert bytes[0..] == bytes;
    bytes := bytes + [0xFF, mk];
  }

  /** Decodes a scan over blocks that hold ys so far. */
  method DecodeScan(order: seq<nat>, sc: Scan, ri: nat, src: seq<byte>, ys: seq<Mcu>)
    returns (r: seq<Mcu>, warnings: nat)
    requires ValidOrder(order) && sc.Valid() && AllFit(sc, ys)
    ensures |r| == |ys| && AllFit(sc, ZigzagAll(order, ys))
    ensures var (s, z) := NextMcus(src, sc, ri, ScanStart(sc, ri), ZigzagAll(order, ys));
            ZigzagAll(order, r) == z && warnings == s.warnings
  {
    hide NextMcus, NextMcu, ArithEntropyDecoder.Valid, Reset;
    var dec := new ArithEntropyDecoder(order, src);
    dec.StartPass(sc, ri);
    ghost var s0 := ScanStart(sc, ri);
    NoMcus(src, sc, ri, s0);
    r := [];
    for i := 0 to |ys|
      invariant dec.Valid() && dec.sc == sc && dec.restartInterval == ri && dec.decoder.src == src && |r| == i
      invariant AllFit(sc, ZigzagAll(order, ys[..i]))
      invariant NextMcus(src, sc, ri, s0, ZigzagAll(order, ys[..i])) == (dec.Scanning(), ZigzagAll(order, r))
    {
      OneMore(src, sc, ri, s0, ZigzagAll(order, ys[..i]), Zigzags(order, ys[i]));
      var mcu := DecodeOne(dec, ys[i]);
      assert ZigzagAll(order, ys[..i + 1]) == ZigzagAll(order, ys[..i]) + [Zigzags(order, ys[i])];
      assert ZigzagAll(order, r + [mcu]) == ZigzagAll(order, r) + [Zigzags(order, mcu)];
      r := r + [mcu];
    }
    assert ys[..|ys|] == ys;
    warnings := dec.warnings;
  }

  lemma NoMcus(src: seq<byte>, sc: Scan, ri: nat, s: ScanDec)
    requires sc.Valid() && s.Valid()
    ensures NextMcus(src, sc, ri, s, []) == (s, [])
  {
  }

  /** One MCU over blocks that hold y so far. */
  method DecodeOne(dec: ArithEntropyDecoder, y: Mcu) returns (mcu: Mcu)
    requires dec.Valid() && McuFits(dec.sc, y)
    modifies dec`lastDcVal, dec`dcContext, dec`restartsToGo, dec`nextRestartNum, dec`warnings, dec.decoder,
      dec.decoder.stats
    ensures dec.Valid() && dec.decoder.src == old(dec.decoder.src) && ValidOrder(dec.order)
    ensures (dec.Scanning(), Zigzags(dec.order, mcu))
      == NextMcu(dec.decoder.src, dec.sc, dec.restartInterval, old(dec.Scanning()), Zigzags(dec.order, y))
  {
    assert ValidOrder(dec.order);
    hide NextMcu, ArithEntropyDecoder.Valid, ScanDec.Valid, Scan.Valid;
    var blocks := Allocate(y);
    assert Contents(dec.order, blocks) == Zigzags(dec.order, y);
    dec.DecodeNextMcu(blocks);
    mcu := Collect(blocks);
    assert Zigzags(dec.order, mcu) == Contents(dec.order, blocks);
  }

  /** The decoder at the start of a scan. */
  ghost function ScanStart(sc: Scan, ri: nat): (s: ScanDec)
    requires sc.Valid()
    ensures s.Valid()
  {
    ScanDec(StartOfSegment(Input(0, 0), Reset(sc, InitialStats())), PRED0, ri, 0, 0)
  }

  lemma OneMore(src: seq<byte>, sc: Scan, ri: nat, s: ScanDec, zs: seq<Mcu>, z: Mcu)
    requires sc.Valid() && s.Valid() && AllFit(sc, zs) && McuFits(sc, z)
    ensures AllFit(sc, zs + [z])
    ensures var (s1, x1) := NextMcus(src, sc, ri, s, zs);
            var (s2, y2) := NextMcu(src, sc, ri, s1, z);
            NextMcus(src, sc, ri, s, zs + [z]) == (s2, x1 + [y2])
  {
    hide NextMcu;
    NextMcusConcat(src, sc, ri, s, zs, [z]);
    var s1 := NextMcus(src, sc, ri, s, zs).0;
    assert [z][1..] == [];
    var (s2, y2) := NextMcu(src, sc, ri, s1, z);
    NoMcus(src, sc, ri, s2);
    assert NextMcus(src, sc, ri, s1, [z]) == (s2, [y2] + []);
    assert [y2] + [] == [y2];
  }

  lemma IntervalsFit(sc: Scan, ri: nat, mcus: seq<Mcu>)
    requires AllFit(sc, mcus)
    ensures SegsFit(sc, Intervals(mcus, ri))
    decreases |mcus|
  {
    if ri != 0 && |mcus| > ri {
      IntervalsFit(sc, ri, mcus[ri..]);
    }
  }

  /** The number of restart intervals with a DC difference out of the decoder's range. */
  ghost function BadIntervals(sc: Scan, ri: nat, mcus: seq<Mcu>): nat
    requires sc.Valid() && AllFit(sc, mcus)
  {
    IntervalsFit(sc, ri, mcus);
    OutOfRange(sc, Intervals(mcus, ri))
  }

  lemma RangesFit(order: seq<nat>, sc: Scan, mcus: seq<Mcu>)
    requires ValidOrder(order) && AllFit(sc, mcus)
    ensures AllFit(sc, ZigzagAll(order, mcus))
  {
  }

  /** What is decoded is what was encoded: for every scan, restart interval, MCU sequence
      and following marker, decoding the output of the encoder refines the blocks of every
      restart interval by exactly this scan, but for those where some DC difference is
      beyond 2^15, which the encoder codes nevertheless; they give one warning each. */
  method RoundTrip(order: seq<nat>, sc: Scan, ri: nat, mcus: seq<Mcu>, mk: byte, ys: seq<Mcu>)
    returns (r: seq<Mcu>, warnings: nat)
    requires ValidOrder(order) && sc.Valid() && AllFit(sc, mcus) && AllFit(sc, ys) && IsMarker(mk)
    requires AllReady(sc.Pass(), ZigzagAll(order, mcus), ZigzagAll(order, ys))
    ensures AllFit(sc, ZigzagAll(order, mcus)) && warnings == BadIntervals(sc, ri, ZigzagAll(order, mcus))
    ensures var segs := Intervals(ZigzagAll(order, mcus), ri);
            SegsFit(sc, segs) && Recovered(sc, segs, ZigzagAll(order, ys), ZigzagAll(order, r))
    ensures warnings == 0 ==> AllRefined(sc.Pass(), ZigzagAll(order, mcus), ZigzagAll(order, ys), ZigzagAll(order, r))
  {
    hide NextMcus, Join, AllRefined, AllReady, Cut, SegInRange, Codes, Recovered, OutOfRange;
    ghost var zs := ZigzagAll(order, mcus);
    ghost var segs := Intervals(zs, ri);
    RangesFit(order, sc, mcus);
    var bytes;
    ghost var ps, ss;
    bytes, ps, ss := EncodeScan(order, sc, ri, mcus, mk);
    ghost var s := ScanStart(sc, ri);
    assert bytes[0..] == bytes;
    ResetFresh(sc, InitialStats());
    r, warnings := DecodeScan(order, sc, ri, bytes, ys);
    ScanDecodes(bytes, sc, ri, s, segs, ZigzagAll(order, ys), ps, ss, mk, []);
    if warnings == 0 {
      AllRecovered(sc, segs, ZigzagAll(order, ys), ZigzagAll(order, r));
    }
  }
}
