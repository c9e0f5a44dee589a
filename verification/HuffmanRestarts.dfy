/** Decoding a Huffman-coded scan with restarts, by value, and the round trip of whole
    scans to bytes. */
module HuffmanRestarts {
  import opened JpegLib
  import opened Bytes
  import opened Blocks
  import opened Markers
  import opened Segments
  import opened BitStreams
  import opened BitReading
  import opened BitWriting
  import opened CodeTable
  import opened HuffmanDecoding
  import opened HuffmanItems
  import opened HuffmanBlocks
  import opened HuffmanFirst
  import opened HuffmanRefine
  import opened HuffmanScan
  import opened HuffmanSegments

  /** The decoder between MCUs: where the current segment starts, the place in it, whether
      it has run out of data, the MCUs left in the interval, the number of the restart
      marker expected next, and whether all has been well: no segment ran out of data, had
      data left over, or was followed by anything but the marker expected. */
  datatype Scanning = Scanning(start: Input, st: DecState, short: bool, togo: int, next: nat, clean: bool)
  {
    /** The bits of the current segment. */
    function Data(src: seq<byte>): seq<bit>
    {
      ByteBits(Rest(src, start))
    }

    /** All its bytes are used. */
    predicate UsedUp(src: seq<byte>)
    {
      !short && st.at <= |Data(src)| < st.at + 8
    }
  }

  function PredsReset(sc: HScan, p: Preds): (r: Preds)
    ensures forall j :: 0 <= j < MAX_COMPS_IN_SCAN ==> r[j] == if j < |sc.dcTbl| then 0 else p[j]
  {
    seq(MAX_COMPS_IN_SCAN, j requires 0 <= j < MAX_COMPS_IN_SCAN => if j < |sc.dcTbl| then 0 else p[j])
  }

  /** process_restart: on at the marker behind the current segment. */
  function ProcessRestart(src: seq<byte>, sc: HScan, ri: nat, s: Scanning): (r: Scanning)
    requires s.next < 8
    ensures r.togo == ri && r.next < 8
  {
    var (i, _, expected) := ReadRestart(src, End(src, s.start), s.next, 0);
    Scanning(i, DecState(0, PredsReset(sc, s.st.preds), 0), s.short && i.marker != 0, ri, (s.next + 1) % 8,
             s.clean && s.UsedUp(src) && expected)
  }

  /** The decode_mcu routines with their restart accounting. */
  function NextMcu(src: seq<byte>, sc: HScan, ts: Tables, ri: nat, s0: Scanning, y: Mcu): (r: (Scanning, Mcu))
    requires sc.Valid() && ts.Valid() && s0.next < 8 && Fits(sc, y)
    ensures r.0.next < 8 && Fits(sc, r.1)
  {
    var s1 := if ri != 0 && s0.togo == 0 then ProcessRestart(src, sc, ri, s0) else s0;
    var s := s1.(togo := s1.togo - 1);
    if s.short && !sc.pass.mode.DcRefine? then (s, y)
    else
      var (st, y') := DecodeMcu(sc, ts, s.Data(src), s.st, y, 0);
      (s.(st := st, short := s.short || st.at > |s.Data(src)|), y')
  }

  function NextMcus(src: seq<byte>, sc: HScan, ts: Tables, ri: nat, s: Scanning,
    ys: seq<Mcu>): (r: (Scanning, seq<Mcu>))
    requires sc.Valid() && ts.Valid() && s.next < 8 && AllFit(sc, ys)
    ensures r.0.next < 8 && |r.1| == |ys| && AllFit(sc, r.1)
    decreases |ys|
  {
    if ys == [] then (s, [])
    else
      var (s1, y1) := NextMcu(src, sc, ts, ri, s, ys[0]);
      var (s2, rest) := NextMcus(src, sc, ts, ri, s1, ys[1..]);
      (s2, [y1] + rest)
  }

  lemma {:induction false} NextMcusConcat(src: seq<byte>, sc: HScan, ts: Tables, ri: nat, s: Scanning, xs: seq<Mcu>,
    ys: seq<Mcu>)
    requires sc.Valid() && ts.Valid() && s.next < 8 && AllFit(sc, xs) && AllFit(sc, ys)
    ensures AllFit(sc, xs + ys)
    ensures var (s1, x') := NextMcus(src, sc, ts, ri, s, xs);
            var (s2, y') := NextMcus(src, sc, ts, ri, s1, ys);
            NextMcus(src, sc, ts, ri, s, xs + ys) == (s2, x' + y')
    decreases |xs|
  {
    hide NextMcu;
    if xs == [] {
      assert xs + ys == ys;
      var y' := NextMcus(src, sc, ts, ri, s, ys).1;
      assert [] + y' == y';
    } else {
      assert (xs + ys)[1..] == xs[1..] + ys && (xs + ys)[0] == xs[0];
      var (s0, x0) := NextMcu(src, sc, ts, ri, s, xs[0]);
      NextMcusConcat(src, sc, ts, ri, s0, xs[1..], ys);
      var (s1, x') := NextMcus(src, sc, ts, ri, s0, xs[1..]);
      var y' := NextMcus(src, sc, ts, ri, s1, ys).1;
      assert [x0] + (x' + y') == ([x0] + x') + y';
    }
  }

  // ----- the segment in the input

  /** The data of a segment are its bytes, and it ends at the marker behind it. */
  lemma {:induction false} RestIsPlain(src: seq<byte>, i: Input, p: seq<byte>, mk: byte, tail: seq<byte>)
    requires i.marker == 0 && i.pos <= |src| && src[i.pos..] == Stuff(p) + Ending(mk, tail) && IsMarker(mk)
    ensures Rest(src, i) == p
    ensures var e := End(src, i); e.marker == mk && e.pos <= |src| && src[e.pos..] == tail
    decreases |p|
  {
    assert src[i.pos] == src[i.pos..][0] && src[i.pos + 1] == src[i.pos..][1];
    if p == [] {
      assert SkipOnes(src, i.pos + 1) == (mk, i.pos + 2);
      assert src[i.pos + 2..] == src[i.pos..][2..] == tail;
    } else if p[0] == 255 {
      assert SkipOnes(src, i.pos + 1) == (0, i.pos + 2);
      assert src[i.pos + 2..] == src[i.pos..][2..] == Stuff(p[1..]) + Ending(mk, tail);
      RestIsPlain(src, Input(i.pos + 2, 0), p[1..], mk, tail);
    } else {
      assert src[i.pos + 1..] == src[i.pos..][1..] == Stuff(p[1..]) + Ending(mk, tail);
      RestIsPlain(src, Input(i.pos + 1, 0), p[1..], mk, tail);
    }
  }

  /** Wherever in a segment the search for its marker starts, it is found; what is skipped
      is what was not read. */
  lemma {:induction false} MarkerIsEnd(src: seq<byte>, i: Input, n: nat)
    requires i.marker == 0
    ensures var f, e := NextMarker(src, i.pos, n), End(src, i);
            f.marker == e.marker && f.pos == e.pos && (Rest(src, i) == [] ==> f.discarded == n)
    decreases ToMarker(src, i.pos)
  {
    hide SkipOnes;
    NextDataAhead(src, i);
    var (data, j) := NextData(src, i);
    if ByteAt(src, i.pos) != 0xFF {
      MarkerIsEnd(src, j, n + 1);
    } else {
      SkipOnesAhead(src, i.pos + 1);
      if j.marker == 0 {
        MarkerIsEnd(src, j, n + 2);
      }
    }
  }

  lemma RestartIsEnd(src: seq<byte>, i: Input, next: nat, n: nat)
    requires next < 8
    ensures var (j, d, e) := ReadRestart(src, i, next, n);
            var (j', d', e') := ReadRestart(src, End(src, i), next, 0);
            j == j' && e == e' && (Rest(src, i) == [] && n == 0 ==> d == 0)
  {
    hide NextMarker, Resync, End, Rest;
    if i.marker == 0 {
      MarkerIsEnd(src, i, n);
      EndMarker(src, i);
    } else {
      EndHere(src, i);
    }
  }

  lemma EndHere(src: seq<byte>, i: Input)
    requires i.marker != 0
    ensures End(src, i) == i
  {
  }

  lemma {:induction false} EndMarker(src: seq<byte>, i: Input)
    ensures End(src, i).marker != 0
    decreases if i.marker != 0 then 0 else ToMarker(src, i.pos)
  {
    if i.marker == 0 {
      NextDataAhead(src, i);
      hide NextData;
      EndMarker(src, NextData(src, i).1);
    }
  }

  // ----- what decoding leaves alone, and that it moves on

  lemma SymbolGrows(t: HuffTable, d: seq<bit>, at: nat)
    requires CountsOk(t)
    ensures DecodeSym(t, d, at).1 >= at
  {
    hide Peek, Find;
  }

  lemma {:induction false} AcGrows(t: HuffTable, d: seq<bit>, at: nat, y: Block, k: nat, limit: nat, se: nat)
    requires CountsOk(t) && se < DCTSIZE2
    ensures DecodeAc(t, d, at, y, k, limit, se).1 >= at
    decreases se + 1 - k
  {
    hide DecodeAc, DecodeSym, CountsOk, Peek, Extend, Jcoef, Find;
    if k > se {
      AcEnd(t, d, at, y, k, limit, se);
    } else {
      AcStep(t, d, at, y, k, limit, se);
      SymbolGrows(t, d, at);
      var (sym, at1) := DecodeSym(t, d, at);
      var r, s := sym / 16, sym % 16;
      if s != 0 {
        var v := Jcoef(Extend(Peek(d, at1, s), s));
        AcGrows(t, d, at1 + s, if k < limit then y[Slot(k + r, se) := v] else y, k + r + 1, limit, se);
      } else if r == 15 {
        AcGrows(t, d, at1, y, k + 16, limit, se);
      }
    }
  }

  lemma {:induction false} CoefsGrow(t: HuffTable, d: seq<bit>, at: nat, y: Block, k: nat, se: nat, al: nat)
    requires CountsOk(t) && se < DCTSIZE2
    ensures DecodeCoefs(t, d, at, y, k, se, al).1 >= at
    decreases se + 1 - k
  {
    hide Peek, Extend, Jcoef, Find;
    if k <= se {
      var (sym, at1) := DecodeSym(t, d, at);
      var r, s := sym / 16, sym % 16;
      if s != 0 {
        var v := Jcoef(Extend(Peek(d, at1, s), s) * Pow2(al));
        CoefsGrow(t, d, at1 + s, y[Slot(k + r, DCTSIZE2 - 1) := v], k + r + 1, se, al);
      } else if r == 15 {
        CoefsGrow(t, d, at1, y, k + 16, se, al);
      }
    }
  }

  lemma {:induction false} AdvanceGrows(d: seq<bit>, at: nat, y: Block, k: nat, r: nat, se: nat, al: nat)
    requires se < DCTSIZE2 && k <= se + 1
    ensures Advance(d, at, y, k, r, se, al).2 >= at
    decreases se + 1 - k
  {
    hide Peek, Corrected;
    if k > se {
    } else if y[k] != 0 {
      AdvanceGrows(d, at + 1, y[k := Corrected(y[k], Peek(d, at, 1), al)], k + 1, r, se, al);
    } else if r > 0 {
      AdvanceGrows(d, at, y, k + 1, r - 1, se, al);
    }
  }

  lemma {:induction false} CorrectionsGrow(d: seq<bit>, at: nat, y: Block, k: nat, se: nat, al: nat)
    requires se < DCTSIZE2
    ensures Corrections(d, at, y, k, se, al).1 >= at
    decreases se + 1 - k
  {
    hide Peek, Corrected;
    if k > se {
    } else if y[k] != 0 {
      CorrectionsGrow(d, at + 1, y[k := Corrected(y[k], Peek(d, at, 1), al)], k + 1, se, al);
    } else {
      CorrectionsGrow(d, at, y, k + 1, se, al);
    }
  }

  lemma {:induction false} RefCoefsGrow(t: HuffTable, d: seq<bit>, at: nat, y: Block, k: nat, se: nat, al: nat)
    requires CountsOk(t) && se < DCTSIZE2
    ensures DecodeRefCoefs(t, d, at, y, k, se, al).1 >= at
    decreases se + 1 - k
  {
    hide Peek, Find, Advance, Corrections, NewValue;
    if k <= se {
      var (sym, at1) := DecodeSym(t, d, at);
      var r, s := sym / 16, sym % 16;
      if s == 0 && r != 15 {
        var at2 := DecodeEob(d, at1, r).1;
        CorrectionsGrow(d, at2, y, k, se, al);
      } else {
        var at2 := if s != 0 then at1 + 1 else at1;
        AdvanceGrows(d, at2, y, k, r, se, al);
        var (y1, k1, at3) := Advance(d, at2, y, k, r, se, al);
        var v := NewValue(Peek(d, at1, 1), al);
        RefCoefsGrow(t, d, at3, if s != 0 then y1[Slot(k1, DCTSIZE2 - 1) := v] else y1, k1 + 1, se, al);
      }
    }
  }

  lemma BlockGrows(sc: HScan, ts: Tables, d: seq<bit>, st: DecState, blkn: nat, y: Block)
    requires sc.Valid() && ts.Valid() && blkn < |sc.membership|
    ensures var st1 := DecodeBlock(sc, ts, d, st, blkn, y).0;
            st1.at >= st.at && Untouched(sc, st.preds, st1.preds)
  {
    hide Peek, Extend, Jcoef, Find, DecodeAc, DecodeCoefs, DecodeRefCoefs, Corrections, SetBit, Pow2, CountsOk;
    var p, ci := sc.pass, sc.membership[blkn];
    match p.mode
    case Sequential =>
      var (diff, at1) := DecodeDcDiff(ts.dc[sc.dcTbl[ci]], d, st.at);
      var limit := sc.coefLimit[blkn];
      AcGrows(ts.ac[sc.acTbl[ci]], d, at1,
        if limit > 0 then y[0 := Jcoef(st.preds[ci] + diff)] else y, 1, limit, p.limSe);
    case AcFirstPass => CoefsGrow(ts.ac[sc.acTbl[0]], d, st.at, y, p.ss, p.se, p.al);
    case AcRefinePass =>
      CorrectionsGrow(d, st.at, y, p.ss, p.se, p.al);
      RefCoefsGrow(ts.ac[sc.acTbl[0]], d, st.at, y, p.ss, p.se, p.al);
    case _ =>
  }

  lemma {:induction false} McuGrows(sc: HScan, ts: Tables, d: seq<bit>, st: DecState, mcu: Mcu, i: nat)
    requires sc.Valid() && ts.Valid() && Fits(sc, mcu) && i <= |mcu|
    ensures var st1 := DecodeMcu(sc, ts, d, st, mcu, i).0;
            st1.at >= st.at && Untouched(sc, st.preds, st1.preds)
    decreases |mcu| - i
  {
    hide DecodeBlock;
    if i < |mcu| {
      BlockGrows(sc, ts, d, st, i, mcu[i]);
      var (st1, y) := DecodeBlock(sc, ts, d, st, i, mcu[i]);
      McuGrows(sc, ts, d, st1, mcu[i := y], i + 1);
    }
  }

  lemma {:induction false} McusGrow(sc: HScan, ts: Tables, d: seq<bit>, st: DecState, ys: seq<Mcu>)
    requires sc.Valid() && ts.Valid() && AllFit(sc, ys)
    ensures var st1 := DecodeMcus(sc, ts, d, st, ys).0;
            st1.at >= st.at && Untouched(sc, st.preds, st1.preds)
    decreases |ys|
  {
    hide DecodeMcu;
    if ys != [] {
      McuGrows(sc, ts, d, st, ys[0], 0);
      McusGrow(sc, ts, d, DecodeMcu(sc, ts, d, st, ys[0], 0).0, ys[1..]);
    }
  }

  // ----- round trip

  /** The MCUs of one interval, as long as its data last. */
  lemma {:induction false} SegmentMcus(src: seq<byte>, sc: HScan, ts: Tables, ri: nat, s: Scanning, ys: seq<Mcu>)
    requires sc.Valid() && ts.Valid() && s.next < 8 && AllFit(sc, ys) && !s.short
    requires ri != 0 ==> |ys| <= s.togo
    requires DecodeMcus(sc, ts, s.Data(src), s.st, ys).0.at <= |s.Data(src)|
    ensures var (st, ys') := DecodeMcus(sc, ts, s.Data(src), s.st, ys);
            NextMcus(src, sc, ts, ri, s, ys) == (s.(st := st, togo := s.togo - |ys|), ys')
    decreases |ys|
  {
    hide DecodeMcu, ProcessRestart;
    if ys != [] {
      var (st1, y) := DecodeMcu(sc, ts, s.Data(src), s.st, ys[0], 0);
      McusGrow(sc, ts, s.Data(src), st1, ys[1..]);
      var s1 := s.(st := st1, togo := s.togo - 1);
      assert NextMcu(src, sc, ts, ri, s, ys[0]) == (s1, y);
      SegmentMcus(src, sc, ts, ri, s1, ys[1..]);
    }
  }

  ghost predicate AtStart(s: Scanning, ri: nat)
  {
    s.next < 8 && !s.short && s.st == DecState(0, NO_PREDS, 0) && s.start.marker == 0 && s.togo == ri
  }

  /** One whole interval. */
  lemma OneSegment(src: seq<byte>, sc: HScan, ts: Tables, ri: nat, s: Scanning, mcus: seq<Mcu>, ys: seq<Mcu>,
    p: seq<byte>, mk: byte, tail: seq<byte>)
    requires sc.Valid() && ts.Valid() && sc.Full() && AtStart(s, ri) && AllFit(sc, ys) && IsMarker(mk)
    requires SegCoded(sc, ts, mcus, p) && AllReady(sc.pass, mcus, ys) && (ri != 0 ==> |mcus| <= ri)
    requires s.start.pos <= |src| && src[s.start.pos..] == Stuff(p) + Ending(mk, tail)
    ensures var (s', ys') := NextMcus(src, sc, ts, ri, s, ys);
            && s' == s.(st := s'.st, togo := ri - |mcus|) && s'.UsedUp(src) && AllRefined(sc.pass, mcus, ys, ys')
            && Untouched(sc, NO_PREDS, s'.st.preds)
    ensures var e := End(src, s.start); e.marker == mk && e.pos <= |src| && src[e.pos..] == tail
  {
    hide SegItems, SegCodable, DecodeMcus, AllReady, AllRefined, NextMcus, Scanning.Data, End, Untouched, Next, Length,
      HScan.Full, HScan.Valid, Padded;
    SegmentNext(src, sc, ts, s, mcus, p, mk, tail);
    var d := s.Data(src);
    SegDecodes(sc, ts, d, 0, mcus, ys);
    McusGrow(sc, ts, d, s.st, ys);
    SameLength(sc.pass, mcus, ys);
    SegmentMcus(src, sc, ts, ri, s, ys);
    SameData(src, s, NextMcus(src, sc, ts, ri, s, ys).0);
  }

  lemma SameData(src: seq<byte>, s: Scanning, t: Scanning)
    requires s.start == t.start
    ensures s.Data(src) == t.Data(src)
  {
  }

  /** The items of an interval are next in its data, with less than a byte behind them. */
  lemma SegmentNext(src: seq<byte>, sc: HScan, ts: Tables, s: Scanning, mcus: seq<Mcu>, p: seq<byte>, mk: byte,
    tail: seq<byte>)
    requires sc.Valid() && ts.Valid() && s.start.marker == 0 && IsMarker(mk) && SegCoded(sc, ts, mcus, p)
    requires s.start.pos <= |src| && src[s.start.pos..] == Stuff(p) + Ending(mk, tail)
    ensures var items, d := SegItems(sc, ENC0, mcus), s.Data(src);
            Next(ts, d, 0, items) && Length(ts, items) <= |d| < Length(ts, items) + 8
    ensures var e := End(src, s.start); e.marker == mk && e.pos <= |src| && src[e.pos..] == tail
  {
    hide Bits, SegItems, SegCodable, ByteBits, Rest, End, AllCodable;
    var items := SegItems(sc, ENC0, mcus);
    RestIsPlain(src, s.start, p, mk, tail);
    var d := s.Data(src);
    var pad :| 0 <= pad < 8 && ByteBits(p) == Bits(ts, items) + Ones(pad);
    assert d[0..|Bits(ts, items)|] == Bits(ts, items);
  }

  lemma SameLength(p: Pass, mcus: seq<Mcu>, ys: seq<Mcu>)
    requires AllReady(p, mcus, ys)
    ensures |mcus| == |ys|
  {
  }

  lemma PredsRestored(sc: HScan, p: Preds)
    requires sc.Valid() && Untouched(sc, NO_PREDS, p)
    ensures PredsReset(sc, p) == NO_PREDS
  {
    var r := PredsReset(sc, p);
    assert forall j :: 0 <= j < MAX_COMPS_IN_SCAN ==> r[j] == 0;
    assert r == [r[0], r[1], r[2], r[3]];
  }

  /** A restart behind a used-up segment, at the marker expected. */
  lemma RestartFound(src: seq<byte>, sc: HScan, ri: nat, s: Scanning, tail: seq<byte>)
    requires sc.Valid() && s.next < 8 && s.UsedUp(src) && Untouched(sc, NO_PREDS, s.st.preds)
    requires var e := End(src, s.start); e.marker == M_RST0 + s.next && e.pos <= |src| && src[e.pos..] == tail
    ensures var r := ProcessRestart(src, sc, ri, s);
            && AtStart(r, ri) && r.clean == s.clean && r.next == (s.next + 1) % 8
            && r.start.pos <= |src| && src[r.start.pos..] == tail
  {
    hide End, Rest, Untouched;
    PredsRestored(sc, s.st.preds);
  }

  /** With the interval used up, the next MCU starts with the restart. */
  lemma RestartFirst(src: seq<byte>, sc: HScan, ts: Tables, ri: nat, s: Scanning, ys: seq<Mcu>)
    requires sc.Valid() && ts.Valid() && s.next < 8 && AllFit(sc, ys) && ys != [] && ri != 0 && s.togo == 0
    ensures NextMcus(src, sc, ts, ri, s, ys) == NextMcus(src, sc, ts, ri, ProcessRestart(src, sc, ri, s), ys)
  {
    hide DecodeMcu, ReadRestart;
    assert NextMcu(src, sc, ts, ri, s, ys[0]) == NextMcu(src, sc, ts, ri, ProcessRestart(src, sc, ri, s), ys[0]);
  }

  ghost predicate AllCoded(sc: HScan, ts: Tables, segs: seq<seq<Mcu>>, ps: seq<seq<byte>>)
    requires sc.Valid() && ts.Valid()
  {
    |segs| == |ps| && forall i :: 0 <= i < |segs| ==> SegCoded(sc, ts, segs[i], ps[i])
  }

  lemma SplitFits(sc: HScan, ys: seq<Mcu>, n: nat)
    requires n <= |ys| && AllFit(sc, ys)
    ensures AllFit(sc, ys[..n]) && AllFit(sc, ys[n..]) && ys == ys[..n] + ys[n..]
  {
  }

  lemma RestOfCut<T>(segs: seq<seq<T>>, ri: nat)
    requires Cut(segs, ri) && |segs| > 1
    ensures Cut(segs[1..], ri) && Flatten(segs) == segs[0] + Flatten(segs[1..]) && Flatten(segs[1..]) != []
    ensures ri != 0 && |segs[0]| == ri
  {
    assert segs[1..][|segs| - 2] == segs[|segs| - 1];
    NotEmpty(segs[1..]);
  }

  /** Whole scans: the segments that code the restart intervals, joined by restart markers
      and followed by any marker, decode to the coefficients refined by this scan.  The
      decoder never runs out of data, never skips any, and never has to resynchronise. */
  lemma {:induction false} ScanDecodes(src: seq<byte>, sc: HScan, ts: Tables, ri: nat, s: Scanning, segs: seq<seq<Mcu>>,
                                       ys: seq<Mcu>, ps: seq<seq<byte>>, mk: byte, tail: seq<byte>)
    requires sc.Valid() && ts.Valid() && sc.Full() && AtStart(s, ri) && IsMarker(mk)
    requires Cut(segs, ri) && AllCoded(sc, ts, segs, ps)
    requires s.start.pos <= |src| && src[s.start.pos..] == Join(ps, s.next) + Ending(mk, tail)
    requires AllFit(sc, ys) && AllReady(sc.pass, Flatten(segs), ys)
    ensures var (s', ys') := NextMcus(src, sc, ts, ri, s, ys);
            s'.clean == s.clean && s'.UsedUp(src) && AllRefined(sc.pass, Flatten(segs), ys, ys')
    decreases |segs|
  {
    hide SegCoded, NextMcus, AllReady, AllRefined, End, Rest, AtStart, ProcessRestart, Scanning.UsedUp, Untouched,
      HScan.Full, AllFit;
    var p, seg := ps[0], segs[0];
    assert SegCoded(sc, ts, seg, p);
    if |segs| == 1 {
      assert segs[1..] == [];
      assert Flatten(segs) == seg;
      OneSegment(src, sc, ts, ri, s, seg, ys, p, mk, tail);
    } else {
      var rst := M_RST0 + s.next;
      StartNext(s, ri);
      var next := (s.next + 1) % 8;
      var tail1 := Join(ps[1..], next) + Ending(mk, tail);
      RestOfCut(segs, ri);
      SplitAllReady(sc.pass, seg, Flatten(segs[1..]), ys);
      var y0, y1 := ys[..|seg|], ys[|seg|..];
      SplitFits(sc, ys, |seg|);
      assert src[s.start.pos..] == Stuff(p) + Ending(rst, tail1);
      OneSegment(src, sc, ts, ri, s, seg, y0, p, rst, tail1);
      var (s1, x0) := NextMcus(src, sc, ts, ri, s, y0);
      RestartFound(src, sc, ri, s1, tail1);
      var s2 := ProcessRestart(src, sc, ri, s1);
      RestCoded(sc, ts, segs, ps);
      ScanDecodes(src, sc, ts, ri, s2, segs[1..], y1, ps[1..], mk, tail);
      NotNothing(sc.pass, Flatten(segs[1..]), y1);
      RestartFirst(src, sc, ts, ri, s1, y1);
      NextMcusConcat(src, sc, ts, ri, s, y0, y1);
      JoinRefined(sc.pass, seg, Flatten(segs[1..]), y0, y1, x0, NextMcus(src, sc, ts, ri, s1, y1).1);
    }
  }

  lemma StartNext(s: Scanning, ri: nat)
    requires AtStart(s, ri)
    ensures s.next < 8
  {
  }

  lemma NotNothing(p: Pass, mcus: seq<Mcu>, ys: seq<Mcu>)
    requires AllReady(p, mcus, ys) && mcus != []
    ensures ys != []
  {
  }

  lemma RestCoded(sc: HScan, ts: Tables, segs: seq<seq<Mcu>>, ps: seq<seq<byte>>)
    requires sc.Valid() && ts.Valid() && AllCoded(sc, ts, segs, ps) && |segs| > 1
    ensures AllCoded(sc, ts, segs[1..], ps[1..])
  {
    hide SegCoded;
    assert forall i :: 0 <= i < |segs| - 1 ==> segs[1..][i] == segs[i + 1] && ps[1..][i] == ps[i + 1];
  }
}
