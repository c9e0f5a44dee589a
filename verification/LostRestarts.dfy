/** What restart markers are for: when a restart interval is lost together with the marker in
    front of it, only this interval is (read_restart_marker and jpeg_resync_to_restart in
    jdmarker.c, process_restart in jdarith.c). */
module LostRestarts {
  import opened JpegLib
  import opened Bytes
  import opened Blocks
  import opened Markers
  import opened Segments
  import opened ProbabilityTable
  import opened IntervalCoder
  import opened ArithDecoding
  import opened ArithRoundTrip
  import opened McuCoding
  import opened ScanCoding
  import opened ArithBins
  import opened Restarts

  // ----- the choice of jpeg_resync_to_restart

  /** By how far the marker found is ahead of the one expected, modulo 8: markers one or two
      ahead, and all that are not RSTn, are left where they are; those one or two behind, and
      invalid codes, are skipped; the others are taken for the one expected. */
  lemma ResyncIs(src: seq<byte>, i: Input, desired: nat)
    requires i.marker != 0 && desired < 8
    ensures var f, m := NextMarker(src, i.pos, 0), i.marker;
            Resync(src, i, desired) ==
              if m < 0xC0 then Resync(src, Input(f.pos, f.marker), desired)
              else if m < 0xD0 || m > 0xD7 then i
              else
                var ahead := (m - 0xD0 - desired) % 8;
                if ahead == 1 || ahead == 2 then i
                else if ahead == 6 || ahead == 7 then Resync(src, Input(f.pos, f.marker), desired)
                else Input(i.pos, 0)
  {
  }

  /** One or two markers lost: the marker found is kept until it is expected, and then it is
      found at once. */
  lemma LostMarkers(src: seq<byte>, i: Input, next: nat, lost: nat)
    requires next < 8 && 1 <= lost <= 2 && i.marker == 0xD0 + (next + lost) % 8
    ensures var (j, _, expected) := ReadRestart(src, i, next, 0);
            !expected && j == i
    ensures lost == 2 ==> ReadRestart(src, i, (next + 1) % 8, 0).0 == i
    ensures ReadRestart(src, i, (next + lost) % 8, 0) == (Input(i.pos, 0), 0, true)
  {
  }

  /** Found behind the rest of a segment, it is kept as well. */
  lemma RestartEarly(src: seq<byte>, i: Input, p: seq<byte>, m: nat, next: nat, tail: seq<byte>)
    requires next < 8 && ReadSoFar(src, i, p, m, M_RST0 + (next + 1) % 8, tail)
    ensures var j := ReadRestart(src, i, next, 0).0;
            j.marker == M_RST0 + (next + 1) % 8 && j.pos <= |src| && src[j.pos..] == tail
  {
    var mk := M_RST0 + (next + 1) % 8;
    if m <= |p| {
      MarkerFound(src, i.pos, p[m..], mk, tail, 0);
      var f := NextMarker(src, i.pos, 0);
      ResyncIs(src, Input(f.pos, mk), next);
    } else {
      ResyncIs(src, i, next);
    }
  }

  // ----- intervals

  /** At the start of an interval. */
  ghost predicate Starts(sc: Scan, ri: nat, s: ScanDec)
    requires sc.Valid()
  {
    && s.Valid() && !s.Failed() && s.pr == PRED0 && s.togo == ri && Fresh(sc, s.d.stats)
    && s.d == StartOfSegment(s.d.input, s.d.stats)
  }

  ghost predicate At(src: seq<byte>, i: Input, marker: byte, rest: seq<byte>)
  {
    i.marker == marker && i.pos <= |src| && src[i.pos..] == rest
  }

  /** Within an interval nothing is restarted. */
  lemma {:induction false} StillRunning(src: seq<byte>, sc: Scan, ri: nat, s: ScanDec, ys: seq<Mcu>)
    requires sc.Valid() && s.Valid() && AllFit(sc, ys) && ri != 0 && |ys| <= s.togo
    ensures var t := NextMcus(src, sc, ri, s, ys).0; t.next == s.next && t.togo == s.togo - |ys|
    decreases |ys|
  {
    hide DecodeMcu;
    if ys != [] {
      StillRunning(src, sc, ri, NextMcu(src, sc, ri, s, ys[0]).0, ys[1..]);
    }
  }

  /** What is left of an interval that is sent, with the marker expected behind it or the one
      after that. */
  lemma SentInterval(src: seq<byte>, sc: Scan, ri: nat, s: ScanDec, seg: seq<Mcu>, ys: seq<Mcu>, s0: Stats,
                     p: seq<byte>, lost: bool, tail: seq<byte>)
    requires sc.Valid() && Starts(sc, ri, s) && ri > 0 && |seg| == ri && AllFit(sc, seg) && Codes(sc, s0, seg, p)
    requires AllFit(sc, ys) && AllReady(sc.Pass(), seg, ys)
    requires At(src, s.d.input, 0, Stuff(p) + Ending(M_RST0 + (s.next + if lost then 1 else 0) % 8, tail))
    ensures var (t, xs) := NextMcus(src, sc, ri, s, ys);
            && |ys| == ri && t.togo == 0 && (SegInRange(sc, PRED0, seg) ==> AllRefined(sc.Pass(), seg, ys, xs))
            && var r := ProcessRestart(src, sc, ri, t);
               && Starts(sc, ri, r) && r.next == (s.next + 1) % 8
               && At(src, r.d.input, if lost then M_RST0 + r.next else 0, tail)
  {
    hide NextMcus, AllRefined, AllReady, Codes, SegInRange, Fresh, ReadRestart, AllFit, Scan.Valid, Outside, Stuff;
    var mk := M_RST0 + (s.next + if lost then 1 else 0) % 8;
    assert p[0..] == p;
    var m := OneSegment(src, sc, ri, s, seg, ys, s0, p, mk, tail);
    ReadyLength(sc.Pass(), seg, ys);
    var t := NextMcus(src, sc, ri, s, ys).0;
    RestartState(src, sc, ri, t);
    if lost {
      RestartEarly(src, t.d.input, p, m, s.next, tail);
    } else {
      RestartFound(src, t.d.input, p, m, s.next, tail);
    }
  }

  /** The interval that is lost: its marker expected, the decoder stands at the next one, and
      whatever it makes of that, the interval after it starts as it should. */
  lemma LostInterval(src: seq<byte>, sc: Scan, ri: nat, s: ScanDec, ys: seq<Mcu>, tail: seq<byte>)
    requires sc.Valid() && Starts(sc, ri, s) && ri > 0 && |ys| == ri && AllFit(sc, ys)
    requires At(src, s.d.input, M_RST0 + s.next, tail)
    ensures var t := NextMcus(src, sc, ri, s, ys).0;
            && t.togo == 0
            && var r := ProcessRestart(src, sc, ri, t);
               Starts(sc, ri, r) && r.next == (s.next + 1) % 8 && At(src, r.d.input, 0, tail)
  {
    hide NextMcus, ReadRestart, AllFit, Scan.Valid, Reads, ScanBins, Outside;
    FreshFixed(sc, s.d.stats);
    OutsideNothing(sc);
    var mk := M_RST0 + s.next;
    var e := SegmentTrail(src, sc, ri, s, ys);
    var m := TrailReads(src, s.d, e, ScanBins(sc), [], 1, mk, tail);
    StillRunning(src, sc, ri, s, ys);
    AlwaysOutside(src, sc, ri, s, ys);
    var t := NextMcus(src, sc, ri, s, ys).0;
    RestartState(src, sc, ri, t);
    RestartFound(src, t.d.input, [], m, s.next, tail);
  }

  lemma OutsideNothing(sc: Scan)
    ensures Outside(sc, PRED0)
  {
  }

  // ----- whole scans

  /** The segments qs and ps joined by restart markers, an interval between them missing with
      the marker in front of it. */
  function JoinLossy(qs: seq<seq<byte>>, ps: seq<seq<byte>>, next: nat): seq<byte>
    requires qs != [] && ps != [] && next < 8
    decreases |qs|
  {
    if |qs| == 1 then Stuff(qs[0]) + [0xFF, M_RST0 + (next + 1) % 8] + Join(ps, (next + 2) % 8)
    else Stuff(qs[0]) + [0xFF, M_RST0 + next] + JoinLossy(qs[1..], ps, (next + 1) % 8)
  }

  ghost predicate Full(segs: seq<seq<Mcu>>, ri: nat)
  {
    forall i :: 0 <= i < |segs| ==> |segs[i]| == ri
  }

  /** What holds of the segments before and behind the lost one, and of the blocks decoded so
      far. */
  ghost predicate Given(sc: Scan, ri: nat, before: seq<seq<Mcu>>, qs: seq<seq<byte>>, qss: seq<Stats>,
                        after: seq<seq<Mcu>>, ps: seq<seq<byte>>, pss: seq<Stats>,
                        ys: seq<Mcu>, lost: seq<Mcu>, zs: seq<Mcu>)
  {
    && sc.Valid() && ri > 0 && before != [] && Full(before, ri) && SegsFit(sc, before) && AllFit(sc, Flatten(before))
    && AllCode(sc, before, qs, qss)
    && Cut(after, ri) && SegsFit(sc, after) && AllFit(sc, Flatten(after)) && AllCode(sc, after, ps, pss)
    && AllFit(sc, ys) && AllReady(sc.Pass(), Flatten(before), ys) && AllFit(sc, lost) && |lost| == ri
    && AllFit(sc, zs) && AllReady(sc.Pass(), Flatten(after), zs) && zs != []
  }

  /** These blocks are what is left after decoding all three parts. */
  ghost predicate BothRecovered(sc: Scan, ri: nat, before: seq<seq<Mcu>>, after: seq<seq<Mcu>>, ys: seq<Mcu>,
                                zs: seq<Mcu>, xs: seq<Mcu>)
    requires sc.Valid() && SegsFit(sc, before) && SegsFit(sc, after)
  {
    |xs| == |ys| + ri + |zs| && Recovered(sc, before, ys, xs[..|ys|]) && Recovered(sc, after, zs, xs[|ys| + ri..])
  }

  /** All other intervals are recovered, before and after the one that is lost. */
  lemma {:induction false} OnlyOneLost(src: seq<byte>, sc: Scan, ri: nat, s: ScanDec,
                                       before: seq<seq<Mcu>>, qs: seq<seq<byte>>, qss: seq<Stats>,
                                       after: seq<seq<Mcu>>, ps: seq<seq<byte>>, pss: seq<Stats>,
                                       ys: seq<Mcu>, lost: seq<Mcu>, zs: seq<Mcu>, mk: byte, tail: seq<byte>)
    requires Given(sc, ri, before, qs, qss, after, ps, pss, ys, lost, zs) && Starts(sc, ri, s) && IsMarker(mk)
    requires At(src, s.d.input, 0, JoinLossy(qs, ps, s.next) + Ending(mk, tail))
    ensures AllFit(sc, ys + lost + zs)
    ensures BothRecovered(sc, ri, before, after, ys, zs, NextMcus(src, sc, ri, s, ys + lost + zs).1)
    decreases |before|
  {
    hide NextMcus, AllRefined, AllReady, Codes, SegInRange, Fresh, ReadRestart, Scan.Valid, Outside, Stuff,
      ProcessRestart, Recovered, Join, Starts;
    StartsValid(sc, ri, s);
    if |before| == 1 {
      LastBefore(src, sc, ri, s, before, qs, qss, after, ps, pss, ys, lost, zs, mk, tail);
    } else {
      var q, seg := qs[0], before[0];
      assert Codes(sc, qss[0], seg, q) && |seg| == ri;
      var rest := JoinLossy(qs[1..], ps, (s.next + 1) % 8) + Ending(mk, tail);
      assert JoinLossy(qs, ps, s.next) + Ending(mk, tail) == Stuff(q) + Ending(M_RST0 + s.next, rest);
      SplitReady(sc, seg, Flatten(before[1..]), ys);
      var y0, y1 := ys[..ri], ys[ri..];
      SentInterval(src, sc, ri, s, seg, y0, qss[0], q, false, rest);
      var (t, x0) := NextMcus(src, sc, ri, s, y0);
      var r := ProcessRestart(src, sc, ri, t);
      OnlyOneLost(src, sc, ri, r, before[1..], qs[1..], qss[1..], after, ps, pss, y1, lost, zs, mk, tail);
      StartsValid(sc, ri, r);
      Two(src, sc, ri, s, y0, y1 + lost + zs);
      assert ys + lost + zs == y0 + (y1 + lost + zs);
      MoreRecovered(sc, ri, before, after, ys, zs, x0, NextMcus(src, sc, ri, r, y1 + lost + zs).1);
    }
  }

  lemma StartsValid(sc: Scan, ri: nat, s: ScanDec)
    requires sc.Valid() && Starts(sc, ri, s)
    ensures s.Valid()
  {
  }

  lemma LastBefore(src: seq<byte>, sc: Scan, ri: nat, s: ScanDec,
                   before: seq<seq<Mcu>>, qs: seq<seq<byte>>, qss: seq<Stats>,
                   after: seq<seq<Mcu>>, ps: seq<seq<byte>>, pss: seq<Stats>,
                   ys: seq<Mcu>, lost: seq<Mcu>, zs: seq<Mcu>, mk: byte, tail: seq<byte>)
    requires Given(sc, ri, before, qs, qss, after, ps, pss, ys, lost, zs) && Starts(sc, ri, s) && IsMarker(mk)
    requires |before| == 1 && At(src, s.d.input, 0, JoinLossy(qs, ps, s.next) + Ending(mk, tail))
    ensures s.Valid() && AllFit(sc, ys + lost + zs)
    ensures BothRecovered(sc, ri, before, after, ys, zs, NextMcus(src, sc, ri, s, ys + lost + zs).1)
  {
    hide NextMcus, AllRefined, AllReady, Codes, SegInRange, Fresh, ReadRestart, AllFit, Scan.Valid, Outside, Stuff,
      ProcessRestart, Recovered, Join;
    var q, seg := qs[0], before[0];
    assert Codes(sc, qss[0], seg, q) && |seg| == ri;
    FitsAll(sc, before, 0);
    assert before[1..] == [] && Flatten(before) == seg;
    var rest := Join(ps, (s.next + 2) % 8) + Ending(mk, tail);
    assert JoinLossy(qs, ps, s.next) + Ending(mk, tail) == Stuff(q) + Ending(M_RST0 + (s.next + 1) % 8, rest);
    SentInterval(src, sc, ri, s, seg, ys, qss[0], q, true, rest);
    var (t, x0) := NextMcus(src, sc, ri, s, ys);
    LastRecovered(sc, before, ys, x0);
    var r := ProcessRestart(src, sc, ri, t);
    LostInterval(src, sc, ri, r, lost, rest);
    var (u, x1) := NextMcus(src, sc, ri, r, lost);
    var v := ProcessRestart(src, sc, ri, u);
    ScanDecodes(src, sc, ri, v, after, zs, ps, pss, mk, tail);
    Three(src, sc, ri, s, ys, lost, zs);
    var x2 := NextMcus(src, sc, ri, v, zs).1;
    RecoveredLength(sc, after, zs, x2);
    assert (x0 + (x1 + x2))[..|ys|] == x0 && (x0 + (x1 + x2))[|ys| + ri..] == x2;
  }

  lemma RecoveredLength(sc: Scan, segs: seq<seq<Mcu>>, ys: seq<Mcu>, xs: seq<Mcu>)
    requires sc.Valid() && SegsFit(sc, segs) && Recovered(sc, segs, ys, xs)
    ensures |xs| == |ys|
  {
  }

  lemma MoreRecovered(sc: Scan, ri: nat, before: seq<seq<Mcu>>, after: seq<seq<Mcu>>, ys: seq<Mcu>, zs: seq<Mcu>,
                      x0: seq<Mcu>, x1: seq<Mcu>)
    requires sc.Valid() && |before| > 1 && SegsFit(sc, before) && SegsFit(sc, after) && SegsFit(sc, before[1..])
    requires |x0| == |before[0]| == ri <= |ys|
    requires SegInRange(sc, PRED0, before[0]) ==> AllRefined(sc.Pass(), before[0], ys[..ri], x0)
    requires BothRecovered(sc, ri, before[1..], after, ys[ri..], zs, x1)
    ensures BothRecovered(sc, ri, before, after, ys, zs, x0 + x1)
  {
    hide SegInRange, AllRefined, Recovered;
    var n := |ys| - ri;
    FirstRecovered(sc, before, ys, x0, x1[..n]);
    assert (x0 + x1)[..|ys|] == x0 + x1[..n];
    assert (x0 + x1)[|ys| + ri..] == x1[n + ri..];
  }

  lemma FitsAll(sc: Scan, segs: seq<seq<Mcu>>, i: nat)
    requires SegsFit(sc, segs) && i < |segs|
    ensures AllFit(sc, segs[i])
  {
  }

  /** An interval and what follows the restart behind it. */
  lemma Two(src: seq<byte>, sc: Scan, ri: nat, s: ScanDec, xs: seq<Mcu>, ys: seq<Mcu>)
    requires sc.Valid() && s.Valid() && AllFit(sc, xs) && AllFit(sc, ys) && ys != [] && ri > 0
    requires NextMcus(src, sc, ri, s, xs).0.togo == 0
    ensures AllFit(sc, xs + ys)
    ensures var (t, x') := NextMcus(src, sc, ri, s, xs);
            NextMcus(src, sc, ri, s, xs + ys).1 == x' + NextMcus(src, sc, ri, ProcessRestart(src, sc, ri, t), ys).1
  {
    hide NextMcus, ProcessRestart;
    NextMcusConcat(src, sc, ri, s, xs, ys);
    RestartFirst(src, sc, ri, NextMcus(src, sc, ri, s, xs).0, ys);
  }

  lemma Three(src: seq<byte>, sc: Scan, ri: nat, s: ScanDec, xs: seq<Mcu>, ys: seq<Mcu>, zs: seq<Mcu>)
    requires sc.Valid() && s.Valid() && AllFit(sc, xs) && AllFit(sc, ys) && AllFit(sc, zs) && ri > 0
    requires ys != [] && zs != [] && NextMcus(src, sc, ri, s, xs).0.togo == 0
    requires var r := ProcessRestart(src, sc, ri, NextMcus(src, sc, ri, s, xs).0);
             NextMcus(src, sc, ri, r, ys).0.togo == 0
    ensures AllFit(sc, xs + ys + zs)
    ensures var (t, x') := NextMcus(src, sc, ri, s, xs);
            var r := ProcessRestart(src, sc, ri, t);
            var (u, y') := NextMcus(src, sc, ri, r, ys);
            var z' := NextMcus(src, sc, ri, ProcessRestart(src, sc, ri, u), zs).1;
            NextMcus(src, sc, ri, s, xs + ys + zs).1 == x' + (y' + z')
  {
    hide NextMcus, ProcessRestart;
    var r := ProcessRestart(src, sc, ri, NextMcus(src, sc, ri, s, xs).0);
    Two(src, sc, ri, r, ys, zs);
    Two(src, sc, ri, s, xs, ys + zs);
    assert xs + ys + zs == xs + (ys + zs);
  }

  lemma FirstRecovered(sc: Scan, segs: seq<seq<Mcu>>, ys: seq<Mcu>, x0: seq<Mcu>, x1: seq<Mcu>)
    requires sc.Valid() && |segs| > 1 && SegsFit(sc, segs) && |x0| == |segs[0]| <= |ys|
    requires SegInRange(sc, PRED0, segs[0]) ==> AllRefined(sc.Pass(), segs[0], ys[..|segs[0]|], x0)
    requires SegsFit(sc, segs[1..]) && Recovered(sc, segs[1..], ys[|segs[0]|..], x1)
    ensures Recovered(sc, segs, ys, x0 + x1)
  {
    hide SegInRange, AllRefined;
    assert (x0 + x1)[..|segs[0]|] == x0 && (x0 + x1)[|segs[0]|..] == x1;
    assert Flatten(segs) == segs[0] + Flatten(segs[1..]);
  }
}
