/** The arithmetic encoder object of jcarith.c. */
module ArithEncoding {
  import opened Bytes
  import opened ProbabilityTable
  import opened IntervalCoder
  import opened ArithRegisters

  /** The output from index `start` is the stuffed form of `plain`. */
  ghost predicate Stuffed(out: seq<byte>, start: nat, plain: seq<byte>)
  {
    start <= |out| && out[start..] == Stuff(plain)
  }

  /** Zero bytes at the end of a segment stay pending, so its output never ends in one. */
  ghost predicate Segment(out: seq<byte>, start: nat, plain: seq<byte>)
  {
    Stuffed(out, start, plain) && Trimmed(plain)
  }

  lemma StuffedZeros(out: seq<byte>, start: nat, plain: seq<byte>, n: nat)
    requires Stuffed(out, start, plain)
    ensures Stuffed(out + Repeat(0, n), start, plain + Repeat(0, n))
  {
    StuffZeros(n);
    StuffConcat(plain, Repeat(0, n));
    assert (out + Repeat(0, n))[start..] == out[start..] + Repeat(0, n);
  }

  lemma StuffedByte(out: seq<byte>, start: nat, plain: seq<byte>, b: byte)
    requires Stuffed(out, start, plain)
    ensures b == 255 ==> Stuffed(out + [255] + [0], start, plain + [b])
    ensures b != 255 ==> Stuffed(out + [b], start, plain + [b])
  {
    StuffSnoc(plain, b);
    assert (out + [b])[start..] == out[start..] + [b];
    assert (out + [b] + [0])[start..] == out[start..] + [b, 0];
  }

  class ArithEncoder {
    var c: int        // C register, base of the coding interval
    var a: int        // A register, size of the coding interval
    var sc: nat       // stacked 0xFF bytes which might still overflow
    var zc: nat       // pending 0x00 bytes which might be discarded at the end
    var ct: int       // shifts left until the next byte is taken out of C
    var buffer: int   // last byte below 0xFF taken out, or -1
    var out: seq<byte>             // the destination
    const stats: array<stat>       // all statistics areas

    // What has happened since the start of the entropy-coded segment.
    ghost var start: nat           // where in out the segment starts
    ghost var plain: seq<byte>     // its bytes before stuffing
    ghost var stats0: Stats        // the statistics at its start
    ghost var log: seq<Decision>   // the decisions coded in it
    ghost var model: Coder         // the exact coder after these decisions

    ghost predicate SegmentOk()
      reads `out, `start, `plain, `buffer, `zc
    {
      && Segment(out, start, plain)
      && -1 <= buffer < 255
      && (buffer < 0 ==> plain == [] && zc == 0)
    }

    ghost function Settled(): seq<byte>
      reads `plain, `zc
    {
      plain + Repeat(0, zc)
    }

    ghost function Taken(): seq<byte>
      reads `plain, `zc, `buffer, `sc
      requires -1 <= buffer < 255
    {
      Settled() + Tail(buffer, sc)
    }

    /** The registers and the pending output denote exactly the interval that the
        decisions coded so far select, and the statistics are those they leave. */
    ghost predicate Valid()
      reads this, stats
    {
      && stats.Length == ALL_BINS
      && SegmentOk()
      && 1 <= ct
      && model == Run(Coder(WHOLE, stats0), log)
      && Denotes(model.iv, Taken(), c, a, ct)
      && stats[..] == model.stats
    }

    /** Still in the segment that started at s with statistics st, having appended to o. */
    ghost predicate Continues(s: nat, st: Stats, o: seq<byte>)
      reads this
    {
      start == s && stats0 == st && o <= out
    }

    constructor ()
      ensures Valid() && fresh(stats) && out == [] && start == 0 && log == []
      ensures forall i :: 0 <= i < ALL_BINS ==> stats[i] == if i == FIXED_BIN then Stat(0, 113) else Stat(0, 0)
    {
      stats := new stat[ALL_BINS](i => if i == FIXED_BIN then Stat(0, 113) else Stat(0, 0));
      c, a, sc, zc, ct, buffer := 0, 0x10000, 0, 0, 11, -1;
      out, start, plain, log := [], 0, [], [];
      stats0 := seq(ALL_BINS, i => if i == FIXED_BIN then Stat(0, 113) else Stat(0, 0));
      model := Coder(WHOLE, seq(ALL_BINS, i => if i == FIXED_BIN then Stat(0, 113) else Stat(0, 0)));
      new;
      assert stats[..] == stats0;
      SegmentStarts();
    }

    /** Reset of the arithmetic coding variables: a new segment starts here. */
    method ResetRegisters()
      requires stats.Length == ALL_BINS
      modifies this
      ensures Valid() && out == old(out) && start == |out| && log == [] && stats0 == stats[..]
    {
      hide ArithEncoder.Valid;
      c, a, sc, zc, ct, buffer := 0, 0x10000, 0, 0, 11, -1;
      start, plain, log, stats0, model := |out|, [], [], stats[..], Coder(WHOLE, stats[..]);
      SegmentStarts();
    }

    lemma SegmentStarts()
      requires c == 0 && a == 0x10000 && sc == 0 && zc == 0 && ct == 11 && buffer == -1
      requires start == |out| && plain == [] && log == []
      requires stats.Length == ALL_BINS && model == Coder(WHOLE, stats0) && stats[..] == stats0
      ensures Valid()
    {
      assert Taken() == [];
      assert Denotes(model.iv, Taken(), c, a, ct) by {
        DenotesStart();
      }
      hide Denotes, Shl, Pow2, Num;
    }

    method EmitByte(val: byte)
      modifies `out
      ensures out == old(out) + [val]
    {
      out := out + [val];
    }

    /** `if (zc) do emit_byte(0x00); while (--zc);` */
    method FlushZeros()
      modifies `out, `zc
      ensures zc == 0 && out == old(out) + Repeat(0, old(zc))
    {
      while zc > 0
        invariant zc <= old(zc) && out == old(out) + Repeat(0, old(zc) - zc)
      {
        EmitByte(0x00);
        zc := zc - 1;
      }
    }

    /** The overflow branch: the pending byte is output incremented and the stacked 0xFF
        bytes become pending zeros. */
    method OutputWithCarry()
      requires SegmentOk() && Taken() != Repeat(255, |Taken()|)
      modifies `out, `zc, `sc, `plain
      ensures Segment(out, start, plain) && old(out) <= out
      ensures sc == 0 && |Settled()| == |old(Taken())|
      ensures Num(Settled()) == Num(old(Taken())) + 1
    {
      ghost var taken, settled, ones := Taken(), Settled(), Repeat(255, sc);
      assert buffer < 0 ==> taken == ones;
      if buffer >= 0 {
        StuffedZeros(out, start, plain, zc);
        FlushZeros();
        StuffedByte(out, start, settled, buffer + 1);
        plain := settled + [buffer + 1];
        EmitByte(buffer + 1);
        if buffer + 1 == 0xFF {
          EmitByte(0x00);
        }
        NumCarry(settled, buffer, sc);
        assert taken == settled + [buffer] + Repeat(255, sc);
      }
      zc := zc + sc;
      sc := 0;
    }

    /** The other branch: everything pending is certain now; zeros stay pending as long as
        nothing else follows them. */
    method OutputWithoutCarry()
      requires SegmentOk()
      modifies `out, `zc, `sc, `plain
      ensures Segment(out, start, plain) && old(out) <= out
      ensures sc == 0 && Settled() == old(Taken())
    {
      ghost var taken := Taken();
      if buffer == 0 {
        zc := zc + 1;
      } else if buffer >= 0 {
        StuffedZeros(out, start, plain, zc);
        plain := plain + Repeat(0, zc);
        FlushZeros();
        StuffedByte(out, start, plain, buffer);
        plain := plain + [buffer];
        EmitByte(buffer);
      }
      assert taken == Settled() + Repeat(255, sc);
      if sc > 0 {
        StuffedZeros(out, start, plain, zc);
        plain := plain + Repeat(0, zc);
        FlushZeros();
        FlushOnes();
      }
    }

    /** `do { emit_byte(0xFF); emit_byte(0x00); } while (--sc);` */
    method FlushOnes()
      requires sc > 0 && Stuffed(out, start, plain)
      modifies `out, `sc, `plain
      ensures sc == 0 && Segment(out, start, plain) && old(out) <= out
      ensures plain == old(plain) + Repeat(255, old(sc))
    {
      while sc > 0
        invariant sc <= old(sc) && old(out) <= out
        invariant plain == old(plain) + Repeat(255, old(sc) - sc)
        invariant Stuffed(out, start, plain)
      {
        StuffedByte(out, start, plain, 255);
        EmitByte(0xFF);
        EmitByte(0x00);
        sc := sc - 1;
        plain := plain + [255];
      }
    }

    /** Takes one byte out of the C register when the shift counter reaches zero. */
    method ByteOut(ghost iv: Interval)
      requires SegmentOk() && ct == 0 && 0 < a < 0x10000
      requires Denotes(iv, Taken(), c, a, 0)
      modifies `out, `zc, `sc, `plain, `buffer, `c, `ct
      ensures SegmentOk() && old(out) <= out
      ensures ct == 8 && Denotes(iv, Taken(), c, a, ct)
    {
      hide Denotes;
      CarryStops(iv, Taken(), c, a);
      var temp := c / 0x80000;
      ghost var taken := Taken();
      ghost var carried := taken;
      if temp > 0xFF {
        OutputWithCarry();
        carried := Settled();
        buffer := temp % 256;  // below 0xFF: the spacer bits of C guarantee it
      } else if temp == 0xFF {
        sc := sc + 1;
      } else {
        OutputWithoutCarry();
        buffer := temp % 256;
      }
      assert Taken() == carried + [temp % 256];
      ByteTaken(iv, taken, c, a, carried);
      c := c % 0x80000;
      ct := ct + 8;
    }

    /** Codes one decision with one statistics bin. */
    method ArithEncode(st: bin, val: bit)
      requires Valid()
      modifies this, stats
      ensures Valid()
      ensures log == old(log) + [Decision(st, val)]
      ensures Continues(old(start), old(stats0), old(out))
    {
      LogGrows(Coder(WHOLE, stats0), log, Decision(st, val));
      ghost var half := Select(st, val);
      Renormalise(half);
    }

    /** Selection of the sub-interval and estimation of the probability; an MPS that leaves
        the interval large enough changes nothing else. */
    method Select(st: bin, val: bit) returns (ghost half: Interval)
      requires stats.Length == ALL_BINS && stats[..] == model.stats
      requires -1 <= buffer < 255 && Denotes(model.iv, Taken(), c, a, ct) && 0x8000 <= a <= 0x10000
      modifies `c, `a, `log, `model, stats
      ensures 0 < a <= 0x10000 && Denotes(half, Taken(), c, a, ct)
      ensures log == old(log) + [Decision(st, val)]
      ensures model == Code(old(model), Decision(st, val))
      ensures model.iv == Normalise(half) && stats[..] == model.stats
    {
      ghost var iv, areas, c0, a0 := model.iv, stats[..], c, a;
      var sv := stats[st];
      var qe := LineOf(sv).qe;
      ghost var upper := TakesUpper(a, sv, val);
      half := Half(iv, qe, upper);
      HalfKeeps(iv, Taken(), c, a, ct, qe, upper);
      log := log + [Decision(st, val)];
      model := Code(model, Decision(st, val));
      a := a - qe;
      if val != sv.mps {
        if a >= qe {
          c := c + a;
          a := qe;
        }
        stats[st] := AfterLps(sv);
      } else {
        if a >= 0x8000 {
          assert stats[..] == areas[st := sv];
          return;
        }
        if a < qe {
          c := c + a;
          a := qe;
        }
        stats[st] := AfterMps(sv);
      }
      assert stats[..] == areas[st := Estimate(a0, sv, val)];
    }

    /** Ends the segment (section D.1.8).  What has been output is the shortest byte string
        whose value lies in the interval of all decisions coded. */
    method FinishPass()
      requires Valid()
      modifies `c, `sc, `zc, `out, `plain
      ensures old(out) <= out && Segment(out, start, plain)
      ensures InInterval(plain, model.iv)
      ensures forall w :: InInterval(w, model.iv) ==> |plain| <= |w|
    {
      ghost var taken, c0 := Taken(), c;
      FinalPointInside(c, a);
      FinalFits(model.iv, taken, c, a, ct, FinalPoint(c, a));
      PlaceFinalPoint();
      OutputPending();
      ghost var carried := Settled();
      ghost var n := OutputFinalBytes();
      FinalSegment(model.iv, taken, c0, a, ct, carried, plain, n);
    }

    /** The point with the most trailing zero bits, shifted to the byte boundary. */
    method PlaceFinalPoint()
      requires 0 <= c && 0x8000 <= a && 0 <= ct
      modifies `c
      ensures c == Shl(FinalPoint(old(c), a), ct)
    {
      var temp := (a - 1 + c) / 0x10000 * 0x10000;
      if temp < c {
        c := temp + 0x8000;
      } else {
        c := temp;
      }
      c := Shl(c, ct);
    }

    /** Send what was taken out of C before; one final overflow may have to be handled. */
    method OutputPending()
      requires SegmentOk() && 0 <= c < 0x10000000
      requires c >= 0x8000000 ==> Taken() != Repeat(255, |Taken()|)
      modifies `sc, `zc, `out, `plain
      ensures old(out) <= out && Segment(out, start, plain)
      ensures |Settled()| == |old(Taken())|
      ensures Num(Settled()) == Num(old(Taken())) + (if c >= 0x8000000 then 1 else 0)
    {
      if c / 0x8000000 != 0 {
        OutputWithCarry();
      } else {
        OutputWithoutCarry();
      }
    }

    /** Output of the final bytes only if they are not 0x00. */
    method OutputFinalBytes() returns (ghost n: nat)
      requires Segment(out, start, plain) && 0 <= c
      modifies `zc, `out, `plain
      ensures old(out) <= out && Segment(out, start, plain)
      ensures plain + Repeat(0, n) == old(Settled()) + FinalBytes(c)
    {
      hide Stuffed, FinalBytes;
      n := zc + 2;
      assert Repeat(0, n) == Repeat(0, zc) + [0, 0];
      var hi: byte, lo: byte := c / 0x80000 % 256, c / 0x800 % 256;
      FinalTwo(c);
      if c / 0x800 % 0x10000 != 0 {
        StuffedZeros(out, start, plain, zc);
        plain := plain + Repeat(0, zc);
        FlushZeros();
        EmitFinalByte(hi);
        n := 1;
        if lo != 0 {
          EmitFinalByte(lo);
          n := 0;
        }
      }
    }

    /** The two bytes, tested together. */
    lemma FinalTwo(c: nat)
      ensures FinalBytes(c) == [c / 0x80000 % 256, c / 0x800 % 256]
      ensures c / 0x800 % 0x10000 == 0 <==> c / 0x80000 % 256 == 0 && c / 0x800 % 256 == 0
    {
      var x := c / 0x800;
      assert c / 0x80000 == x / 256;
      assert x % 0x10000 == x / 256 % 256 * 256 + x % 256;
    }

    method EmitFinalByte(val: byte)
      requires Stuffed(out, start, plain)
      modifies `out, `plain
      ensures old(out) <= out && Stuffed(out, start, plain) && plain == old(plain) + [val]
    {
      StuffedByte(out, start, plain, val);
      plain := plain + [val];
      EmitByte(val);
      if val == 0xFF {
        EmitByte(0x00);
      }
    }

    /** The renormalisation loop.  It is only reached with a < 0x8000, so testing first
        is the same as testing last. */
    method Renormalise(ghost iv: Interval)
      requires SegmentOk() && 0 < a <= 0x10000 && 1 <= ct
      requires Denotes(iv, Taken(), c, a, ct)
      modifies `out, `zc, `sc, `plain, `buffer, `c, `a, `ct
      ensures SegmentOk() && 1 <= ct && old(out) <= out
      ensures Denotes(Normalise(iv), Taken(), c, a, ct)
    {
      ghost var jv := iv;
      while a < 0x8000
        invariant 0 < a <= 0x10000 && 1 <= ct
        invariant SegmentOk() && old(out) <= out
        invariant Denotes(jv, Taken(), c, a, ct)
        invariant Normalise(jv) == Normalise(iv)
        decreases 0x10000 - a
      {
        ShiftKeeps(jv, Taken(), c, a, ct);
        jv := Interval(2 * jv.low, 2 * jv.a, jv.n + 1);
        a := a * 2;
        c := c * 2;
        ct := ct - 1;
        if ct == 0 {
          ByteOut(jv);
        }
      }
    }
  }
}
