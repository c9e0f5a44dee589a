/** The arithmetic decoder of jdarith.c: what one call computes, and the object that
    computes it in place. */
module ArithDecoding {
  import opened Bytes
  import opened Markers
  import opened ProbabilityTable
  import opened IntervalCoder

  /** The registers, the input and the statistics. */
  datatype Dec = Dec(c: nat, a: nat, ct: int, input: Input, stats: Stats)

  /** Before the two initial bytes, between them, or running: then the code value is
      inside the current interval. */
  ghost predicate DecOk(d: Dec)
  {
    if d.a == 0 then (d.ct == -16 && d.c == 0) || (d.ct == -8 && d.c < 256)
    else d.a <= 0x10000 && 0 <= d.ct <= 7 && d.c < Shl(d.a, d.ct)
  }

  ghost predicate Running(d: Dec)
  {
    DecOk(d) && d.a >= 0x8000
  }

  /** One pass of the renormalisation loop. */
  function RenormStep(src: seq<byte>, d: Dec): Dec
  {
    if d.ct - 1 < 0 then
      var (data, input) := NextData(src, d.input);
      var c := d.c * 256 + data;
      if d.ct - 1 + 8 < 0 then
        Dec(c, if d.ct + 8 == 0 then 0x10000 else 2 * d.a, d.ct + 8, input, d.stats)
      else
        Dec(c, 2 * d.a, d.ct + 7, input, d.stats)
    else
      d.(a := 2 * d.a, ct := d.ct - 1)
  }

  lemma RenormStepOk(src: seq<byte>, d: Dec)
    requires DecOk(d) && d.a < 0x8000
    ensures DecOk(RenormStep(src, d))
  {
    Pow2Values();
    ShlTimes(0x10000, 0);
    ShlTimes(2 * d.a, 7);
    if d.a > 0 && d.ct > 0 {
      ShlShl(d.a, 1, d.ct - 1);
      assert Shl(d.a, 1) == 2 * d.a;
    }
  }

  function Renorm(src: seq<byte>, d: Dec): (r: Dec)
    requires DecOk(d)
    ensures Running(r) && r.stats == d.stats
    decreases if d.a == 0 then 0x10000 - d.ct else 0x10000 - d.a
  {
    if d.a >= 0x8000 then d
    else
      RenormStepOk(src, d);
      Renorm(src, RenormStep(src, d))
  }

  /** The decision and the state after it. */
  function Decode(src: seq<byte>, d0: Dec, st: bin): (r: (bit, Dec))
    requires DecOk(d0)
    ensures DecOk(r.1)
  {
    var d := Renorm(src, d0);
    var sv := d.stats[st];
    var qe := LineOf(sv).qe;
    var a := d.a - qe;
    var temp := Shl(a, d.ct);
    ShlAdd(a, qe, d.ct);
    if d.c >= temp then
      if a < qe then
        (sv.mps, d.(c := d.c - temp, a := qe, stats := d.stats[st := AfterMps(sv)]))
      else
        (1 - sv.mps, d.(c := d.c - temp, a := qe, stats := d.stats[st := AfterLps(sv)]))
    else if a < 0x8000 then
      if a < qe then
        (1 - sv.mps, d.(a := a, stats := d.stats[st := AfterLps(sv)]))
      else
        (sv.mps, d.(a := a, stats := d.stats[st := AfterMps(sv)]))
    else
      (sv.mps, d.(a := a))
  }

  /** Whether decoding with the bins of ds, in order, gives the bits of ds. */
  ghost predicate Follows(src: seq<byte>, d: Dec, ds: seq<Decision>)
    requires DecOk(d)
    decreases |ds|
  {
    ds == [] ||
    (Decode(src, d, ds[0].bin).0 == ds[0].bit && Follows(src, Decode(src, d, ds[0].bin).1, ds[1..]))
  }

  ghost function After(src: seq<byte>, d: Dec, ds: seq<Decision>): (r: Dec)
    requires DecOk(d)
    ensures DecOk(r)
    decreases |ds|
  {
    if ds == [] then d else After(src, Decode(src, d, ds[0].bin).1, ds[1..])
  }

  lemma FollowsCons(src: seq<byte>, d: Dec, e: Decision, ds: seq<Decision>)
    requires DecOk(d)
    ensures var (bit, d1) := Decode(src, d, e.bin);
            && Follows(src, d, [e] + ds) == (bit == e.bit && Follows(src, d1, ds))
            && After(src, d, [e] + ds) == After(src, d1, ds)
  {
    assert ([e] + ds)[1..] == ds;
  }

  lemma FollowsNone(src: seq<byte>, d: Dec)
    requires DecOk(d)
    ensures Follows(src, d, []) && After(src, d, []) == d
  {
  }

  lemma FollowsOne(src: seq<byte>, d: Dec, e: Decision)
    requires DecOk(d)
    ensures Follows(src, d, [e]) == (Decode(src, d, e.bin).0 == e.bit)
    ensures After(src, d, [e]) == Decode(src, d, e.bin).1
  {
    assert [e][1..] == [];
  }

  lemma {:induction false} FollowsConcat(src: seq<byte>, d: Dec, xs: seq<Decision>, ys: seq<Decision>)
    requires DecOk(d)
    ensures Follows(src, d, xs + ys) == (Follows(src, d, xs) && Follows(src, After(src, d, xs), ys))
    ensures After(src, d, xs + ys) == After(src, After(src, d, xs), ys)
    decreases |xs|
  {
    if xs == [] {
      assert xs + ys == ys;
    } else {
      assert (xs + ys)[1..] == xs[1..] + ys;
      FollowsConcat(src, Decode(src, d, xs[0].bin).1, xs[1..], ys);
    }
  }

  /** The statistics before the first scan. */
  function InitialStats(): (s: Stats)
    ensures s[FIXED_BIN] == Stat(0, 113)
  {
    seq(ALL_BINS, i => if i == FIXED_BIN then Stat(0, 113) else Stat(0, 0))
  }

  class ArithDecoder {
    var c: nat
    var a: nat
    var ct: int
    var src: seq<byte>
    var pos: nat
    var unreadMarker: byte
    const stats: array<stat>

    ghost function State(): Dec
      requires stats.Length == ALL_BINS
      reads this, stats
    {
      Dec(c, a, ct, Input(pos, unreadMarker), stats[..])
    }

    ghost predicate Valid()
      reads this, stats
    {
      stats.Length == ALL_BINS && DecOk(State())
    }

    constructor (src: seq<byte>)
      ensures Valid() && fresh(stats) && this.src == src
      ensures State() == Dec(0, 0, -16, Input(0, 0), InitialStats())
    {
      stats := new stat[ALL_BINS](i => if i == FIXED_BIN then Stat(0, 113) else Stat(0, 0));
      c, a, ct := 0, 0, -16;
      this.src, pos, unreadMarker := src, 0, 0;
      new;
      assert stats[..] == InitialStats();
    }

    method ArithDecode(st: bin) returns (bit: bit)
      requires Valid()
      modifies this, stats
      ensures Valid() && src == old(src)
      ensures (bit, State()) == Decode(src, old(State()), st)
    {
      hide Renorm, AfterMps, AfterLps;
      Renormalise();
      var sv := stats[st];
      var qe := LineOf(sv).qe;
      ShlAdd(a - qe, qe, ct);
      a := a - qe;
      var temp := Shl(a, ct);
      bit := sv.mps;
      if c >= temp {
        c := c - temp;
        if a < qe {
          a := qe;
          stats[st] := AfterMps(sv);
        } else {
          a := qe;
          stats[st] := AfterLps(sv);
          bit := 1 - sv.mps;
        }
      } else if a < 0x8000 {
        if a < qe {
          stats[st] := AfterLps(sv);
          bit := 1 - sv.mps;
        } else {
          stats[st] := AfterMps(sv);
        }
      }
    }

    /** Renormalisation and data input, until the range has its top bit set. */
    method Renormalise()
      requires Valid()
      modifies `c, `a, `ct, `pos, `unreadMarker
      ensures Valid() && a >= 0x8000 && State() == Renorm(src, old(State()))
    {
      while a < 0x8000
        invariant Valid() && Renorm(src, State()) == Renorm(src, old(State()))
        decreases if a == 0 then 0x10000 - ct else 0x10000 - a
      {
        RenormStepOk(src, State());
        RenormPass();
      }
    }

    /** The body of the renormalisation and data input loop (section D.2.6). */
    method RenormPass()
      requires stats.Length == ALL_BINS
      modifies `c, `a, `ct, `pos, `unreadMarker
      ensures State() == RenormStep(src, old(State()))
    {
      ct := ct - 1;
      if ct < 0 {
        var data, input := FetchData(src, Input(pos, unreadMarker));
        pos, unreadMarker := input.pos, input.marker;
        c := c * 256 + data;
        ct := ct + 8;
        if ct < 0 {
          ct := ct + 1;
          if ct == 0 {
            a := 0x8000;
          }
        }
      }
      a := a * 2;
    }
  }
}
