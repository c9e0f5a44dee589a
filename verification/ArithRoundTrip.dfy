/** The arithmetic decoder undoes the arithmetic encoder: its register is the code value
    less the low end of the interval the encoder selected. */
module ArithRoundTrip {
  import opened Bytes
  import opened Markers
  import opened Segments
  import opened ProbabilityTable
  import opened IntervalCoder
  import opened ArithDecoding

  /** Byte m of a segment; a segment goes on in zeros. */
  function ByteOf(p: seq<byte>, m: nat): byte
  {
    if m < |p| then p[m] else 0
  }

  /** The number formed by the first m bytes of a segment. */
  function Prefix(p: seq<byte>, m: nat): nat
  {
    if m == 0 then 0 else Prefix(p, m - 1) * 256 + ByteOf(p, m - 1)
  }

  lemma {:induction false} PrefixIsNum(p: seq<byte>, m: nat)
    requires m <= |p|
    ensures Prefix(p, m) == Num(p[..m])
  {
    if m > 0 {
      PrefixIsNum(p, m - 1);
      assert p[..m][..m - 1] == p[..m - 1];
    }
  }

  lemma {:induction false} PrefixBeyond(p: seq<byte>, m: nat)
    requires |p| <= m
    ensures Prefix(p, m) == Shl(Num(p), 8 * (m - |p|))
  {
    if m == |p| {
      PrefixIsNum(p, m);
      assert p[..m] == p;
    } else {
      PrefixBeyond(p, m - 1);
      ShlByte(Num(p), 8 * (m - 1 - |p|));
    }
  }

  /** If a segment lies in an interval, any prefix of it that covers the interval's
      precision does. */
  lemma PrefixInInterval(p: seq<byte>, iv: Interval, m: nat, ct: nat)
    requires InInterval(p, iv) && 8 * m == 16 + iv.n + ct
    ensures Shl(iv.low, ct) <= Prefix(p, m) < Shl(iv.low + iv.a, ct)
  {
    var n := 16 + iv.n;
    if m <= |p| {
      var k := 8 * (|p| - m);
      var r := Num(p[m..]);
      PrefixIsNum(p, m);
      NumConcat(p[..m], p[m..]);
      assert p == p[..m] + p[m..];
      NumBound(p[m..]);
      // scale both sides of membership by 2^ct, then divide by 2^n
      Rescale(iv.low, Num(p), n, ct, m, |p|);
      Rescale(iv.low + iv.a, Num(p), n, ct, m, |p|);
      PrefixCompare(Shl(iv.low, ct), Prefix(p, m), r, k);
      PrefixCompare(Shl(iv.low + iv.a, ct), Prefix(p, m), r, k);
    } else {
      var k := 8 * (m - |p|);
      PrefixBeyond(p, m);
      RescaleBeyond(iv.low, Num(p), n, ct, m, |p|);
      RescaleBeyond(iv.low + iv.a, Num(p), n, ct, m, |p|);
    }
  }

  /** x / 2^n against y / 256^l, both scaled to m bytes. */
  lemma Rescale(x: nat, y: nat, n: nat, ct: nat, m: nat, l: nat)
    requires 8 * m == n + ct && m <= l
    ensures Shl(x, 8 * l) <= Shl(y, n) <==> Shl(Shl(x, ct), 8 * (l - m)) <= y
  {
    ShlShl(Shl(x, ct), 8 * (l - m), n);
    ShlShl(x, ct, 8 * (l - m) + n);
    ShlOrder(Shl(Shl(x, ct), 8 * (l - m)), y, n);
  }

  lemma RescaleBeyond(x: nat, y: nat, n: nat, ct: nat, m: nat, l: nat)
    requires 8 * m == n + ct && l <= m
    ensures Shl(x, 8 * l) <= Shl(y, n) <==> Shl(x, ct) <= Shl(y, 8 * (m - l))
  {
    ShlShl(x, ct, 8 * l);
    ShlShl(x, 8 * l, ct);
    ShlShl(y, n, ct);
    ShlShl(y, 8 * (m - l), 8 * l);
    ShlOrder(Shl(x, ct), Shl(y, 8 * (m - l)), 8 * l);
    ShlOrder(Shl(x, 8 * l), Shl(y, n), ct);
  }

  /** Comparing with the leading part of a number decides the comparison with the whole. */
  lemma PrefixCompare(x: nat, y: nat, r: nat, k: nat)
    requires r < Pow2(k)
    ensures Shl(x, k) <= Shl(y, k) + r <==> x <= y
  {
    ShlOrder(x, y, k);
    ShlAdd(y, 1, k);
    ShlOrder(y + 1, x, k);
  }

  /** m bytes of the segment p have been read. */
  ghost predicate ReadSoFar(src: seq<byte>, i: Input, p: seq<byte>, m: nat, mk: byte, tail: seq<byte>)
  {
    i.pos <= |src| &&
    if m <= |p| then i.marker == 0 && src[i.pos..] == Stuff(p[m..]) + Ending(mk, tail)
    else i.marker == mk && src[i.pos..] == tail
  }

  lemma NextDataReads(src: seq<byte>, i: Input, p: seq<byte>, m: nat, mk: byte, tail: seq<byte>)
    requires ReadSoFar(src, i, p, m, mk, tail) && IsMarker(mk)
    ensures NextData(src, i).0 == ByteOf(p, m)
    ensures ReadSoFar(src, NextData(src, i).1, p, m + 1, mk, tail)
  {
    if m < |p| {
      assert p[m..][0] == p[m] && p[m..][1..] == p[m + 1..];
      var rest := Stuff(p[m + 1..]) + Ending(mk, tail);
      if p[m] == 255 {
        assert src[i.pos..] == [255, 0] + rest;
        assert src[i.pos] == src[i.pos..][0] && src[i.pos + 1] == src[i.pos..][1];
        assert src[i.pos + 2..] == src[i.pos..][2..] == rest;
      } else {
        assert src[i.pos..] == [p[m]] + rest;
        assert src[i.pos] == src[i.pos..][0];
        assert src[i.pos + 1..] == src[i.pos..][1..] == rest;
      }
    } else if m == |p| {
      assert p[m..] == [];
      assert src[i.pos..] == Ending(mk, tail);
      assert src[i.pos] == src[i.pos..][0] && src[i.pos + 1] == src[i.pos..][1];
      assert src[i.pos + 2..] == src[i.pos..][2..] == tail;
    }
  }

  /** The decoder follows the interval iv of the segment p: its C register is the code
      value read so far less the low end of the interval. */
  ghost predicate Tracks(src: seq<byte>, d: Dec, iv: Interval, p: seq<byte>, mk: byte, tail: seq<byte>)
  {
    && DecOk(d) && d.a > 0 && d.a == iv.a
    && (16 + iv.n + d.ct) % 8 == 0
    && d.c + Shl(iv.low, d.ct) == Prefix(p, (16 + iv.n + d.ct) / 8)
    && ReadSoFar(src, d.input, p, (16 + iv.n + d.ct) / 8, mk, tail)
  }

  lemma TracksStep(src: seq<byte>, d: Dec, iv: Interval, p: seq<byte>, mk: byte, tail: seq<byte>)
    requires Tracks(src, d, iv, p, mk, tail) && IsMarker(mk) && d.a < 0x8000
    ensures DecOk(RenormStep(src, d))
    ensures Tracks(src, RenormStep(src, d), Interval(2 * iv.low, 2 * iv.a, iv.n + 1), p, mk, tail)
  {
    hide ReadSoFar, NextData;
    RenormStepOk(src, d);
    if d.ct > 0 {
      ShlShl(iv.low, 1, d.ct - 1);
      assert Shl(iv.low, 1) == 2 * iv.low;
    } else {
      NextDataReads(src, d.input, p, (16 + iv.n) / 8, mk, tail);
      ShlTimes(2 * iv.low, 7);
      ShlTimes(iv.low, 0);
      Pow2Values();
      assert Pow2(7) == 128;
    }
  }

  lemma {:induction false} TracksRenorm(src: seq<byte>, d: Dec, iv: Interval, p: seq<byte>, mk: byte, tail: seq<byte>)
    requires Tracks(src, d, iv, p, mk, tail) && IsMarker(mk)
    ensures Tracks(src, Renorm(src, d), Normalise(iv), p, mk, tail)
    decreases 0x10000 - d.a
  {
    if d.a < 0x8000 {
      TracksStep(src, d, iv, p, mk, tail);
      TracksRenorm(src, RenormStep(src, d), Interval(2 * iv.low, 2 * iv.a, iv.n + 1), p, mk, tail);
    }
  }

  /** The two initial bytes put the decoder on the whole interval. */
  lemma TracksStart(src: seq<byte>, i: Input, p: seq<byte>, mk: byte, tail: seq<byte>, stats: Stats)
    requires ReadSoFar(src, i, p, 0, mk, tail) && IsMarker(mk)
    ensures Tracks(src, Renorm(src, Dec(0, 0, -16, i, stats)), WHOLE, p, mk, tail)
  {
    var d0 := Dec(0, 0, -16, i, stats);
    var d1 := RenormStep(src, d0);
    var d2 := RenormStep(src, d1);
    NextDataReads(src, i, p, 0, mk, tail);
    NextDataReads(src, d1.input, p, 1, mk, tail);
    RenormStepOk(src, d0);
    RenormStepOk(src, d1);
    assert Renorm(src, d0) == Renorm(src, d1) == Renorm(src, d2) == d2;
    assert Prefix(p, 1) == Prefix(p, 0) * 256 + ByteOf(p, 0);
    ShlTimes(0, 0);
  }

  /** One decision: the decoder finds the half the encoder chose and adapts alike. */
  lemma DecodeMatches(src: seq<byte>, d0: Dec, k: Coder, e: Decision, p: seq<byte>, mk: byte, tail: seq<byte>)
    requires DecOk(d0) && IsMarker(mk)
    requires Tracks(src, Renorm(src, d0), k.iv, p, mk, tail) && d0.stats == k.stats
    requires InInterval(p, Code(k, e).iv)
    ensures var (bit, d) := Decode(src, d0, e.bin);
            && bit == e.bit && d.stats == Code(k, e).stats
            && Tracks(src, Renorm(src, d), Code(k, e).iv, p, mk, tail)
  {
    hide Renorm, Normalise, InInterval, AfterMps, AfterLps;
    var d := Renorm(src, d0);
    var sv := d.stats[e.bin];
    var qe := LineOf(sv).qe;
    var upper := TakesUpper(d.a, sv, e.bit);
    var half := Half(k.iv, qe, upper);
    var m := (16 + k.iv.n + d.ct) / 8;
    NormaliseKeeps(half, p);
    PrefixInInterval(p, half, m, d.ct);
    ShlAdd(k.iv.low, d.a - qe, d.ct);
    assert (d.c >= Shl(d.a - qe, d.ct)) == upper;
    var d' := Decode(src, d0, e.bin).1;
    ShlAdd(k.iv.low, half.a, d.ct);
    ShlAdd(half.low, half.a, d.ct);
    assert Tracks(src, d', half, p, mk, tail);
    TracksRenorm(src, d', half, p, mk, tail);
  }

  /** Every sequence of decisions: if the segment lies in the interval they select, decoding
      it with the same bins gives them back, and the statistics agree at the end. */
  lemma {:induction false} DecodesAll(src: seq<byte>, d: Dec, k: Coder, ds: seq<Decision>,
                                      p: seq<byte>, mk: byte, tail: seq<byte>)
    requires 0x8000 <= k.iv.a <= 0x10000 && DecOk(d) && IsMarker(mk)
    requires Tracks(src, Renorm(src, d), k.iv, p, mk, tail) && d.stats == k.stats
    requires InInterval(p, Run(k, ds).iv)
    ensures Follows(src, d, ds)
    ensures After(src, d, ds).stats == Run(k, ds).stats
    ensures Tracks(src, Renorm(src, After(src, d, ds)), Run(k, ds).iv, p, mk, tail)
    decreases |ds|
  {
    if ds == [] {
    } else {
      assert ds == [ds[0]] + ds[1..];
      RunConcat(k, [ds[0]], ds[1..]);
      assert Run(k, [ds[0]]) == Code(k, ds[0]) by { assert [ds[0]][..0] == []; }
      RunKeeps(Code(k, ds[0]), ds[1..], p);
      DecodeMatches(src, d, k, ds[0], p, mk, tail);
      DecodesAll(src, Decode(src, d, ds[0].bin).1, Code(k, ds[0]), ds[1..], p, mk, tail);
    }
  }
}
