/** Entropy-coded segments: the restart intervals of a scan, their bytes joined by restart
    markers, and finding the marker behind a segment. */
module Segments {
  import opened Bytes
  import opened Markers

  /** What follows a segment in the input: a marker, then anything. */
  function Ending(mk: byte, tail: seq<byte>): seq<byte>
  {
    [0xFF, mk] + tail
  }

  predicate IsMarker(mk: byte)
  {
    mk != 0 && mk != 0xFF
  }

  /** From anywhere in a segment the marker behind it is found, and what is skipped are
      exactly the bytes of the segment not read. */
  lemma {:induction false} MarkerFound(src: seq<byte>, pos: nat, p: seq<byte>, mk: byte, tail: seq<byte>, n: nat)
    requires pos <= |src| && src[pos..] == Stuff(p) + Ending(mk, tail) && IsMarker(mk)
    ensures var f := NextMarker(src, pos, n);
            && f.marker == mk && f.pos <= |src| && src[f.pos..] == tail
            && f.discarded == n + |Stuff(p)|
    decreases |p|
  {
    assert src[pos] == src[pos..][0] && src[pos + 1] == src[pos..][1];
    if p == [] {
      assert src[pos + 2..] == src[pos..][2..] == tail;
    } else if p[0] == 255 {
      assert src[pos + 2..] == src[pos..][2..] == Stuff(p[1..]) + Ending(mk, tail);
      MarkerFound(src, pos + 2, p[1..], mk, tail, n + 2);
    } else {
      assert src[pos + 1..] == src[pos..][1..] == Stuff(p[1..]) + Ending(mk, tail);
      MarkerFound(src, pos + 1, p[1..], mk, tail, n + 1);
    }
  }

  /** Segments joined by restart markers, numbered modulo 8 from `next`. */
  function Join(ps: seq<seq<byte>>, next: nat): seq<byte>
    requires ps != [] && next < 8
    decreases |ps|
  {
    if |ps| == 1 then Stuff(ps[0])
    else Stuff(ps[0]) + [0xFF, M_RST0 + next] + Join(ps[1..], (next + 1) % 8)
  }

  /** Complete segments, each with the restart marker behind it. */
  function Chain(ps: seq<seq<byte>>): seq<byte>
  {
    if ps == [] then []
    else
      var n := |ps| - 1;
      Chain(ps[..n]) + Stuff(ps[n]) + [0xFF, M_RST0 + n % 8]
  }

  lemma ChainGrows(out: seq<byte>, from: nat, start: nat, ps: seq<seq<byte>>, p: seq<byte>)
    requires from <= start <= |out| && out[from..start] == Chain(ps) && out[start..] == Stuff(p)
    ensures var o := out + [0xFF] + [M_RST0 + |ps| % 8]; o[from..] == Chain(ps + [p])
  {
    hide Stuff, Chain;
    ChainSnoc(ps, p);
    MarkerBehind(out, from, start, M_RST0 + |ps| % 8);
  }

  lemma ChainSnoc(ps: seq<seq<byte>>, p: seq<byte>)
    ensures Chain(ps + [p]) == Chain(ps) + Stuff(p) + [0xFF, M_RST0 + |ps| % 8]
  {
    hide Stuff, Chain;
    ChainLast(ps + [p]);
    assert (ps + [p])[..|ps|] == ps;
  }

  lemma ChainLast(ps: seq<seq<byte>>)
    requires ps != []
    ensures var n := |ps| - 1; Chain(ps) == Chain(ps[..n]) + Stuff(ps[n]) + [0xFF, M_RST0 + n % 8]
  {
  }

  lemma MarkerBehind(out: seq<byte>, from: nat, start: nat, m: byte)
    requires from <= start <= |out|
    ensures (out + [0xFF] + [m])[from..] == out[from..start] + out[start..] + [0xFF, m]
  {
  }

  /** A last segment completes the chain to what the decoder reads. */
  lemma ChainJoins(ps: seq<seq<byte>>, p: seq<byte>)
    ensures Join(ps + [p], 0) == Chain(ps) + Stuff(p)
  {
    ChainIsChainAt(ps);
    JoinIsChainAt(ps, p, 0);
  }

  /** The same chain built from its front, with markers numbered from k. */
  function ChainAt(ps: seq<seq<byte>>, k: nat): seq<byte>
  {
    if ps == [] then [] else Stuff(ps[0]) + [0xFF, M_RST0 + k % 8] + ChainAt(ps[1..], k + 1)
  }

  lemma {:induction false} ChainAtSnoc(ps: seq<seq<byte>>, q: seq<byte>, k: nat)
    ensures ChainAt(ps + [q], k) == ChainAt(ps, k) + Stuff(q) + [0xFF, M_RST0 + (k + |ps|) % 8]
    decreases |ps|
  {
    hide Stuff, ChainAt;
    if ps == [] {
      ChainAtOne(q, k);
      assert ps + [q] == [q];
      assert [] + Stuff(q) == Stuff(q);
    } else {
      var rs := ps + [q];
      assert rs[0] == ps[0] && rs[1..] == ps[1..] + [q];
      ChainAtSnoc(ps[1..], q, k + 1);
      ChainAtFirst(ps, k);
      ChainAtFirst(rs, k);
      Regroup(Stuff(ps[0]) + [0xFF, M_RST0 + k % 8], ChainAt(ps[1..], k + 1), Stuff(q),
        [0xFF, M_RST0 + (k + |ps|) % 8]);
    }
  }

  lemma ChainAtFirst(ps: seq<seq<byte>>, k: nat)
    requires ps != []
    ensures ChainAt(ps, k) == Stuff(ps[0]) + [0xFF, M_RST0 + k % 8] + ChainAt(ps[1..], k + 1)
  {
  }

  lemma ChainAtOne(q: seq<byte>, k: nat)
    ensures ChainAt([], k) == [] && ChainAt([q], k) == Stuff(q) + [0xFF, M_RST0 + k % 8]
  {
    hide Stuff;
    assert [q][1..] == [];
    assert Stuff(q) + [0xFF, M_RST0 + k % 8] + [] == Stuff(q) + [0xFF, M_RST0 + k % 8];
  }

  lemma Regroup(a: seq<byte>, b: seq<byte>, c: seq<byte>, d: seq<byte>)
    ensures a + (b + c + d) == a + b + c + d
  {
  }

  lemma {:induction false} ChainIsChainAt(ps: seq<seq<byte>>)
    ensures Chain(ps) == ChainAt(ps, 0)
  {
    hide Stuff;
    if ps == [] {
    } else {
      var n := |ps| - 1;
      var init := ps[..n];
      ChainIsChainAt(init);
      ChainAtSnoc(init, ps[n], 0);
      assert ps == init + [ps[n]];
      assert Chain(ps) == Chain(init) + Stuff(ps[n]) + [0xFF, M_RST0 + n % 8];
    }
  }

  lemma {:induction false} JoinIsChainAt(ps: seq<seq<byte>>, p: seq<byte>, k: nat)
    ensures Join(ps + [p], k % 8) == ChainAt(ps, k) + Stuff(p)
    decreases |ps|
  {
    hide Stuff;
    if ps == [] {
      assert ps + [p] == [p];
    } else {
      assert (ps + [p])[1..] == ps[1..] + [p];
      JoinIsChainAt(ps[1..], p, k + 1);
    }
  }

  /** Every segment but the last is in the output, unbroken and with its marker behind it: the
      code 0xFF, 0xD0 + k modulo 8, behind segment k. */
  lemma {:induction false} SegmentAt(ps: seq<seq<byte>>, k: nat, next: nat) returns (at: nat, end: nat)
    requires next < 8 && k + 1 < |ps|
    ensures at <= end && end + 2 <= |Join(ps, next)| && Join(ps, next)[at..end] == Stuff(ps[k])
    ensures Join(ps, next)[end..end + 2] == [0xFF, 0xD0 + (next + k) % 8]
    decreases k
  {
    hide Stuff, Join;
    var out, first := Join(ps, next), Stuff(ps[0]);
    var rest := Join(ps[1..], (next + 1) % 8);
    JoinFirst(ps, next);
    if k == 0 {
      at, end := 0, |first|;
    } else {
      var a, e := SegmentAt(ps[1..], k - 1, (next + 1) % 8);
      var n := |first| + 2;
      at, end := n + a, n + e;
      assert out[n..] == rest;
      assert out[at..end] == rest[a..e] && out[end..end + 2] == rest[e..e + 2];
      assert (next + 1) % 8 + (k - 1) == next + k || (next + 1) % 8 + (k - 1) == next + k - 8;
    }
  }

  lemma JoinFirst(ps: seq<seq<byte>>, next: nat)
    requires next < 8 && |ps| > 1
    ensures Join(ps, next) == Stuff(ps[0]) + [0xFF, 0xD0 + next] + Join(ps[1..], (next + 1) % 8)
  {
    hide Stuff;
  }

  /** All intervals but the last are full. */
  ghost predicate Cut<T>(segs: seq<seq<T>>, ri: nat)
  {
    && segs != []
    && (ri == 0 ==> |segs| == 1)
    && (ri != 0 ==> |segs[|segs| - 1]| <= ri)
    && (forall i :: 0 <= i < |segs| - 1 ==> |segs[i]| == ri)
    && (|segs| > 1 ==> segs[|segs| - 1] != [])
  }

  function Flatten<T>(xs: seq<seq<T>>): seq<T>
  {
    if xs == [] then [] else xs[0] + Flatten(xs[1..])
  }

  lemma {:induction false} NotEmpty<T>(segs: seq<seq<T>>)
    requires segs != [] && segs[|segs| - 1] != []
    ensures Flatten(segs) != []
  {
    if |segs| > 1 {
      NotEmpty(segs[1..]);
    }
  }

  lemma LastCut<T>(segs: seq<seq<T>>, ri: nat, cur: seq<T>)
    requires (forall i :: 0 <= i < |segs| ==> |segs[i]| == ri) && (ri == 0 ==> segs == [])
    requires (ri != 0 ==> |cur| <= ri) && (segs != [] ==> cur != [])
    ensures Cut(segs + [cur], ri)
  {
  }

  lemma {:induction false} FlattenSnoc<T>(xs: seq<seq<T>>, x: seq<T>)
    ensures Flatten(xs + [x]) == Flatten(xs) + x
  {
    if xs == [] {
      assert (xs + [x])[1..] == [];
    } else {
      assert (xs + [x])[1..] == xs[1..] + [x];
      FlattenSnoc(xs[1..], x);
    }
  }

  /** The restart intervals of a scan: ri MCUs each, fewer in the last. */
  function Intervals<T>(xs: seq<T>, ri: nat): seq<seq<T>>
  {
    if ri == 0 || |xs| <= ri then [xs] else [xs[..ri]] + Intervals(xs[ri..], ri)
  }

  lemma {:induction false} CutIntervals<T>(segs: seq<seq<T>>, ri: nat)
    requires Cut(segs, ri)
    ensures segs == Intervals(Flatten(segs), ri)
  {
    var rest := Flatten(segs[1..]);
    if |segs| == 1 {
      assert segs == [segs[0]] && Flatten(segs) == segs[0];
    } else {
      assert segs[1..][|segs| - 2] == segs[|segs| - 1];
      NotEmpty(segs[1..]);
      CutIntervals(segs[1..], ri);
      assert Flatten(segs)[ri..] == rest && Flatten(segs)[..ri] == segs[0];
    }
  }

  /** The next element after the first i either continues the last of their intervals or, if
      that is full, begins another; in all of xs that interval is where it belongs. */
  lemma {:induction false} IntervalsNext<T>(xs: seq<T>, ri: nat, i: nat)
    requires i < |xs|
    ensures var a, b := Intervals(xs[..i], ri), Intervals(xs, ri);
            var n := |a| - 1;
            && n >= 0 && n < |b|
            && if ri != 0 && |a[n]| == ri then b[n] == a[n] && n + 1 < |b| && b[n + 1] != [] && b[n + 1][0] == xs[i]
               else |b[n]| > |a[n]| && b[n][..|a[n]|] == a[n] && b[n][|a[n]|] == xs[i]
    decreases |xs|
  {
    if ri != 0 && |xs| > ri && i >= ri {
      var ys := xs[ri..];
      assert ys[..i - ri] == xs[..i][ri..];
      IntervalsFirst(ys, ri);
      if i == ri {
        assert xs[..i] == xs[..ri] && Intervals(xs[..i], ri) == [xs[..ri]];
      } else {
        IntervalsNext(ys, ri, i - ri);
        assert xs[..i][..ri] == xs[..ri];
        assert Intervals(xs[..i], ri) == [xs[..ri]] + Intervals(ys[..i - ri], ri);
      }
    } else if ri != 0 && |xs| > ri {
      assert Intervals(xs[..i], ri) == [xs[..i]];
      assert xs[..ri][..i] == xs[..i];
    }
  }

  lemma IntervalsFirst<T>(xs: seq<T>, ri: nat)
    requires xs != []
    ensures Intervals(xs, ri) != [] && Intervals(xs, ri)[0] != [] && Intervals(xs, ri)[0][0] == xs[0]
  {
  }

  lemma {:induction false} IntervalsOf<T>(xs: seq<T>, ri: nat)
    ensures Flatten(Intervals(xs, ri)) == xs && Cut(Intervals(xs, ri), ri)
    decreases |xs|
  {
    if ri == 0 || |xs| <= ri {
      assert Flatten([xs]) == xs + Flatten([xs][1..]) && [xs][1..] == [];
      assert Flatten<T>([]) == [];
      assert xs + [] == xs;
    } else {
      IntervalsOf(xs[ri..], ri);
      var rest := Intervals(xs[ri..], ri);
      assert ([xs[..ri]] + rest)[1..] == rest;
      assert xs == xs[..ri] + xs[ri..];
      var segs := [xs[..ri]] + rest;
      assert segs[|segs| - 1] == rest[|rest| - 1];
      LastInterval(xs[ri..], ri);
    }
  }

  lemma {:induction false} LastInterval<T>(xs: seq<T>, ri: nat)
    requires xs != []
    ensures var segs := Intervals(xs, ri); segs != [] && segs[|segs| - 1] != []
    decreases |xs|
  {
    if ri != 0 && |xs| > ri {
      LastInterval(xs[ri..], ri);
    }
  }
}
