/** The probability estimator: what its 114 states have in common, and what the coders make
    of an estimate (jaricom.c; ITU-T T.81, sections D.1.2 to D.1.5). */
module Estimation {
  import opened Bytes
  import opened ProbabilityTable
  import opened IntervalCoder

  // ----- the table

  /** After a more probable symbol the estimate shrinks, but for the smallest and the fixed
      one; after a less probable symbol it grows, unless the sense is exchanged or it is the
      fixed one; and only estimates over one third of 0x10000 exchange the sense. */
  predicate Lawful(i: nat)
    requires i < STATES
  {
    var r := AriTab(i);
    && (if r.nextMps == i then i == 13 || i == 113 else AriTab(r.nextMps).qe < r.qe)
    && (r.switchMps == 0 ==> if r.nextLps == i then i == 113 else AriTab(r.nextLps).qe > r.qe)
    && (r.switchMps == 1 ==> 3 * r.qe > 0x10000 && AriTab(r.nextLps).qe <= r.qe)
  }

  lemma Lawful0(i: nat)
    requires i < 6
    ensures Lawful(i)
  {
    match i
    case 0 => case 1 => case 2 => case 3 => case 4 => case _ =>
  }

  lemma Lawful6(i: nat)
    requires 6 <= i < 12
    ensures Lawful(i)
  {
    match i
    case 6 => case 7 => case 8 => case 9 => case 10 => case _ =>
  }

  lemma Lawful12(i: nat)
    requires 12 <= i < 18
    ensures Lawful(i)
  {
    match i
    case 12 => case 13 => case 14 => case 15 => case 16 => case _ =>
  }

  lemma Lawful18(i: nat)
    requires 18 <= i < 24
    ensures Lawful(i)
  {
    match i
    case 18 => case 19 => case 20 => case 21 => case 22 => case _ =>
  }

  lemma Lawful24(i: nat)
    requires 24 <= i < 30
    ensures Lawful(i)
  {
    match i
    case 24 => case 25 => case 26 => case 27 => case 28 => case _ =>
  }

  lemma Lawful30(i: nat)
    requires 30 <= i < 36
    ensures Lawful(i)
  {
    match i
    case 30 => case 31 => case 32 => case 33 => case 34 => case _ =>
  }

  lemma Lawful36(i: nat)
    requires 36 <= i < 42
    ensures Lawful(i)
  {
    match i
    case 36 => case 37 => case 38 => case 39 => case 40 => case _ =>
  }

  lemma Lawful42(i: nat)
    requires 42 <= i < 48
    ensures Lawful(i)
  {
    match i
    case 42 => case 43 => case 44 => case 45 => case 46 => case _ =>
  }

  lemma Lawful48(i: nat)
    requires 48 <= i < 54
    ensures Lawful(i)
  {
    match i
    case 48 => case 49 => case 50 => case 51 => case 52 => case _ =>
  }

  lemma Lawful54(i: nat)
    requires 54 <= i < 60
    ensures Lawful(i)
  {
    match i
    case 54 => case 55 => case 56 => case 57 => case 58 => case _ =>
  }

  lemma Lawful60(i: nat)
    requires 60 <= i < 66
    ensures Lawful(i)
  {
    match i
    case 60 => case 61 => case 62 => case 63 => case 64 => case _ =>
  }

  lemma Lawful66(i: nat)
    requires 66 <= i < 72
    ensures Lawful(i)
  {
    match i
    case 66 => case 67 => case 68 => case 69 => case 70 => case _ =>
  }

  lemma Lawful72(i: nat)
    requires 72 <= i < 78
    ensures Lawful(i)
  {
    match i
    case 72 => case 73 => case 74 => case 75 => case 76 => case _ =>
  }

  lemma Lawful78(i: nat)
    requires 78 <= i < 84
    ensures Lawful(i)
  {
    match i
    case 78 => case 79 => case 80 => case 81 => case 82 => case _ =>
  }

  lemma Lawful84(i: nat)
    requires 84 <= i < 90
    ensures Lawful(i)
  {
    match i
    case 84 => case 85 => case 86 => case 87 => case 88 => case _ =>
  }

  lemma Lawful90(i: nat)
    requires 90 <= i < 96
    ensures Lawful(i)
  {
    match i
    case 90 => case 91 => case 92 => case 93 => case 94 => case _ =>
  }

  lemma Lawful96(i: nat)
    requires 96 <= i < 102
    ensures Lawful(i)
  {
    match i
    case 96 => case 97 => case 98 => case 99 => case 100 => case _ =>
  }

  lemma Lawful102(i: nat)
    requires 102 <= i < 108
    ensures Lawful(i)
  {
    match i
    case 102 => case 103 => case 104 => case 105 => case 106 => case _ =>
  }

  lemma Lawful108(i: nat)
    requires 108 <= i < 114
    ensures Lawful(i)
  {
    match i
    case 108 => case 109 => case 110 => case 111 => case 112 => case _ =>
  }

  /** The laws, for every state. */
  lemma AllLawful(i: nat)
    requires i < STATES
    ensures Lawful(i)
  {
    hide Lawful;
    match i / 6
    case 0 => Lawful0(i);
    case 1 => Lawful6(i);
    case 2 => Lawful12(i);
    case 3 => Lawful18(i);
    case 4 => Lawful24(i);
    case 5 => Lawful30(i);
    case 6 => Lawful36(i);
    case 7 => Lawful42(i);
    case 8 => Lawful48(i);
    case 9 => Lawful54(i);
    case 10 => Lawful60(i);
    case 11 => Lawful66(i);
    case 12 => Lawful72(i);
    case 13 => Lawful78(i);
    case 14 => Lawful84(i);
    case 15 => Lawful90(i);
    case 16 => Lawful96(i);
    case 17 => Lawful102(i);
    case _ => Lawful108(i);
  }

  // The packed entries of jpeg_aritab.

  lemma Packed0(i: nat)
    requires i < 16
    ensures V(AriTab(i)) == [0x5a1d0181, 0x2586020e, 0x11140310, 0x080b0412, 0x03d80514, 0x01da0617,
                               0x00e50719, 0x006f081c, 0x0036091e, 0x001a0a21, 0x000d0b23, 0x00060c09,
                               0x00030d0a, 0x00010d0c, 0x5a7f0f8f, 0x3f251024][i]
  {
    match i
    case 0 => case 1 => case 2 => case 3 => case 4 => case 5 => case 6 => case 7 => case 8 => case 9 =>
    case 10 => case 11 => case 12 => case 13 => case 14 => case _ =>
  }

  lemma Packed16(i: nat)
    requires 16 <= i < 32
    ensures V(AriTab(i)) == [0x2cf21126, 0x207c1227, 0x17b91328, 0x1182142a, 0x0cef152b, 0x09a1162d,
                               0x072f172e, 0x055c1830, 0x04061931, 0x03031a33, 0x02401b34, 0x01b11c36,
                               0x01441d38, 0x00f51e39, 0x00b71f3b, 0x008a203c][i - 16]
  {
    match i
    case 16 => case 17 => case 18 => case 19 => case 20 => case 21 => case 22 => case 23 => case 24 =>
    case 25 => case 26 => case 27 => case 28 => case 29 => case 30 => case _ =>
  }

  lemma Packed32(i: nat)
    requires 32 <= i < 48
    ensures V(AriTab(i)) == [0x0068213e, 0x004e223f, 0x003b2320, 0x002c0921, 0x5ae125a5, 0x484c2640,
                               0x3a0d2741, 0x2ef12843, 0x261f2944, 0x1f332a45, 0x19a82b46, 0x15182c48,
                               0x11772d49, 0x0e742e4a, 0x0bfb2f4b, 0x09f8304d][i - 32]
  {
    match i
    case 32 => case 33 => case 34 => case 35 => case 36 => case 37 => case 38 => case 39 => case 40 =>
    case 41 => case 42 => case 43 => case 44 => case 45 => case 46 => case _ =>
  }

  lemma Packed48(i: nat)
    requires 48 <= i < 64
    ensures V(AriTab(i)) == [0x0861314e, 0x0706324f, 0x05cd3330, 0x04de3432, 0x040f3532, 0x03633633,
                               0x02d43734, 0x025c3835, 0x01f83936, 0x01a43a37, 0x01603b38, 0x01253c39,
                               0x00f63d3a, 0x00cb3e3b, 0x00ab3f3d, 0x008f203d][i - 48]
  {
    match i
    case 48 => case 49 => case 50 => case 51 => case 52 => case 53 => case 54 => case 55 => case 56 =>
    case 57 => case 58 => case 59 => case 60 => case 61 => case 62 => case _ =>
  }

  lemma Packed64(i: nat)
    requires 64 <= i < 80
    ensures V(AriTab(i)) == [0x5b1241c1, 0x4d044250, 0x412c4351, 0x37d84452, 0x2fe84553, 0x293c4654,
                               0x23794756, 0x1edf4857, 0x1aa94957, 0x174e4a48, 0x14244b48, 0x119c4c4a,
                               0x0f6b4d4a, 0x0d514e4b, 0x0bb64f4d, 0x0a40304d][i - 64]
  {
    match i
    case 64 => case 65 => case 66 => case 67 => case 68 => case 69 => case 70 => case 71 => case 72 =>
    case 73 => case 74 => case 75 => case 76 => case 77 => case 78 => case _ =>
  }

  lemma Packed80(i: nat)
    requires 80 <= i < 96
    ensures V(AriTab(i)) == [0x583251d0, 0x4d1c5258, 0x438e5359, 0x3bdd545a, 0x34ee555b, 0x2eae565c,
                               0x299a575d, 0x25164756, 0x557059d8, 0x4ca95a5f, 0x44d95b60, 0x3e225c61,
                               0x38245d63, 0x32b45e63, 0x2e17565d, 0x56a860df][i - 80]
  {
    match i
    case 80 => case 81 => case 82 => case 83 => case 84 => case 85 => case 86 => case 87 => case 88 =>
    case 89 => case 90 => case 91 => case 92 => case 93 => case 94 => case _ =>
  }

  lemma Packed96(i: nat)
    requires 96 <= i < 112
    ensures V(AriTab(i)) == [0x4f466165, 0x47e56266, 0x41cf6367, 0x3c3d6468, 0x375e5d63, 0x52316669,
                               0x4c0f676a, 0x4639686b, 0x415e6367, 0x56276ae9, 0x50e76b6c, 0x4b85676d,
                               0x55976d6e, 0x504f6b6f, 0x5a106fee, 0x55226d70][i - 96]
  {
    match i
    case 96 => case 97 => case 98 => case 99 => case 100 => case 101 => case 102 => case 103 => case 104 =>
    case 105 => case 106 => case 107 => case 108 => case 109 => case 110 => case _ =>
  }

  lemma Packed112(i: nat)
    requires 112 <= i < 114
    ensures V(AriTab(i)) == [0x59eb6ff0, 0x5a1d7171][i - 112]
  {
    match i
    case 112 => case _ =>
  }

  /** The same of the contents of a bin. */
  lemma StatLaws(s: stat)
    ensures AfterMps(s).mps == s.mps && LineOf(AfterMps(s)).qe <= LineOf(s).qe
    ensures AfterLps(s).mps == s.mps ==> LineOf(AfterLps(s)).qe >= LineOf(s).qe
    ensures AfterLps(s).mps != s.mps ==> 3 * LineOf(s).qe > 0x10000 && LineOf(AfterLps(s)).qe <= LineOf(s).qe
  {
    hide AriTab, Walk;
    var r := AriTab(s.index);
    WalkIsLookup(0, s.index);
    WalkIsLookup(0, r.nextMps);
    WalkIsLookup(0, r.nextLps);
    AllLawful(s.index);
  }

  // ----- decisions

  /** The part of the interval that decision b with a bin s selects. */
  function Part(iv: Interval, s: stat, b: bit): Interval
    requires LineOf(s).qe <= iv.a
  {
    Half(iv, LineOf(s).qe, TakesUpper(iv.a, s, b))
  }

  /** The symbol believed to be more probable never gets the smaller part. */
  lemma LikelierGetsMore(iv: Interval, s: stat)
    requires 0x8000 <= iv.a <= 0x10000
    ensures Part(iv, s, s.mps).a >= Part(iv, s, 1 - s.mps).a
    ensures Part(iv, s, s.mps).a + Part(iv, s, 1 - s.mps).a == iv.a
  {
  }

  /** The smaller part is below 0x8000, so that less probable symbols always renormalise. */
  lemma LpsRenormalises(iv: Interval, s: stat)
    requires 0x8000 <= iv.a <= 0x10000
    ensures Part(iv, s, 1 - s.mps).a < 0x8000
  {
  }

  /** The contents of a bin change only with a decision made with it that renormalises the
      interval, and then as its symbol says. */
  lemma AdaptsOnRenormalising(c: Coder, d: Decision, i: bin)
    requires 0x8000 <= c.iv.a <= 0x10000
    ensures var s, t := c.stats[i], Code(c, d).stats[i];
            t == if i != d.bin || Part(c.iv, s, d.bit).a >= 0x8000 then s
                 else if d.bit == s.mps then AfterMps(s) else AfterLps(s)
  {
    LpsRenormalises(c.iv, c.stats[d.bin]);
  }

  /** Decisions for the more probable symbol that leave it the larger part. */
  ghost predicate Expected(c: Coder, ds: seq<Decision>)
    requires 0x8000 <= c.iv.a <= 0x10000
  {
    forall i :: 0 <= i < |ds| ==>
      var k := Run(c, ds[..i]);
      var s := k.stats[ds[i].bin];
      ds[i].bit == s.mps && 2 * LineOf(s).qe <= k.iv.a
  }

  /** A segment in which nothing unexpected happens has no bytes: its interval starts at 0. */
  lemma {:induction false} ExpectedIsFree(stats: Stats, ds: seq<Decision>)
    requires Expected(Coder(WHOLE, stats), ds)
    ensures Run(Coder(WHOLE, stats), ds).iv.low == 0
    ensures InInterval([], Run(Coder(WHOLE, stats), ds).iv)
  {
    hide Normalise, InInterval, LineOf, Estimate;
    var c := Coder(WHOLE, stats);
    if ds != [] {
      var n := |ds| - 1;
      assert forall i :: 0 <= i < n ==> ds[..n][..i] == ds[..i];
      ExpectedIsFree(stats, ds[..n]);
      var k := Run(c, ds[..n]);
      NormaliseZero(Part(k.iv, k.stats[ds[n].bin], ds[n].bit));
    }
    NothingInside(Run(c, ds).iv);
  }

  lemma NothingInside(iv: Interval)
    requires iv.low == 0 && iv.a > 0
    ensures InInterval([], iv)
  {
    ShlTimes(0, 16 + iv.n);
  }

  lemma {:induction false} NormaliseZero(iv: Interval)
    requires 0 < iv.a <= 0x10000 && iv.low == 0
    ensures Normalise(iv).low == 0
    decreases 0x10000 - iv.a
  {
    if iv.a < 0x8000 {
      NormaliseZero(Interval(0, 2 * iv.a, iv.n + 1));
    }
  }
}
