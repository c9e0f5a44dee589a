/** Which symbols get the shorter codes. */
module CodeOrder {
  import opened Arithmetic
  import opened Sums
  import opened Bytes
  import opened CodeTable
  import opened OptimalCode
  import opened OptimalTable
  import opened LengthLimits

  /** Of two symbols in use, the one counted more often has no greater optimal length. */
  lemma FrequentIsShort(f0: Counts, cs: Lengths, r: nat, s: nat)
    requires Optimal(f0, cs) && r < SYMBOLS && s < SYMBOLS && f0[r] > f0[s] > 0
    ensures cs[r] <= cs[s]
  {
    hide Sum, Optimal;
    if cs[r] > cs[s] {
      SwapFits(f0, cs, r, s);
      Cheaper(f0, cs, r, s);
      NotCheaper(f0, cs, cs[r := cs[s]][s := cs[r]]);
    }
  }

  lemma NotCheaper(f0: Counts, cs: Lengths, l: Lengths)
    requires Optimal(f0, cs) && Kraft(f0, l, SYMBOLS)
    ensures Cost(f0, cs) <= Cost(f0, l)
  {
  }

  lemma SwapFits(f0: Counts, cs: Lengths, r: nat, s: nat)
    requires Optimal(f0, cs) && r < SYMBOLS && s < SYMBOLS && r != s && f0[r] > 0 && f0[s] > 0
    ensures Kraft(f0, cs[r := cs[s]][s := cs[r]], SYMBOLS)
  {
    hide Sum, Cost;
    var l := cs[r := cs[s]][s := cs[r]];
    var sh := Shares(f0, cs, SYMBOLS);
    assert Shares(f0, l, SYMBOLS) == sh[r := sh[s]][s := sh[r]];
    SumUpdate(sh, r, sh[s]);
    SumUpdate(sh[r := sh[s]], s, sh[r]);
  }

  lemma Cheaper(f0: Counts, cs: Lengths, r: nat, s: nat)
    requires r < SYMBOLS && s < SYMBOLS && r != s && f0[r] > f0[s] && cs[r] > cs[s]
    ensures Cost(f0, cs[r := cs[s]][s := cs[r]]) < Cost(f0, cs)
  {
    hide Sum;
    var l := cs[r := cs[s]][s := cs[r]];
    var c := Costs(f0, cs);
    assert Costs(f0, l) == c[r := f0[r] * cs[s]][s := f0[s] * cs[r]];
    SumUpdate(c, r, f0[r] * cs[s]);
    SumUpdate(c[r := f0[r] * cs[s]], s, f0[s] * cs[r]);
    Gain(f0[r], f0[s], cs[r], cs[s]);
  }

  lemma Gain(a: nat, b: nat, x: nat, y: nat)
    requires a > b && x > y
    ensures a * y + b * x < a * x + b * y
  {
    assert (a - b) * (x - y) > 0;
    assert (a - b) * (x - y) == a * x - a * y - b * x + b * y;
  }

  /** Limited or not, the order of the lengths is kept: of two symbols with codes, the one of
      smaller optimal length does not have the longer code. */
  lemma OrderKept(f0: Counts, cs: Lengths, t: HuffTable, p: nat, q: nat)
    requires TableFor(f0, cs, t) && p < |Sizes(t)| && q < |Sizes(t)| && cs[t.huffval[p]] < cs[t.huffval[q]]
    ensures Sizes(t)[p] <= Sizes(t)[q]
  {
    var l := t.huffval[..|Sizes(t)|];
    assert l[p] == t.huffval[p] && l[q] == t.huffval[q];
    if q < p {
      assert Precedes(cs, l[q], l[p]);
    }
  }
}
