/** Code lengths of least cost: what the merging loop of jpeg_gen_optimal_table computes
    (section K.2 of ITU-T T.81), against every assignment that satisfies Kraft's
    inequality. */
module OptimalCode {
  import opened Bytes
  import opened Arithmetic
  import opened Sums

  const SYMBOLS := 257
  const LIMIT := 1000000000

  /** Counts of the 256 symbols and the pseudo-symbol; 0 for symbols not in use. */
  type Counts = f: seq<nat> | |f| == SYMBOLS witness seq(SYMBOLS, _ => 0)

  /** The smallest nonzero count below n except that of skip: the larger symbol in case of
      ties, -1 if there is none up to the limit. */
  function Pick(f: Counts, n: nat, skip: int): (c: int)
    requires n <= SYMBOLS
    ensures -1 <= c < n && (c >= 0 ==> f[c] > 0 && c != skip)
  {
    if n == 0 then -1
    else
      var b := Pick(f, n - 1, skip);
      if f[n - 1] != 0 && f[n - 1] <= (if b < 0 then LIMIT else f[b]) && n - 1 != skip then n - 1 else b
  }

  lemma {:induction false} PickLeast(f: Counts, n: nat, skip: int)
    requires n <= SYMBOLS && forall i :: 0 <= i < n ==> f[i] <= LIMIT
    ensures var c := Pick(f, n, skip);
            if c < 0 then forall i :: 0 <= i < n && i != skip ==> f[i] == 0
            else forall i :: 0 <= i < n && i != skip && f[i] > 0 ==> f[c] <= f[i]
  {
    if n > 0 {
      PickLeast(f, n - 1, skip);
    }
  }

  function Merged(f: Counts, c1: nat, c2: nat): Counts
    requires c1 < SYMBOLS && c2 < SYMBOLS
  {
    f[c1 := f[c1] + f[c2]][c2 := 0]
  }

  function Present(f: Counts): (s: seq<int>)
    ensures |s| == SYMBOLS && forall i :: 0 <= i < SYMBOLS ==> s[i] == if f[i] > 0 then 1 else 0
  {
    seq(SYMBOLS, i requires 0 <= i < SYMBOLS => if f[i] > 0 then 1 else 0)
  }

  /** The number of symbols, or merged groups of symbols, in use. */
  function Active(f: Counts): (n: nat)
  {
    SumToNonNegative(Present(f), SYMBOLS);
    Sum(Present(f))
  }

  lemma MergeActive(f: Counts, c1: nat, c2: nat)
    requires c1 < SYMBOLS && c2 < SYMBOLS && c1 != c2 && f[c1] > 0 && f[c2] > 0
    ensures Active(Merged(f, c1, c2)) == Active(f) - 1
    ensures Sum(Merged(f, c1, c2)) == Sum(f)
  {
    assert Present(Merged(f, c1, c2)) == Present(f)[c2 := 0];
    SumUpdate(Present(f), c2, 0);
    SumUpdate(f, c1, f[c1] + f[c2]);
    SumUpdate(f[c1 := f[c1] + f[c2]], c2, 0);
  }

  /** The sum of all merged counts: the cost of the code the merging loop builds. */
  function MergeCost(f: Counts): nat
    decreases Active(f)
  {
    var c1 := Pick(f, SYMBOLS, -1);
    var c2 := Pick(f, SYMBOLS, c1);
    if c1 < 0 || c2 < 0 then 0
    else
      MergeActive(f, c1, c2);
      f[c1] + f[c2] + MergeCost(Merged(f, c1, c2))
  }

  // ----- every code costs at least as much

  type Lengths = l: seq<nat> | |l| == SYMBOLS witness seq(SYMBOLS, _ => 0)

  function Costs(f: Counts, l: Lengths): (s: seq<int>)
    ensures |s| == SYMBOLS && forall i :: 0 <= i < SYMBOLS ==> s[i] == f[i] * l[i]
  {
    seq(SYMBOLS, i requires 0 <= i < SYMBOLS => f[i] * l[i])
  }

  /** The length of the coded text. */
  function Cost(f: Counts, l: Lengths): int
  {
    Sum(Costs(f, l))
  }

  /** The share of a code of length l, in units of 2^-m. */
  function Share(l: nat, m: nat): nat
  {
    if l <= m then Pow2(m - l) else 0
  }

  function Shares(f: Counts, l: Lengths, m: nat): (s: seq<int>)
    ensures |s| == SYMBOLS && forall i :: 0 <= i < SYMBOLS ==> s[i] == if f[i] > 0 then Share(l[i], m) else 0
  {
    seq(SYMBOLS, i requires 0 <= i < SYMBOLS => if f[i] > 0 then Share(l[i], m) else 0)
  }

  /** Kraft's inequality for the symbols in use, whose codes are at most m long. */
  ghost predicate Kraft(f: Counts, l: Lengths, m: nat)
  {
    && (forall i :: 0 <= i < SYMBOLS && f[i] > 0 ==> l[i] <= m)
    && Sum(Shares(f, l, m)) <= Pow2(m)
  }

  /** Giving the longer code to the smaller count. */
  lemma Swap(f: Counts, l: Lengths, m: nat, i: nat, j: nat) returns (l': Lengths)
    requires Kraft(f, l, m) && i < SYMBOLS && j < SYMBOLS && 0 < f[i] <= f[j] && l[i] <= l[j]
    ensures Kraft(f, l', m) && Cost(f, l') <= Cost(f, l) && l' == l[i := l[j]][j := l[i]]
  {
    l' := l[i := l[j]][j := l[i]];
    if i != j {
      var c, s := Costs(f, l), Shares(f, l, m);
      assert Costs(f, l') == c[i := f[i] * l[j]][j := f[j] * l[i]];
      SumUpdate(c, i, f[i] * l[j]);
      SumUpdate(c[i := f[i] * l[j]], j, f[j] * l[i]);
      Rearranged(f[i], f[j], l[i], l[j]);
      assert Shares(f, l', m) == s[i := s[j]][j := s[i]];
      SumUpdate(s, i, s[j]);
      SumUpdate(s[i := s[j]], j, s[i]);
    } else {
      assert l' == l;
    }
  }

  lemma Rearranged(a: nat, b: nat, x: nat, y: nat)
    requires a <= b && x <= y
    ensures a * y + b * x <= a * x + b * y
  {
    var d, e := b - a, y - x;
    assert b * y == b * x + b * e && a * y == a * x + a * e;
    assert b * e == a * e + d * e;
  }

  /** The position of the longest code in use below n, except that of skip. */
  function Longest(f: Counts, l: Lengths, n: nat, skip: int): (c: int)
    requires n <= SYMBOLS
    ensures -1 <= c < n && (c >= 0 ==> f[c] > 0 && c != skip)
    ensures forall i :: 0 <= i < n && f[i] > 0 && i != skip ==> c >= 0 && l[i] <= l[c]
  {
    if n == 0 then -1
    else
      var b := Longest(f, l, n - 1, skip);
      if f[n - 1] > 0 && n - 1 != skip && (b < 0 || l[b] <= l[n - 1]) then n - 1 else b
  }

  /** Some assignment that costs no more gives the two smallest counts the two longest
      codes. */
  lemma SmallestLongest(f: Counts, l: Lengths, m: nat, c1: nat, c2: nat) returns (l': Lengths)
    requires Kraft(f, l, m) && c1 < SYMBOLS && c2 < SYMBOLS && c1 != c2 && f[c1] > 0 && f[c2] > 0
    requires forall i :: 0 <= i < SYMBOLS && f[i] > 0 ==> f[c1] <= f[i]
    requires forall i :: 0 <= i < SYMBOLS && f[i] > 0 && i != c1 ==> f[c2] <= f[i]
    ensures Kraft(f, l', m) && Cost(f, l') <= Cost(f, l)
    ensures l'[c2] <= l'[c1] && forall i :: 0 <= i < SYMBOLS && f[i] > 0 && i != c1 ==> l'[i] <= l'[c2]
  {
    var p := Longest(f, l, SYMBOLS, -1);
    var l1 := Swap(f, l, m, c1, p);
    assert forall i :: 0 <= i < SYMBOLS && f[i] > 0 ==> l1[i] <= l1[c1];
    var q := Longest(f, l1, SYMBOLS, c1);
    l' := Swap(f, l1, m, c2, q);
  }

  /** The longest code can be shortened to the length of the next: the others fill a
      multiple of its share. */
  lemma Level(f: Counts, l: Lengths, m: nat, c1: nat, c2: nat)
    requires Kraft(f, l, m) && c1 < SYMBOLS && c2 < SYMBOLS && c1 != c2 && f[c1] > 0 && f[c2] > 0
    requires l[c2] <= l[c1] && forall i :: 0 <= i < SYMBOLS && f[i] > 0 && i != c1 ==> l[i] <= l[c2]
    ensures Kraft(f, l[c1 := l[c2]], m) && Cost(f, l[c1 := l[c2]]) <= Cost(f, l)
  {
    var b := l[c2];
    var l', d := l[c1 := b], Pow2(m - b);
    var c, s := Costs(f, l), Shares(f, l, m);
    assert Costs(f, l') == c[c1 := f[c1] * b];
    SumUpdate(c, c1, f[c1] * b);
    assert f[c1] * b <= f[c1] * l[c1] by {
      Rearranged(0, f[c1], b, l[c1]);
    }
    assert Shares(f, l', m) == s[c1 := d];
    SumUpdate(s, c1, d);
    SumUpdate(s, c1, 0);
    var others := s[c1 := 0];
    forall i | 0 <= i < SYMBOLS
      ensures others[i] >= 0 && others[i] % d == 0
    {
      if others[i] != 0 {
        Pow2Divides(m - b, m - l[i]);
      }
    }
    SumToDivides(others, SYMBOLS, d);
    SumToNonNegative(others, SYMBOLS);
    Pow2Divides(m - b, m);
    RoomForOne(Sum(others), Pow2(m), d);
  }

  /** Two codes of equal length become one that is a bit shorter. */
  lemma Join(f: Counts, l: Lengths, m: nat, c1: nat, c2: nat) returns (l': Lengths)
    requires Kraft(f, l, m) && c1 < SYMBOLS && c2 < SYMBOLS && c1 != c2 && f[c1] > 0 && f[c2] > 0
    requires l[c1] == l[c2]
    ensures Kraft(Merged(f, c1, c2), l', m) && Cost(Merged(f, c1, c2), l') == Cost(f, l) - f[c1] - f[c2]
  {
    var b := l[c1];
    var g := Merged(f, c1, c2);
    var c, s := Costs(f, l), Shares(f, l, m);
    assert forall i :: 0 <= i < SYMBOLS ==> s[i] >= 0;
    SumAtLeastTwo(s, c1, c2);
    assert s[c1] == s[c2] == Pow2(m - b);
    assert b > 0;
    l' := l[c1 := b - 1];
    var x, y := (f[c1] + f[c2]) * (b - 1), 2 * Pow2(m - b);
    assert Costs(g, l') == c[c1 := x][c2 := 0];
    SumUpdate(c, c1, x);
    SumUpdate(c[c1 := x], c2, 0);
    assert x == f[c1] * b + f[c2] * b - f[c1] - f[c2];
    assert Shares(g, l', m) == s[c1 := y][c2 := 0];
    SumUpdate(s, c1, y);
    SumUpdate(s[c1 := y], c2, 0);
  }

  /** No assignment of code lengths satisfying Kraft's inequality costs less. */
  lemma {:induction false} LowerBound(f: Counts, l: Lengths, m: nat)
    requires Kraft(f, l, m) && Sum(f) <= LIMIT
    ensures MergeCost(f) <= Cost(f, l)
    decreases Active(f)
  {
    forall i | 0 <= i < SYMBOLS
      ensures f[i] <= LIMIT
    {
      SumAtLeast(f, i);
    }
    var c1 := Pick(f, SYMBOLS, -1);
    var c2 := Pick(f, SYMBOLS, c1);
    PickLeast(f, SYMBOLS, -1);
    PickLeast(f, SYMBOLS, c1);
    if c1 < 0 || c2 < 0 {
      CostNonNegative(f, l);
    } else {
      var l1 := SmallestLongest(f, l, m, c1, c2);
      Level(f, l1, m, c1, c2);
      var l2 := Join(f, l1[c1 := l1[c2]], m, c1, c2);
      MergeActive(f, c1, c2);
      LowerBound(Merged(f, c1, c2), l2, m);
    }
  }

  lemma CostNonNegative(f: Counts, l: Lengths)
    ensures Cost(f, l) >= 0
  {
    forall i | 0 <= i < SYMBOLS
      ensures Costs(f, l)[i] >= 0
    {
      AtLeastZero(f[i], l[i]);
    }
    SumToNonNegative(Costs(f, l), SYMBOLS);
  }
}
