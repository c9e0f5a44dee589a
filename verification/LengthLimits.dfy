/** The second half of jpeg_gen_optimal_table: no code longer than 16 bits, no code of all
    ones, and the symbols in order. */
module LengthLimits {
  import opened Bytes
  import opened Arithmetic
  import opened Sums
  import opened CodeTable
  import opened OptimalCode
  import opened OptimalTable

  const MAX_CLEN := 32

  /** The number of symbols with each code length. */
  type LengthCounts = b: seq<int> | |b| == MAX_CLEN + 1 && forall k :: 0 <= k < |b| ==> b[k] >= 0
    witness seq(MAX_CLEN + 1, _ => 0)

  /** Conversion to UINT8. */
  function U8(x: int): byte
  {
    x % 256
  }

  /** The share of the unit interval taken by each length, in units of 2^-32. */
  function Terms(b: seq<int>): (s: seq<int>)
    requires |b| == MAX_CLEN + 1
    ensures |s| == MAX_CLEN + 1 && forall k :: 0 <= k <= MAX_CLEN ==> s[k] == b[k] * Pow2(MAX_CLEN - k)
  {
    seq(MAX_CLEN + 1, k requires 0 <= k <= MAX_CLEN => b[k] * Pow2(MAX_CLEN - k))
  }

  function KraftSum(b: seq<int>): int
    requires |b| == MAX_CLEN + 1
  {
    Sum(Terms(b))
  }

  lemma CountMore(b: seq<int>, k: nat, d: int)
    requires |b| == MAX_CLEN + 1 && k <= MAX_CLEN
    ensures KraftSum(b[k := b[k] + d]) == KraftSum(b) + d * Pow2(MAX_CLEN - k)
    ensures Sum(b[k := b[k] + d]) == Sum(b) + d
  {
    var p := Pow2(MAX_CLEN - k);
    assert (b[k] + d) * p == b[k] * p + d * p;
    assert Terms(b[k := b[k] + d]) == Terms(b)[k := (b[k] + d) * p];
    SumUpdate(Terms(b), k, (b[k] + d) * p);
    SumUpdate(b, k, b[k] + d);
  }

  /** A complete code of at most 255 symbols, none longer than i. */
  ghost predicate Complete(b: seq<int>, i: nat)
  {
    && |b| == MAX_CLEN + 1 && b[0] == 0 && (forall k :: 0 <= k <= MAX_CLEN ==> 0 <= b[k] <= 255)
    && (forall k :: i < k <= MAX_CLEN ==> b[k] == 0)
    && KraftSum(b) == Pow2(MAX_CLEN) && Sum(b) <= 255
  }

  /** Symbols are paired for the longest code. */
  lemma Paired(b: seq<int>, i: nat)
    requires Complete(b, i) && 1 <= i <= MAX_CLEN
    ensures b[i] % 2 == 0
  {
    hide Pow2, Shl, Sum, Terms;
    var p, d := Pow2(MAX_CLEN - i), Pow2(MAX_CLEN + 1 - i);
    var t := Terms(b)[i := 0];
    Pow2Next(MAX_CLEN - i);
    SumUpdate(Terms(b), i, 0);
    forall k | 0 <= k < |t|
      ensures t[k] >= 0 && t[k] % d == 0
    {
      if k < i {
        Pow2Divides(MAX_CLEN + 1 - i, MAX_CLEN - k);
        TimesMultiple(b[k], Pow2(MAX_CLEN - k), d);
      } else {
        assert t[k] == 0;
      }
    }
    SumDivides(t, d);
    Pow2Divides(MAX_CLEN + 1 - i, MAX_CLEN);
    EvenPart(b[i], p, Sum(t), Pow2(MAX_CLEN));
  }

  lemma SumDivides(t: seq<int>, d: nat)
    requires d > 0 && forall k :: 0 <= k < |t| ==> t[k] >= 0 && t[k] % d == 0
    ensures Sum(t) >= 0 && Sum(t) % d == 0
  {
    SumToDivides(t, |t|, d);
    SumToNonNegative(t, |t|);
  }

  lemma TimesMultiple(a: nat, x: nat, d: nat)
    requires d > 0 && x % d == 0
    ensures a * x >= 0 && (a * x) % d == 0
  {
    var q := x / d;
    assert x == q * d;
    assert a * (q * d) == (a * q) * d;
    MultipleOf(a * q, d);
  }

  lemma EvenPart(a: nat, p: nat, s: nat, y: nat)
    requires p > 0 && s % (2 * p) == 0 && y % (2 * p) == 0 && s + a * p == y
    ensures a % 2 == 0
  {
    var m, n := s / (2 * p), y / (2 * p);
    assert s == m * (2 * p) && y == n * (2 * p);
    assert m * (2 * p) == 2 * m * p && n * (2 * p) == 2 * n * p;
    var e := a - 2 * (n - m);
    assert e * p == a * p - 2 * n * p + 2 * m * p == 0;
    SmallMultiple(e, p, 0);
  }

  /** A code with lengths over 16 has some code at least two bits shorter: otherwise it
      would need over 2^15 symbols. */
  lemma ShorterExists(b: seq<int>, i: nat)
    requires Complete(b, i) && 17 <= i <= MAX_CLEN
    ensures exists k :: 1 <= k <= i - 2 && b[k] > 0
  {
    hide Sum, Pow2, Shl, Terms, KraftSum;
    if forall k :: 1 <= k <= i - 2 ==> b[k] == 0 {
      OnlyTwo(b, i);
      SumAtLeastTwo(b, i - 1, i);
      Pow2Monotone(MAX_CLEN + 1 - i, 16);
      Pow2Next(MAX_CLEN - i);
      Pow2Values();
      TooFew(b[i - 1], b[i], Pow2(MAX_CLEN + 1 - i), Pow2(MAX_CLEN - i));
      BigPower();
    }
  }

  lemma OnlyTwo(b: seq<int>, i: nat)
    requires |b| == MAX_CLEN + 1 && 1 <= i <= MAX_CLEN
    requires forall k :: 0 <= k <= MAX_CLEN && k != i && k != i - 1 ==> b[k] == 0
    ensures KraftSum(b) == b[i - 1] * Pow2(MAX_CLEN + 1 - i) + b[i] * Pow2(MAX_CLEN - i)
  {
    hide Pow2, Shl;
    var x, y := b[i - 1] * Pow2(MAX_CLEN + 1 - i), b[i] * Pow2(MAX_CLEN - i);
    var zero := seq(MAX_CLEN + 1, _ => 0);
    ZeroSum(MAX_CLEN + 1);
    assert Terms(b) == zero[i - 1 := x][i := y];
    SumUpdate(zero, i - 1, x);
    SumUpdate(zero[i - 1 := x], i, y);
  }

  lemma BigPower()
    ensures Pow2(MAX_CLEN) == 0x1_0000_0000
  {
    ShlShl(1, 16, 16);
    Pow2Values();
    ShlTimes(0x10000, 16);
  }

  lemma TooFew(x: nat, y: nat, q: nat, p: nat)
    requires x + y <= 255 && p <= q <= 0x10000
    ensures x * q + y * p <= 255 * 0x10000
  {
    Rearranged(0, y, p, q);
    assert x * q + y * q == (x + y) * q;
    Rearranged(x + y, 255, 0, q);
    Rearranged(0, 255, q, 0x10000);
  }

  /** Two codes of length i become a code of length i - 1 and room for one more below a
      code of length j. */
  function Moved(b: seq<int>, i: nat, j: nat): seq<int>
    requires |b| == MAX_CLEN + 1 && 1 <= j <= i - 2 && i <= MAX_CLEN
  {
    var b1 := b[i := b[i] - 2];
    var b2 := b1[i - 1 := b1[i - 1] + 1];
    var b3 := b2[j + 1 := b2[j + 1] + 2];
    b3[j := b3[j] - 1]
  }

  lemma MovedComplete(b: seq<int>, i: nat, j: nat)
    requires Complete(b, i) && 1 <= j <= i - 2 && i <= MAX_CLEN && b[i] >= 2 && b[j] > 0
    ensures Complete(Moved(b, i, j), i) && Sum(Moved(b, i, j)) == Sum(b) && Moved(b, i, j)[i] == b[i] - 2
  {
    hide Pow2, Shl, Sum, KraftSum;
    var b4 := Moved(b, i, j);
    MovedSums(b, i, j);
    assert forall k :: 0 <= k <= MAX_CLEN ==> b4[k] >= 0;
    forall k | 0 <= k <= MAX_CLEN
      ensures b4[k] <= 255
    {
      SumAtLeast(b4, k);
    }
  }

  lemma MovedSums(b: seq<int>, i: nat, j: nat)
    requires |b| == MAX_CLEN + 1 && 1 <= j <= i - 2 && i <= MAX_CLEN
    ensures KraftSum(Moved(b, i, j)) == KraftSum(b) && Sum(Moved(b, i, j)) == Sum(b)
  {
    hide Pow2, Shl, Sum, KraftSum;
    var b1 := b[i := b[i] - 2];
    var b2 := b1[i - 1 := b1[i - 1] + 1];
    var b3 := b2[j + 1 := b2[j + 1] + 2];
    CountMore(b, i, -2);
    CountMore(b1, i - 1, 1);
    CountMore(b2, j + 1, 2);
    CountMore(b3, j, -1);
    Pow2Next(MAX_CLEN - i);
    Pow2Next(MAX_CLEN - (j + 1));
  }

  /** The length of the new prefix: the next shorter one in use. */
  method NextShorter(bits: array<byte>, i: nat) returns (j: nat)
    requires bits.Length == MAX_CLEN + 1 && 17 <= i <= MAX_CLEN
    requires exists k :: 1 <= k <= i - 2 && bits[k] > 0
    ensures 1 <= j <= i - 2 && bits[j] > 0 && forall k :: j < k <= i - 2 ==> bits[k] == 0
  {
    j := i - 2;
    while bits[j] == 0
      invariant 1 <= j <= i - 2 && forall k :: j < k <= i - 2 ==> bits[k] == 0
      decreases j
    {
      j := j - 1;
    }
  }

  method MovePair(bits: array<byte>, i: nat, j: nat)
    requires bits.Length == MAX_CLEN + 1 && 1 <= j <= i - 2 && i <= MAX_CLEN
    requires Complete(bits[..], i) && bits[i] >= 2 && bits[j] > 0
    modifies bits
    ensures bits[..] == Moved(old(bits[..]), i, j)
  {
    hide Complete, Sum, KraftSum;
    ghost var b := bits[..];
    InRange(b, i, j);
    assert 0 <= Moved(b, i, j)[j + 1] <= 255 && 0 <= Moved(b, i, j)[j] <= 255;
    Add(bits, i, -2);
    Add(bits, i - 1, 1);
    Add(bits, j + 1, 2);
    Add(bits, j, -1);
  }

  /** No count wraps around on the way. */
  lemma InRange(b: seq<int>, i: nat, j: nat)
    requires Complete(b, i) && 1 <= j <= i - 2 && i <= MAX_CLEN && b[i] >= 2 && b[j] > 0
    ensures b[i - 1] + 1 <= 255 && forall k :: 0 <= k <= MAX_CLEN ==> 0 <= Moved(b, i, j)[k] <= 255
  {
    MovedComplete(b, i, j);
    SumAtLeastTwo(b, i, i - 1);
  }

  method Add(bits: array<byte>, k: nat, d: int)
    requires k < bits.Length && 0 <= (bits[k] as int) + d <= 255
    modifies bits
    ensures bits[..] == old(bits[..])[k := (old(bits[k]) as int) + d]
  {
    var x: int := bits[k];
    bits[k] := U8(x + d);
  }

  // ----- what limiting costs

  /** Another code for as many symbols, limited to 16 bits, with the same counts of the
      lengths below m. */
  ghost predicate Rival(c: seq<int>, b: seq<int>, m: nat)
    requires |b| == MAX_CLEN + 1 && m <= MAX_CLEN
  {
    && |c| == MAX_CLEN + 1 && (forall k :: 0 <= k <= MAX_CLEN ==> c[k] >= 0)
    && (forall k :: MAX_LENGTH < k <= MAX_CLEN ==> c[k] == 0)
    && KraftSum(c) <= Pow2(MAX_CLEN) && Sum(c) == Sum(b) && c[..m] == b[..m]
  }

  /** The codes shorter than m are those of b0, and no limited code that has these has more
      codes of length m. */
  ghost predicate KeptBelow(b0: seq<int>, b: seq<int>, m: nat)
    requires |b0| == |b| == MAX_CLEN + 1 && m <= MAX_CLEN
  {
    && b[..m] == b0[..m] && b[m] < b0[m]
    && forall c :: Rival(c, b, m) ==> c[m] <= b[m]
  }

  /** Codes are lengthened only if they have to be: nothing changes, or there are as many codes
      of the shortest length that changes as can be. */
  ghost predicate ShortKept(b0: seq<int>, b: seq<int>)
    requires |b0| == |b| == MAX_CLEN + 1
  {
    b == b0 || exists m :: 0 <= m <= MAX_CLEN && KeptBelow(b0, b, m)
  }

  /** A pair of codes longer than 16 needs room below a code of length j if there are no codes
      of the lengths between. */
  lemma RoomNeeded(b: seq<int>, i: nat, j: nat, c: seq<int>)
    requires Complete(b, i) && 17 <= i <= MAX_CLEN && b[i] > 0 && 1 <= j <= i - 2
    requires (forall k :: j < k <= i - 2 ==> b[k] == 0) && Rival(c, b, j)
    ensures c[j] <= b[j] - 1 || j > MAX_LENGTH
  {
    hide Pow2, Sum, KraftSum, Weighted, Shl;
    if c[j] >= b[j] && j <= MAX_LENGTH {
      forall k | 0 <= k <= MAX_CLEN
        ensures Weighted(c)[k] >= Weighted(b)[k]
        ensures k == i ==> Weighted(c)[k] > Weighted(b)[k]
      {
        if k < j {
          assert c[k] == c[..j][k] == b[..j][k] == b[k];
        }
        WeightedAbove(c, b, k);
      }
      SumAbove(Weighted(c), Weighted(b), i);
      WeightedSum(b);
      WeightedSum(c);
    }
  }

  /** The share of each length above what its codes would take with 16 bits. */
  function Weighted(b: seq<int>): (s: seq<int>)
    requires |b| == MAX_CLEN + 1
    ensures |s| == MAX_CLEN + 1
  {
    seq(MAX_CLEN + 1, k requires 0 <= k <= MAX_CLEN => b[k] * (Pow2(MAX_CLEN - k) - 0x10000))
  }

  lemma WeightedAbove(c: seq<int>, b: seq<int>, k: nat)
    requires |b| == |c| == MAX_CLEN + 1 && k <= MAX_CLEN
    requires if k < MAX_LENGTH then c[k] >= b[k] else k > MAX_LENGTH ==> c[k] == 0 && b[k] >= 0
    ensures Weighted(c)[k] >= Weighted(b)[k]
    ensures k > MAX_LENGTH && b[k] > 0 ==> Weighted(c)[k] > Weighted(b)[k]
  {
    Pow2Values();
    var w := Pow2(MAX_CLEN - k) - 0x10000;
    if k < MAX_LENGTH {
      Pow2Monotone(16, MAX_CLEN - k);
      Grows(b[k], c[k], w);
    } else if k > MAX_LENGTH {
      Pow2Monotone(MAX_CLEN - k, 15);
      Falls(b[k], w);
    }
  }

  lemma Falls(x: int, w: int)
    requires x >= 0 && w < 0
    ensures x * w <= 0 && (x > 0 ==> x * w < 0)
  {
  }

  lemma Grows(x: int, y: int, w: int)
    requires x <= y && w >= 0
    ensures x * w <= y * w
  {
  }

  lemma WeightedSum(b: seq<int>)
    requires |b| == MAX_CLEN + 1
    ensures Sum(Weighted(b)) == KraftSum(b) - 0x10000 * Sum(b)
  {
    hide Pow2;
    var t := Terms(b);
    var s := Weighted(b);
    for n := 0 to MAX_CLEN + 1
      invariant SumTo(s, n) == SumTo(t, n) - 0x10000 * SumTo(b, n)
    {
      assert s[n] == t[n] - 0x10000 * b[n];
    }
  }

  lemma SumAbove(s: seq<int>, t: seq<int>, i: nat)
    requires i < |s| == |t| && s[i] > t[i] && forall k :: 0 <= k < |s| ==> s[k] >= t[k]
    ensures Sum(s) > Sum(t)
  {
    for n := 0 to |s|
      invariant SumTo(s, n) >= SumTo(t, n) && (n > i ==> SumTo(s, n) > SumTo(t, n))
    {
    }
  }

  /** One step keeps the short codes. */
  lemma PairKept(b0: seq<int>, b: seq<int>, i: nat, j: nat)
    requires |b0| == |b| == MAX_CLEN + 1 && Complete(b, i) && 17 <= i <= MAX_CLEN && b[i] >= 2 && 1 <= j <= i - 2
    requires b[j] > 0 && (forall k :: j < k <= i - 2 ==> b[k] == 0) && ShortKept(b0, b)
    ensures ShortKept(b0, Moved(b, i, j))
  {
    hide Complete, Sum, KraftSum;
    var b' := Moved(b, i, j);
    MovedSums(b, i, j);
    assert b'[..j] == b[..j] && b'[j] == b[j] - 1;
    var m := MAX_CLEN;
    if b != b0 {
      m :| 0 <= m <= MAX_CLEN && KeptBelow(b0, b, m);
    }
    if b != b0 && m < j {
      assert b'[..m] == b'[..j][..m] == b[..j][..m] == b[..m];
      assert b'[m] == b'[..j][m] == b[..j][m];
      assert forall c :: Rival(c, b', m) ==> Rival(c, b, m);
      assert KeptBelow(b0, b', m);
    } else {
      assert b[..j] == b0[..j] by {
        if b != b0 {
          assert b[..j] == b[..m][..j] && b0[..j] == b0[..m][..j];
        }
      }
      assert b[j] <= b0[j] by {
        if b != b0 && j < m {
          assert b[j] == b[..m][j] == b0[..m][j];
        }
      }
      forall c | Rival(c, b', j)
        ensures c[j] <= b'[j]
      {
        assert Rival(c, b, j);
        RoomNeeded(b, i, j, c);
      }
      assert KeptBelow(b0, b', j);
    }
  }

  /** Adjusts the lengths until none is over 16. */
  method LimitLengths(bits: array<byte>)
    requires bits.Length == MAX_CLEN + 1 && Complete(bits[..], MAX_CLEN)
    modifies bits
    ensures Complete(bits[..], MAX_LENGTH) && Sum(bits[..]) == Sum(old(bits[..]))
    ensures ShortKept(old(bits[..]), bits[..])
    ensures (forall k :: MAX_LENGTH < k <= MAX_CLEN ==> old(bits[k]) == 0) ==> bits[..] == old(bits[..])
  {
    hide ShortKept, Complete, Sum, KraftSum, Moved;
    ghost var b0 := bits[..];
    NothingMoved(b0);
    var i := MAX_CLEN;
    while i > 16
      invariant 16 <= i <= MAX_CLEN && Complete(bits[..], i) && Sum(bits[..]) == Sum(b0) && ShortKept(b0, bits[..])
      invariant (forall k :: MAX_LENGTH < k <= MAX_CLEN ==> b0[k] == 0) ==> bits[..] == b0
    {
      while bits[i] > 0
        invariant Complete(bits[..], i) && Sum(bits[..]) == Sum(b0) && ShortKept(b0, bits[..])
        invariant (forall k :: MAX_LENGTH < k <= MAX_CLEN ==> b0[k] == 0) ==> bits[..] == b0
        decreases bits[i]
      {
        Paired(bits[..], i);
        ShorterExists(bits[..], i);
        var j := NextShorter(bits, i);
        MovedComplete(bits[..], i, j);
        PairKept(b0, bits[..], i, j);
        MovePair(bits, i, j);
      }
      NoneOfThem(bits[..], i);
      i := i - 1;
    }
  }

  lemma NoneOfThem(b: seq<int>, i: nat)
    requires 0 < i <= MAX_CLEN && Complete(b, i) && b[i] == 0
    ensures Complete(b, i - 1)
  {
  }

  lemma NothingMoved(b: seq<int>)
    requires |b| == MAX_CLEN + 1
    ensures ShortKept(b, b)
  {
  }

  // ----- counting the lengths

  /** How many of the first n symbols have length k. */
  function CountOf(cs: seq<nat>, k: nat, n: nat): nat
    requires n <= |cs|
  {
    if n == 0 then 0 else CountOf(cs, k, n - 1) + if cs[n - 1] == k then 1 else 0
  }

  /** The counts of the first n symbols; symbols of length 0 have no code. */
  function CountsTo(cs: Lengths, n: nat): (b: seq<int>)
    requires n <= SYMBOLS
    ensures |b| == MAX_CLEN + 1 && forall k :: 0 <= k <= MAX_CLEN ==> b[k] == if k == 0 then 0 else CountOf(cs, k, n)
  {
    seq(MAX_CLEN + 1, k requires 0 <= k <= MAX_CLEN => if k == 0 then 0 else CountOf(cs, k, n))
  }

  lemma CountsNext(cs: Lengths, n: nat)
    requires n < SYMBOLS && cs[n] <= MAX_CLEN
    ensures CountsTo(cs, n + 1) == if cs[n]
      == 0 then CountsTo(cs, n) else CountsTo(cs, n)[cs[n] := CountsTo(cs, n)[cs[n]] + 1]
  {
  }

  /** The number of symbols with a code is that of symbols in use, and their lengths make up
      a complete code. */
  lemma {:induction false} CountsComplete(f0: Counts, cs: Lengths, n: nat)
    requires n <= SYMBOLS && forall s :: 0 <= s < SYMBOLS ==> cs[s] <= MAX_CLEN && (f0[s] > 0 <==> cs[s] > 0)
    ensures KraftSum(CountsTo(cs, n)) == SumTo(Shares(f0, cs, MAX_CLEN), n)
    ensures Sum(CountsTo(cs, n)) == SumTo(Present(f0), n)
  {
    hide KraftSum;
    if n == 0 {
      var zero := seq(MAX_CLEN + 1, _ => 0);
      assert CountsTo(cs, 0) == zero;
      ZeroSum(MAX_CLEN + 1);
      NoCounts(zero);
    } else {
      CountsComplete(f0, cs, n - 1);
      CountsNext(cs, n - 1);
      if cs[n - 1] > 0 {
        CountMore(CountsTo(cs, n - 1), cs[n - 1], 1);
      }
    }
  }

  lemma NoCounts(b: seq<int>)
    requires |b| == MAX_CLEN + 1 && forall k :: 0 <= k <= MAX_CLEN ==> b[k] == 0
    ensures KraftSum(b) == 0
  {
    ZeroSumTo(Terms(b), MAX_CLEN + 1);
  }

  /** Shares in larger units. */
  lemma {:induction false} Rescaled(f: Counts, l: Lengths, m: nat, k: nat)
    requires forall s :: 0 <= s < SYMBOLS ==> l[s] <= m
    ensures Sum(Shares(f, l, m)) >= 0 && Sum(Shares(f, l, m + k)) == Shl(Sum(Shares(f, l, m)), k)
  {
    if k == 0 {
      SumToNonNegative(Shares(f, l, m), SYMBOLS);
    } else {
      Rescaled(f, l, m, k - 1);
      var s, t := Shares(f, l, m + k), Shares(f, l, m + k - 1);
      SumAdds(s, t, t);
    }
  }

  lemma {:induction false} ShlInjective(x: nat, y: nat, k: nat)
    requires Shl(x, k) == Shl(y, k)
    ensures x == y
  {
    if k > 0 {
      ShlInjective(x, y, k - 1);
    }
  }

  /** With a real symbol in use, every symbol in use has a code. */
  lemma CodesGiven(f0: Counts, cs: Lengths, r: nat)
    requires Optimal(f0, cs) && r < SYMBOLS - 1 && f0[r] > 0 && f0[SYMBOLS - 1] > 0
    ensures forall s :: 0 <= s < SYMBOLS ==> (f0[s] > 0 <==> cs[s] > 0)
  {
    forall s | 0 <= s < SYMBOLS && f0[s] > 0
      ensures cs[s] > 0
    {
      var other := if s == r then SYMBOLS - 1 else r;
      SumAtLeastTwo(Shares(f0, cs, SYMBOLS), s, other);
    }
  }

  /** The counted lengths of an optimal code are complete. */
  lemma OptimalComplete(f0: Counts, cs: Lengths, r: nat)
    requires Optimal(f0, cs) && r < SYMBOLS - 1 && f0[r] > 0 && f0[SYMBOLS - 1] > 0
    requires Active(f0) <= 255 && forall s :: 0 <= s < SYMBOLS ==> cs[s] <= MAX_CLEN
    ensures Complete(CountsTo(cs, SYMBOLS), MAX_CLEN) && Sum(CountsTo(cs, SYMBOLS)) == Active(f0)
  {
    CodesGiven(f0, cs, r);
    CountsComplete(f0, cs, SYMBOLS);
    Rescaled(f0, cs, MAX_CLEN, SYMBOLS - MAX_CLEN);
    ShlShl(1, MAX_CLEN, SYMBOLS - MAX_CLEN);
    ShlInjective(Sum(Shares(f0, cs, MAX_CLEN)), Pow2(MAX_CLEN), SYMBOLS - MAX_CLEN);
    var b := CountsTo(cs, SYMBOLS);
    forall k | 0 <= k <= MAX_CLEN
      ensures b[k] <= 255
    {
      SumAtLeast(b, k);
    }
  }

  lemma {:induction false} CountsBounded(cs: Lengths, k: nat, n: nat)
    requires n <= SYMBOLS
    ensures CountOf(cs, k, n) <= CountOf(cs, k, SYMBOLS)
    decreases SYMBOLS - n
  {
    if n < SYMBOLS {
      CountsBounded(cs, k, n + 1);
    }
  }

  /** Counts the number of symbols of each code length; fails on lengths over 32. */
  method CountLengths(codesize: array<nat>) returns (ok: bool, bits: array<byte>)
    requires codesize.Length == SYMBOLS
    requires forall k :: 1 <= k <= MAX_CLEN ==> CountOf(codesize[..], k, SYMBOLS) <= 255
    ensures fresh(bits) && bits.Length == MAX_CLEN + 1
    ensures ok <==> forall s :: 0 <= s < SYMBOLS ==> codesize[s] <= MAX_CLEN
    ensures ok ==> bits[..] == CountsTo(codesize[..], SYMBOLS)
  {
    bits := new byte[MAX_CLEN + 1](k => 0);
    ghost var cs := codesize[..];
    for i := 0 to SYMBOLS
      invariant forall s :: 0 <= s < i ==> codesize[s] <= MAX_CLEN
      invariant bits[..] == CountsTo(cs, i)
    {
      if codesize[i] != 0 {
        if codesize[i] > MAX_CLEN {
          return false, bits;
        }
        CountsNext(cs, i);
        CountsBounded(cs, codesize[i], i + 1);
        Add(bits, codesize[i], 1);
      }
    }
    ok := true;
  }

  /** Removes the pseudo-symbol from the largest length still in use. */
  method DropPseudo(bits: array<byte>) returns (i: nat)
    requires bits.Length == MAX_CLEN + 1 && Complete(bits[..], MAX_LENGTH)
    modifies bits
    ensures 1 <= i <= MAX_LENGTH && old(bits[i]) > 0 && forall k :: i < k <= MAX_CLEN ==> old(bits[k]) == 0
    ensures bits[..] == old(bits[..])[i := old(bits[i]) - 1]
  {
    InUse(bits[..]);
    i := MAX_LENGTH;
    while bits[i] == 0
      invariant 1 <= i <= MAX_LENGTH && forall k :: i < k <= MAX_CLEN ==> bits[k] == 0
      decreases i
    {
      i := i - 1;
    }
    Add(bits, i, -1);
  }

  lemma InUse(b: seq<int>)
    requires Complete(b, MAX_LENGTH)
    ensures exists k :: 1 <= k <= MAX_LENGTH && b[k] > 0
  {
    if forall k :: 1 <= k <= MAX_LENGTH ==> b[k] == 0 {
      NoCounts(b);
    }
  }

  // ----- the symbols in order

  /** The real symbols below n of code size k. */
  function OfLength(cs: Lengths, k: nat, n: nat): (r: seq<byte>)
    requires n <= 256
    ensures |r| == CountOf(cs, k, n)
  {
    if n == 0 then [] else OfLength(cs, k, n - 1) + if cs[n - 1] == k then [n - 1] else []
  }

  /** The real symbols with code sizes 1 to k, by size and then by value. */
  function InOrder(cs: Lengths, k: nat): seq<byte>
  {
    if k == 0 then [] else InOrder(cs, k - 1) + OfLength(cs, k, 256)
  }

  lemma {:induction false} OfLengthMembers(cs: Lengths, k: nat, n: nat)
    requires n <= 256
    ensures forall s: byte :: s in OfLength(cs, k, n) <==> s < n && cs[s] == k
    ensures forall i, j :: 0 <= i < j < |OfLength(cs, k, n)| ==> OfLength(cs, k, n)[i] != OfLength(cs, k, n)[j]
  {
    if n > 0 {
      OfLengthMembers(cs, k, n - 1);
      var r, q := OfLength(cs, k, n - 1), OfLength(cs, k, n);
      assert forall i :: 0 <= i < |r| ==> r[i] in r && q[i] == r[i];
    }
  }

  lemma {:induction false} InOrderMembers(cs: Lengths, k: nat)
    ensures forall s: byte :: s in InOrder(cs, k) <==> 1 <= cs[s] <= k
    ensures forall i, j :: 0 <= i < j < |InOrder(cs, k)| ==> InOrder(cs, k)[i] != InOrder(cs, k)[j]
  {
    if k > 0 {
      InOrderMembers(cs, k - 1);
      OfLengthMembers(cs, k, 256);
      var a, b, c := InOrder(cs, k - 1), OfLength(cs, k, 256), InOrder(cs, k);
      forall i, j | 0 <= i < j < |c|
        ensures c[i] != c[j]
      {
        if i < |a| {
          assert c[i] == a[i] && a[i] in a;
          if j >= |a| {
            assert c[j] == b[j - |a|] && b[j - |a|] in b;
          }
        } else {
          assert c[i] == b[i - |a|] && c[j] == b[j - |a|];
        }
      }
    }
  }

  /** Up to each size, all symbols are real but for the pseudo-symbol. */
  lemma {:induction false} InOrderCount(cs: Lengths, k: nat)
    requires k <= MAX_CLEN
    ensures |InOrder(cs, k)| + (if 1 <= cs[SYMBOLS - 1] <= k then 1 else 0) == SumTo(CountsTo(cs, SYMBOLS), k + 1)
  {
    if k == 0 {
      assert SumTo(CountsTo(cs, SYMBOLS), 1) == SumTo(CountsTo(cs, SYMBOLS), 0) + CountsTo(cs, SYMBOLS)[0];
    } else {
      InOrderCount(cs, k - 1);
      assert CountOf(cs, k, SYMBOLS) == CountOf(cs, k, 256) + if cs[SYMBOLS - 1] == k then 1 else 0;
    }
  }

  lemma {:induction false} InOrderPrefix(cs: Lengths, k: nat, m: nat)
    requires k <= m
    ensures InOrder(cs, k) <= InOrder(cs, m)
    decreases m
  {
    if k < m {
      InOrderPrefix(cs, k, m - 1);
    }
  }

  lemma {:induction false} OfLengthPrefix(cs: Lengths, k: nat, n: nat)
    requires n <= 256
    ensures OfLength(cs, k, n) <= OfLength(cs, k, 256)
    decreases 256 - n
  {
    if n < 256 {
      OfLengthPrefix(cs, k, n + 1);
    }
  }

  /** The list of the symbols sorted by code length. */
  method ListSymbols(codesize: array<nat>) returns (huffval: seq<byte>, p: nat)
    requires codesize.Length == SYMBOLS && |InOrder(codesize[..], MAX_CLEN)| <= 256
    ensures |huffval| == 256 && p == |InOrder(codesize[..], MAX_CLEN)| && huffval[..p]
      == InOrder(codesize[..], MAX_CLEN)
  {
    var values := new byte[256](i => 0);
    ghost var cs := codesize[..];
    p := 0;
    for i := 1 to MAX_CLEN + 1
      invariant p == |InOrder(cs, i - 1)| <= 256 && values[..p] == InOrder(cs, i - 1)
    {
      InOrderPrefix(cs, i, MAX_CLEN);
      for j := 0 to 256
        invariant p == |InOrder(cs, i - 1)| + |OfLength(cs, i, j)| <= 256
        invariant values[..p] == InOrder(cs, i - 1) + OfLength(cs, i, j)
      {
        OfLengthPrefix(cs, i, j + 1);
        if codesize[j] == i {
          values[p] := j;
          p := p + 1;
        }
      }
    }
    huffval := values[..];
  }

  // ----- the table

  /** Codes of one length next to each other. */
  lemma {:induction false} AreaBlock(s: seq<nat>, p: nat, j: nat, l: nat)
    requires p + j <= |s| && (forall q :: 0 <= q < |s| ==> s[q] <= MAX_LENGTH) && l <= MAX_LENGTH
    requires forall q :: p <= q < p + j ==> s[q] == l
    ensures Area(s, p + j) == Area(s, p) + j * Pow2(MAX_LENGTH - l)
  {
    if j > 0 {
      AreaBlock(s, p, j - 1, l);
      assert (j - 1) * Pow2(MAX_LENGTH - l) + Pow2(MAX_LENGTH - l) == j * Pow2(MAX_LENGTH - l);
    }
  }

  /** The area of a table is the Kraft sum of its counts. */
  lemma {:induction false} TableArea(t: HuffTable, b: seq<int>, l: nat)
    requires |b| == MAX_CLEN + 1 && l <= MAX_LENGTH && b[0] == 0 && forall k :: 1 <= k <= MAX_LENGTH ==>
      b[k] == t.bits[k]
    ensures Offset(t, l) <= |Sizes(t)| && Offset(t, l) == SumTo(b, l + 1)
    ensures Shl(Area(Sizes(t), Offset(t, l)), 16) == SumTo(Terms(b), l + 1)
  {
    hide Shl, Area, SizesTo, Pow2, Terms, SumTo;
    if l == 0 {
      FirstRow(t, b);
    } else {
      TableArea(t, b, l - 1);
      BlockAt(t, l);
      TermOf(b, l, Area(Sizes(t), Offset(t, l - 1)));
    }
  }

  lemma TermOf(b: seq<int>, l: nat, a: nat)
    requires |b| == MAX_CLEN + 1 && 1 <= l <= MAX_LENGTH && b[l] >= 0
    ensures SumTo(b, l + 1) == SumTo(b, l) + b[l]
    ensures Shl(a + b[l] * Pow2(MAX_LENGTH - l), 16) == Shl(a, 16) + Terms(b)[l]
    ensures SumTo(Terms(b), l + 1) == SumTo(Terms(b), l) + Terms(b)[l]
  {
    hide Shl, Pow2;
    var n, u := b[l], Pow2(MAX_LENGTH - l);
    ShlAdd(a, n * u, 16);
    ShlTimes(n * u, 16);
    Pow2Shift(MAX_LENGTH - l, 16);
    assert n * u * Pow2(16) == n * (u * Pow2(16));
  }

  lemma Pow2Shift(n: nat, k: nat)
    ensures Pow2(n + k) == Pow2(n) * Pow2(k)
  {
    ShlShl(1, n, k);
    ShlTimes(Pow2(n), k);
  }

  lemma FirstRow(t: HuffTable, b: seq<int>)
    requires |b| == MAX_CLEN + 1 && b[0] == 0
    ensures Offset(t, 0) == 0 && SumTo(b, 1) == 0 && SumTo(Terms(b), 1) == 0
    ensures Shl(Area(Sizes(t), 0), 16) == 0
  {
    ShlTimes(0, 16);
    assert Terms(b)[0] == 0 * Pow2(MAX_CLEN);
    assert SumTo(Terms(b), 1) == SumTo(Terms(b), 0) + Terms(b)[0];
    assert SumTo(b, 1) == SumTo(b, 0) + b[0];
  }

  lemma BlockAt(t: HuffTable, l: nat)
    requires 1 <= l <= MAX_LENGTH
    ensures Offset(t, l) == Offset(t, l - 1) + t.bits[l] <= |Sizes(t)|
    ensures Area(Sizes(t), Offset(t, l)) == Area(Sizes(t), Offset(t, l - 1)) + t.bits[l] * Pow2(MAX_LENGTH - l)
  {
    SizesPrefix(t, l, MAX_LENGTH);
    forall q | Offset(t, l - 1) <= q < Offset(t, l)
      ensures Sizes(t)[q] == l
    {
      SizeAt(t, l, q);
    }
    AreaBlock(Sizes(t), Offset(t, l - 1), t.bits[l], l);
  }

  /** Symbols r and s in the order of the list: by optimal length, and then by value. */
  predicate Precedes(cs: Lengths, r: byte, s: byte)
  {
    cs[r] < cs[s] || (cs[r] == cs[s] && r < s)
  }

  ghost predicate Sorted(cs: Lengths, l: seq<byte>)
  {
    forall p, q :: 0 <= p < q < |l| ==> Precedes(cs, l[p], l[q])
  }

  lemma {:induction false} OfLengthSorted(cs: Lengths, k: nat, n: nat)
    requires n <= 256
    ensures Sorted(cs, OfLength(cs, k, n))
  {
    if n > 0 {
      OfLengthSorted(cs, k, n - 1);
      OfLengthMembers(cs, k, n - 1);
      var r := OfLength(cs, k, n - 1);
      assert forall i :: 0 <= i < |r| ==> r[i] in r;
    }
  }

  lemma {:induction false} InOrderSorted(cs: Lengths, k: nat)
    ensures Sorted(cs, InOrder(cs, k))
  {
    hide OfLength;
    if k > 0 {
      InOrderSorted(cs, k - 1);
      InOrderMembers(cs, k - 1);
      OfLengthSorted(cs, k, 256);
      OfLengthMembers(cs, k, 256);
      var a, b := InOrder(cs, k - 1), OfLength(cs, k, 256);
      assert forall i :: 0 <= i < |a| ==> a[i] in a;
      assert forall i :: 0 <= i < |b| ==> b[i] in b;
    }
  }

  /** The counts b of a complete code, one code of the greatest length left out. */
  ghost predicate LessLongest(t: HuffTable, b: seq<int>, longest: nat)
  {
    && Complete(b, MAX_LENGTH) && 1 <= longest <= MAX_LENGTH && b[longest] > 0
    && (forall k :: longest < k <= MAX_LENGTH ==> b[k] == 0)
    && forall k :: 1 <= k <= MAX_LENGTH ==> t.bits[k] == if k == longest then b[k] - 1 else b[k]
  }

  /** A table for the counts f0: acceptable to both jpeg_make routines, with exactly one
      code for every real symbol in use and none for the others, symbols of shorter optimal
      length first; the counts are those of the optimal lengths but where short codes cannot
      be kept; and if no length had to be limited, no code is longer than the optimal one. */
  ghost predicate TableFor(f0: Counts, cs: Lengths, t: HuffTable)
  {
    && CountsOk(t) && SymbolsOk(t, false)
    && (forall s: byte :: f0[s] > 0 <==> s in t.huffval[..|Sizes(t)|])
    && Sorted(cs, t.huffval[..|Sizes(t)|])
    && (exists b, longest :: LessLongest(t, b, longest) && ShortKept(CountsTo(cs, SYMBOLS), b))
    && ((forall s :: 0 <= s < SYMBOLS ==> cs[s] <= MAX_LENGTH) ==>
          forall p :: 0 <= p < |Sizes(t)| ==> Sizes(t)[p] <= cs[t.huffval[p]])
  }

  lemma TableIsFor(f0: Counts, cs: Lengths, t: HuffTable, b: seq<int>, longest: nat)
    requires forall s :: 0 <= s < SYMBOLS ==> cs[s] <= MAX_CLEN && (f0[s] > 0 <==> cs[s] > 0)
    requires f0[SYMBOLS - 1] > 0 && Sum(b) == Sum(CountsTo(cs, SYMBOLS))
    requires Complete(b, MAX_LENGTH) && 1 <= longest <= MAX_LENGTH && b[longest] > 0
    requires forall k :: longest < k <= MAX_CLEN ==> b[k] == 0
    requires (forall k :: MAX_LENGTH < k <= MAX_CLEN ==> CountsTo(cs, SYMBOLS)[k] == 0) ==> b == CountsTo(cs, SYMBOLS)
    requires forall k :: 1 <= k <= MAX_LENGTH ==> t.bits[k] == if k == longest then b[k] - 1 else b[k]
    requires |InOrder(cs, MAX_CLEN)| <= 256 && t.huffval[..|InOrder(cs, MAX_CLEN)|] == InOrder(cs, MAX_CLEN)
    requires ShortKept(CountsTo(cs, SYMBOLS), b)
    ensures TableFor(f0, cs, t)
  {
    hide Area, SizesTo, Complete, InOrder, CountsTo, Sorted, ShortKept;
    assert LessLongest(t, b, longest);
    DroppedCounts(t, b, longest);
    InOrderCount(cs, MAX_CLEN);
    assert |Sizes(t)| == |InOrder(cs, MAX_CLEN)|;
    InOrderMembers(cs, MAX_CLEN);
    InOrderSorted(cs, MAX_CLEN);
    var listed := t.huffval[..|Sizes(t)|];
    assert forall p :: 0 <= p < |Sizes(t)| ==> t.huffval[p] == listed[p];
    if forall s :: 0 <= s < SYMBOLS ==> cs[s] <= MAX_LENGTH {
      forall k | MAX_LENGTH < k <= MAX_CLEN
        ensures CountsTo(cs, SYMBOLS)[k] == 0
      {
        NoneOfLength(cs, k, SYMBOLS);
      }
      forall p | 0 <= p < |Sizes(t)|
        ensures Sizes(t)[p] <= cs[t.huffval[p]]
      {
        assert listed[p] in listed;
        Among(cs, cs[t.huffval[p]], p);
        NotLonger(cs, t, longest, cs[t.huffval[p]], p);
      }
    }
  }

  lemma {:induction false} NoneOfLength(cs: Lengths, k: nat, n: nat)
    requires n <= SYMBOLS && forall s :: 0 <= s < SYMBOLS ==> cs[s] != k
    ensures CountOf(cs, k, n) == 0
  {
    if n > 0 {
      NoneOfLength(cs, k, n - 1);
    }
  }

  /** Counts without the pseudo-symbol leave room on the unit interval. */
  lemma DroppedCounts(t: HuffTable, b: seq<int>, longest: nat)
    requires Complete(b, MAX_LENGTH) && 1 <= longest <= MAX_LENGTH && b[longest] > 0
    requires forall k :: 1 <= k <= MAX_LENGTH ==> t.bits[k] == if k == longest then b[k] - 1 else b[k]
    ensures CountsOk(t) && |Sizes(t)| == Sum(b) - 1
    ensures forall l :: 0 <= l <= MAX_LENGTH ==> Offset(t, l) == SumTo(b, l + 1) - (if longest <= l then 1 else 0)
  {
    hide Area, SizesTo, Shl, Pow2, Terms;
    var d := b[longest := b[longest] - 1];
    CountMore(b, longest, -1);
    TableArea(t, d, MAX_LENGTH);
    ZeroTail(d, MAX_LENGTH + 1, MAX_CLEN + 1);
    ZeroTerms(d);
    ShlShl(1, 16, 16);
    RoomLeft(t);
    forall l | 0 <= l <= MAX_LENGTH
      ensures Offset(t, l) == SumTo(b, l + 1) - (if longest <= l then 1 else 0)
    {
      TableArea(t, d, l);
      SumToUpdate(b, l + 1, longest, b[longest] - 1);
    }
  }

  lemma ZeroTerms(d: seq<int>)
    requires |d| == MAX_CLEN + 1 && forall k :: MAX_LENGTH < k <= MAX_CLEN ==> d[k] == 0
    ensures KraftSum(d) == SumTo(Terms(d), MAX_LENGTH + 1)
  {
    ZeroTail(Terms(d), MAX_LENGTH + 1, MAX_CLEN + 1);
  }

  lemma RoomLeft(t: HuffTable)
    requires Offset(t, MAX_LENGTH) == |Sizes(t)|
    ensures Shl(Total(t), 16) < Pow2(MAX_CLEN) ==> Total(t) < Pow2(MAX_LENGTH)
  {
    hide Area, SizesTo;
    ShlShl(1, 16, 16);
    ShlOrder(Total(t), Pow2(16), 16);
  }

  /** With no length limited, a place among the symbols of size up to k gives a code no
      longer than k. */
  lemma NotLonger(cs: Lengths, t: HuffTable, longest: nat, k: nat, p: nat)
    requires 1 <= longest <= MAX_LENGTH && 1 <= k <= MAX_LENGTH && 1 <= cs[SYMBOLS - 1] <= MAX_CLEN
    requires forall j :: longest < j <= MAX_CLEN ==> CountsTo(cs, SYMBOLS)[j] == 0
    requires Offset(t, k) == SumTo(CountsTo(cs, SYMBOLS), k + 1) - (if longest <= k then 1 else 0)
    requires p < |Sizes(t)| && p < |InOrder(cs, k)|
    ensures Sizes(t)[p] <= k
  {
    hide SizesTo;
    InOrderCount(cs, k);
    CountOfAtLeast(cs, cs[SYMBOLS - 1], SYMBOLS - 1);
    var last := CountsTo(cs, SYMBOLS)[cs[SYMBOLS - 1]];
    SizeAt(t, k, p);
  }

  /** What is no longer than k is listed among the symbols of size up to k. */
  lemma Among(cs: Lengths, k: nat, p: nat)
    requires p < |InOrder(cs, MAX_CLEN)| && 1 <= cs[InOrder(cs, MAX_CLEN)[p]] <= k <= MAX_CLEN
    ensures p < |InOrder(cs, k)|
  {
    InOrderPrefix(cs, k, MAX_CLEN);
    InOrderMembers(cs, k);
    InOrderMembers(cs, MAX_CLEN);
    var a, c := InOrder(cs, k), InOrder(cs, MAX_CLEN);
    assert c[p] in a;
    var i :| 0 <= i < |a| && a[i] == c[p];
    assert c[i] == a[i] == c[p];
    assert i == p;
  }

  lemma {:induction false} CountOfAtLeast(cs: Lengths, k: nat, s: nat)
    requires s < SYMBOLS && cs[s] == k
    ensures CountOf(cs, k, SYMBOLS) > 0
  {
    CountsBounded(cs, k, s + 1);
  }

  // ----- jpeg_gen_optimal_table

  /** The best Huffman table for the given counts, unless some code size exceeds 32.  The
      counts must be in range, and 1 to 254 real symbols be in use. */
  method GenOptimalTable(freq: array<nat>) returns (ok: bool, t: HuffTable, ghost cs: Lengths)
    requires freq.Length == SYMBOLS && Sum(freq[..][256 := 1]) <= LIMIT
    requires exists r :: 0 <= r < 256 && freq[r] > 0
    requires Active(freq[..][256 := 1]) <= 255
    modifies freq
    ensures Optimal(old(freq[..])[256 := 1], cs)
    ensures ok <==> forall s :: 0 <= s < SYMBOLS ==> cs[s] <= MAX_CLEN
    ensures ok ==> TableFor(old(freq[..])[256 := 1], cs, t)
  {
    t := Table(seq(MAX_LENGTH + 1, _ => 0), seq(MAX_SYMBOLS, _ => 0));
    ghost var f0: Counts := freq[..][256 := 1];
    ghost var r :| 0 <= r < 256 && freq[r] > 0;
    hide Optimal, Active, TableFor, Complete, Sum;
    var codesize := AssignLengths(freq);
    cs := codesize[..];
    CodesGiven(f0, cs, r);
    SmallCounts(f0, cs);
    var bits;
    ok, bits := CountLengths(codesize);
    if !ok {
      return;
    }
    OptimalComplete(f0, cs, r);
    FewSymbols(f0, cs);
    t := MakeTable(bits, codesize, f0);
  }

  /** The table from the optimal lengths and their counts. */
  method MakeTable(bits: array<byte>, codesize: array<nat>, ghost f0: Counts) returns (t: HuffTable)
    requires codesize.Length == SYMBOLS && bits.Length == MAX_CLEN + 1 && bits[..] == CountsTo(codesize[..], SYMBOLS)
    requires Complete(bits[..], MAX_CLEN) && f0[SYMBOLS - 1] > 0 && |InOrder(codesize[..], MAX_CLEN)| <= 256
    requires forall s :: 0 <= s < SYMBOLS ==> codesize[s] <= MAX_CLEN && (f0[s] > 0 <==> codesize[s] > 0)
    modifies bits
    ensures TableFor(f0, codesize[..], t)
  {
    hide TableFor, Complete, Sum, InOrder, CountsTo, ShortKept;
    ghost var cs := codesize[..];
    LimitLengths(bits);
    ghost var b := bits[..];
    var longest := DropPseudo(bits);
    var huffval, p := ListSymbols(codesize);
    t := Table(bits[..MAX_LENGTH + 1], huffval);
    TableIsFor(f0, cs, t, b, longest);
  }

  /** No count of symbols of one length exceeds UINT8. */
  lemma SmallCounts(f0: Counts, cs: Lengths)
    requires Active(f0) <= 255 && forall s :: 0 <= s < SYMBOLS ==> (f0[s] > 0 <==> cs[s] > 0)
    ensures forall k :: 1 <= k <= MAX_CLEN ==> CountOf(cs, k, SYMBOLS) <= 255
  {
    forall k | 1 <= k <= MAX_CLEN
      ensures CountOf(cs, k, SYMBOLS) <= 255
    {
      CountInUse(f0, cs, k, SYMBOLS);
    }
  }

  lemma {:induction false} CountInUse(f0: Counts, cs: Lengths, k: nat, n: nat)
    requires k > 0 && n <= SYMBOLS && forall s :: 0 <= s < SYMBOLS ==> (f0[s] > 0 <==> cs[s] > 0)
    ensures CountOf(cs, k, n) <= SumTo(Present(f0), n)
  {
    if n > 0 {
      CountInUse(f0, cs, k, n - 1);
    }
  }

  lemma FewSymbols(f0: Counts, cs: Lengths)
    requires Active(f0) <= 255 && Sum(CountsTo(cs, SYMBOLS)) == Active(f0)
    ensures |InOrder(cs, MAX_CLEN)| <= 256
  {
    InOrderCount(cs, MAX_CLEN);
  }
}
