/** jpeg_gen_optimal_table: the Huffman table for given symbol counts. */
module OptimalTable {
  import opened Bytes
  import opened Arithmetic
  import opened Sums
  import opened OptimalCode

  // ----- the forest of the merging loop

  /** The entries of w that belong to the tree of c. */
  function Group(owner: seq<int>, c: int, w: seq<int>): (s: seq<int>)
    requires |owner| == |w|
    ensures |s| == |w| && forall i :: 0 <= i < |w| ==> s[i] == if owner[i] == c then w[i] else 0
  {
    seq(|w|, i requires 0 <= i < |w| => if owner[i] == c then w[i] else 0)
  }

  function AllShares(cs: Lengths, m: nat): (s: seq<int>)
    ensures |s| == SYMBOLS && forall i :: 0 <= i < SYMBOLS ==> s[i] == Share(cs[i], m)
  {
    seq(SYMBOLS, i requires 0 <= i < SYMBOLS => Share(cs[i], m))
  }

  /** Tree c weighs as much as its symbols together, and is complete. */
  ghost predicate TreeOk(f0: Counts, f: Counts, cs: Lengths, owner: seq<int>, c: nat)
    requires |owner| == SYMBOLS && c < SYMBOLS
  {
    && owner[c] == c
    && Sum(Group(owner, c, f0)) == f[c]
    && Sum(Group(owner, c, AllShares(cs, SYMBOLS))) == Pow2(SYMBOLS)
  }

  /** f0 are the original counts and f those of the trees; the owner of a symbol is the
      root of its tree, cs its depth in it. */
  ghost predicate Forest(f0: Counts, f: Counts, cs: Lengths, owner: seq<int>)
  {
    && |owner| == SYMBOLS
    && (forall s :: 0 <= s < SYMBOLS ==> owner[s] == -1 || (0 <= owner[s] < SYMBOLS && f[owner[s]] > 0))
    && (forall s :: 0 <= s < SYMBOLS ==> (owner[s] == -1 <==> f0[s] == 0))
    && (forall s :: 0 <= s < SYMBOLS ==> cs[s] <= Active(f0) - Active(f))
    && (forall s :: 0 <= s < SYMBOLS && f0[s] == 0 ==> cs[s] == 0)
    && (forall c :: 0 <= c < SYMBOLS && f[c] > 0 ==> TreeOk(f0, f, cs, owner, c))
    && Cost(f0, cs) + MergeCost(f) == MergeCost(f0)
  }

  function Reowned(owner: seq<int>, c1: nat, c2: nat): (r: seq<int>)
    ensures |r| == |owner| && forall s :: 0 <= s < |r| ==> r[s] == if owner[s] == c2 then c1 else owner[s]
  {
    seq(|owner|, s requires 0 <= s < |owner| => if owner[s] == c2 then c1 else owner[s])
  }

  function Deeper(cs: Lengths, owner: seq<int>, c1: nat, c2: nat): (r: Lengths)
    requires |owner| == SYMBOLS
    ensures forall s :: 0 <= s < SYMBOLS ==> r[s] == cs[s] + if owner[s] == c1 || owner[s] == c2 then 1 else 0
  {
    seq(SYMBOLS, s requires 0 <= s < SYMBOLS => cs[s] + if owner[s] == c1 || owner[s] == c2 then 1 else 0)
  }

  ghost predicate Pair(f: Counts, c1: int, c2: int)
  {
    c1 == Pick(f, SYMBOLS, -1) && c2 == Pick(f, SYMBOLS, c1) && c1 >= 0 && c2 >= 0
  }

  lemma AllActive(f: Counts)
    ensures Active(f) <= SYMBOLS
  {
    SumToBounded(Present(f), SYMBOLS);
  }

  lemma {:induction false} SumToBounded(s: seq<int>, n: nat)
    requires n <= |s| && forall i :: 0 <= i < n ==> s[i] <= 1
    ensures SumTo(s, n) <= n
  {
    if n > 0 {
      SumToBounded(s, n - 1);
    }
  }

  lemma TwoActive(f: Counts, c1: nat, c2: nat)
    requires c1 < SYMBOLS && c2 < SYMBOLS && c1 != c2 && f[c1] > 0 && f[c2] > 0
    ensures Active(f) >= 2
  {
    SumAtLeastTwo(Present(f), c1, c2);
  }

  /** Merging the trees of the two smallest counts keeps the forest. */
  lemma MergeForest(f0: Counts, f: Counts, cs: Lengths, owner: seq<int>, c1: nat, c2: nat)
    requires Forest(f0, f, cs, owner) && Pair(f, c1, c2)
    ensures Forest(f0, Merged(f, c1, c2), Deeper(cs, owner, c1, c2), Reowned(owner, c1, c2))
  {
    hide TreeOk, MergeCost, Active, Cost, Pick, Sum;
    var f', cs', owner' := Merged(f, c1, c2), Deeper(cs, owner, c1, c2), Reowned(owner, c1, c2);
    MergeActive(f, c1, c2);
    TwoActive(f, c1, c2);
    AllActive(f0);
    assert TreeOk(f0, f, cs, owner, c1) && TreeOk(f0, f, cs, owner, c2);
    MergedTree(f0, f, cs, owner, c1, c2);
    forall c | 0 <= c < SYMBOLS && f'[c] > 0
      ensures TreeOk(f0, f', cs', owner', c)
    {
      if c != c1 {
        assert TreeOk(f0, f, cs, owner, c);
        OtherTree(f0, f, cs, owner, c1, c2, c);
      }
    }
    MergedCost(f0, f, cs, owner, c1, c2);
  }

  lemma MergedTree(f0: Counts, f: Counts, cs: Lengths, owner: seq<int>, c1: nat, c2: nat)
    requires |owner| == SYMBOLS && c1 < SYMBOLS && c2 < SYMBOLS && c1 != c2
    requires TreeOk(f0, f, cs, owner, c1) && TreeOk(f0, f, cs, owner, c2)
    requires forall s :: 0 <= s < SYMBOLS ==> cs[s] < SYMBOLS
    ensures TreeOk(f0, Merged(f, c1, c2), Deeper(cs, owner, c1, c2), Reowned(owner, c1, c2), c1)
  {
    var cs', owner' := Deeper(cs, owner, c1, c2), Reowned(owner, c1, c2);
    SumAdds(Group(owner', c1, f0), Group(owner, c1, f0), Group(owner, c2, f0));
    var g1, g2 := Group(owner, c1, AllShares(cs, SYMBOLS)), Group(owner, c2, AllShares(cs, SYMBOLS));
    var g := Group(owner', c1, AllShares(cs', SYMBOLS));
    var both := seq(SYMBOLS, i requires 0 <= i < SYMBOLS => g1[i] + g2[i]);
    SumAdds(both, g1, g2);
    forall i | 0 <= i < SYMBOLS
      ensures both[i] == g[i] + g[i]
    {
      ShareHalves(cs[i]);
    }
    SumAdds(both, g, g);
  }

  lemma ShareHalves(l: nat)
    requires l < SYMBOLS
    ensures Share(l, SYMBOLS) == 2 * Share(l + 1, SYMBOLS)
  {
  }

  lemma OtherTree(f0: Counts, f: Counts, cs: Lengths, owner: seq<int>, c1: nat, c2: nat, c: nat)
    requires |owner| == SYMBOLS && c1 < SYMBOLS && c2 < SYMBOLS && c < SYMBOLS && c != c1 && c != c2
    requires TreeOk(f0, f, cs, owner, c)
    ensures TreeOk(f0, Merged(f, c1, c2), Deeper(cs, owner, c1, c2), Reowned(owner, c1, c2), c)
  {
    var cs', owner' := Deeper(cs, owner, c1, c2), Reowned(owner, c1, c2);
    assert Group(owner', c, f0) == Group(owner, c, f0);
    assert Group(owner', c, AllShares(cs', SYMBOLS)) == Group(owner, c, AllShares(cs, SYMBOLS));
  }

  lemma MergedCost(f0: Counts, f: Counts, cs: Lengths, owner: seq<int>, c1: nat, c2: nat)
    requires |owner| == SYMBOLS && Pair(f, c1, c2)
    requires TreeOk(f0, f, cs, owner, c1) && TreeOk(f0, f, cs, owner, c2)
    ensures Cost(f0, Deeper(cs, owner, c1, c2)) + MergeCost(Merged(f, c1, c2)) == Cost(f0, cs) + MergeCost(f)
  {
    var cs' := Deeper(cs, owner, c1, c2);
    var g1, g2 := Group(owner, c1, f0), Group(owner, c2, f0);
    var step := seq(SYMBOLS, i requires 0 <= i < SYMBOLS => g1[i] + g2[i]);
    SumAdds(step, g1, g2);
    forall i | 0 <= i < SYMBOLS
      ensures Costs(f0, cs')[i] == Costs(f0, cs)[i] + step[i]
    {
      assert f0[i] * (cs[i] + 1) == f0[i] * cs[i] + f0[i];
    }
    SumAdds(Costs(f0, cs'), Costs(f0, cs), step);
  }

  /** Every symbol by itself. */
  lemma StartForest(f0: Counts)
    ensures Forest(f0, f0, seq(SYMBOLS, _ => 0), Alone(f0))
  {
    var cs := seq(SYMBOLS, _ => 0);
    var owner := Alone(f0);
    var zero := seq(SYMBOLS, _ => 0);
    ZeroSum(SYMBOLS);
    assert Costs(f0, cs) == zero;
    forall c | 0 <= c < SYMBOLS && f0[c] > 0
      ensures TreeOk(f0, f0, cs, owner, c)
    {
      assert Group(owner, c, f0) == zero[c := f0[c]];
      SumUpdate(zero, c, f0[c]);
      assert Group(owner, c, AllShares(cs, SYMBOLS)) == zero[c := Pow2(SYMBOLS)];
      SumUpdate(zero, c, Pow2(SYMBOLS));
    }
  }

  lemma ZeroSum(n: nat)
    ensures Sum(seq(n, _ => 0)) == 0
  {
    ZeroSumTo(seq(n, _ => 0), n);
  }

  lemma {:induction false} ZeroSumTo(s: seq<int>, n: nat)
    requires n <= |s| && forall i :: 0 <= i < n ==> s[i] == 0
    ensures SumTo(s, n) == 0
  {
    if n > 0 {
      ZeroSumTo(s, n - 1);
    }
  }

  /** What the merging loop leaves: a complete code of least cost for the symbols in use. */
  ghost predicate Optimal(f0: Counts, cs: Lengths)
  {
    && (forall s :: 0 <= s < SYMBOLS && f0[s] == 0 ==> cs[s] == 0)
    && (forall s :: 0 <= s < SYMBOLS ==> cs[s] < SYMBOLS)
    && Sum(Shares(f0, cs, SYMBOLS)) == Pow2(SYMBOLS)
    && forall l: Lengths, m: nat :: Kraft(f0, l, m) ==> Cost(f0, cs) <= Cost(f0, l)
  }

  /** One tree is left. */
  lemma EndForest(f0: Counts, f: Counts, cs: Lengths, owner: seq<int>, c1: int)
    requires Forest(f0, f, cs, owner) && Sum(f0) <= LIMIT && Sum(f) == Sum(f0)
    requires c1 == Pick(f, SYMBOLS, -1) && Pick(f, SYMBOLS, c1) < 0 && f0[SYMBOLS - 1] > 0
    ensures Optimal(f0, cs)
  {
    forall i | 0 <= i < SYMBOLS
      ensures f[i] <= LIMIT
    {
      SumAtLeast(f, i);
    }
    PickLeast(f, SYMBOLS, -1);
    PickLeast(f, SYMBOLS, c1);
    assert owner[SYMBOLS - 1] >= 0;
    assert c1 >= 0;
    assert TreeOk(f0, f, cs, owner, c1);
    assert Group(owner, c1, AllShares(cs, SYMBOLS)) == Shares(f0, cs, SYMBOLS);
    assert MergeCost(f) == 0;
    forall l: Lengths, m: nat | Kraft(f0, l, m)
      ensures Cost(f0, cs) <= Cost(f0, l)
    {
      LowerBound(f0, l, m);
    }
    AllActive(f0);
    assert Active(f) >= 1 by {
      SumAtLeast(Present(f), c1);
    }
  }

  // ----- the merging loop

  method FindLeast(freq: array<nat>, skip: int) returns (c: int)
    requires freq.Length == SYMBOLS
    ensures c == Pick(freq[..], SYMBOLS, skip)
  {
    c := -1;
    var v := LIMIT;
    for i := 0 to SYMBOLS
      invariant c == Pick(freq[..], i, skip) && v == if c < 0 then LIMIT else freq[c]
    {
      if freq[i] != 0 && freq[i] <= v && i != skip {
        v := freq[i];
        c := i;
      }
    }
  }

  /** The symbols of the tree of c are chained through `others`, from c on. */
  ghost predicate Chained(others: seq<int>, owner: seq<int>, c: nat, ch: seq<nat>)
    requires |others| == |owner| == SYMBOLS && c < SYMBOLS
  {
    && ch != [] && ch[0] == c
    && (forall i :: 0 <= i < |ch| ==> ch[i] < SYMBOLS && owner[ch[i]] == c)
    && (forall i, j :: 0 <= i < j < |ch| ==> ch[i] != ch[j])
    && (forall s :: 0 <= s < SYMBOLS && owner[s] == c ==> s in ch)
    && (forall i :: 0 <= i < |ch| ==> others[ch[i]] == if i + 1 < |ch| then ch[i + 1] else -1)
  }

  ghost predicate AllChained(f: Counts, others: seq<int>, owner: seq<int>, chains: seq<seq<nat>>)
  {
    && |others| == |owner| == |chains| == SYMBOLS
    && forall c :: 0 <= c < SYMBOLS && f[c] > 0 ==> Chained(others, owner, c, chains[c])
  }

  /** Increments the code size of everything in the tree branch of c; the last symbol of
      its chain. */
  method IncrementBranch(codesize: array<nat>, others: array<int>, c: nat, ghost owner: seq<int>, ghost ch: seq<nat>)
    returns (last: nat)
    requires codesize.Length == others.Length == |owner| == SYMBOLS && c < SYMBOLS
    requires Chained(others[..], owner, c, ch)
    modifies codesize
    ensures last == ch[|ch| - 1] && last < SYMBOLS
    ensures forall s :: 0 <= s < SYMBOLS ==> codesize[s] == old(codesize[s]) + if owner[s] == c then 1 else 0
  {
    ghost var links := others[..];
    last := c;
    codesize[last] := codesize[last] + 1;
    ghost var i := 0;
    Longer(ch, 0);
    while others[last] >= 0
      invariant 0 <= i < |ch| && last == ch[i] && others[..] == links
      invariant others[last] == if i + 1 < |ch| then ch[i + 1] else -1
      invariant forall s :: 0 <= s < SYMBOLS ==> codesize[s] == old(codesize[s]) + if s in ch[..i + 1] then 1 else 0
      decreases |ch| - i
    {
      last := others[last];
      i := i + 1;
      Longer(ch, i);
      codesize[last] := codesize[last] + 1;
    }
    assert ch[..i + 1] == ch;
    assert forall s :: 0 <= s < SYMBOLS ==> (s in ch <==> owner[s] == c);
  }

  lemma Longer(ch: seq<nat>, i: nat)
    requires i < |ch| && forall j, k :: 0 <= j < k < |ch| ==> ch[j] != ch[k]
    ensures forall s :: s in ch[..i + 1] <==> s in ch[..i] || s == ch[i]
    ensures ch[i] !in ch[..i]
  {
    assert ch[..i + 1] == ch[..i] + [ch[i]];
  }

  /** Chains after c2's has been appended to c1's. */
  lemma JoinChains(f: Counts, others: seq<int>, owner: seq<int>, chains: seq<seq<nat>>, c1: nat, c2: nat, last: nat)
    requires AllChained(f, others, owner, chains) && c1 < SYMBOLS && c2 < SYMBOLS && c1 != c2 && f[c1] > 0 && f[c2] > 0
    requires forall c :: 0 <= c < SYMBOLS && f[c] > 0 ==> owner[c] == c
    requires last == chains[c1][|chains[c1]| - 1] && last < SYMBOLS
    ensures AllChained(Merged(f, c1, c2), others[last := c2], Reowned(owner, c1, c2),
      chains[c1 := chains[c1] + chains[c2]])
    ensures Chained(others[last := c2], owner, c2, chains[c2])
  {
    var f', others', owner', chains' :=
      Merged(f, c1, c2), others[last := c2], Reowned(owner, c1, c2), chains[c1 := chains[c1] + chains[c2]];
    assert Chained(others, owner, c1, chains[c1]) && Chained(others, owner, c2, chains[c2]);
    hide AllChained, Merged;
    ChainJoined(others, owner, c1, c2, chains[c1], chains[c2], last);
    ChainKept(others, owner, c2, chains[c2], last, c2, c1);
    forall c | 0 <= c < SYMBOLS && f'[c] > 0
      ensures Chained(others', owner', c, chains'[c])
    {
      MergedActive(f, c1, c2, c);
      assert Chained(others, owner, c, chains[c]) by { ChainOf(f, others, owner, chains, c); }
      if c != c1 {
        ChainApart(others, owner, c1, c2, c, chains[c], last);
      }
    }
    AllOfThem(f', others', owner', chains');
  }

  lemma AllOfThem(f: Counts, others: seq<int>, owner: seq<int>, chains: seq<seq<nat>>)
    requires |others| == |owner| == |chains| == SYMBOLS
    requires forall c :: 0 <= c < SYMBOLS && f[c] > 0 ==> Chained(others, owner, c, chains[c])
    ensures AllChained(f, others, owner, chains)
  {
    hide Chained;
  }

  lemma ChainOf(f: Counts, others: seq<int>, owner: seq<int>, chains: seq<seq<nat>>, c: nat)
    requires AllChained(f, others, owner, chains) && c < SYMBOLS && f[c] > 0
    ensures Chained(others, owner, c, chains[c])
  {
    hide Chained;
  }

  lemma MergedActive(f: Counts, c1: nat, c2: nat, c: nat)
    requires c1 < SYMBOLS && c2 < SYMBOLS && c1 != c2 && f[c1] > 0 && c < SYMBOLS && Merged(f, c1, c2)[c] > 0
    ensures f[c] > 0 && c != c2
  {
  }

  /** The two chains become one. */
  lemma ChainJoined(others: seq<int>, owner: seq<int>, c1: nat, c2: nat, ch1: seq<nat>, ch2: seq<nat>, last: nat)
    requires |others| == |owner| == SYMBOLS && c1 < SYMBOLS && c2 < SYMBOLS && c1 != c2
    requires Chained(others, owner, c1, ch1) && Chained(others, owner, c2, ch2)
    requires last == ch1[|ch1| - 1]
    ensures Chained(others[last := c2], Reowned(owner, c1, c2), c1, ch1 + ch2)
  {
    var ch, others', owner' := ch1 + ch2, others[last := c2], Reowned(owner, c1, c2);
    assert owner[last] == c1;
    var n := |ch1|;
    forall s | 0 <= s < SYMBOLS && owner'[s] == c1
      ensures s in ch
    {
      assert s in ch1 || s in ch2;
    }
    forall i | 0 <= i < |ch|
      ensures ch[i] < SYMBOLS && owner'[ch[i]] == c1
    {
      assert if i < n then ch[i] == ch1[i] && owner[ch1[i]] == c1 else ch[i] == ch2[i - n] && owner[ch2[i - n]] == c2;
    }
    forall i | 0 <= i < |ch|
      ensures others'[ch[i]] == if i + 1 < |ch| then ch[i + 1] else -1
    {
      LinkAt(others, owner, c1, c2, ch1, ch2, last, i);
    }
    Distinct(ch1, ch2, owner, c1, c2);
    IsChain(others', owner', c1, ch);
  }

  lemma IsChain(others: seq<int>, owner: seq<int>, c: nat, ch: seq<nat>)
    requires |others| == |owner| == SYMBOLS && c < SYMBOLS && ch != [] && ch[0] == c
    requires forall i :: 0 <= i < |ch| ==> ch[i] < SYMBOLS && owner[ch[i]] == c
    requires forall i, j :: 0 <= i < j < |ch| ==> ch[i] != ch[j]
    requires forall s :: 0 <= s < SYMBOLS && owner[s] == c ==> s in ch
    requires forall i :: 0 <= i < |ch| ==> others[ch[i]] == if i + 1 < |ch| then ch[i + 1] else -1
    ensures Chained(others, owner, c, ch)
  {
  }

  /** The link at position i of the joined chains. */
  lemma LinkAt(others: seq<int>, owner: seq<int>, c1: nat, c2: nat, ch1: seq<nat>, ch2: seq<nat>, last: nat, i: nat)
    requires |others| == |owner| == SYMBOLS && c1 < SYMBOLS && c2 < SYMBOLS && c1 != c2
    requires Chained(others, owner, c1, ch1) && Chained(others, owner, c2, ch2) && last == ch1[|ch1| - 1]
    requires i < |ch1| + |ch2|
    ensures var ch := ch1 + ch2;
            ch[i] < SYMBOLS && others[last := c2][ch[i]] == if i + 1 < |ch| then ch[i + 1] else -1
  {
    var ch, n := ch1 + ch2, |ch1|;
    assert owner[last] == c1 && ch2[0] == c2;
    if i < n - 1 {
      assert ch[i] == ch1[i] && ch[i + 1] == ch1[i + 1];
      assert others[ch1[i]] == ch1[i + 1];
      assert ch1[i] != ch1[n - 1];
    } else if i < n {
      assert ch[i] == last && ch[i + 1] == ch2[0];
    } else {
      var k := i - n;
      assert ch[i] == ch2[k] && owner[ch2[k]] == c2;
      assert others[ch2[k]] == if k + 1 < |ch2| then ch2[k + 1] else -1;
      assert k + 1 < |ch2| ==> ch[i + 1] == ch2[k + 1];
    }
  }

  lemma Distinct(ch1: seq<nat>, ch2: seq<nat>, owner: seq<int>, c1: nat, c2: nat)
    requires c1 != c2
    requires forall i :: 0 <= i < |ch1| ==> ch1[i] < |owner| && owner[ch1[i]] == c1
    requires forall i :: 0 <= i < |ch2| ==> ch2[i] < |owner| && owner[ch2[i]] == c2
    requires forall i, j :: 0 <= i < j < |ch1| ==> ch1[i] != ch1[j]
    requires forall i, j :: 0 <= i < j < |ch2| ==> ch2[i] != ch2[j]
    ensures forall i, j :: 0 <= i < j < |ch1 + ch2| ==> (ch1 + ch2)[i] != (ch1 + ch2)[j]
  {
  }

  /** Linking the end of one chain leaves another as it is. */
  lemma ChainKept(others: seq<int>, owner: seq<int>, c: nat, ch: seq<nat>, last: nat, to: nat, c1: nat)
    requires |others| == |owner| == SYMBOLS && c < SYMBOLS && Chained(others, owner, c, ch)
    requires last < SYMBOLS && owner[last] == c1 != c
    ensures Chained(others[last := to], owner, c, ch)
  {
  }

  lemma ChainApart(others: seq<int>, owner: seq<int>, c1: nat, c2: nat, c: nat, ch: seq<nat>, last: nat)
    requires |others| == |owner| == SYMBOLS && c < SYMBOLS && c1 < SYMBOLS && c2 < SYMBOLS && c != c1 && c != c2
      && Chained(others, owner, c, ch)
    requires last < SYMBOLS && owner[last] == c1
    ensures Chained(others[last := c2], Reowned(owner, c1, c2), c, ch)
  {
    ChainKept(others, owner, c, ch, last, c2, c1);
  }

  lemma Roots(f0: Counts, f: Counts, cs: Lengths, owner: seq<int>)
    requires Forest(f0, f, cs, owner)
    ensures |owner| == SYMBOLS && forall c :: 0 <= c < SYMBOLS && f[c] > 0 ==> owner[c] == c
  {
    forall c | 0 <= c < SYMBOLS && f[c] > 0
      ensures owner[c] == c
    {
      assert TreeOk(f0, f, cs, owner, c);
    }
  }

  /** One round of the loop, by value. */
  lemma MergeRound(f0: Counts, f: Counts, cs: Lengths, owner: seq<int>, links: seq<int>, chains: seq<seq<nat>>, c1: nat,
    c2: nat)
    requires Forest(f0, f, cs, owner) && AllChained(f, links, owner, chains) && Pair(f, c1, c2)
    ensures var ch := chains[c1];
            && ch != [] && Chained(links, owner, c1, ch) && ch[|ch| - 1] < SYMBOLS
            && Chained(links[ch[|ch| - 1] := c2], owner, c2, chains[c2])
            && AllChained(Merged(f, c1, c2), links[ch[|ch| - 1] := c2], Reowned(owner, c1, c2),
              chains[c1 := ch + chains[c2]])
    ensures Forest(f0, Merged(f, c1, c2), Deeper(cs, owner, c1, c2), Reowned(owner, c1, c2))
    ensures Sum(Merged(f, c1, c2)) == Sum(f) && Active(Merged(f, c1, c2)) < Active(f)
  {
    Roots(f0, f, cs, owner);
    MergeForest(f0, f, cs, owner, c1, c2);
    MergeActive(f, c1, c2);
    hide Forest, Active, Sum, MergeCost;
    var ch := chains[c1];
    assert Chained(links, owner, c1, ch);
    JoinChains(f, links, owner, chains, c1, c2, ch[|ch| - 1]);
  }

  /** Merges the counts and trees of c1 and c2. */
  method MergePair(freq: array<nat>, codesize: array<nat>, others: array<int>, c1: nat, c2: nat,
                   ghost owner: seq<int>, ghost ch1: seq<nat>, ghost ch2: seq<nat>)
    requires freq.Length == codesize.Length == others.Length == |owner| == SYMBOLS && freq != codesize
    requires c1 < SYMBOLS && c2 < SYMBOLS && c1 != c2
    requires Chained(others[..], owner, c1, ch1) && ch1[|ch1| - 1] < SYMBOLS
    requires Chained(others[..][ch1[|ch1| - 1] := c2], owner, c2, ch2)
    modifies freq, codesize, others
    ensures freq[..] == Merged(old(freq[..]), c1, c2)
    ensures codesize[..] == Deeper(old(codesize[..]), owner, c1, c2)
    ensures others[..] == old(others[..])[ch1[|ch1| - 1] := c2]
  {
    freq[c1] := freq[c1] + freq[c2];
    freq[c2] := 0;
    ghost var links := others[..];
    var c := IncrementBranch(codesize, others, c1, owner, ch1);
    others[c] := c2;
    assert others[..] == links[c := c2];
    c := IncrementBranch(codesize, others, c2, owner, ch2);
  }

  function Alone(f0: Counts): seq<int>
  {
    seq(SYMBOLS, s requires 0 <= s < SYMBOLS => if f0[s] > 0 then s else -1)
  }

  function AloneChains(): seq<seq<nat>>
  {
    seq(SYMBOLS, (c: nat) requires 0 <= c < SYMBOLS => [c])
  }

  /** Huffman's basic algorithm: code lengths for the counts and the pseudo-symbol. */
  method AssignLengths(freq: array<nat>) returns (codesize: array<nat>)
    requires freq.Length == SYMBOLS && Sum(freq[..][256 := 1]) <= LIMIT
    modifies freq
    ensures fresh(codesize) && codesize.Length == SYMBOLS
    ensures Optimal(old(freq[..])[256 := 1], codesize[..])
  {
    codesize := new nat[SYMBOLS](i => 0);
    var others := new int[SYMBOLS](i => -1);
    ghost var f0: Counts := freq[..][256 := 1];
    freq[256] := 1;
    assert freq[..] == f0 && codesize[..] == seq(SYMBOLS, _ => 0);
    StartForest(f0);
    assert AllChained(f0, others[..], Alone(f0), AloneChains());
    hide Forest, AllChained, Optimal, Sum, Alone, AloneChains;
    MergeAll(freq, codesize, others, Alone(f0), AloneChains());
  }

  /** The loop: two trees at a time, until one is left. */
  method MergeAll(freq: array<nat>, codesize: array<nat>, others: array<int>, ghost owner0: seq<int>,
    ghost chains0: seq<seq<nat>>)
    requires freq.Length == codesize.Length == others.Length == SYMBOLS && freq != codesize
    requires Sum(freq[..]) <= LIMIT && freq[SYMBOLS - 1] > 0
    requires Forest(freq[..], freq[..], codesize[..], owner0) && AllChained(freq[..], others[..], owner0, chains0)
    modifies freq, codesize, others
    ensures Optimal(old(freq[..]), codesize[..])
  {
    hide Forest, Optimal, Active, Sum, Pick, Deeper, Reowned, Merged, MergeCost, Chained;
    ghost var f0: Counts := freq[..];
    ghost var f: Counts, cs: Lengths, links := f0, codesize[..], others[..];
    ghost var owner, chains := owner0, chains0;
    var c1: int;
    while true
      invariant freq[..] == f && codesize[..] == cs && others[..] == links
      invariant |owner| == |links| == |chains| == SYMBOLS
      invariant Forest(f0, f, cs, owner) && AllChained(f, links, owner, chains) && Sum(f) == Sum(f0)
      decreases Active(f)
    {
      hide AllChained;
      c1 := FindLeast(freq, -1);
      var c2 := FindLeast(freq, c1);
      if c2 < 0 {
        break;
      }
      MergeRound(f0, f, cs, owner, links, chains, c1, c2);
      ghost var ch := chains[c1];
      MergePair(freq, codesize, others, c1, c2, owner, ch, chains[c2]);
      f, cs, links := Merged(f, c1, c2), Deeper(cs, owner, c1, c2), links[ch[|ch| - 1] := c2];
      owner, chains := Reowned(owner, c1, c2), chains[c1 := ch + chains[c2]];
    }
    EndForest(f0, f, cs, owner, c1);
  }
}
