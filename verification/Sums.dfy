/** Sums over the beginning of a sequence. */
module Sums {
  import opened Arithmetic

  function SumTo(s: seq<int>, n: nat): int
    requires n <= |s|
  {
    if n == 0 then 0 else SumTo(s, n - 1) + s[n - 1]
  }

  function Sum(s: seq<int>): int
  {
    SumTo(s, |s|)
  }

  lemma {:induction false} SumToUpdate(s: seq<int>, n: nat, i: nat, v: int)
    requires n <= |s| && i < |s|
    ensures SumTo(s[i := v], n) == SumTo(s, n) + if i < n then v - s[i] else 0
  {
    if n > 0 {
      SumToUpdate(s, n - 1, i, v);
    }
  }

  lemma SumUpdate(s: seq<int>, i: nat, v: int)
    requires i < |s|
    ensures Sum(s[i := v]) == Sum(s) + v - s[i]
  {
    SumToUpdate(s, |s|, i, v);
  }

  lemma {:induction false} SumToAdds(a: seq<int>, b: seq<int>, c: seq<int>, n: nat)
    requires n <= |a| == |b| == |c|
    requires forall i :: 0 <= i < n ==> a[i] == b[i] + c[i]
    ensures SumTo(a, n) == SumTo(b, n) + SumTo(c, n)
  {
    if n > 0 {
      SumToAdds(a, b, c, n - 1);
    }
  }

  lemma SumAdds(a: seq<int>, b: seq<int>, c: seq<int>)
    requires |a| == |b| == |c|
    requires forall i :: 0 <= i < |a| ==> a[i] == b[i] + c[i]
    ensures Sum(a) == Sum(b) + Sum(c)
  {
    SumToAdds(a, b, c, |a|);
  }

  lemma {:induction false} SumToAtLeast(s: seq<int>, n: nat, i: nat)
    requires i < n <= |s| && forall j :: 0 <= j < n ==> s[j] >= 0
    ensures SumTo(s, n) >= s[i]
  {
    SumToNonNegative(s, n - 1);
    if i < n - 1 {
      SumToAtLeast(s, n - 1, i);
    }
  }

  lemma {:induction false} SumToNonNegative(s: seq<int>, n: nat)
    requires n <= |s| && forall j :: 0 <= j < n ==> s[j] >= 0
    ensures SumTo(s, n) >= 0
  {
    if n > 0 {
      SumToNonNegative(s, n - 1);
    }
  }

  lemma SumAtLeast(s: seq<int>, i: nat)
    requires i < |s| && forall j :: 0 <= j < |s| ==> s[j] >= 0
    ensures Sum(s) >= s[i]
  {
    SumToAtLeast(s, |s|, i);
  }

  lemma SumAtLeastTwo(s: seq<int>, i: nat, k: nat)
    requires i < |s| && k < |s| && i != k && forall j :: 0 <= j < |s| ==> s[j] >= 0
    ensures Sum(s) >= s[i] + s[k]
  {
    SumUpdate(s, i, 0);
    SumAtLeast(s[i := 0], k);
  }

  lemma {:induction false} SumToDivides(s: seq<int>, n: nat, d: nat)
    requires d > 0 && n <= |s| && forall j :: 0 <= j < n ==> s[j] >= 0 && s[j] % d == 0
    ensures SumTo(s, n) % d == 0
  {
    if n > 0 {
      SumToDivides(s, n - 1, d);
      SumToNonNegative(s, n - 1);
      SumOfMultiples(SumTo(s, n - 1), s[n - 1], d);
    }
  }

  lemma {:induction false} ZeroTail(s: seq<int>, n: nat, m: nat)
    requires n <= m <= |s| && forall i :: n <= i < m ==> s[i] == 0
    ensures SumTo(s, m) == SumTo(s, n)
    decreases m
  {
    if n < m {
      ZeroTail(s, n, m - 1);
    }
  }
}
