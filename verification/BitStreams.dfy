/** Bit sequences, with zeros supplied behind their end. */
module BitStreams {
  import opened Bytes

  function BitAt(s: seq<bit>, i: nat): bit
  {
    if i < |s| then s[i] else 0
  }

  /** The n bits of s from position at, as a number. */
  function Peek(s: seq<bit>, at: nat, n: nat): nat
  {
    if n == 0 then 0 else 2 * Peek(s, at, n - 1) + BitAt(s, at + n - 1)
  }

  /** The n low-order bits of v. */
  function BitsOf(v: nat, n: nat): (s: seq<bit>)
    ensures |s| == n
  {
    if n == 0 then [] else BitsOf(v / 2, n - 1) + [v % 2]
  }

  lemma {:induction false} PeekBound(s: seq<bit>, at: nat, n: nat)
    ensures Peek(s, at, n) < Pow2(n)
  {
    if n > 0 {
      PeekBound(s, at, n - 1);
    }
  }

  /** A longer look is the shorter one with more bits behind it. */
  lemma {:induction false} PeekSplit(s: seq<bit>, at: nat, n: nat, k: nat)
    ensures Peek(s, at, n + k) == Shl(Peek(s, at, n), k) + Peek(s, at + n, k)
  {
    if k > 0 {
      PeekSplit(s, at, n, k - 1);
    }
  }

  lemma PeekWithin(s: seq<bit>, at: nat, n: nat, k: nat)
    ensures Shl(Peek(s, at, n), k) <= Peek(s, at, n + k) < Shl(Peek(s, at, n) + 1, k)
  {
    PeekSplit(s, at, n, k);
    PeekBound(s, at + n, k);
    ShlAdd(Peek(s, at, n), 1, k);
  }

  /** What was written is what is seen. */
  lemma {:induction false} PeekBits(s: seq<bit>, at: nat, n: nat, v: nat)
    requires v < Pow2(n) && at + n <= |s| && s[at..at + n] == BitsOf(v, n)
    ensures Peek(s, at, n) == v
  {
    if n > 0 {
      var b := BitsOf(v, n);
      assert s[at..at + n - 1] == s[at..at + n][..n - 1] == b[..n - 1] == BitsOf(v / 2, n - 1);
      assert s[at + n - 1] == s[at..at + n][n - 1] == v % 2;
      PeekBits(s, at, n - 1, v / 2);
    }
  }

  /** A number written with ones only is the largest. */
  lemma {:induction false} AllOnes(v: nat, n: nat)
    requires v < Pow2(n) && forall i :: 0 <= i < n ==> BitsOf(v, n)[i] == 1
    ensures v + 1 == Pow2(n)
  {
    if n > 0 {
      var b, c := BitsOf(v, n), BitsOf(v / 2, n - 1);
      forall i | 0 <= i < n - 1
        ensures c[i] == 1
      {
        assert b[i] == 1;
      }
      assert BitsOf(v, n)[n - 1] == v % 2;
      AllOnes(v / 2, n - 1);
    }
  }

  /** The bits of a byte sequence. */
  function ByteBits(p: seq<byte>): (s: seq<bit>)
    ensures |s| == 8 * |p|
  {
    if p == [] then [] else BitsOf(p[0], 8) + ByteBits(p[1..])
  }

  lemma {:induction false} ByteBitsConcat(p: seq<byte>, q: seq<byte>)
    ensures ByteBits(p + q) == ByteBits(p) + ByteBits(q)
  {
    if p == [] {
      assert p + q == q;
    } else {
      assert (p + q)[1..] == p[1..] + q;
      ByteBitsConcat(p[1..], q);
    }
  }
}
