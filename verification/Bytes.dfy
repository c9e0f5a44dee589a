/** Bytes, powers of two, big-endian numbers and the zero-byte stuffing of
    entropy-coded segments (ITU-T T.81, section F.1.2.3 and D.1.6). */
module Bytes {
  type bit = b: nat | b < 2

  type byte = b: int | 0 <= b < 256

  /** x shifted left by k bits. */
  function Shl(x: nat, k: nat): nat
  {
    if k == 0 then x else 2 * Shl(x, k - 1)
  }

  lemma {:induction false} ShlBound(x: nat, k: nat)
    ensures x <= Shl(x, k)
  {
    if k > 0 {
      ShlBound(x, k - 1);
    }
  }

  /** 2 to the power n. */
  function Pow2(n: nat): (p: nat)
    ensures p > 0
  {
    ShlBound(1, n);
    Shl(1, n)
  }

  lemma {:induction false} ShlAdd(x: nat, y: nat, k: nat)
    ensures Shl(x + y, k) == Shl(x, k) + Shl(y, k)
  {
    if k > 0 {
      ShlAdd(x, y, k - 1);
    }
  }

  lemma {:induction false} ShlShl(x: nat, j: nat, k: nat)
    ensures Shl(x, j + k) == Shl(Shl(x, j), k)
  {
    if k > 0 {
      ShlShl(x, j, k - 1);
    }
  }

  /** Shifting keeps the order, strictly and not. */
  lemma {:induction false} ShlOrder(x: nat, y: nat, k: nat)
    ensures x <= y <==> Shl(x, k) <= Shl(y, k)
    ensures x < y <==> Shl(x, k) < Shl(y, k)
  {
    if k > 0 {
      ShlOrder(x, y, k - 1);
    }
  }

  lemma {:induction false} ShlTimes(x: nat, k: nat)
    ensures Shl(x, k) == x * Pow2(k)
  {
    if k > 0 {
      ShlTimes(x, k - 1);
    }
  }

  lemma {:induction false} Pow2Monotone(m: nat, n: nat)
    requires m <= n
    ensures 1 <= Pow2(m) <= Pow2(n)
  {
    if m < n {
      Pow2Monotone(m, n - 1);
    }
  }

  lemma Pow2Values()
    ensures Pow2(0) == 1 && Pow2(1) == 2 && Pow2(2) == 4 && Pow2(3) == 8
    ensures Pow2(8) == 0x100 && Pow2(11) == 0x800 && Pow2(13) == 0x2000
    ensures Pow2(15) == 0x8000 && Pow2(16) == 0x10000
    ensures Pow2(19) == 0x80000 && Pow2(24) == 0x1000000 && Pow2(27) == 0x8000000
  {
    assert Pow2(4) == 16 && Pow2(5) == 32;
    assert Pow2(6) == 64 && Pow2(7) == 128;
    assert Pow2(9) == 512 && Pow2(10) == 0x400;
    assert Pow2(12) == 0x1000;
    assert Pow2(14) == 0x4000;
    assert Pow2(17) == 0x20000 && Pow2(18) == 0x40000;
    assert Pow2(20) == 0x100000 && Pow2(21) == 0x200000;
    assert Pow2(22) == 0x400000 && Pow2(23) == 0x800000;
    assert Pow2(25) == 0x2000000 && Pow2(26) == 0x4000000;
  }

  /** The number a byte string denotes in base 256, most significant byte first. */
  function Num(s: seq<byte>): nat
  {
    if s == [] then 0 else Num(s[..|s| - 1]) * 256 + s[|s| - 1]
  }

  function Repeat(b: byte, n: nat): (s: seq<byte>)
    ensures |s| == n
    ensures forall i :: 0 <= i < n ==> s[i] == b
  {
    seq(n, _ => b)
  }

  lemma NumSnoc(s: seq<byte>, b: byte)
    ensures Num(s + [b]) == Num(s) * 256 + b
  {
    assert (s + [b])[..|s|] == s;
  }

  lemma ShlByte(x: nat, k: nat)
    ensures Shl(x, k + 8) == Shl(x, k) * 256
  {
    ShlShl(x, k, 8);
    ShlTimes(Shl(x, k), 8);
    Pow2Values();
  }

  lemma {:induction false} NumConcat(s: seq<byte>, t: seq<byte>)
    ensures Num(s + t) == Shl(Num(s), 8 * |t|) + Num(t)
  {
    if t == [] {
      assert s + t == s;
    } else {
      var u, b := t[..|t| - 1], t[|t| - 1];
      NumConcat(s, u);
      assert s + t == (s + u) + [b];
      NumSnoc(s + u, b);
      ShlByte(Num(s), 8 * |u|);
    }
  }

  lemma {:induction false} NumBound(s: seq<byte>)
    ensures Num(s) < Pow2(8 * |s|)
  {
    if s != [] {
      NumBound(s[..|s| - 1]);
      ShlByte(1, 8 * (|s| - 1));
    }
  }

  lemma {:induction false} NumZeros(n: nat)
    ensures Num(Repeat(0, n)) == 0
  {
    if n > 0 {
      assert Repeat(0, n)[..n - 1] == Repeat(0, n - 1);
      NumZeros(n - 1);
    }
  }

  lemma {:induction false} NumOnes(n: nat)
    ensures Num(Repeat(255, n)) == Pow2(8 * n) - 1
  {
    if n > 0 {
      assert Repeat(255, n)[..n - 1] == Repeat(255, n - 1);
      NumOnes(n - 1);
      ShlByte(1, 8 * (n - 1));
    }
  }

  /** A string ending in n bytes 255 becomes, plus one, a carry into the byte before them. */
  lemma NumCarry(s: seq<byte>, b: byte, n: nat)
    requires b < 255
    ensures Num(s + [b] + Repeat(255, n)) + 1 == Num(s + [b + 1] + Repeat(0, n))
  {
    NumConcat(s + [b], Repeat(255, n));
    NumConcat(s + [b + 1], Repeat(0, n));
    NumOnes(n);
    NumZeros(n);
    NumSnoc(s, b);
    NumSnoc(s, b + 1);
    ShlAdd(Num(s + [b]), 1, 8 * n);
  }

  lemma {:induction false} NumInjective(s: seq<byte>, t: seq<byte>)
    requires |s| == |t| && Num(s) == Num(t)
    ensures s == t
  {
    if s != [] {
      var n := |s| - 1;
      assert s[n] == t[n] && Num(s[..n]) == Num(t[..n]);
      NumInjective(s[..n], t[..n]);
      assert s == s[..n] + [s[n]] && t == t[..n] + [t[n]];
    }
  }

  /** No trailing zero byte. */
  predicate Trimmed(s: seq<byte>)
  {
    s == [] || s[|s| - 1] != 0
  }

  /** Byte stuffing: every 0xFF data byte is followed by a zero byte. */
  function Stuff(s: seq<byte>): seq<byte>
  {
    if s == [] then [] else (if s[0] == 255 then [255, 0] else [s[0]]) + Stuff(s[1..])
  }

  lemma {:induction false} StuffConcat(s: seq<byte>, t: seq<byte>)
    ensures Stuff(s + t) == Stuff(s) + Stuff(t)
  {
    if s == [] {
      assert s + t == t;
    } else {
      assert (s + t)[1..] == s[1..] + t;
      StuffConcat(s[1..], t);
    }
  }

  lemma StuffSnoc(s: seq<byte>, b: byte)
    ensures Stuff(s + [b]) == Stuff(s) + (if b == 255 then [255, 0] else [b])
  {
    StuffConcat(s, [b]);
    assert [b][1..] == [];
  }

  /** Stuffing loses nothing. */
  lemma {:induction false} StuffInjective(s: seq<byte>, t: seq<byte>)
    requires Stuff(s) == Stuff(t)
    ensures s == t
  {
    if s == [] || t == [] {
    } else {
      assert Stuff(s)[0] == s[0] && Stuff(t)[0] == t[0];
      var k := if s[0] == 255 then 2 else 1;
      assert Stuff(s)[k..] == Stuff(s[1..]) && Stuff(t)[k..] == Stuff(t[1..]);
      StuffInjective(s[1..], t[1..]);
      assert s == [s[0]] + s[1..] && t == [t[0]] + t[1..];
    }
  }

  /** In a stuffed segment a byte 0xFF is always followed by a zero byte, so no marker can be
      found in it; and leaving out these zeros gives the segment. */
  lemma {:induction false} StuffHasNoMarker(s: seq<byte>, i: nat)
    requires i < |Stuff(s)| && Stuff(s)[i] == 0xFF
    ensures i + 1 < |Stuff(s)| && Stuff(s)[i + 1] == 0
  {
    if s[0] == 255 && i > 0 {
      assert Stuff(s)[1] == 0;
      assert Stuff(s)[i] == Stuff(s[1..])[i - 2];
      StuffHasNoMarker(s[1..], i - 2);
    } else if s[0] != 255 {
      assert Stuff(s)[i] == Stuff(s[1..])[i - 1];
      StuffHasNoMarker(s[1..], i - 1);
    }
  }

  /** A stuffed segment with the zero behind every 0xFF left out. */
  function Unstuffed(t: seq<byte>): seq<byte>
  {
    if t == [] then [] else if t[0] == 0xFF && |t| > 1 then [t[0]] + Unstuffed(t[2..]) else [t[0]] + Unstuffed(t[1..])
  }

  lemma {:induction false} UnstuffStuff(s: seq<byte>)
    ensures Unstuffed(Stuff(s)) == s
  {
    if s != [] {
      UnstuffStuff(s[1..]);
      var k := if s[0] == 255 then 2 else 1;
      assert Stuff(s)[k..] == Stuff(s[1..]);
      assert s == [s[0]] + s[1..];
    }
  }
}
