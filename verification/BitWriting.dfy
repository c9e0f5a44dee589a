/** The bit writer of jchuff.c: bits are collected in put_buffer, and complete bytes output
    with a zero stuffed behind 0xFF. */
module BitWriting {
  import opened Bytes
  import opened Arithmetic
  import opened BitStreams
  import opened BitReading

  const PUT_BUF_BITS := 24

  lemma {:induction false} BitsOfSplit(hi: nat, lo: nat, n: nat, m: nat)
    requires lo < Pow2(m)
    ensures BitsOf(Shl(hi, m) + lo, n + m) == BitsOf(hi, n) + BitsOf(lo, m)
  {
    if m > 0 {
      var v := Shl(hi, m) + lo;
      assert v / 2 == Shl(hi, m - 1) + lo / 2 && v % 2 == lo % 2;
      BitsOfSplit(hi, lo / 2, n, m - 1);
    } else {
      assert BitsOf(lo, 0) == [];
    }
  }

  /** Bits behind those already in the buffer. */
  lemma AppendBits(top: nat, n: nat, c: nat, size: nat)
    requires top < Pow2(n) && c < Pow2(size) && n + size <= PUT_BUF_BITS
    ensures Shl(c, PUT_BUF_BITS - (n + size)) + Shl(top, PUT_BUF_BITS - n)
      == Shl(Shl(top, size) + c, PUT_BUF_BITS - (n + size))
    ensures Shl(top, size) + c < Pow2(n + size)
  {
    var k := PUT_BUF_BITS - (n + size);
    ShlShl(top, size, k);
    ShlAdd(Shl(top, size), c, k);
    ShlOrder(top + 1, Pow2(n), size);
    ShlAdd(top, 1, size);
    ShlShl(1, n, size);
  }

  /** The first byte of a buffer with at least 8 bits, and the buffer without it. */
  lemma TopByte(top: nat, m: nat, hi: nat, lo: nat)
    requires m <= 16 && top == Shl(hi, m) + lo && hi < 256 && lo < Pow2(m)
    ensures var b := Shl(top, 16 - m);
            && Quotient(b, 0x10000) == hi && b < 0x1000000
            && Rem(b * 256, 0x1000000) == Shl(lo, PUT_BUF_BITS - m)
  {
    hide Rem, Quotient, Shl, Pow2;
    var k := 16 - m;
    var r := Shl(lo, k);
    ShlAdd(Shl(hi, m), lo, k);
    ShlShl(hi, m, k);
    ShlTimes(hi, 16);
    ShlOrder(lo, Pow2(m), k);
    Pow2Product(m, k);
    ShlTimes(Pow2(m), k);
    Pow2Values();
    RemIs(hi * 0x10000 + r, 0x10000, hi, r);
    ShlShl(lo, k, 8);
    ShlTimes(r, 8);
    RemIs((hi * 0x10000 + r) * 256, 0x1000000, hi, r * 256);
  }

  lemma SplitTop(top: nat, m: nat) returns (hi: nat, lo: nat)
    requires top < Pow2(8 + m)
    ensures top == Shl(hi, m) + lo && hi < 256 && lo < Pow2(m)
  {
    hide Rem, Quotient, Shl, Pow2;
    hi, lo := Quotient(top, Pow2(m)), Rem(top, Pow2(m));
    RemQuotient(top, Pow2(m));
    ShlTimes(hi, m);
    Pow2Product(8, m);
    Pow2Values();
    if hi >= 256 {
      Distributive(256, hi - 256, Pow2(m));
      AtLeastZero(hi - 256, Pow2(m));
    }
  }

  function Ones(n: nat): seq<bit>
  {
    seq(n, _ => 1)
  }

  lemma {:induction false} OnesBits(n: nat)
    ensures BitsOf(Pow2(n) - 1, n) == Ones(n)
  {
    if n > 0 {
      assert (Pow2(n) - 1) / 2 == Pow2(n - 1) - 1 && (Pow2(n) - 1) % 2 == 1;
      OnesBits(n - 1);
    }
  }

  /** Whether the bytes output from `start` on are the complete bytes of the bits. */
  ghost predicate Written(out: seq<byte>, start: nat, plain: seq<byte>)
  {
    start <= |out| && out[start..] == Stuff(plain)
  }

  /** put_buffer with its destination.  The ghost fields are where the segment starts in the
      output, its complete bytes, the value of the bits in the buffer, and all its bits. */
  class BitWriter {
    var putBuffer: nat
    var putBits: nat
    var out: seq<byte>
    ghost var start: nat
    ghost var plain: seq<byte>
    ghost var top: nat
    ghost var bits: seq<bit>

    ghost predicate Valid()
      reads this
    {
      putBits <= 7 && Holding()
    }

    ghost predicate Holding()
      reads this
    {
      && putBits <= PUT_BUF_BITS && top < Pow2(putBits) && putBuffer == Shl(top, PUT_BUF_BITS - putBits)
      && bits == ByteBits(plain) + BitsOf(top, putBits)
      && Written(out, start, plain)
    }

    constructor ()
      ensures Valid() && out == [] && bits == [] && start == 0
    {
      putBuffer, putBits, out := 0, 0, [];
      start, plain, top, bits := 0, [], 0, [];
      new;
      ShlTimes(0, PUT_BUF_BITS);
    }

    method EmitByte(val: byte)
      modifies `out
      ensures out == old(out) + [val]
    {
      out := out + [val];
    }

    /** emit_bits: the size low-order bits of code; fails on size 0. */
    method EmitBits(code: int, size: nat) returns (ok: bool)
      requires Valid() && size <= 16
      modifies this
      ensures Valid() && start == old(start) && old(out) <= out
      ensures ok == (size > 0)
      ensures bits == old(bits) + if ok then BitsOf(Mask(code, size), size) else []
      ensures !ok ==> unchanged(this)
    {
      hide Shl, Pow2, ByteBits, BitsOf, Written, Mask;
      if size == 0 {
        return false;
      }
      var c := Mask(code, size);
      MaskSmall(code, size);
      AppendBits(top, putBits, c, size);
      BitsOfSplit(top, c, putBits, size);
      putBits := putBits + size;
      putBuffer := Shl(c, PUT_BUF_BITS - putBits) + putBuffer;
      top := Shl(top, size) + c;
      bits := bits + BitsOf(c, size);
      while putBits >= 8
        invariant Holding() && putBits <= 23 && start == old(start) && old(out) <= out
        invariant bits == old(bits) + BitsOf(c, size)
        decreases putBits
      {
        EmitTopByte();
      }
      ok := true;
    }

    method EmitTopByte()
      requires Holding() && 8 <= putBits <= 23
      modifies `putBuffer, `putBits, `out, `plain, `top
      ensures Holding() && putBits == old(putBits) - 8 && old(out) <= out
    {
      hide Shl, Pow2, ByteBits, BitsOf;
      ghost var m := putBits - 8;
      ghost var hi, lo := SplitTop(top, m);
      TopByte(top, m, hi, lo);
      BitsOfSplit(hi, lo, 8, m);
      var c := Quotient(putBuffer, 0x10000) % 256;
      EmitByte(c);
      if c == 0xFF {
        EmitByte(0);
      }
      putBuffer := Rem(putBuffer * 256, 0x1000000);
      putBits := putBits - 8;
      ghost var p := plain;
      plain, top := plain + [c], lo;
      ByteBitsSnoc(p, c);
      StuffSnoc(p, c);
      assert out[start..] == old(out)[start..] + (if c == 0xFF then [255, 0] else [c]);
    }

    lemma ByteBitsSnoc(p: seq<byte>, c: byte)
      ensures ByteBits(p + [c]) == ByteBits(p) + BitsOf(c, 8)
    {
      ByteBitsConcat(p, [c]);
      assert [c][1..] == [];
      assert ByteBits([c]) == BitsOf(c, 8) + [];
    }

    /** flush_bits: the last byte is filled with ones. */
    method FlushBits()
      requires Valid()
      modifies this
      ensures putBuffer == 0 && putBits == 0 && start == old(start) && old(out) <= out && Written(out, start, plain)
      ensures exists pad :: 0 <= pad < 8 && ByteBits(plain) == old(bits) + Ones(pad)
    {
      hide Shl, Pow2, ByteBits, BitsOf, Written;
      var n := putBits;
      var _ := EmitBits(0x7F, 7);
      Padding(n);
      putBuffer := 0;
      putBits := 0;
    }

    /** The output that follows belongs to a new segment. */
    ghost method StartSegment()
      requires putBuffer == 0 && putBits == 0
      modifies `start, `plain, `top, `bits
      ensures Valid() && start == |out| && bits == []
    {
      start, plain, top, bits := |out|, [], 0, [];
      ShlTimes(0, PUT_BUF_BITS);
    }

    /** The bit buffer is emptied at the start of a scan. */
    method Restart()
      modifies this
      ensures Valid() && start == |out| && bits == [] && out == old(out)
    {
      putBuffer, putBits := 0, 0;
      StartSegment();
    }

    /** Of seven ones the complete bytes keep those that fill the last byte. */
    twostate lemma Padding(n: nat)
      requires Valid() && n == old(putBits) <= 7 && old(Valid()) && bits == old(bits) + BitsOf(Mask(0x7F, 7), 7)
      ensures exists pad :: 0 <= pad < 8 && ByteBits(plain) == old(bits) + Ones(pad)
    {
      OnesBits(7);
      Pow2Values();
      assert Mask(0x7F, 7) == Pow2(7) - 1;
      hide Shl, Pow2, BitsOf, Mask;
      assert bits == old(bits) + Ones(7);
      var whole := 8 * |plain|;
      assert ByteBits(plain) == bits[..whole];
      var pad := whole - |old(bits)|;
      assert |bits| == whole + putBits && |old(bits)| == 8 * |old(plain)| + n;
      assert pad >= 0;
      assert bits[..whole] == old(bits) + Ones(pad);
    }
  }

  /** The low-order bits of a value in two's complement. */
  function Mask(code: int, size: nat): (c: nat)
  {
    code % Pow2(size)
  }

  lemma MaskSmall(code: int, size: nat)
    ensures Mask(code, size) < Pow2(size)
  {
  }
}
