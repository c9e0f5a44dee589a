/** The bit reader of jdhuff.c: bytes are fetched ahead into get_buffer, and zeros are
    supplied once a marker ends the data. */
module BitReading {
  import opened Bytes
  import opened Arithmetic
  import opened Markers
  import opened BitStreams
  import opened CodeTable
  import opened HuffmanDecoding

  const BIT_BUF_SIZE := 32
  const MIN_GET_BITS := BIT_BUF_SIZE - 7

  /** The data bytes from i up to the next marker. */
  function Rest(src: seq<byte>, i: Input): seq<byte>
    decreases if i.marker != 0 then 0 else ToMarker(src, i.pos)
  {
    if i.marker != 0 then []
    else
      NextDataAhead(src, i);
      var (data, j) := NextData(src, i);
      if j.marker != 0 then [] else [data] + Rest(src, j)
  }

  /** The input behind the data: at the marker that ends them. */
  function End(src: seq<byte>, i: Input): Input
    decreases if i.marker != 0 then 0 else ToMarker(src, i.pos)
  {
    if i.marker != 0 then i
    else
      NextDataAhead(src, i);
      var (data, j) := NextData(src, i);
      if j.marker != 0 then j else End(src, j)
  }

  lemma NextDataAhead(src: seq<byte>, i: Input)
    requires i.marker == 0
    ensures var (data, j) := NextData(src, i);
            j.marker == 0 ==> ToMarker(src, j.pos) < ToMarker(src, i.pos)
  {
    SkipOnesAhead(src, i.pos + 1);
  }

  // ----- get_buffer

  function Rem(x: nat, q: nat): nat
    requires q > 0
  {
    x % q
  }

  lemma RemIs(x: nat, q: nat, h: nat, r: nat)
    requires r < q && x == h * q + r
    ensures Rem(x, q) == r && Quotient(x, q) == h
  {
    QuotientIs(x, q, h, r);
  }

  lemma RemQuotient(x: nat, q: nat)
    requires q > 0
    ensures x == Quotient(x, q) * q + Rem(x, q) && Rem(x, q) < q
  {
  }

  /** Of the low n + k bits of the buffer, the first n. */
  lemma TopBits(g: nat, n: nat, k: nat, hi: nat, lo: nat)
    requires Rem(g, Pow2(n + k)) == Shl(hi, k) + lo && hi < Pow2(n) && lo < Pow2(k)
    ensures Rem(Quotient(g, Pow2(k)), Pow2(n)) == hi && Rem(g, Pow2(k)) == lo
  {
    hide Rem, Quotient, Shl, Pow2;
    var h := Quotient(g, Pow2(n + k));
    RemQuotient(g, Pow2(n + k));
    Pow2Product(n, k);
    ShlTimes(hi, k);
    var q := h * Pow2(n) + hi;
    assert h * Pow2(n + k) == h * Pow2(n) * Pow2(k) by {
      Associative(h, Pow2(n), Pow2(k));
    }
    assert g == q * Pow2(k) + lo by {
      Distributive(h * Pow2(n), hi, Pow2(k));
    }
    RemIs(g, Pow2(k), q, lo);
    RemIs(q, Pow2(n), h, hi);
  }

  lemma Pow2Product(n: nat, k: nat)
    ensures Pow2(n + k) == Pow2(n) * Pow2(k)
  {
    ShlShl(1, n, k);
    ShlTimes(Pow2(n), k);
  }

  lemma Associative(a: nat, b: nat, c: nat)
    ensures a * (b * c) == a * b * c
  {
  }

  lemma Distributive(a: nat, b: nat, c: nat)
    ensures (a + b) * c == a * c + b * c
  {
  }

  /** A byte shifted in, with the top of the 32-bit buffer lost. */
  lemma ByteIn(g: nat, n: nat, c: byte)
    requires n + 8 <= BIT_BUF_SIZE
    ensures Rem(Rem(g * 256 + c, Pow2(BIT_BUF_SIZE)), Pow2(n + 8)) == Rem(g, Pow2(n)) * 256 + c
  {
    hide Rem, Quotient, Shl, Pow2;
    var h, r := Quotient(g, Pow2(n)), Rem(g, Pow2(n));
    var x := g * 256 + c;
    RemQuotient(g, Pow2(n));
    Pow2Product(n, 8);
    assert Pow2(8) == 256 by { Pow2Values(); }
    assert x == h * Pow2(n + 8) + (r * 256 + c) by {
      Associative(h, Pow2(n), 256);
      Distributive(h * Pow2(n), r, 256);
    }
    RemRem(x, n + 8, BIT_BUF_SIZE - (n + 8));
    RemIs(x, Pow2(n + 8), h, r * 256 + c);
  }

  lemma RemRem(x: nat, n: nat, k: nat)
    ensures Rem(Rem(x, Pow2(n + k)), Pow2(n)) == Rem(x, Pow2(n))
  {
    hide Rem, Quotient, Shl, Pow2;
    var h, y := Quotient(x, Pow2(n + k)), Rem(x, Pow2(n + k));
    RemQuotient(x, Pow2(n + k));
    RemQuotient(y, Pow2(n));
    Pow2Product(k, n);
    Associative(h, Pow2(k), Pow2(n));
    Distributive(h * Pow2(k), Quotient(y, Pow2(n)), Pow2(n));
    RemIs(x, Pow2(n), h * Pow2(k) + Quotient(y, Pow2(n)), Rem(y, Pow2(n)));
  }

  /** The bits of one byte behind those already there. */
  lemma ByteSeen(data: seq<bit>, at: nat, n: nat, c: byte, rest: seq<byte>)
    requires at + n <= |data| && data[at + n..] == ByteBits([c] + rest)
    ensures Peek(data, at, n + 8) == Peek(data, at, n) * 256 + c
    ensures at + n + 8 <= |data| && data[at + n + 8..] == ByteBits(rest)
  {
    assert ([c] + rest)[1..] == rest;
    var tail := data[at + n..];
    assert tail == BitsOf(c, 8) + ByteBits(rest);
    assert data[at + n..at + n + 8] == tail[..8] == BitsOf(c, 8);
    assert data[at + n + 8..] == tail[8..];
    Pow2Values();
    hide Peek, BitsOf, ByteBits, Shl;
    PeekBits(data, at + n, 8, c);
    PeekSplit(data, at, n, 8);
    ShlTimes(Peek(data, at, n), 8);
  }

  lemma {:induction false} PeekEnd(data: seq<bit>, at: nat, n: nat)
    requires at >= |data|
    ensures Peek(data, at, n) == 0
  {
    if n > 0 {
      PeekEnd(data, at, n - 1);
    }
  }

  /** The bit buffer with its data source.  The ghost fields are the bits of the current
      entropy-coded segment and how many of them have been used. */
  class BitReader {
    var getBuffer: nat
    var bitsLeft: nat
    var src: seq<byte>
    var pos: nat
    var unreadMarker: byte
    var insufficientData: bool
    ghost var data: seq<bit>
    ghost var at: nat
    ghost var final: Input    // where the segment ends

    constructor (src: seq<byte>)
      ensures Valid() && this.src == src && at == 0 && bitsLeft == 0 && !insufficientData && unreadMarker == 0 && pos
        == 0
      ensures data == ByteBits(Rest(src, Input(0, 0))) && final == End(src, Input(0, 0))
    {
      getBuffer, bitsLeft, this.src, pos, unreadMarker, insufficientData := 0, 0, src, 0, 0, false;
      data, at, final := ByteBits(Rest(src, Input(0, 0))), 0, End(src, Input(0, 0));
      new;
      assert Rem(0, Pow2(0)) == 0;
    }

    /** Drops the bits in the buffer, and goes on at the input i. */
    method StartSegment(i: Input)
      modifies `bitsLeft, `pos, `unreadMarker, `data, `at, `final, `insufficientData
      ensures Valid() && at == 0 && bitsLeft == 0 && pos == i.pos && unreadMarker == i.marker
      ensures data == ByteBits(Rest(src, i)) && final == End(src, i) && insufficientData
        == (old(insufficientData) && i.marker != 0)
    {
      bitsLeft, pos, unreadMarker := 0, i.pos, i.marker;
      data, at, final := ByteBits(Rest(src, i)), 0, End(src, i);
      if i.marker == 0 {
        insufficientData := false;
      }
      NoneLeft();
    }

    /** At the start of a scan. */
    method StartPass()
      modifies `getBuffer, `bitsLeft, `insufficientData, `data, `at, `final
      ensures Valid() && at == 0 && bitsLeft == 0 && !insufficientData
      ensures data == ByteBits(Rest(src, Input(pos, unreadMarker))) && final == End(src, Input(pos, unreadMarker))
    {
      getBuffer, bitsLeft, insufficientData := 0, 0, false;
      data, at, final := ByteBits(Rest(src, Input(pos, unreadMarker))), 0, End(src, Input(pos, unreadMarker));
      NoneLeft();
    }

    lemma NoneLeft()
      ensures Rem(getBuffer, Pow2(0)) == 0
    {
    }

    ghost predicate Valid()
      reads this
    {
      && bitsLeft <= BIT_BUF_SIZE && Rem(getBuffer, Pow2(bitsLeft)) == Peek(data, at, bitsLeft)
      && End(src, Input(pos, unreadMarker)) == final
      && (if at + bitsLeft <= |data| then data[at + bitsLeft..] == ByteBits(Rest(src, Input(pos, unreadMarker)))
          else unreadMarker != 0 && insufficientData)
    }

    /** The segment and the source are those of before; n more bits have been used. */
    twostate predicate Advanced(n: nat)
      reads this
    {
      && Valid() && src == old(src) && data == old(data) && final == old(final) && at == old(at) + n
      && insufficientData == (old(insufficientData) || at > |data|)
    }

    /** jpeg_fill_bit_buffer. */
    method FillBitBuffer(nbits: nat)
      requires Valid() && nbits <= MIN_GET_BITS && (nbits > 0 ==> bitsLeft < nbits)
      modifies this
      ensures Valid() && src == old(src) && data == old(data) && final == old(final) && at == old(at)
      ensures bitsLeft >= nbits && bitsLeft >= old(bitsLeft)
      ensures insufficientData == (old(insufficientData) || (nbits > 0 && at + nbits > |data|))
    {
      hide Rem, Peek, ByteBits, Pow2;
      if unreadMarker == 0 {
        while bitsLeft < MIN_GET_BITS
          invariant Valid() && src == old(src) && data == old(data) && final == old(final) && at == old(at)
            && unreadMarker == 0
          invariant bitsLeft >= old(bitsLeft) && insufficientData == old(insufficientData)
          decreases MIN_GET_BITS - bitsLeft
        {
          var c, input := FetchData(src, Input(pos, unreadMarker));
          if input.marker != 0 {
            EndOfData(c, input);
            pos, unreadMarker := input.pos, input.marker;
            break;
          }
          MoreData(c, input);
          pos := input.pos;
          getBuffer := Rem(getBuffer * 256 + c, Pow2(BIT_BUF_SIZE));
          bitsLeft := bitsLeft + 8;
        }
      }
      if unreadMarker != 0 && nbits > bitsLeft {
        insufficientData := true;
        ZerosIn();
        getBuffer := Rem(Shl(getBuffer, MIN_GET_BITS - bitsLeft), Pow2(BIT_BUF_SIZE));
        bitsLeft := MIN_GET_BITS;
      }
    }

    lemma EndOfData(c: byte, input: Input)
      requires Valid() && unreadMarker == 0 && (c, input) == NextData(src, Input(pos, 0)) && input.marker != 0
      ensures at + bitsLeft == |data| && ByteBits(Rest(src, input)) == [] && End(src, input) == final
    {
    }

    lemma MoreData(c: byte, input: Input)
      requires Valid() && unreadMarker == 0 && (c, input) == NextData(src, Input(pos, 0)) && input.marker == 0
      requires bitsLeft + 8 <= BIT_BUF_SIZE
      ensures at + bitsLeft + 8 <= |data| && data[at + bitsLeft + 8..] == ByteBits(Rest(src, input)) && End(src, input)
        == final
      ensures Rem(Rem(getBuffer * 256 + c, Pow2(BIT_BUF_SIZE)), Pow2(bitsLeft + 8)) == Peek(data, at, bitsLeft + 8)
    {
      hide Rem, Pow2, NextData;
      assert Rest(src, Input(pos, 0)) == [c] + Rest(src, input);
      ByteSeen(data, at, bitsLeft, c, Rest(src, input));
      ByteIn(getBuffer, bitsLeft, c);
    }

    lemma ZerosIn()
      requires Valid() && unreadMarker != 0 && bitsLeft < MIN_GET_BITS
      ensures Rem(Rem(Shl(getBuffer, MIN_GET_BITS - bitsLeft), Pow2(BIT_BUF_SIZE)), Pow2(MIN_GET_BITS))
        == Peek(data, at, MIN_GET_BITS)
      ensures at + MIN_GET_BITS > |data|
    {
      hide Rem, Quotient, Shl, Pow2, Peek, ByteBits;
      var k := MIN_GET_BITS - bitsLeft;
      var r := Peek(data, at, bitsLeft);
      assert at + bitsLeft >= |data| by { NothingLeft(); }
      PeekSplit(data, at, bitsLeft, k);
      PeekEnd(data, at + bitsLeft, k);
      ShlTimes(getBuffer, k);
      ShlTimes(r, k);
      var h := Quotient(getBuffer, Pow2(bitsLeft));
      RemQuotient(getBuffer, Pow2(bitsLeft));
      Pow2Product(bitsLeft, k);
      Associative(h, Pow2(bitsLeft), Pow2(k));
      Distributive(h * Pow2(bitsLeft), r, Pow2(k));
      RemRem(Shl(getBuffer, k), MIN_GET_BITS, BIT_BUF_SIZE - MIN_GET_BITS);
      PeekBound(data, at, MIN_GET_BITS);
      RemIs(Shl(getBuffer, k), Pow2(MIN_GET_BITS), h, Peek(data, at, MIN_GET_BITS));
    }

    lemma NothingLeft()
      requires Valid() && unreadMarker != 0
      ensures at + bitsLeft >= |data|
    {
    }

    /** CHECK_BIT_BUFFER and GET_BITS: the next n bits. */
    method GetBits(n: nat) returns (r: nat)
      requires Valid() && 0 < n <= 16
      modifies this
      ensures Advanced(n) && r == Peek(data, old(at), n) && r < Pow2(n)
    {
      hide Rem, Quotient, Pow2, Peek, ByteBits, Rest;
      if bitsLeft < n {
        FillBitBuffer(n);
      }
      r := Take(n);
    }

    /** GET_BITS with enough bits in the buffer. */
    method Take(n: nat) returns (r: nat)
      requires Valid() && n <= bitsLeft && n <= 16
      modifies `bitsLeft, `at
      ensures Valid() && at == old(at) + n && bitsLeft == old(bitsLeft) - n
      ensures r == Peek(data, old(at), n) && r < Pow2(n)
    {
      hide Rem, Quotient, Pow2, Peek, ByteBits, Rest;
      PeekSplit(data, at, n, bitsLeft - n);
      PeekBound(data, at, n);
      PeekBound(data, at + n, bitsLeft - n);
      TopBits(getBuffer, n, bitsLeft - n, Peek(data, at, n), Peek(data, at + n, bitsLeft - n));
      bitsLeft := bitsLeft - n;
      r := Rem(Quotient(getBuffer, Pow2(bitsLeft)), Pow2(n));
      at := at + n;
    }

    /** jpeg_huff_decode: the bit-serial procedure, from codes of minBits bits on. */
    method SlowDecode(d: DTable, minBits: nat) returns (sym: byte)
      requires Valid() && Derived(d) && 1 <= minBits <= MAX_LENGTH
      requires First(d.pub, minBits) <= |Sizes(d.pub)|
      requires Area(Sizes(d.pub), First(d.pub, minBits)) <= Peek(data, at, MAX_LENGTH)
      modifies this
      ensures (sym, at) == DecodeSym(d.pub, data, old(at)) && at >= old(at) && Advanced(at - old(at))
    {
      hide BitReader.Valid, Peek, Area, SizesTo, Code, DecodeSym, LookOk;
      ghost var at0, w := at, Peek(data, at, MAX_LENGTH);
      var l := minBits;
      SmallCode(l);
      var code := GetBits(l);
      while code > d.maxcode[l]
        invariant minBits <= l <= MAX_LENGTH + 1 && Advanced(l) && code == Peek(data, at0, l) < 0x20000
        invariant if l <= MAX_LENGTH then First(d.pub, l) <= |Sizes(d.pub)| && Area(Sizes(d.pub), First(d.pub, l)) <= w
                  else DecodeSym(d.pub, data, at0) == (0, at0 + MAX_LENGTH + 1)
        decreases MAX_LENGTH + 1 - l
      {
        assert RowOk(d, l);
        SerialStep(d.pub, data, at0, l);
        NextBit(at0, l);
        if l == MAX_LENGTH {
          Garbage(d.pub, data, at0);
        }
        code := code * 2;
        var bit := GetBits(1);
        code := code + bit;
        l := l + 1;
      }
      if l > MAX_LENGTH {
        return 0;
      }
      assert RowOk(d, l);
      SerialStep(d.pub, data, at0, l);
      sym := d.pub.huffval[code + d.valoffset[l]];
    }

    lemma SmallCode(l: nat)
      requires l <= MAX_LENGTH
      ensures Pow2(l) < 0x20000
    {
      Pow2Monotone(l, 17);
      Pow2Values();
    }

    lemma NextBit(at0: nat, l: nat)
      requires l <= MAX_LENGTH
      ensures Peek(data, at0, l + 1) == 2 * Peek(data, at0, l) + Peek(data, at0 + l, 1)
      ensures Peek(data, at0, l + 1) < 0x20000
    {
      PeekBound(data, at0, l + 1);
      assert Peek(data, at0 + l, 1) == BitAt(data, at0 + l);
      Pow2Monotone(l + 1, 17);
      Pow2Values();
      assert Pow2(17) == 0x20000;
    }

    lemma Garbage(t: HuffTable, d: seq<bit>, at0: nat)
      requires CountsOk(t) && Area(Sizes(t), Offset(t, MAX_LENGTH)) <= Peek(d, at0, MAX_LENGTH)
      ensures DecodeSym(t, d, at0) == (0, at0 + MAX_LENGTH + 1)
    {
    }

    /** HUFF_DECODE: by the lookahead table if there are 8 bits and they are enough. */
    method HuffDecode(d: DTable) returns (sym: byte)
      requires Valid() && Derived(d)
      modifies this
      ensures (sym, at) == DecodeSym(d.pub, data, old(at)) && at >= old(at) && Advanced(at - old(at))
    {
      hide BitReader.Valid, Peek, Area, SizesTo, Code, DecodeSym, LookOk;
      if bitsLeft < HUFF_LOOKAHEAD {
        FillBitBuffer(0);
        if bitsLeft < HUFF_LOOKAHEAD {
          AtFirst(d.pub);
          sym := SlowDecode(d, 1);
          return;
        }
      }
      LookDecides(d, data, at);
      var look := PeekBits(HUFF_LOOKAHEAD);
      var nb := d.lookNbits[look];
      if nb != 0 {
        sym := d.lookSym[look];
        var _ := Take(nb);
        Unused();
      } else {
        OffsetBound(d.pub);
        sym := SlowDecode(d, HUFF_LOOKAHEAD + 1);
      }
    }

    lemma AtFirst(t: HuffTable)
      ensures First(t, 1) == 0 && Area(Sizes(t), 0) == 0
    {
    }

    /** What is still in the buffer has not run out of the data, unless reported. */
    lemma Unused()
      requires Valid()
      ensures at > |data| ==> insufficientData
    {
    }

    /** PEEK_BITS. */
    method PeekBits(n: nat) returns (r: nat)
      requires Valid() && n <= bitsLeft && n <= 16
      ensures r == Peek(data, at, n) && r < Pow2(n)
    {
      hide Rem, Quotient, Pow2, Peek, ByteBits, Rest;
      PeekSplit(data, at, n, bitsLeft - n);
      PeekBound(data, at, n);
      PeekBound(data, at + n, bitsLeft - n);
      TopBits(getBuffer, n, bitsLeft - n, Peek(data, at, n), Peek(data, at + n, bitsLeft - n));
      r := Rem(Quotient(getBuffer, Pow2(bitsLeft - n)), Pow2(n));
    }
  }
}
