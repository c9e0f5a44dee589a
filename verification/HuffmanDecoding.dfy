/** Decoding Huffman codes: the place of a bit pattern on the unit interval, the
    bit-serial procedure and the lookahead table (jdhuff.c; section F.2.2.3 of
    ITU-T T.81). */
module HuffmanDecoding {
  import opened Bytes
  import opened Arithmetic
  import opened BitStreams
  import opened CodeTable

  const HUFF_LOOKAHEAD := 8

  /** The code that owns point w of the unit interval. */
  function Find(s: seq<nat>, w: nat): (p: nat)
    requires (forall q :: 0 <= q < |s| ==> s[q] <= MAX_LENGTH) && w < Area(s, |s|)
    ensures p < |s| && Area(s, p) <= w < Area(s, p + 1)
  {
    FindTo(s, w, |s|)
  }

  function FindTo(s: seq<nat>, w: nat, n: nat): (p: nat)
    requires (forall q :: 0 <= q < |s| ==> s[q] <= MAX_LENGTH) && n <= |s| && w < Area(s, n)
    ensures p < n && Area(s, p) <= w < Area(s, p + 1)
  {
    if Area(s, n - 1) <= w then n - 1 else FindTo(s, w, n - 1)
  }

  lemma FindIs(s: seq<nat>, w: nat, p: nat)
    requires (forall q :: 0 <= q < |s| ==> s[q] <= MAX_LENGTH) && p < |s| && Area(s, p) <= w < Area(s, p + 1)
    ensures w < Area(s, |s|) && Find(s, w) == p
  {
    hide Area;
    AreaGrows(s, p + 1, |s|);
    var q := Find(s, w);
    if q < p {
      AreaGrows(s, q + 1, p);
    } else if p < q {
      AreaGrows(s, p + 1, q);
    }
  }

  /** The symbol at position `at`, and the position behind its code.  Garbage, which only
      a pattern of ones can be, counts as symbol 0 and takes 17 bits. */
  function DecodeSym(t: HuffTable, d: seq<bit>, at: nat): (byte, nat)
    requires CountsOk(t)
  {
    var w := Peek(d, at, MAX_LENGTH);
    if w < Total(t) then
      var p := Find(Sizes(t), w);
      (t.huffval[p], at + Sizes(t)[p])
    else (0, at + MAX_LENGTH + 1)
  }

  /** The bits of the code numbered p. */
  function CodeBits(t: HuffTable, p: nat): seq<bit>
    requires p < |Sizes(t)|
  {
    BitsOf(Code(Sizes(t), p), Sizes(t)[p])
  }

  lemma CodeArea(t: HuffTable, p: nat)
    requires p < |Sizes(t)|
    ensures Shl(Code(Sizes(t), p), MAX_LENGTH - Sizes(t)[p]) == Area(Sizes(t), p)
  {
    var s := Sizes(t);
    hide Area, SizesTo, Shl, Pow2;
    AreaDivides(s, p, s[p]);
    QuotientExact(Area(s, p), Pow2(MAX_LENGTH - s[p]));
    ShlTimes(Code(s, p), MAX_LENGTH - s[p]);
  }

  lemma CodeFits(t: HuffTable, p: nat)
    requires CountsOk(t) && p < |Sizes(t)|
    ensures Code(Sizes(t), p) + 1 < Pow2(Sizes(t)[p])
  {
    var s := Sizes(t);
    CodeArea(t, p);
    AreaGrows(s, p + 1, |s|);
    var k := MAX_LENGTH - s[p];
    ShlAdd(Code(s, p), 1, k);
    ShlShl(1, s[p], k);
    ShlOrder(Pow2(s[p]), Code(s, p) + 1, k);
  }

  /** Decoding undoes coding, whatever follows the code. */
  lemma SymbolDecodes(t: HuffTable, d: seq<bit>, at: nat, p: nat)
    requires CountsOk(t) && p < |Sizes(t)|
    requires at + Sizes(t)[p] <= |d| && d[at..at + Sizes(t)[p]] == CodeBits(t, p)
    ensures DecodeSym(t, d, at) == (t.huffval[p], at + Sizes(t)[p])
    ensures Peek(d, at, MAX_LENGTH) < Total(t) && Find(Sizes(t), Peek(d, at, MAX_LENGTH)) == p
  {
    hide Area, Code, Shl, Peek, SizesTo, BitsOf;
    var s := Sizes(t);
    var n := s[p];
    CodeFits(t, p);
    CodeArea(t, p);
    PeekBits(d, at, n, Code(s, p));
    PeekWithin(d, at, n, MAX_LENGTH - n);
    ShlAdd(Code(s, p), 1, MAX_LENGTH - n);
    assert Area(s, p + 1) == Area(s, p) + Pow2(MAX_LENGTH - n) by { AreaNext(s, p); }
    FindIs(s, Peek(d, at, MAX_LENGTH), p);
  }

  lemma AreaNext(s: seq<nat>, p: nat)
    requires p < |s| && forall q :: 0 <= q < |s| ==> s[q] <= MAX_LENGTH
    ensures Area(s, p + 1) == Area(s, p) + Pow2(MAX_LENGTH - s[p])
  {
  }

  /** No code is the beginning of another. */
  lemma PrefixFree(t: HuffTable, p: nat, q: nat)
    requires CountsOk(t) && p < |Sizes(t)| && q < |Sizes(t)|
    requires CodeBits(t, p) <= CodeBits(t, q)
    ensures p == q
  {
    hide Peek, Area, Code;
    var d := CodeBits(t, q);
    assert d[0..0 + Sizes(t)[q]] == d;
    assert d[0..0 + Sizes(t)[p]] == CodeBits(t, p);
    SymbolDecodes(t, d, 0, p);
    SymbolDecodes(t, d, 0, q);
  }

  /** No code is all ones. */
  lemma NotAllOnes(t: HuffTable, p: nat)
    requires CountsOk(t) && p < |Sizes(t)|
    ensures exists i :: 0 <= i < Sizes(t)[p] && CodeBits(t, p)[i] == 0
  {
    var b, n := CodeBits(t, p), Sizes(t)[p];
    CodeFits(t, p);
    hide Area, Code, SizesTo;
    if forall i :: 0 <= i < n ==> b[i] == 1 {
      AllOnes(Code(Sizes(t), p), n);
    } else {
      var i :| 0 <= i < n && b[i] != 1;
      assert b[i] == 0;
    }
  }

  // ----- figure F.15 and the lookahead table

  /** d_derived_tbl: the largest code of each length, the index of a code's symbol less the
      code, and by the next 8 bits the length and symbol of short codes. */
  datatype DTable = DTable(maxcode: seq<int>, valoffset: seq<int>, lookNbits: seq<nat>, lookSym: seq<byte>,
    pub: HuffTable)

  /** Index of the first code of length l. */
  function First(t: HuffTable, l: nat): nat
    requires 1 <= l <= MAX_LENGTH
  {
    Offset(t, l - 1)
  }

  ghost predicate RowOk(d: DTable, l: nat)
    requires |d.maxcode| == |d.valoffset| == MAX_LENGTH + 2 && 1 <= l <= MAX_LENGTH
  {
    if d.pub.bits[l] == 0 then d.maxcode[l] == -1
    else
      var p := First(d.pub, l);
      && p + d.pub.bits[l] <= |Sizes(d.pub)|
      && d.valoffset[l] == p - Code(Sizes(d.pub), p)
      && d.maxcode[l] == Code(Sizes(d.pub), p + d.pub.bits[l] - 1)
  }

  /** The entry for the next 8 bits v: a code of up to 8 bits owns all points that start
      with v, or a longer one is needed. */
  ghost predicate LookOk(t: HuffTable, v: nat, nbits: nat, sym: byte)
    requires CountsOk(t)
  {
    if v * 256 < Area(Sizes(t), Offset8(t)) then
      OffsetBound(t);
      AreaGrows(Sizes(t), Offset8(t), |Sizes(t)|);
      var p := Find(Sizes(t), v * 256);
      nbits == Sizes(t)[p] && sym == t.huffval[p]
    else nbits == 0
  }

  function Offset8(t: HuffTable): (n: nat)
    ensures n <= |Sizes(t)|
  {
    OffsetBound(t);
    Offset(t, HUFF_LOOKAHEAD)
  }

  lemma OffsetBound(t: HuffTable)
    ensures Offset(t, HUFF_LOOKAHEAD) <= |Sizes(t)|
  {
    SizesPrefix(t, HUFF_LOOKAHEAD, MAX_LENGTH);
  }

  ghost predicate Derived(d: DTable)
  {
    && CountsOk(d.pub)
    && |d.maxcode| == |d.valoffset| == MAX_LENGTH + 2 && |d.lookNbits| == |d.lookSym| == 256
    && (forall l :: 1 <= l <= MAX_LENGTH ==> RowOk(d, l))
    && d.maxcode[MAX_LENGTH + 1] == 0xFFFFF
    && (forall v :: 0 <= v < 256 ==> LookOk(d.pub, v, d.lookNbits[v], d.lookSym[v]))
  }

  /** The codes of length l have that length. */
  lemma RowSizes(t: HuffTable, l: nat)
    requires 1 <= l <= MAX_LENGTH
    ensures First(t, l) + t.bits[l] == Offset(t, l) <= |Sizes(t)|
    ensures forall i :: First(t, l) <= i < Offset(t, l) ==> Sizes(t)[i] == l
  {
    SizesPrefix(t, l, MAX_LENGTH);
    forall i | First(t, l) <= i < Offset(t, l)
      ensures Sizes(t)[i] == l
    {
      SizeAt(t, l, i);
    }
  }

  /** And follow each other. */
  lemma {:induction false} RowArea(t: HuffTable, l: nat, j: nat)
    requires 1 <= l <= MAX_LENGTH && j <= t.bits[l] && t.bits[l] > 0
    requires First(t, l) + t.bits[l] <= |Sizes(t)| && forall i :: First(t, l) <= i < First(t, l) + t.bits[l] ==>
      Sizes(t)[i] == l
    ensures Area(Sizes(t), First(t, l) + j) == Shl(Code(Sizes(t), First(t, l)) + j, MAX_LENGTH - l)
    ensures j < t.bits[l] ==> Code(Sizes(t), First(t, l) + j) == Code(Sizes(t), First(t, l)) + j
  {
    hide Area, Code, Shl, SizesTo;
    var s, p := Sizes(t), First(t, l);
    if j == 0 {
      CodeArea(t, p);
    } else {
      RowArea(t, l, j - 1);
      NextCode(s, p + j - 1, Code(s, p) + j - 1);
    }
    if j < t.bits[l] {
      NextCode(s, p + j, Code(s, p) + j);
    }
  }

  /** Bits that lie among the codes of length l are one of them. */
  lemma CodeMatches(t: HuffTable, d: seq<bit>, at: nat, l: nat, j: nat)
    requires CountsOk(t) && 1 <= l <= MAX_LENGTH && j < t.bits[l]
    requires First(t, l) + t.bits[l] <= |Sizes(t)| && forall i :: First(t, l) <= i < First(t, l) + t.bits[l] ==>
      Sizes(t)[i] == l
    requires Peek(d, at, l) == Code(Sizes(t), First(t, l)) + j
    ensures DecodeSym(t, d, at) == (t.huffval[First(t, l) + j], at + l)
  {
    hide Peek, Area, Code, Shl, SizesTo;
    PeekWithin(d, at, l, MAX_LENGTH - l);
    RowArea(t, l, j);
    RowArea(t, l, j + 1);
    FindIs(Sizes(t), Peek(d, at, MAX_LENGTH), First(t, l) + j);
  }

  /** One step of the bit-serial procedure: the first l bits are a code of length l exactly
      when they are not above the largest, no shorter code having matched. */
  lemma SerialStep(t: HuffTable, d: seq<bit>, at: nat, l: nat)
    requires CountsOk(t) && 1 <= l <= MAX_LENGTH
    requires First(t, l) <= |Sizes(t)| && Area(Sizes(t), First(t, l)) <= Peek(d, at, MAX_LENGTH)
    ensures First(t, l) + t.bits[l] == Offset(t, l) <= |Sizes(t)|
    ensures var code, p := Peek(d, at, l), First(t, l);
            if t.bits[l] == 0 || code > Code(Sizes(t), p + t.bits[l] - 1) then
              Area(Sizes(t), Offset(t, l)) <= Peek(d, at, MAX_LENGTH)
            else
              var i := code + p - Code(Sizes(t), p);
              && p <= i < p + t.bits[l]
              && DecodeSym(t, d, at) == (t.huffval[i], at + l)
  {
    hide Peek, Area, Code, Shl, SizesTo, DecodeSym;
    RowSizes(t, l);
    if t.bits[l] > 0 {
      var n, k := t.bits[l], MAX_LENGTH - l;
      var code, c0 := Peek(d, at, l), Code(Sizes(t), First(t, l));
      PeekWithin(d, at, l, k);
      RowArea(t, l, n - 1);
      if code >= c0 + n {
        RowArea(t, l, n);
        ShlOrder(c0 + n, code, k);
      } else {
        RowArea(t, l, 0);
        ShlOrder(c0, code + 1, k);
        CodeMatches(t, d, at, l, code - c0);
      }
    }
  }

  /** Eight bits that start a short code decide; otherwise the code is longer. */
  lemma LookDecides(d: DTable, data: seq<bit>, at: nat)
    requires Derived(d)
    ensures Peek(data, at, HUFF_LOOKAHEAD) < 256
    ensures var v := Peek(data, at, HUFF_LOOKAHEAD);
            if d.lookNbits[v] != 0 then
              DecodeSym(d.pub, data, at) == (d.lookSym[v], at + d.lookNbits[v]) && d.lookNbits[v] <= HUFF_LOOKAHEAD
            else Area(Sizes(d.pub), Offset8(d.pub)) <= Peek(data, at, MAX_LENGTH)
  {
    hide Area, SizesTo, Peek, Shl, Pow2, Find, RowOk;
    var t := d.pub;
    var v, w, s := Peek(data, at, HUFF_LOOKAHEAD), Peek(data, at, MAX_LENGTH), Sizes(t);
    PeekBound(data, at, HUFF_LOOKAHEAD);
    Pow2Values();
    PeekWithin(data, at, HUFF_LOOKAHEAD, 8);
    ShlTimes(v, 8);
    ShlTimes(v + 1, 8);
    assert v * 256 <= w < v * 256 + 256;
    assert LookOk(t, v, d.lookNbits[v], d.lookSym[v]);
    ShortCodes(t, v, w);
  }

  /** All points that start with the same 8 bits belong to the same short code, if to any. */
  lemma ShortCodes(t: HuffTable, v: nat, w: nat)
    requires CountsOk(t) && v * 256 <= w < v * 256 + 256
    ensures v * 256 < Area(Sizes(t), Offset8(t)) <==> w < Area(Sizes(t), Offset8(t))
    ensures v * 256 < Area(Sizes(t), Offset8(t)) ==>
              && v * 256 < Total(t) && w < Total(t)
              && Find(Sizes(t), w) == Find(Sizes(t), v * 256)
              && 0 < Sizes(t)[Find(Sizes(t), w)] <= HUFF_LOOKAHEAD
  {
    var s, m := Sizes(t), Offset8(t);
    OffsetBound(t);
    Pow2Values();
    forall p | 0 <= p < m
      ensures s[p] <= HUFF_LOOKAHEAD
    {
      SizeAt(t, HUFF_LOOKAHEAD, p);
    }
    AreaDivides(s, m, HUFF_LOOKAHEAD);
    hide Area, SizesTo, Pow2, Shl;
    assert Pow2(8) == 256;
    if v * 256 < Area(s, m) {
      RoomForOne(v * 256, Area(s, m), 256);
      AreaGrows(s, m, |s|);
      var p := Find(s, v * 256);
      if p >= m {
        AreaGrows(s, m, p);
      }
      AreaDivides(s, p + 1, HUFF_LOOKAHEAD);
      RoomForOne(v * 256, Area(s, p + 1), 256);
      FindIs(s, w, p);
    }
  }

  /** The rows of figure F.15. */
  method DecodingRows(t: HuffTable, huffcode: array<nat>) returns (maxcode: seq<int>, valoffset: seq<int>)
    requires CountsOk(t) && huffcode.Length == MAX_SYMBOLS + 1
    requires forall q :: 0 <= q < |Sizes(t)| ==> huffcode[q] == Code(Sizes(t), q)
    ensures |maxcode| == |valoffset| == MAX_LENGTH + 2 && maxcode[MAX_LENGTH + 1] == 0xFFFFF
    ensures forall l :: 1 <= l <= MAX_LENGTH ==> RowOk(DTable(maxcode, valoffset, [], [], t), l)
  {
    hide Code, SizesTo, Area;
    maxcode, valoffset := seq(MAX_LENGTH + 2, _ => -1), seq(MAX_LENGTH + 2, _ => 0);
    var p: nat := 0;
    NoSizes(t);
    for l := 1 to MAX_LENGTH + 1
      invariant |maxcode| == |valoffset| == MAX_LENGTH + 2 && p == Offset(t, l - 1)
      invariant forall k :: l <= k <= MAX_LENGTH ==> maxcode[k] == -1
      invariant forall k :: 1 <= k < l ==> RowOk(DTable(maxcode, valoffset, [], [], t), k)
    {
      RowSizes(t, l);
      ghost var before := DTable(maxcode, valoffset, [], [], t);
      if t.bits[l] != 0 {
        valoffset := valoffset[l := p - huffcode[p]];
        p := p + t.bits[l];
        maxcode := maxcode[l := huffcode[p - 1]];
      }
      forall k | 1 <= k < l
        ensures RowOk(DTable(maxcode, valoffset, [], [], t), k)
      {
        assert RowOk(before, k);
      }
    }
    ghost var before := DTable(maxcode, valoffset, [], [], t);
    maxcode := maxcode[MAX_LENGTH + 1 := 0xFFFFF];
    forall k | 1 <= k <= MAX_LENGTH
      ensures RowOk(DTable(maxcode, valoffset, [], [], t), k)
    {
      assert RowOk(before, k);
    }
  }

  /** Entries below lookbits are filled in, the others say "too long". */
  ghost predicate Filled(t: HuffTable, nbits: array<nat>, sym: array<byte>, lookbits: nat)
    requires CountsOk(t)
    reads nbits, sym
  {
    && nbits.Length == sym.Length == 256
    && (forall v :: 0 <= v < lookbits && v < 256 ==> LookOk(t, v, nbits[v], sym[v]))
    && (forall v :: lookbits <= v < 256 ==> nbits[v] == 0)
  }

  lemma LookEntry(t: HuffTable, v: nat, p: nat)
    requires CountsOk(t) && p < Offset8(t) && Area(Sizes(t), p) <= v * 256 < Area(Sizes(t), p + 1)
    ensures LookOk(t, v, Sizes(t)[p], t.huffval[p])
  {
    AreaGrows(Sizes(t), p + 1, Offset8(t));
    FindIs(Sizes(t), v * 256, p);
  }

  /** All bit sequences that start with the code numbered p. */
  method FillCode(t: HuffTable, nbits: array<nat>, sym: array<byte>, l: nat, p: nat, lookbits0: nat)
    returns (lookbits: nat)
    requires CountsOk(t) && Filled(t, nbits, sym, lookbits0) && p < Offset8(t) && Sizes(t)[p] == l <= HUFF_LOOKAHEAD
    requires lookbits0 * 256 == Area(Sizes(t), p)
    modifies nbits, sym
    ensures Filled(t, nbits, sym, lookbits) && lookbits * 256 == Area(Sizes(t), p + 1)
  {
    hide Area, SizesTo, LookOk, Shl, Pow2;
    lookbits := lookbits0;
    var ctr := Pow2(HUFF_LOOKAHEAD - l);
    Span(t, l, p);
    while ctr > 0
      invariant (lookbits + ctr) * 256 == Area(Sizes(t), p + 1) && lookbits >= lookbits0
      invariant Filled(t, nbits, sym, lookbits)
    {
      AreaGrows(Sizes(t), p + 1, |Sizes(t)|);
      LookEntry(t, lookbits, p);
      nbits[lookbits] := l;
      sym[lookbits] := t.huffval[p];
      lookbits := lookbits + 1;
      ctr := ctr - 1;
    }
  }

  lemma Span(t: HuffTable, l: nat, p: nat)
    requires CountsOk(t) && p < |Sizes(t)| && Sizes(t)[p] == l <= HUFF_LOOKAHEAD
    ensures Area(Sizes(t), p + 1) == Area(Sizes(t), p) + Pow2(HUFF_LOOKAHEAD - l) * 256
    ensures Area(Sizes(t), p + 1) <= Total(t) < 256 * 256
  {
    AreaNext(Sizes(t), p);
    AreaGrows(Sizes(t), p + 1, |Sizes(t)|);
    hide Area, SizesTo;
    ShlShl(1, HUFF_LOOKAHEAD - l, 8);
    ShlTimes(Pow2(HUFF_LOOKAHEAD - l), 8);
    Pow2Values();
  }

  /** The lookahead tables. */
  method LookTables(t: HuffTable) returns (lookNbits: seq<nat>, lookSym: seq<byte>)
    requires CountsOk(t)
    ensures |lookNbits| == |lookSym| == 256
    ensures forall v :: 0 <= v < 256 ==> LookOk(t, v, lookNbits[v], lookSym[v])
  {
    hide Area, SizesTo, LookOk;
    var nbits := new nat[256](i => 0);
    var sym := new byte[256](i => 0);
    var p: nat, lookbits: nat := 0, 0;
    AreaNone(Sizes(t));
    NoSizes(t);
    for l := 1 to HUFF_LOOKAHEAD + 1
      invariant p == Offset(t, l - 1) && fresh(nbits) && fresh(sym)
      invariant Filled(t, nbits, sym, lookbits) && p <= |Sizes(t)| && lookbits * 256 == Area(Sizes(t), p)
    {
      RowSizes(t, l);
      RowWithin(t, l);
      var i: nat := 1;
      while i <= t.bits[l]
        invariant 1 <= i <= (t.bits[l] as int) + 1 && p == First(t, l) + i - 1
        invariant Filled(t, nbits, sym, lookbits) && lookbits * 256 == Area(Sizes(t), p)
      {
        lookbits := FillCode(t, nbits, sym, l, p, lookbits);
        i, p := i + 1, p + 1;
      }
    }
    lookNbits, lookSym := nbits[..], sym[..];
    forall v | 0 <= v < 256
      ensures LookOk(t, v, lookNbits[v], lookSym[v])
    {
      if v >= lookbits {
        LongCode(t, v, lookSym[v]);
      }
    }
  }

  lemma LongCode(t: HuffTable, v: nat, sym: byte)
    requires CountsOk(t) && v * 256 >= Area(Sizes(t), Offset8(t))
    ensures LookOk(t, v, 0, sym)
  {
  }

  lemma RowWithin(t: HuffTable, l: nat)
    requires 1 <= l <= HUFF_LOOKAHEAD
    ensures Offset(t, l) <= Offset8(t)
  {
    SizesPrefix(t, l, HUFF_LOOKAHEAD);
  }

  lemma NoSizes(t: HuffTable)
    ensures Offset(t, 0) == 0
  {
  }

  lemma AreaNone(s: seq<nat>)
    requires forall q :: 0 <= q < |s| ==> s[q] <= MAX_LENGTH
    ensures Area(s, 0) == 0
  {
  }

  /** What jpeg_make_d_derived_tbl accepts; repeated symbols are not checked. */
  predicate Decodable(t: HuffTable, isDC: bool)
  {
    CountsOk(t) && (isDC ==> forall p :: 0 <= p < |Sizes(t)| ==> t.huffval[p] <= 15)
  }

  /** jpeg_make_d_derived_tbl. */
  method MakeDDerived(t: HuffTable, isDC: bool) returns (ok: bool, d: DTable)
    ensures ok <==> Decodable(t, isDC)
    ensures ok ==> Derived(d) && d.pub == t
  {
    hide Area, SizesTo, Code, LookOk, RowOk;
    d := DTable([], [], [], [], t);
    var huffsize, huffcode, numsymbols;
    ok, huffsize, numsymbols := HuffSizes(t);
    if !ok {
      return;
    }
    ok, huffcode := HuffCodes(huffsize, Sizes(t));
    if !ok {
      return;
    }
    var maxcode, valoffset := DecodingRows(t, huffcode);
    var lookNbits, lookSym := LookTables(t);
    if isDC {
      for i := 0 to numsymbols
        invariant forall p :: 0 <= p < i ==> t.huffval[p] <= 15
      {
        if t.huffval[i] > 15 {
          ok := false;
          return;
        }
      }
    }
    d := DTable(maxcode, valoffset, lookNbits, lookSym, t);
    SameRows(d);
  }

  lemma SameRows(d: DTable)
    requires |d.maxcode| == |d.valoffset| == MAX_LENGTH + 2
    requires forall l :: 1 <= l <= MAX_LENGTH ==> RowOk(DTable(d.maxcode, d.valoffset, [], [], d.pub), l)
    ensures forall l :: 1 <= l <= MAX_LENGTH ==> RowOk(d, l)
  {
    forall l | 1 <= l <= MAX_LENGTH
      ensures RowOk(d, l)
    {
      assert RowOk(DTable(d.maxcode, d.valoffset, [], [], d.pub), l);
    }
  }
}
