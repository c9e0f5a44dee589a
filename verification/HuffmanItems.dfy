/** What a Huffman entropy encoder emits: symbols of a table and raw bits; and decoding
    them. */
module HuffmanItems {
  import opened JpegLib
  import opened Bytes
  import opened Arithmetic
  import opened Blocks
  import opened BitStreams
  import opened BitWriting
  import opened CodeTable
  import opened HuffmanDecoding

  /** A symbol of a DC or AC table, or the n low-order bits of v. */
  datatype Item = DcSym(tbl: nat, sym: nat) | AcSym(tbl: nat, sym: nat) | Raw(v: nat, n: nat)

  /** The tables of a scan by number. */
  datatype Tables = Tables(dc: seq<HuffTable>, ac: seq<HuffTable>)
  {
    ghost predicate Valid()
    {
      && |dc| == |ac| == NUM_HUFF_TBLS
      && forall i :: 0 <= i < NUM_HUFF_TBLS ==> CountsOk(dc[i]) && CountsOk(ac[i])
    }
  }

  /** The number of the code of a symbol among the first n, or -1. */
  function IndexTo(t: HuffTable, sym: nat, n: nat): (p: int)
    requires n <= MAX_SYMBOLS
    ensures -1 <= p < n && (p >= 0 ==> t.huffval[p] == sym)
    ensures p < 0 ==> forall q :: 0 <= q < n ==> t.huffval[q] != sym
  {
    if n == 0 then -1 else if t.huffval[n - 1] == sym then n - 1 else IndexTo(t, sym, n - 1)
  }

  predicate HasCode(t: HuffTable, sym: nat)
    requires CountsOk(t)
  {
    IndexTo(t, sym, |Sizes(t)|) >= 0
  }

  function CodeOf(t: HuffTable, sym: nat): seq<bit>
    requires CountsOk(t)
  {
    var p := IndexTo(t, sym, |Sizes(t)|);
    if p >= 0 then CodeBits(t, p) else []
  }

  function ItemBits(ts: Tables, i: Item): seq<bit>
    requires ts.Valid()
  {
    match i
    case DcSym(tbl, sym) => if tbl < NUM_HUFF_TBLS then CodeOf(ts.dc[tbl], sym) else []
    case AcSym(tbl, sym) => if tbl < NUM_HUFF_TBLS then CodeOf(ts.ac[tbl], sym) else []
    case Raw(v, n) => BitsOf(v, n)
  }

  /** All symbols have codes. */
  predicate Codable(ts: Tables, i: Item)
    requires ts.Valid()
  {
    match i
    case DcSym(tbl, sym) => tbl < NUM_HUFF_TBLS && HasCode(ts.dc[tbl], sym)
    case AcSym(tbl, sym) => tbl < NUM_HUFF_TBLS && HasCode(ts.ac[tbl], sym)
    case Raw(v, n) => v < Pow2(n)
  }

  function Bits(ts: Tables, items: seq<Item>): seq<bit>
    requires ts.Valid()
  {
    if items == [] then [] else Bits(ts, items[..|items| - 1]) + ItemBits(ts, items[|items| - 1])
  }

  ghost predicate AllCodable(ts: Tables, items: seq<Item>)
    requires ts.Valid()
  {
    forall i :: 0 <= i < |items| ==> Codable(ts, items[i])
  }

  lemma {:induction false} BitsConcat(ts: Tables, xs: seq<Item>, ys: seq<Item>)
    requires ts.Valid()
    ensures Bits(ts, xs + ys) == Bits(ts, xs) + Bits(ts, ys)
    decreases |ys|
  {
    hide ItemBits;
    if ys == [] {
      assert xs + ys == xs;
    } else {
      var n := |ys| - 1;
      var zs := xs + ys;
      assert zs[..|zs| - 1] == xs + ys[..n] && zs[|zs| - 1] == ys[n];
      BitsConcat(ts, xs, ys[..n]);
    }
  }

  lemma BitsOne(ts: Tables, i: Item)
    requires ts.Valid()
    ensures Bits(ts, [i]) == ItemBits(ts, i)
  {
    assert [i][..0] == [];
  }

  /** The bits are next in the data. */
  ghost predicate Holds(d: seq<bit>, at: nat, b: seq<bit>)
  {
    at + |b| <= |d| && d[at..at + |b|] == b
  }

  lemma HoldsConcat(d: seq<bit>, at: nat, a: seq<bit>, b: seq<bit>)
    ensures Holds(d, at, a + b) <==> Holds(d, at, a) && Holds(d, at + |a|, b)
  {
    if at + |a| + |b| <= |d| {
      assert d[at..at + |a + b|] == d[at..at + |a|] + d[at + |a|..at + |a| + |b|];
      assert d[at..at + |a|] == d[at..at + |a + b|][..|a|];
      assert d[at + |a|..at + |a| + |b|] == d[at..at + |a + b|][|a|..];
    }
  }

  /** The items are next in the data, in the given tables. */
  ghost predicate Next(ts: Tables, d: seq<bit>, at: nat, items: seq<Item>)
    requires ts.Valid()
  {
    AllCodable(ts, items) && Holds(d, at, Bits(ts, items))
  }

  function Length(ts: Tables, items: seq<Item>): nat
    requires ts.Valid()
  {
    |Bits(ts, items)|
  }

  lemma NextConcat(ts: Tables, d: seq<bit>, at: nat, xs: seq<Item>, ys: seq<Item>)
    requires ts.Valid()
    ensures Next(ts, d, at, xs + ys) <==> Next(ts, d, at, xs) && Next(ts, d, at + Length(ts, xs), ys)
    ensures Length(ts, xs + ys) == Length(ts, xs) + Length(ts, ys)
  {
    hide Bits, Holds, AllCodable;
    BitsConcat(ts, xs, ys);
    HoldsConcat(d, at, Bits(ts, xs), Bits(ts, ys));
    CodableConcat(ts, xs, ys);
  }

  lemma CodableConcat(ts: Tables, xs: seq<Item>, ys: seq<Item>)
    requires ts.Valid()
    ensures AllCodable(ts, xs + ys) <==> AllCodable(ts, xs) && AllCodable(ts, ys)
  {
    hide Codable;
    if AllCodable(ts, xs + ys) {
      forall i | 0 <= i < |xs|
        ensures Codable(ts, xs[i])
      {
        assert xs[i] == (xs + ys)[i];
      }
      forall i | 0 <= i < |ys|
        ensures Codable(ts, ys[i])
      {
        assert ys[i] == (xs + ys)[|xs| + i];
      }
    }
  }

  lemma NextNone(ts: Tables, d: seq<bit>, at: nat)
    requires ts.Valid()
    ensures Length(ts, []) == 0 && (Next(ts, d, at, []) <==> at <= |d|)
  {
  }

  /** A coded symbol is decoded. */
  lemma CodeDecodes(t: HuffTable, d: seq<bit>, at: nat, sym: nat)
    requires CountsOk(t) && HasCode(t, sym) && Holds(d, at, CodeOf(t, sym))
    ensures DecodeSym(t, d, at) == (sym, at + |CodeOf(t, sym)|) && |CodeOf(t, sym)| > 0
  {
    var p := IndexTo(t, sym, |Sizes(t)|);
    hide DecodeSym, IndexTo;
    assert CodeOf(t, sym) == CodeBits(t, p);
    SymbolDecodes(t, d, at, p);
  }

  lemma AcSymDecodes(ts: Tables, d: seq<bit>, at: nat, tbl: nat, sym: nat)
    requires ts.Valid() && tbl < NUM_HUFF_TBLS && Next(ts, d, at, [AcSym(tbl, sym)])
    ensures DecodeSym(ts.ac[tbl], d, at) == (sym, at + Length(ts, [AcSym(tbl, sym)]))
  {
    hide DecodeSym, CodeOf, HasCode;
    assert Codable(ts, [AcSym(tbl, sym)][0]);
    BitsOne(ts, AcSym(tbl, sym));
    CodeDecodes(ts.ac[tbl], d, at, sym);
  }

  lemma DcSymDecodes(ts: Tables, d: seq<bit>, at: nat, tbl: nat, sym: nat)
    requires ts.Valid() && tbl < NUM_HUFF_TBLS && Next(ts, d, at, [DcSym(tbl, sym)])
    ensures DecodeSym(ts.dc[tbl], d, at) == (sym, at + Length(ts, [DcSym(tbl, sym)]))
  {
    hide DecodeSym, CodeOf, HasCode;
    assert Codable(ts, [DcSym(tbl, sym)][0]);
    BitsOne(ts, DcSym(tbl, sym));
    CodeDecodes(ts.dc[tbl], d, at, sym);
  }

  lemma RawDecodes(ts: Tables, d: seq<bit>, at: nat, v: nat, n: nat)
    requires ts.Valid() && Next(ts, d, at, [Raw(v, n)])
    ensures v < Pow2(n) && Peek(d, at, n) == v && Length(ts, [Raw(v, n)]) == n
  {
    hide Peek, BitsOf;
    assert Codable(ts, [Raw(v, n)][0]);
    BitsOne(ts, Raw(v, n));
    PeekBits(d, at, n, v);
  }

  // ----- magnitudes

  /** The number of bits of a magnitude. */
  function NBits(a: nat): (n: nat)
    ensures n == 0 <==> a == 0
  {
    if a == 0 then 0 else 1 + NBits(a / 2)
  }

  lemma {:induction false} NBitsBounds(a: nat)
    requires a > 0
    ensures Pow2(NBits(a) - 1) <= a < Pow2(NBits(a))
  {
    if a > 1 {
      NBitsBounds(a / 2);
    }
  }

  /** The bits sent for a nonzero value: itself if positive, the complement of its magnitude
      if negative. */
  function Extra(v: int): nat
  {
    if v >= 0 then v
    else
      NBitsBounds(Abs(v));
      v + Pow2(NBits(Abs(v))) - 1
  }

  /** HUFF_EXTEND. */
  function Extend(r: nat, s: nat): int
    requires s > 0
  {
    if r < Pow2(s - 1) then r - (Pow2(s) - 1) else r
  }

  lemma ExtendExtra(v: int)
    requires v != 0
    ensures var n := NBits(Abs(v)); n > 0 && Extra(v) < Pow2(n) && Extend(Extra(v), n) == v
  {
    NBitsBounds(Abs(v));
    Pow2Next(NBits(Abs(v)) - 1);
  }

  /** emit_bits masks what it is given: for a negative value, v - 1. */
  lemma MaskIsExtra(v: int)
    requires v != 0
    ensures Mask(if v < 0 then v - 1 else v, NBits(Abs(v))) == Extra(v)
  {
    var n := NBits(Abs(v));
    NBitsBounds(Abs(v));
    hide Pow2;
    if v < 0 {
      ModShift(v - 1, Pow2(n), v + Pow2(n) - 1);
    } else {
      ModSelf(v, Pow2(n));
    }
  }

  lemma ModSelf(v: nat, q: nat)
    requires v < q
    ensures v % q == v
  {
  }

  lemma ModShift(x: int, q: nat, r: nat)
    requires x + q == r < q
    ensures x % q == r
  {
  }
}
