/** Sequential blocks, and the DC scans of progressive mode, in Huffman symbols (sections
    F.1.2, F.2.2 and G.1.2.1 of ITU-T T.81). */
module HuffmanBlocks {
  import opened JpegLib
  import opened Bytes
  import opened Arithmetic
  import opened Blocks
  import opened BitStreams
  import opened BitWriting
  import opened CodeTable
  import opened HuffmanDecoding
  import opened HuffmanItems

  const MAX_COEF_BITS := 10
  const ZRL := 0xF0

  // ----- DC coefficients

  function DcItems(tbl: nat, diff: int): seq<Item>
  {
    var n := NBits(Abs(diff));
    [DcSym(tbl, n)] + if n > 0 then [Raw(Extra(diff), n)] else []
  }

  /** The DC difference at position `at`, and the position behind it. */
  function DecodeDcDiff(t: HuffTable, d: seq<bit>, at: nat): (int, nat)
    requires CountsOk(t)
  {
    var (s, at1) := DecodeSym(t, d, at);
    if s == 0 then (0, at1) else (Extend(Peek(d, at1, s), s), at1 + s)
  }

  lemma DcDecodes(ts: Tables, d: seq<bit>, at: nat, tbl: nat, diff: int)
    requires ts.Valid() && tbl < NUM_HUFF_TBLS && Next(ts, d, at, DcItems(tbl, diff)) && NBits(Abs(diff)) <= 15
    ensures DecodeDcDiff(ts.dc[tbl], d, at) == (diff, at + Length(ts, DcItems(tbl, diff)))
  {
    hide Next, Length, DecodeSym, Peek, Extra, Extend, NBits;
    var n := NBits(Abs(diff));
    var sym := [DcSym(tbl, n)];
    if n > 0 {
      var raw := [Raw(Extra(diff), n)];
      NextConcat(ts, d, at, sym, raw);
      DcSymDecodes(ts, d, at, tbl, n);
      RawDecodes(ts, d, at + Length(ts, sym), Extra(diff), n);
      ExtendExtra(diff);
    } else {
      assert DcItems(tbl, diff) == sym;
      DcSymDecodes(ts, d, at, tbl, n);
      NoBits(diff);
    }
  }

  lemma NoBits(v: int)
    requires NBits(Abs(v)) == 0
    ensures v == 0
  {
  }

  // ----- AC coefficients

  function Zrls(tbl: nat, m: nat): (s: seq<Item>)
    ensures |s| == m
  {
    if m == 0 then [] else [AcSym(tbl, ZRL)] + Zrls(tbl, m - 1)
  }

  /** The coefficients of z from k to se, r zeros having been seen. */
  function AcItems(tbl: nat, z: seq<int>, k: nat, r: nat, se: nat): seq<Item>
    requires se < |z|
    decreases se + 1 - k
  {
    if k > se then if r > 0 then [AcSym(tbl, 0)] else []
    else if z[k] == 0 then AcItems(tbl, z, k + 1, r + 1, se)
    else
      var n := NBits(Abs(z[k]));
      Zrls(tbl, r / 16) + ([AcSym(tbl, r % 16 * 16 + n)] + ([Raw(Extra(z[k]), n)] + AcItems(tbl, z, k + 1, 0, se)))
  }

  /** Where coefficient k of a band up to se is stored: the tables of natural order have
      entries behind their end that name the last position. */
  function Slot(k: nat, se: nat): (p: nat)
    requires se < DCTSIZE2
    ensures p < DCTSIZE2
  {
    if k <= se then k else DCTSIZE2 - 1
  }

  /** The coefficients of a sequential block from k to se; those met from position `limit`
      on are discarded. */
  function DecodeAc(t: HuffTable, d: seq<bit>, at: nat, y: Block, k: nat, limit: nat, se: nat): (r: (Block, nat))
    requires CountsOk(t) && se < DCTSIZE2
    decreases se + 1 - k
  {
    if k > se then (y, at)
    else
      var (sym, at1) := DecodeSym(t, d, at);
      var r, s := sym / 16, sym % 16;
      if s != 0 then
        var v := Jcoef(Extend(Peek(d, at1, s), s));
        DecodeAc(t, d, at1 + s, if k < limit then y[Slot(k + r, se) := v] else y, k + r + 1, limit, se)
      else if r != 15 then (y, at1)
      else DecodeAc(t, d, at1, y, k + 16, limit, se)
  }

  lemma AcEnd(t: HuffTable, d: seq<bit>, at: nat, y: Block, k: nat, limit: nat, se: nat)
    requires CountsOk(t) && se < DCTSIZE2 && k > se
    ensures DecodeAc(t, d, at, y, k, limit, se) == (y, at)
  {
    hide CountsOk;
  }

  lemma AcStep(t: HuffTable, d: seq<bit>, at: nat, y: Block, k: nat, limit: nat, se: nat)
    requires CountsOk(t) && se < DCTSIZE2 && k <= se
    ensures var (sym, at1) := DecodeSym(t, d, at);
            var r, s := sym / 16, sym % 16;
            DecodeAc(t, d, at, y, k, limit, se) ==
            if s != 0 then
              DecodeAc(t, d, at1 + s,
                if k < limit then y[Slot(k + r, se) := Jcoef(Extend(Peek(d, at1, s), s))] else y, k + r + 1, limit,
                se)
            else if r != 15 then (y, at1)
            else DecodeAc(t, d, at1, y, k + 16, limit, se)
  {
    hide DecodeSym, Peek, Extend, Jcoef, CountsOk;
  }

  ghost predicate SmallAc(z: seq<int>, k: nat, se: nat)
    requires se < |z|
  {
    forall j :: k <= j <= se ==> -0x8000 <= z[j] < 0x8000 && NBits(Abs(z[j])) <= MAX_COEF_BITS
  }

  /** What decoding leaves in y of the coefficients from k to se. */
  ghost predicate Restored(z: seq<int>, y: Block, y': Block, k: nat, limit: nat, se: nat)
    requires se < |z| == DCTSIZE2
  {
    forall j :: 0 <= j < DCTSIZE2 ==>
      if k <= j <= se then (j < limit ==> y'[j] == z[j]) && (y'[j] == z[j] || y'[j] == 0) else y'[j] == y[j]
  }

  lemma {:induction false} ZrlsDecode(ts: Tables, d: seq<bit>, at: nat, tbl: nat, m: nat, rest: seq<Item>, y: Block,
    k: nat, limit: nat, se: nat)
    requires ts.Valid() && tbl < NUM_HUFF_TBLS && se < DCTSIZE2 && k + 16 * m <= se
    requires Next(ts, d, at, Zrls(tbl, m) + rest)
    ensures var at1 := at + Length(ts, Zrls(tbl, m));
            && Next(ts, d, at1, rest) && Length(ts, Zrls(tbl, m) + rest) == Length(ts, Zrls(tbl, m)) + Length(ts, rest)
            && DecodeAc(ts.ac[tbl], d, at, y, k, limit, se) == DecodeAc(ts.ac[tbl], d, at1, y, k + 16 * m, limit, se)
    decreases m
  {
    hide Next, Length, DecodeSym, Peek, Extend;
    NextConcat(ts, d, at, Zrls(tbl, m), rest);
    if m == 0 {
      NextNone(ts, d, at);
    } else {
      var sym := [AcSym(tbl, ZRL)];
      assert Zrls(tbl, m) + rest == sym + (Zrls(tbl, m - 1) + rest);
      NextConcat(ts, d, at, sym, Zrls(tbl, m - 1) + rest);
      NextConcat(ts, d, at, sym, Zrls(tbl, m - 1));
      AcSymDecodes(ts, d, at, tbl, ZRL);
      ZrlsDecode(ts, d, at + Length(ts, sym), tbl, m - 1, rest, y, k + 16, limit, se);
    }
  }

  /** A symbol for a coefficient behind r zeros, and its bits. */
  lemma CoefDecodes(ts: Tables, d: seq<bit>, at: nat, tbl: nat, v: int, r: nat, rest: seq<Item>, y: Block, k: nat,
    limit: nat, se: nat)
    requires ts.Valid() && tbl < NUM_HUFF_TBLS && k + r <= se < DCTSIZE2 && r < 16
    requires v != 0 && -0x8000 <= v < 0x8000 && NBits(Abs(v)) <= MAX_COEF_BITS
    requires Next(ts, d, at, [AcSym(tbl, r * 16 + NBits(Abs(v)))] + ([Raw(Extra(v), NBits(Abs(v)))] + rest))
    ensures var coef := [AcSym(tbl, r * 16 + NBits(Abs(v)))] + ([Raw(Extra(v), NBits(Abs(v)))] + rest);
            var at' := at + Length(ts, coef) - Length(ts, rest);
            && at' >= 0 && Next(ts, d, at', rest)
            && DecodeAc(ts.ac[tbl], d, at, y, k, limit, se)
               == DecodeAc(ts.ac[tbl], d, at', if k < limit then y[k + r := v] else y, k + r + 1, limit, se)
  {
    hide Next, Length, DecodeAc, DecodeSym, Peek, Extend, Extra, NBits, Jcoef, CountsOk;
    var n := NBits(Abs(v));
    AcStep(ts.ac[tbl], d, at, y, k, limit, se);
    var sym, raw := [AcSym(tbl, r * 16 + n)], [Raw(Extra(v), n)];
    NextConcat(ts, d, at, sym, raw + rest);
    AcSymDecodes(ts, d, at, tbl, r * 16 + n);
    NextConcat(ts, d, at + Length(ts, sym), raw, rest);
    RawDecodes(ts, d, at + Length(ts, sym), Extra(v), n);
    ExtendExtra(v);
    JcoefId(v);
  }

  lemma AllZero(z: seq<int>, y: Block, k: nat, r: nat, limit: nat, se: nat)
    requires k == se + 1 <= |z| == DCTSIZE2 && r <= k
    requires forall j :: k - r <= j <= se ==> y[j] == 0
    requires forall j :: k - r <= j < k ==> z[j] == 0
    ensures Restored(z, y, y, k - r, limit, se)
  {
  }

  lemma RestoredStep(z: seq<int>, y: Block, y1: Block, y': Block, k: nat, r: nat, limit: nat, se: nat)
    requires k <= se < |z| == DCTSIZE2 && r <= k && Restored(z, y1, y', k + 1, limit, se)
    requires -0x8000 <= z[k] < 0x8000 && y1 == if k - r % 16 < limit then y[k := z[k]] else y
    requires forall j :: k - r <= j <= se ==> y[j] == 0
    requires forall j :: k - r <= j < k ==> z[j] == 0
    ensures Restored(z, y, y', k - r, limit, se)
  {
  }

  /** A nonzero coefficient behind r zeros. */
  lemma NonzeroDecodes(ts: Tables, d: seq<bit>, at: nat, tbl: nat, z: seq<int>, y: Block, k: nat, r: nat, limit: nat,
    se: nat) returns (at2: nat)
    requires ts.Valid() && tbl < NUM_HUFF_TBLS && r <= k <= se < DCTSIZE2 == |z| && z[k] != 0
    requires -0x8000 <= z[k] < 0x8000 && NBits(Abs(z[k])) <= MAX_COEF_BITS && Next(ts, d, at, AcItems(tbl, z, k, r, se))
    ensures at2 == at + Length(ts, AcItems(tbl, z, k, r, se)) - Length(ts, AcItems(tbl, z, k + 1, 0, se))
    ensures Next(ts, d, at2, AcItems(tbl, z, k + 1, 0, se))
    ensures var y1 := if k - r % 16 < limit then y[k := z[k]] else y;
            DecodeAc(ts.ac[tbl], d, at, y, k - r, limit, se) == DecodeAc(ts.ac[tbl], d, at2, y1, k + 1, limit, se)
  {
    hide Next, Length, DecodeSym, Peek, Extend, Extra, NBits, Zrls, DecodeAc;
    var n := NBits(Abs(z[k]));
    var rest := AcItems(tbl, z, k + 1, 0, se);
    var coef := [AcSym(tbl, r % 16 * 16 + n)] + ([Raw(Extra(z[k]), n)] + rest);
    assert AcItems(tbl, z, k, r, se) == Zrls(tbl, r / 16) + coef;
    ZrlsDecode(ts, d, at, tbl, r / 16, coef, y, k - r, limit, se);
    var at1 := at + Length(ts, Zrls(tbl, r / 16));
    CoefDecodes(ts, d, at1, tbl, z[k], r % 16, rest, y, k - r % 16, limit, se);
    at2 := at1 + Length(ts, coef) - Length(ts, rest);
  }

  /** Decoding undoes coding, from the first of the r zeros on. */
  lemma {:induction false} AcDecodes(ts: Tables, d: seq<bit>, at: nat, tbl: nat, z: seq<int>, y: Block, k: nat, r: nat,
    limit: nat, se: nat)
    requires ts.Valid() && tbl < NUM_HUFF_TBLS && r <= k <= se + 1 && se < DCTSIZE2 == |z|
    requires SmallAc(z, k - r, se) && Next(ts, d, at, AcItems(tbl, z, k, r, se))
    requires forall j :: k - r <= j <= se ==> y[j] == 0
    requires forall j :: k - r <= j < k ==> z[j] == 0
    ensures var (y', at') := DecodeAc(ts.ac[tbl], d, at, y, k - r, limit, se);
            Restored(z, y, y', k - r, limit, se) && at' == at + Length(ts, AcItems(tbl, z, k, r, se))
    decreases se + 1 - k
  {
    hide Next, Length, DecodeAc, DecodeSym, Peek, Extend, Extra, NBits, Zrls, Restored, CountsOk;
    if k > se {
      AllZero(z, y, k, r, limit, se);
      if r > 0 {
        AcStep(ts.ac[tbl], d, at, y, k - r, limit, se);
        AcSymDecodes(ts, d, at, tbl, 0);
      } else {
        AcEnd(ts.ac[tbl], d, at, y, k, limit, se);
        NextNone(ts, d, at);
      }
    } else if z[k] == 0 {
      AcDecodes(ts, d, at, tbl, z, y, k + 1, r + 1, limit, se);
    } else {
      var at2 := NonzeroDecodes(ts, d, at, tbl, z, y, k, r, limit, se);
      var y1 := if k - r % 16 < limit then y[k := z[k]] else y;
      AcDecodes(ts, d, at2, tbl, z, y1, k + 1, 0, limit, se);
      RestoredStep(z, y, y1, DecodeAc(ts.ac[tbl], d, at2, y1, k + 1, limit, se).0, k, r, limit, se);
    }
  }
}
