/** The first AC pass of progressive mode: end-of-band runs over many blocks (section
    G.1.2.2 of ITU-T T.81). */
module HuffmanFirst {
  import opened JpegLib
  import opened Bytes
  import opened Arithmetic
  import opened Blocks
  import opened BitStreams
  import opened BitWriting
  import opened CodeTable
  import opened HuffmanDecoding
  import opened HuffmanItems
  import opened HuffmanBlocks

  const MAX_EOBRUN := 0x7FFF

  // ----- end-of-band runs

  /** The symbol and bits for a pending run. */
  function EobItems(tbl: nat, e: nat): seq<Item>
  {
    if e == 0 then []
    else
      Log2Bounds(e);
      [AcSym(tbl, Log2(e) * 16)] + if Log2(e) > 0 then [Raw(e - Pow2(Log2(e)), Log2(e))] else []
  }

  /** The run of an EOBn symbol and the position behind its bits. */
  function DecodeEob(d: seq<bit>, at: nat, r: nat): (nat, nat)
  {
    (Pow2(r) + if r > 0 then Peek(d, at, r) else 0, at + r)
  }

  /** An EOBn symbol is next: its run, and the position behind it. */
  function ReadEob(t: HuffTable, d: seq<bit>, at: nat): (nat, nat)
    requires CountsOk(t)
  {
    var (sym, at1) := DecodeSym(t, d, at);
    DecodeEob(d, at1, sym / 16)
  }

  ghost predicate AtEob(t: HuffTable, d: seq<bit>, at: nat)
    requires CountsOk(t)
  {
    var sym := DecodeSym(t, d, at).0;
    sym % 16 == 0 && sym / 16 < 15
  }

  lemma EobDecodes(ts: Tables, d: seq<bit>, at: nat, tbl: nat, e: nat)
    requires ts.Valid() && tbl < NUM_HUFF_TBLS && 0 < e <= MAX_EOBRUN && Next(ts, d, at, EobItems(tbl, e))
    ensures AtEob(ts.ac[tbl], d, at)
    ensures ReadEob(ts.ac[tbl], d, at) == (e, at + Length(ts, EobItems(tbl, e)))
  {
    hide Next, Length, DecodeSym, Peek, Pow2;
    var n := Log2(e);
    Log2Bounds(e);
    RunSmall(e);
    var sym := [AcSym(tbl, n * 16)];
    if n > 0 {
      var raw := [Raw(e - Pow2(n), n)];
      NextConcat(ts, d, at, sym, raw);
      AcSymDecodes(ts, d, at, tbl, n * 16);
      RawDecodes(ts, d, at + Length(ts, sym), e - Pow2(n), n);
    } else {
      assert EobItems(tbl, e) == sym;
      AcSymDecodes(ts, d, at, tbl, n * 16);
      OneRun(e);
    }
  }

  lemma RunSmall(e: nat)
    requires 0 < e <= MAX_EOBRUN
    ensures Log2(e) <= 14
  {
    Pow2Values();
    Log2Below(e, 15);
  }

  lemma OneRun(e: nat)
    requires e > 0 && Log2(e) == 0
    ensures e == 1 == Pow2(0)
  {
  }

  // ----- one block

  /** The coefficients of t from k to se, r zeros having been seen, without what follows the
      last nonzero one. */
  function CoefItems(tbl: nat, t: seq<int>, k: nat, r: nat, se: nat): seq<Item>
    requires se < |t|
    decreases se + 1 - k
  {
    if k > se then []
    else if t[k] == 0 then CoefItems(tbl, t, k + 1, r + 1, se)
    else
      var n := NBits(Abs(t[k]));
      Zrls(tbl, r / 16) + ([AcSym(tbl, r % 16 * 16 + n)] + ([Raw(Extra(t[k]), n)] + CoefItems(tbl, t, k + 1, 0, se)))
  }

  /** The last nonzero position of the band ss..se, or ss - 1. */
  function LastNonzero(t: seq<int>, ss: nat, se: nat): (e: nat)
    requires 0 < ss <= se + 1 <= |t|
    ensures ss - 1 <= e <= se && (e >= ss ==> t[e] != 0)
    ensures forall j :: e < j <= se ==> t[j] == 0
    decreases se
  {
    if se < ss then se else if t[se] != 0 then se else LastNonzero(t, ss, se - 1)
  }

  /** The items output for a block when e blocks have ended early before it, and how many
      have after it. */
  function FirstBlock(tbl: nat, t: seq<int>, ss: nat, se: nat, e: nat): (seq<Item>, nat)
    requires 0 < ss <= se < |t|
  {
    var last := LastNonzero(t, ss, se);
    var items := if last >= ss then EobItems(tbl, e) + CoefItems(tbl, t, ss, 0, se) else [];
    var e1 := (if last >= ss then 0 else e) + if last < se then 1 else 0;
    if e1 == MAX_EOBRUN then (items + EobItems(tbl, e1), 0) else (items, e1)
  }

  /** The items of a sequence of blocks up to the end of the segment. */
  function FirstItems(tbl: nat, blocks: seq<seq<int>>, ss: nat, se: nat, e: nat): seq<Item>
    requires 0 < ss <= se && forall i :: 0 <= i < |blocks| ==> se < |blocks[i]|
    decreases |blocks|
  {
    if blocks == [] then EobItems(tbl, e)
    else
      var (items, e1) := FirstBlock(tbl, blocks[0], ss, se, e);
      items + FirstItems(tbl, blocks[1..], ss, se, e1)
  }

  // ----- decoding

  /** The coefficients of one block from k on: block, position, and run at its end. */
  function DecodeCoefs(t: HuffTable, d: seq<bit>, at: nat, y: Block, k: nat, se: nat, al: nat): (r: (Block, nat, nat))
    requires CountsOk(t) && se < DCTSIZE2
    decreases se + 1 - k
  {
    if k > se then (y, at, 0)
    else
      var (sym, at1) := DecodeSym(t, d, at);
      var r, s := sym / 16, sym % 16;
      if s != 0 then
        var v := Jcoef(Extend(Peek(d, at1, s), s) * Pow2(al));
        DecodeCoefs(t, d, at1 + s, y[Slot(k + r, DCTSIZE2 - 1) := v], k + r + 1, se, al)
      else if r == 15 then DecodeCoefs(t, d, at1, y, k + 16, se, al)
      else
        var (run, at2) := DecodeEob(d, at1, r);
        (y, at2, run - 1)
  }

  /** decode_mcu_AC_first, with the run of blocks still to be skipped. */
  function DecodeFirst(t: HuffTable, d: seq<bit>, at: nat, run: nat, y: Block, ss: nat, se: nat,
    al: nat): (r: (Block, nat, nat))
    requires CountsOk(t) && se < DCTSIZE2
  {
    if run > 0 then (y, at, run - 1) else DecodeCoefs(t, d, at, y, ss, se, al)
  }

  function DecodeFirsts(t: HuffTable, d: seq<bit>, at: nat, run: nat, ys: seq<Block>, ss: nat, se: nat,
    al: nat): (r: (seq<Block>, nat, nat))
    requires CountsOk(t) && se < DCTSIZE2
    ensures |r.0| == |ys|
    decreases |ys|
  {
    if ys == [] then ([], at, run)
    else
      var (y, at1, run1) := DecodeFirst(t, d, at, run, ys[0], ss, se, al);
      var (rest, at2, run2) := DecodeFirsts(t, d, at1, run1, ys[1..], ss, se, al);
      ([y] + rest, at2, run2)
  }

  // ----- decoding undoes coding

  /** The coefficients sent so far, from k to se, are in place. */
  ghost predicate Scaled(t: seq<int>, y: Block, y': Block, k: nat, se: nat, al: nat)
    requires se < |t| == DCTSIZE2
  {
    forall j :: 0 <= j < DCTSIZE2 ==> y'[j] == if k <= j <= se then t[j] * Pow2(al) else y[j]
  }

  ghost predicate FirstFits(t: seq<int>, ss: nat, se: nat, al: nat)
  {
    && |t| == DCTSIZE2 && se < |t|
    && forall j :: ss <= j <= se ==> NBits(Abs(t[j])) <= MAX_COEF_BITS && -0x8000 <= t[j] * Pow2(al) < 0x8000
  }

  lemma {:induction false} ZrlsDecode(ts: Tables, d: seq<bit>, at: nat, tbl: nat, m: nat, rest: seq<Item>, y: Block,
    k: nat, se: nat, al: nat)
    requires ts.Valid() && tbl < NUM_HUFF_TBLS && se < DCTSIZE2 && k + 16 * m <= se
    requires Next(ts, d, at, Zrls(tbl, m) + rest)
    ensures var at1 := at + Length(ts, Zrls(tbl, m));
            && Next(ts, d, at1, rest) && Length(ts, Zrls(tbl, m) + rest) == Length(ts, Zrls(tbl, m)) + Length(ts, rest)
            && DecodeCoefs(ts.ac[tbl], d, at, y, k, se, al) == DecodeCoefs(ts.ac[tbl], d, at1, y, k + 16 * m, se, al)
    decreases m
  {
    hide Next, Length, DecodeSym, Peek, Extend, DecodeEob;
    NextConcat(ts, d, at, Zrls(tbl, m), rest);
    if m == 0 {
      NextNone(ts, d, at);
    } else {
      var sym := [AcSym(tbl, ZRL)];
      assert Zrls(tbl, m) + rest == sym + (Zrls(tbl, m - 1) + rest);
      NextConcat(ts, d, at, sym, Zrls(tbl, m - 1) + rest);
      NextConcat(ts, d, at, sym, Zrls(tbl, m - 1));
      AcSymDecodes(ts, d, at, tbl, ZRL);
      ZrlsDecode(ts, d, at + Length(ts, sym), tbl, m - 1, rest, y, k + 16, se, al);
    }
  }

  lemma CoefDecodes(ts: Tables, d: seq<bit>, at: nat, tbl: nat, v: int, r: nat, rest: seq<Item>, y: Block, k: nat,
    se: nat, al: nat)
    requires ts.Valid() && tbl < NUM_HUFF_TBLS && k + r <= se < DCTSIZE2 && r < 16
    requires v != 0 && -0x8000 <= v * Pow2(al) < 0x8000 && NBits(Abs(v)) <= MAX_COEF_BITS
    requires Next(ts, d, at, [AcSym(tbl, r * 16 + NBits(Abs(v)))] + ([Raw(Extra(v), NBits(Abs(v)))] + rest))
    ensures var coef := [AcSym(tbl, r * 16 + NBits(Abs(v)))] + ([Raw(Extra(v), NBits(Abs(v)))] + rest);
            var at' := at + Length(ts, coef) - Length(ts, rest);
            && at' >= 0 && Next(ts, d, at', rest)
            && DecodeCoefs(ts.ac[tbl], d, at, y, k, se, al)
               == DecodeCoefs(ts.ac[tbl], d, at', y[k + r := v * Pow2(al)], k + r + 1, se, al)
  {
    hide Next, Length, DecodeSym, Peek, Extend, Extra, NBits, Jcoef, DecodeEob, Pow2;
    var n := NBits(Abs(v));
    var sym, raw := [AcSym(tbl, r * 16 + n)], [Raw(Extra(v), n)];
    NextConcat(ts, d, at, sym, raw + rest);
    AcSymDecodes(ts, d, at, tbl, r * 16 + n);
    NextConcat(ts, d, at + Length(ts, sym), raw, rest);
    RawDecodes(ts, d, at + Length(ts, sym), Extra(v), n);
    ExtendExtra(v);
    JcoefId(v * Pow2(al));
  }

  /** A nonzero coefficient behind r zeros. */
  lemma NonzeroDecodes(ts: Tables, d: seq<bit>, at: nat, tbl: nat, t: seq<int>, y: Block, k: nat, r: nat, se: nat,
    al: nat) returns (at2: nat)
    requires ts.Valid() && tbl < NUM_HUFF_TBLS && r <= k <= se < DCTSIZE2 == |t| && t[k] != 0
    requires NBits(Abs(t[k])) <= MAX_COEF_BITS && -0x8000 <= t[k] * Pow2(al) < 0x8000
      && Next(ts, d, at, CoefItems(tbl, t, k, r, se))
    ensures at2 == at + Length(ts, CoefItems(tbl, t, k, r, se)) - Length(ts, CoefItems(tbl, t, k + 1, 0, se))
    ensures Next(ts, d, at2, CoefItems(tbl, t, k + 1, 0, se))
    ensures DecodeCoefs(ts.ac[tbl], d, at, y, k - r, se, al)
      == DecodeCoefs(ts.ac[tbl], d, at2, y[k := t[k] * Pow2(al)], k + 1, se, al)
  {
    hide Next, Length, DecodeSym, Peek, Extend, Extra, NBits, Zrls, DecodeCoefs, Pow2;
    var n := NBits(Abs(t[k]));
    var rest := CoefItems(tbl, t, k + 1, 0, se);
    var coef := [AcSym(tbl, r % 16 * 16 + n)] + ([Raw(Extra(t[k]), n)] + rest);
    assert CoefItems(tbl, t, k, r, se) == Zrls(tbl, r / 16) + coef;
    ZrlsDecode(ts, d, at, tbl, r / 16, coef, y, k - r, se, al);
    var at1 := at + Length(ts, Zrls(tbl, r / 16));
    CoefDecodes(ts, d, at1, tbl, t[k], r % 16, rest, y, k - r % 16, se, al);
    at2 := at1 + Length(ts, coef) - Length(ts, rest);
  }

  /** Decoding the coefficients up to the last nonzero one. */
  lemma {:induction false} CoefsDecode(ts: Tables, d: seq<bit>, at: nat, tbl: nat, t: seq<int>, y: Block, k: nat,
    r: nat, last: nat, se: nat, al: nat)
    returns (y': Block)
    requires ts.Valid() && tbl < NUM_HUFF_TBLS && r <= k <= last + 1 && last <= se < DCTSIZE2 == |t|
    requires FirstFits(t, k - r, se, al) && Next(ts, d, at, CoefItems(tbl, t, k, r, se))
    requires forall j :: k - r <= j <= se ==> y[j] == 0
    requires forall j :: k - r <= j < k ==> t[j] == 0
    requires forall j :: last < j <= se ==> t[j] == 0
    requires r > 0 ==> k <= last
    requires k <= last ==> t[last] != 0
    ensures Scaled(t, y, y', k - r, se, al)
    ensures DecodeCoefs(ts.ac[tbl], d, at, y, k - r, se, al)
      == DecodeCoefs(ts.ac[tbl], d, at + Length(ts, CoefItems(tbl, t, k, r, se)), y', last + 1, se, al)
    decreases se + 1 - k
  {
    hide Next, Length, DecodeSym, Peek, Extend, Extra, NBits, Zrls, Scaled, DecodeCoefs, FirstFits, Pow2;
    if k > last {
      AllZero(tbl, t, k, 0, se);
      NextNone(ts, d, at);
      ScaledZero(t, y, k, se, al);
      y' := y;
    } else if t[k] == 0 {
      y' := CoefsDecode(ts, d, at, tbl, t, y, k + 1, r + 1, last, se, al);
    } else {
      FitsAt(t, k - r, se, al, k);
      var at2 := NonzeroDecodes(ts, d, at, tbl, t, y, k, r, se, al);
      var y1 := y[k := t[k] * Pow2(al)];
      y' := CoefsDecode(ts, d, at2, tbl, t, y1, k + 1, 0, last, se, al);
      ScaledStep(t, y, y1, y', k, r, se, al);
    }
  }

  lemma FitsAt(t: seq<int>, ss: nat, se: nat, al: nat, k: nat)
    requires FirstFits(t, ss, se, al) && ss <= k <= se
    ensures NBits(Abs(t[k])) <= MAX_COEF_BITS && -0x8000 <= t[k] * Pow2(al) < 0x8000
    ensures FirstFits(t, k + 1, se, al)
  {
  }

  lemma {:induction false} AllZero(tbl: nat, t: seq<int>, k: nat, r: nat, se: nat)
    requires se < |t| && forall j :: k <= j <= se ==> t[j] == 0
    ensures CoefItems(tbl, t, k, r, se) == []
    decreases se + 1 - k
  {
    if k <= se {
      AllZero(tbl, t, k + 1, r + 1, se);
    }
  }

  lemma ScaledZero(t: seq<int>, y: Block, k: nat, se: nat, al: nat)
    requires se < |t| == DCTSIZE2 && forall j :: k <= j <= se ==> t[j] == 0 && y[j] == 0
    ensures Scaled(t, y, y, k, se, al)
  {
  }

  lemma ScaledStep(t: seq<int>, y: Block, y1: Block, y': Block, k: nat, r: nat, se: nat, al: nat)
    requires k <= se < |t| == DCTSIZE2 && r <= k && Scaled(t, y1, y', k + 1, se, al)
    requires -0x8000 <= t[k] * Pow2(al) < 0x8000 && y1 == y[k := t[k] * Pow2(al)]
    requires forall j :: k - r <= j <= se ==> y[j] == 0
    requires forall j :: k - r <= j < k ==> t[j] == 0
    ensures Scaled(t, y, y', k - r, se, al)
  {
  }

  /** The end of a band. */
  lemma EobStep(t: HuffTable, d: seq<bit>, at: nat, y: Block, k: nat, se: nat, al: nat)
    requires CountsOk(t) && k <= se < DCTSIZE2 && AtEob(t, d, at)
    ensures var (run, at1) := ReadEob(t, d, at);
            run > 0 && DecodeCoefs(t, d, at, y, k, se, al) == (y, at1, run - 1)
  {
    hide DecodeSym, Peek;
  }

  /** A block with coefficients to send: they are decoded, and the run behind them, whose
      first block this is, is next. */
  lemma NonzeroBlock(ts: Tables, d: seq<bit>, at: nat, tbl: nat, t: seq<int>, y: Block, ss: nat, se: nat, al: nat)
    returns (y': Block)
    requires ts.Valid() && tbl < NUM_HUFF_TBLS && 0 < ss <= se < DCTSIZE2 == |t|
    requires FirstFits(t, ss, se, al) && Next(ts, d, at, CoefItems(tbl, t, ss, 0, se))
    requires forall j :: ss <= j <= se ==> y[j] == 0
    requires LastNonzero(t, ss, se) >= ss
    ensures Scaled(t, y, y', ss, se, al)
    ensures var at1, last := at + Length(ts, CoefItems(tbl, t, ss, 0, se)), LastNonzero(t, ss, se);
            && (last == se ==> DecodeFirst(ts.ac[tbl], d, at, 0, y, ss, se, al) == (y', at1, 0))
            && (last < se && AtEob(ts.ac[tbl], d, at1) ==>
                  var (run, at2) := ReadEob(ts.ac[tbl], d, at1);
                  run > 0 && DecodeFirst(ts.ac[tbl], d, at, 0, y, ss, se, al) == (y', at2, run - 1))
  {
    hide Next, Length, AtEob, ReadEob, FirstFits, Scaled, CoefItems, DecodeCoefs;
    var last := LastNonzero(t, ss, se);
    var at1 := at + Length(ts, CoefItems(tbl, t, ss, 0, se));
    y' := CoefsDecode(ts, d, at, tbl, t, y, ss, 0, last, se, al);
    if last == se {
      BandEnd(ts.ac[tbl], d, at1, y', se, al);
    } else if AtEob(ts.ac[tbl], d, at1) {
      EobStep(ts.ac[tbl], d, at1, y', last + 1, se, al);
    }
  }

  lemma BandEnd(t: HuffTable, d: seq<bit>, at: nat, y: Block, se: nat, al: nat)
    requires CountsOk(t) && se < DCTSIZE2
    ensures DecodeCoefs(t, d, at, y, se + 1, se, al) == (y, at, 0)
  {
  }

  ghost predicate AllFirstFit(blocks: seq<seq<int>>, ss: nat, se: nat, al: nat)
  {
    forall i :: 0 <= i < |blocks| ==> FirstFits(blocks[i], ss, se, al)
  }

  ghost predicate BandZero(y: Block, ss: nat, se: nat)
    requires se < DCTSIZE2
  {
    forall j :: ss <= j <= se ==> y[j] == 0
  }

  ghost predicate AllScaled(blocks: seq<seq<int>>, ys: seq<Block>, ys': seq<Block>, ss: nat, se: nat, al: nat)
    requires se < DCTSIZE2 && forall i :: 0 <= i < |blocks| ==> |blocks[i]| == DCTSIZE2
  {
    |blocks| == |ys| == |ys'| && forall i :: 0 <= i < |blocks| ==> Scaled(blocks[i], ys[i], ys'[i], ss, se, al)
  }

  lemma ConsScaled(blocks: seq<seq<int>>, ys: seq<Block>, y': Block, rest: seq<Block>, ss: nat, se: nat, al: nat)
    requires se < DCTSIZE2 && blocks != [] && ys != [] && forall i :: 0 <= i < |blocks| ==> |blocks[i]| == DCTSIZE2
    requires Scaled(blocks[0], ys[0], y', ss, se, al) && AllScaled(blocks[1..], ys[1..], rest, ss, se, al)
    ensures AllScaled(blocks, ys, [y'] + rest, ss, se, al)
  {
    hide Scaled;
    forall i | 0 <= i < |blocks|
      ensures Scaled(blocks[i], ys[i], ([y'] + rest)[i], ss, se, al)
    {
      if i > 0 {
        assert Scaled(blocks[1..][i - 1], ys[1..][i - 1], rest[i - 1], ss, se, al);
      }
    }
  }

  lemma DecodeFirstsCons(t: HuffTable, d: seq<bit>, at: nat, run: nat, ys: seq<Block>, ss: nat, se: nat, al: nat)
    requires CountsOk(t) && se < DCTSIZE2 && ys != []
    ensures var (y, at1, run1) := DecodeFirst(t, d, at, run, ys[0], ss, se, al);
            var (rest, at2, run2) := DecodeFirsts(t, d, at1, run1, ys[1..], ss, se, al);
            DecodeFirsts(t, d, at, run, ys, ss, se, al) == ([y] + rest, at2, run2)
  {
  }

  /** What decoding from `at` does with blocks in front of which e blocks have ended early
      and are still waiting for their run to be sent: it starts with that run. */
  ghost predicate InSync(ts: Tables, d: seq<bit>, at: nat, tbl: nat, blocks: seq<seq<int>>, ys: seq<Block>,
                         ss: nat, se: nat, al: nat, e: nat, end: nat)
    requires ts.Valid() && tbl < NUM_HUFF_TBLS && se < DCTSIZE2 && forall i :: 0 <= i < |blocks| ==>
      |blocks[i]| == DCTSIZE2
  {
    if e == 0 then
      var (ys', at', run') := DecodeFirsts(ts.ac[tbl], d, at, 0, ys, ss, se, al);
      AllScaled(blocks, ys, ys', ss, se, al) && at' == end && run' == 0
    else
      var (run, at1) := ReadEob(ts.ac[tbl], d, at);
      && AtEob(ts.ac[tbl], d, at) && run >= e
      && var (ys', at', run') := DecodeFirsts(ts.ac[tbl], d, at1, run - e, ys, ss, se, al);
         AllScaled(blocks, ys, ys', ss, se, al) && at' == end && run' == 0
  }

  /** A whole band is zero: the block is skipped, or its end-of-band read. */
  lemma ZeroBlock(t: HuffTable, d: seq<bit>, at: nat, run: nat, z: seq<int>, y: Block, ss: nat, se: nat, al: nat)
    requires CountsOk(t) && 0 < ss <= se < DCTSIZE2 == |z| && BandZero(y, ss, se) && LastNonzero(z, ss, se) < ss
    ensures Scaled(z, y, y, ss, se, al)
    ensures run > 0 ==> DecodeFirst(t, d, at, run, y, ss, se, al) == (y, at, run - 1)
    ensures AtEob(t, d, at) ==>
              var (r, at1) := ReadEob(t, d, at);
              r > 0 && DecodeFirst(t, d, at, 0, y, ss, se, al) == (y, at1, r - 1)
  {
    hide AtEob, ReadEob, DecodeCoefs;
    ScaledZero(z, y, ss, se, al);
    if AtEob(t, d, at) {
      EobStep(t, d, at, y, ss, se, al);
    }
  }

  /** If the rest is in sync with one more waiting block, so is the zero block with it. */
  lemma ZeroSync(ts: Tables, d: seq<bit>, at: nat, tbl: nat, blocks: seq<seq<int>>, ys: seq<Block>,
                 ss: nat, se: nat, al: nat, e: nat, end: nat)
    requires ts.Valid() && tbl < NUM_HUFF_TBLS && 0 < ss <= se < DCTSIZE2 && blocks != [] && |ys| == |blocks|
    requires forall i :: 0 <= i < |blocks| ==> |blocks[i]| == DCTSIZE2
    requires LastNonzero(blocks[0], ss, se) < ss && BandZero(ys[0], ss, se)
    requires InSync(ts, d, at, tbl, blocks[1..], ys[1..], ss, se, al, e + 1, end)
    ensures InSync(ts, d, at, tbl, blocks, ys, ss, se, al, e, end)
  {
    hide AtEob, ReadEob, DecodeFirst, Scaled, AllScaled, BandZero, LastNonzero, DecodeFirsts;
    var t := ts.ac[tbl];
    var (run, at1) := ReadEob(t, d, at);
    ZeroBlock(t, d, if e == 0 then at else at1, if e == 0 then 0 else run - e, blocks[0], ys[0], ss, se, al);
    DecodeFirstsCons(t, d, if e == 0 then at else at1, if e == 0 then 0 else run - e, ys, ss, se, al);
    ConsScaled(blocks, ys, ys[0], DecodeFirsts(t, d, at1, run - e - 1, ys[1..], ss, se, al).0, ss, se, al);
  }

  /** The pending run is sent, and the rest is in sync with none waiting. */
  lemma FlushSync(ts: Tables, d: seq<bit>, at: nat, tbl: nat, blocks: seq<seq<int>>, ys: seq<Block>,
                  ss: nat, se: nat, al: nat, e: nat, end: nat)
    requires ts.Valid() && tbl < NUM_HUFF_TBLS && se < DCTSIZE2 && forall i :: 0 <= i < |blocks| ==>
      |blocks[i]| == DCTSIZE2
    requires 0 < e <= MAX_EOBRUN && Next(ts, d, at, EobItems(tbl, e))
    requires InSync(ts, d, at + Length(ts, EobItems(tbl, e)), tbl, blocks, ys, ss, se, al, 0, end)
    ensures InSync(ts, d, at, tbl, blocks, ys, ss, se, al, e, end)
  {
    hide AtEob, ReadEob, AllScaled, DecodeFirsts, Next, Length, EobItems;
    EobDecodes(ts, d, at, tbl, e);
  }

  /** A block with coefficients, with none waiting in front. */
  lemma NonzeroSync(ts: Tables, d: seq<bit>, at: nat, tbl: nat, blocks: seq<seq<int>>, ys: seq<Block>,
                    ss: nat, se: nat, al: nat, end: nat)
    requires ts.Valid() && tbl < NUM_HUFF_TBLS && 0 < ss <= se < DCTSIZE2 && blocks != [] && |ys| == |blocks|
    requires forall i :: 0 <= i < |blocks| ==> |blocks[i]| == DCTSIZE2
    requires LastNonzero(blocks[0], ss, se) >= ss && BandZero(ys[0], ss, se) && FirstFits(blocks[0], ss, se, al)
    requires Next(ts, d, at, CoefItems(tbl, blocks[0], ss, 0, se))
    requires InSync(ts, d, at + Length(ts, CoefItems(tbl, blocks[0], ss, 0, se)), tbl, blocks[1..], ys[1..], ss, se, al,
                    if LastNonzero(blocks[0], ss, se) < se then 1 else 0, end)
    ensures InSync(ts, d, at, tbl, blocks, ys, ss, se, al, 0, end)
  {
    hide AtEob, ReadEob, DecodeFirst, Scaled, AllScaled, DecodeFirsts, CoefItems, Next, Length, LastNonzero;
    var t := ts.ac[tbl];
    var y' := NonzeroBlock(ts, d, at, tbl, blocks[0], ys[0], ss, se, al);
    DecodeFirstsCons(t, d, at, 0, ys, ss, se, al);
    var (_, at1, run1) := DecodeFirst(t, d, at, 0, ys[0], ss, se, al);
    ConsScaled(blocks, ys, y', DecodeFirsts(t, d, at1, run1, ys[1..], ss, se, al).0, ss, se, al);
  }

  /** Whole segments: what the first AC pass outputs for any sequence of blocks decodes to
      their coefficients, and nothing is left of the last run. */
  lemma {:induction false} FirstDecodes(ts: Tables, d: seq<bit>, at: nat, tbl: nat, blocks: seq<seq<int>>,
    ys: seq<Block>,
                                        ss: nat, se: nat, al: nat, e: nat)
    requires ts.Valid() && tbl < NUM_HUFF_TBLS && 0 < ss <= se < DCTSIZE2 && |ys| == |blocks| && e < MAX_EOBRUN
    requires forall i :: 0 <= i < |blocks| ==> |blocks[i]| == DCTSIZE2
    requires AllFirstFit(blocks, ss, se, al) && forall i :: 0 <= i < |ys| ==> BandZero(ys[i], ss, se)
    requires Next(ts, d, at, FirstItems(tbl, blocks, ss, se, e))
    ensures InSync(ts, d, at, tbl, blocks, ys, ss, se, al, e, at + Length(ts, FirstItems(tbl, blocks, ss, se, e)))
    decreases |blocks|
  {
    hide AtEob, ReadEob, DecodeFirst, Scaled, CoefItems, EobItems, Next, Length, LastNonzero, InSync, BandZero,
      FirstFits;
    if blocks == [] {
      EndSync(ts, d, at, tbl, ss, se, al, e);
    } else {
      var last := LastNonzero(blocks[0], ss, se);
      var (items, e1) := FirstBlock(tbl, blocks[0], ss, se, e);
      var rest := FirstItems(tbl, blocks[1..], ss, se, e1);
      var end := at + Length(ts, items + rest);
      NextConcat(ts, d, at, items, rest);
      assert forall i :: 0 <= i < |ys[1..]| ==> ys[1..][i] == ys[i + 1];
      FirstDecodes(ts, d, at + Length(ts, items), tbl, blocks[1..], ys[1..], ss, se, al, e1);
      FirstStep(ts, d, at, tbl, blocks, ys, ss, se, al, e, end);
    }
  }

  lemma EndSync(ts: Tables, d: seq<bit>, at: nat, tbl: nat, ss: nat, se: nat, al: nat, e: nat)
    requires ts.Valid() && tbl < NUM_HUFF_TBLS && se < DCTSIZE2 && e < MAX_EOBRUN && Next(ts, d, at, EobItems(tbl, e))
    ensures InSync(ts, d, at, tbl, [], [], ss, se, al, e, at + Length(ts, EobItems(tbl, e)))
  {
    hide AtEob, ReadEob, Next, Length;
    if e > 0 {
      EobDecodes(ts, d, at, tbl, e);
    } else {
      NextNone(ts, d, at);
    }
  }

  /** One block in front of a rest in sync. */
  lemma FirstStep(ts: Tables, d: seq<bit>, at: nat, tbl: nat, blocks: seq<seq<int>>, ys: seq<Block>,
                  ss: nat, se: nat, al: nat, e: nat, end: nat)
    requires ts.Valid() && tbl < NUM_HUFF_TBLS && 0 < ss <= se < DCTSIZE2 && |ys| == |blocks| && blocks != []
      && e < MAX_EOBRUN
    requires forall i :: 0 <= i < |blocks| ==> |blocks[i]| == DCTSIZE2
    requires BandZero(ys[0], ss, se) && FirstFits(blocks[0], ss, se, al)
    requires Next(ts, d, at, FirstBlock(tbl, blocks[0], ss, se, e).0)
    requires var (items, e1) := FirstBlock(tbl, blocks[0], ss, se, e);
             InSync(ts, d, at + Length(ts, items), tbl, blocks[1..], ys[1..], ss, se, al, e1, end)
    ensures InSync(ts, d, at, tbl, blocks, ys, ss, se, al, e, end)
  {
    hide CoefItems, Next, Length, LastNonzero, InSync, BandZero, FirstFits;
    var last := LastNonzero(blocks[0], ss, se);
    if last < ss {
      if e + 1 == MAX_EOBRUN {
        assert [] + EobItems(tbl, e + 1) == EobItems(tbl, e + 1);
        FlushSync(ts, d, at, tbl, blocks[1..], ys[1..], ss, se, al, e + 1, end);
      } else {
        NoLength(ts);
      }
      ZeroSync(ts, d, at, tbl, blocks, ys, ss, se, al, e, end);
    } else {
      var eob, coefs := EobItems(tbl, e), CoefItems(tbl, blocks[0], ss, 0, se);
      NextConcat(ts, d, at, eob, coefs);
      NonzeroSync(ts, d, at + Length(ts, eob), tbl, blocks, ys, ss, se, al, end);
      if e > 0 {
        FlushSync(ts, d, at, tbl, blocks, ys, ss, se, al, e, end);
      } else {
        NoLength(ts);
      }
    }
  }

  lemma NoLength(ts: Tables)
    requires ts.Valid()
    ensures Length(ts, []) == 0
  {
  }
}
