/** The AC refinement passes of progressive mode: newly nonzero coefficients, correction
    bits for the others, and end-of-band runs that carry correction bits of many blocks
    (section G.1.2.3 of ITU-T T.81). */
module HuffmanRefine {
  import opened JpegLib
  import opened Bytes
  import opened Arithmetic
  import opened Blocks
  import opened BitStreams
  import opened BitWriting
  import opened CodeTable
  import opened HuffmanDecoding
  import opened HuffmanItems
  import opened HuffmanBlocks
  import opened HuffmanFirst

  const MAX_CORR_BITS := 1000

  // ----- correction bits

  function RawBits(b: seq<bit>): (s: seq<Item>)
    ensures |s| == |b|
  {
    if b == [] then [] else RawBits(b[..|b| - 1]) + [Raw(b[|b| - 1], 1)]
  }

  lemma {:induction false} RawBitsBits(ts: Tables, b: seq<bit>)
    requires ts.Valid()
    ensures Bits(ts, RawBits(b)) == b && AllCodable(ts, RawBits(b))
  {
    hide ItemBits, Codable;
    if b != [] {
      var n := |b| - 1;
      var items := RawBits(b[..n]);
      RawBitsBits(ts, b[..n]);
      OneBit(ts, b[n]);
      assert RawBits(b) == items + [Raw(b[n], 1)];
      assert RawBits(b)[..n] == items && RawBits(b)[n] == Raw(b[n], 1);
      assert b == b[..n] + [b[n]];
    }
  }

  lemma OneBit(ts: Tables, b: bit)
    requires ts.Valid()
    ensures ItemBits(ts, Raw(b, 1)) == [b] && Codable(ts, Raw(b, 1))
  {
    assert Pow2(1) == 2;
    assert BitsOf(b, 1) == BitsOf(b / 2, 0) + [b % 2];
  }

  lemma RawBitsNext(ts: Tables, d: seq<bit>, at: nat, b: seq<bit>)
    requires ts.Valid()
    ensures Length(ts, RawBits(b)) == |b| && (Next(ts, d, at, RawBits(b)) <==> Holds(d, at, b))
  {
    RawBitsBits(ts, b);
  }

  /** The correction bits for positions k to n - 1: the next bits of the coefficients that
      were nonzero before. */
  function CorrBits(t: seq<int>, k: nat, n: nat): seq<bit>
    requires n <= |t|
    decreases n - k
  {
    if k >= n then []
    else (if Abs(t[k]) > 1 then [Abs(t[k]) % 2] else []) + CorrBits(t, k + 1, n)
  }

  /** The number of zeros from position k to n - 1. */
  function Zeros(t: seq<int>, k: nat, n: nat): nat
    requires n <= |t|
    decreases n - k
  {
    if k >= n then 0 else (if t[k] == 0 then 1 else 0) + Zeros(t, k + 1, n)
  }

  lemma {:induction false} CorrSplit(t: seq<int>, k: nat, m: nat, n: nat)
    requires k <= m <= n <= |t|
    ensures CorrBits(t, k, n) == CorrBits(t, k, m) + CorrBits(t, m, n)
    ensures Zeros(t, k, n) == Zeros(t, k, m) + Zeros(t, m, n)
    decreases m - k
  {
    if k < m {
      CorrSplit(t, k + 1, m, n);
    }
  }

  lemma CorrOne(t: seq<int>, k: nat)
    requires k < |t|
    ensures CorrBits(t, k, k + 1) == if Abs(t[k]) > 1 then [Abs(t[k]) % 2] else []
    ensures Zeros(t, k, k + 1) == if t[k] == 0 then 1 else 0
  {
  }

  lemma {:induction false} CorrFew(t: seq<int>, k: nat, n: nat)
    requires k <= n <= |t|
    ensures |CorrBits(t, k, n)| + Zeros(t, k, n) <= n - k
    decreases n - k
  {
    if k < n {
      CorrFew(t, k + 1, n);
    }
  }

  lemma {:induction false} CorrExact(t: seq<int>, k: nat, n: nat)
    requires k <= n <= |t| && forall j :: k <= j < n ==> Abs(t[j]) != 1
    ensures |CorrBits(t, k, n)| + Zeros(t, k, n) == n - k
    decreases n - k
  {
    if k < n {
      CorrExact(t, k + 1, n);
    }
  }

  // ----- one block

  /** The last newly nonzero position of the band ss..se, or ss - 1. */
  function LastNew(t: seq<int>, ss: nat, se: nat): (e: nat)
    requires 0 < ss <= se + 1 <= |t|
    ensures ss - 1 <= e <= se && (e >= ss ==> Abs(t[e]) == 1)
    ensures forall j :: e < j <= se ==> Abs(t[j]) != 1
    decreases se
  {
    if se < ss then se else if Abs(t[se]) == 1 then se else LastNew(t, ss, se - 1)
  }

  /** The positions from k to the last newly nonzero one, with r zeros and the correction
      bits br since the last symbol. */
  function HeadItems(tbl: nat, t: seq<int>, k: nat, r: nat, br: seq<bit>, eob: nat): seq<Item>
    requires eob < |t|
    decreases eob + 1 - k, r
  {
    if k > eob then []
    else if t[k] == 0 then HeadItems(tbl, t, k + 1, r + 1, br, eob)
    else if r > 15 then [AcSym(tbl, ZRL)] + (RawBits(br) + HeadItems(tbl, t, k, r - 16, [], eob))
    else if Abs(t[k]) > 1 then HeadItems(tbl, t, k + 1, r, br + [Abs(t[k]) % 2], eob)
    else [AcSym(tbl, r * 16 + 1)] + ([Raw(1 - SignBit(t[k]), 1)] + (RawBits(br) + HeadItems(tbl, t, k + 1, 0, [], eob)))
  }

  /** emit_eobrun: the run, and the correction bits of its blocks. */
  function FlushItems(tbl: nat, e: nat, corr: seq<bit>): seq<Item>
  {
    if e == 0 then [] else EobItems(tbl, e) + RawBits(corr)
  }

  /** A pending run is forced out when its counter or the bit buffer could overflow. */
  predicate MustFlush(e: nat, corr: seq<bit>)
  {
    e == MAX_EOBRUN || |corr| > MAX_CORR_BITS - DCTSIZE2 + 1
  }

  /** The items output for a block when e blocks have ended early before it with the
      correction bits corr, and what is pending after it. */
  function RefBlock(tbl: nat, t: seq<int>, ss: nat, se: nat, e: nat, corr: seq<bit>): (seq<Item>, nat, seq<bit>)
    requires 0 < ss <= se < |t|
  {
    var eob := LastNew(t, ss, se);
    var items := if eob >= ss then FlushItems(tbl, e, corr) + HeadItems(tbl, t, ss, 0, [], eob) else [];
    var e0, c0 := if eob >= ss then 0 else e, if eob >= ss then [] else corr;
    if eob == se then (items, e0, c0)
    else
      var e1, c1 := e0 + 1, c0 + CorrBits(t, eob + 1, se + 1);
      if MustFlush(e1, c1) then (items + FlushItems(tbl, e1, c1), 0, []) else (items, e1, c1)
  }

  function RefItems(tbl: nat, blocks: seq<seq<int>>, ss: nat, se: nat, e: nat, corr: seq<bit>): seq<Item>
    requires 0 < ss <= se && forall i :: 0 <= i < |blocks| ==> se < |blocks[i]|
    decreases |blocks|
  {
    if blocks == [] then FlushItems(tbl, e, corr)
    else
      var (items, e1, c1) := RefBlock(tbl, blocks[0], ss, se, e, corr);
      items + RefItems(tbl, blocks[1..], ss, se, e1, c1)
  }

  /** What may be pending between blocks. */
  predicate Pending(e: nat, corr: seq<bit>)
  {
    e < MAX_EOBRUN && |corr| <= MAX_CORR_BITS - DCTSIZE2 + 1 && (e == 0 ==> corr == [])
  }

  /** The buffers are never overrun. */
  lemma RefBlockPending(tbl: nat, t: seq<int>, ss: nat, se: nat, e: nat, corr: seq<bit>)
    requires 0 < ss <= se < |t| == DCTSIZE2 && Pending(e, corr)
    ensures var (items, e1, c1) := RefBlock(tbl, t, ss, se, e, corr); Pending(e1, c1)
    ensures |corr| + |CorrBits(t, ss, se + 1)| <= MAX_CORR_BITS
  {
    CorrFew(t, ss, se + 1);
  }

  // ----- decoding

  /** A correction bit of 1 increases the magnitude, unless that was already done. */
  function CorrectOne(x: jcoef, al: nat): jcoef
  {
    if Shift(x, al) % 2 != 0 then x else Enlarge(x, al)
  }

  function Corrected(x: jcoef, b: nat, al: nat): jcoef
  {
    if b == 1 then CorrectOne(x, al) else x
  }

  /** A newly nonzero coefficient, positive for a bit of 1. */
  function NewValue(b: nat, al: nat): jcoef
  {
    Jcoef(Signed(if b == 1 then 0 else 1, Pow2(al)))
  }

  /** Over already-nonzero coefficients and r still-zero ones from k on: the block, the
      position reached and the place in the data. */
  function Advance(d: seq<bit>, at: nat, y: Block, k: nat, r: nat, se: nat, al: nat): (x: (Block, nat, nat))
    requires se < DCTSIZE2 && k <= se + 1
    ensures k <= x.1 <= se + 1
    decreases se + 1 - k
  {
    if k > se then (y, k, at)
    else if y[k] != 0 then Advance(d, at + 1, y[k := Corrected(y[k], Peek(d, at, 1), al)], k + 1, r, se, al)
    else if r == 0 then (y, k, at)
    else Advance(d, at, y, k + 1, r - 1, se, al)
  }

  /** Correction bits for the rest of a block. */
  function Corrections(d: seq<bit>, at: nat, y: Block, k: nat, se: nat, al: nat): (Block, nat)
    requires se < DCTSIZE2
    decreases se + 1 - k
  {
    if k > se then (y, at)
    else if y[k] != 0 then Corrections(d, at + 1, y[k := Corrected(y[k], Peek(d, at, 1), al)], k + 1, se, al)
    else Corrections(d, at, y, k + 1, se, al)
  }

  /** A block from position k on, not in a run: block, position, and run at its end. */
  function DecodeRefCoefs(t: HuffTable, d: seq<bit>, at: nat, y: Block, k: nat, se: nat,
    al: nat): (x: (Block, nat, nat))
    requires CountsOk(t) && se < DCTSIZE2
    decreases se + 1 - k
  {
    if k > se then (y, at, 0)
    else
      var (sym, at1) := DecodeSym(t, d, at);
      var r, s := sym / 16, sym % 16;
      if s == 0 && r != 15 then
        var (run, at2) := DecodeEob(d, at1, r);
        var (y', at') := Corrections(d, at2, y, k, se, al);
        (y', at', run - 1)
      else
        var at2 := if s != 0 then at1 + 1 else at1;
        var (y1, k1, at3) := Advance(d, at2, y, k, r, se, al);
        var v := NewValue(Peek(d, at1, 1), al);
        DecodeRefCoefs(t, d, at3, if s != 0 then y1[Slot(k1, DCTSIZE2 - 1) := v] else y1, k1 + 1, se, al)
  }

  /** decode_mcu_AC_refine. */
  function DecodeRefine(t: HuffTable, d: seq<bit>, at: nat, run: nat, y: Block, ss: nat, se: nat,
    al: nat): (x: (Block, nat, nat))
    requires CountsOk(t) && se < DCTSIZE2
  {
    if run > 0 then
      var (y', at') := Corrections(d, at, y, ss, se, al);
      (y', at', run - 1)
    else DecodeRefCoefs(t, d, at, y, ss, se, al)
  }

  function DecodeRefines(t: HuffTable, d: seq<bit>, at: nat, run: nat, ys: seq<Block>, ss: nat, se: nat,
    al: nat): (x: (seq<Block>, nat, nat))
    requires CountsOk(t) && se < DCTSIZE2
    ensures |x.0| == |ys|
    decreases |ys|
  {
    if ys == [] then ([], at, run)
    else
      var (y, at1, run1) := DecodeRefine(t, d, at, run, ys[0], ss, se, al);
      var (rest, at2, run2) := DecodeRefines(t, d, at1, run1, ys[1..], ss, se, al);
      ([y] + rest, at2, run2)
  }

  // ----- decoding undoes coding

  /** Before the pass the bit in question is clear in every coefficient. */
  lemma BitClear(t: int, z: jcoef, al: nat)
    requires Refinable(t, z, al)
    ensures Shift(z, al) % 2 == 0
  {
    var h, q := Transform(t, 1), Pow2(al);
    assert h * (2 * q) == 2 * h * q;
    ShiftExact(2 * h, q);
  }

  /** A position known before is corrected, and one that stays zero is left alone. */
  lemma CorrectedOne(t: int, z: jcoef, al: nat)
    requires Refinable(t, z, al)
    ensures z == 0 <==> Abs(t) <= 1
    ensures Abs(t) > 1 ==> Corrected(z, Abs(t) % 2, al) == t * Pow2(al)
    ensures t == 0 ==> z == t * Pow2(al)
    ensures Abs(t) == 1 ==> NewValue(1 - SignBit(t), al) == t * Pow2(al)
    ensures -0x8000 <= t * Pow2(al) < 0x8000
  {
    BitClear(t, z, al);
    RefineOne(t, z, al);
    RefinableFits(t, z, al);
    if Abs(t) == 1 {
      JcoefId(t * Pow2(al));
    }
  }

  ghost predicate AllRefinable(t: seq<int>, y: Block, k: nat, se: nat, al: nat)
    requires se < |t| == DCTSIZE2
  {
    forall j :: k <= j <= se ==> Refinable(t[j], y[j], al)
  }

  /** Positions k to n - 1 have been refined. */
  ghost predicate Done(t: seq<int>, y: Block, y': Block, k: nat, n: nat, al: nat)
    requires n <= |t| == DCTSIZE2
  {
    forall j :: 0 <= j < DCTSIZE2 ==> y'[j] == if k <= j < n then t[j] * Pow2(al) else y[j]
  }

  lemma PeekOne(d: seq<bit>, at: nat, b: seq<bit>)
    requires b != [] && Holds(d, at, b)
    ensures Peek(d, at, 1) == b[0] && Holds(d, at + 1, b[1..])
  {
    assert d[at..at + |b|][0] == d[at];
    assert d[at + 1..at + |b|] == d[at..at + |b|][1..];
    assert Peek(d, at, 1) == 2 * Peek(d, at, 0) + BitAt(d, at);
  }

  /** Advancing over the zeros and corrections in front of a position not yet nonzero. */
  lemma {:induction false} AdvanceDecodes(d: seq<bit>, at: nat, t: seq<int>, y: Block, k: nat, r: nat, target: nat,
    se: nat, al: nat)
    returns (y': Block)
    requires k <= target <= se < |t| == DCTSIZE2 && AllRefinable(t, y, k, se, al)
    requires Zeros(t, k, target) == r && Abs(t[target]) <= 1 && forall j :: k <= j < target ==> Abs(t[j]) != 1
    requires Holds(d, at, CorrBits(t, k, target))
    ensures Advance(d, at, y, k, r, se, al) == (y', target, at + |CorrBits(t, k, target)|)
    ensures Done(t, y, y', k, target, al)
    decreases target - k
  {
    hide Peek, Refinable, Corrected, Holds;
    CorrectedOne(t[k], y[k], al);
    if k == target {
      y' := y;
    } else if Abs(t[k]) > 1 {
      PeekOne(d, at, CorrBits(t, k, target));
      var y1 := y[k := t[k] * Pow2(al)];
      assert CorrBits(t, k, target)[1..] == CorrBits(t, k + 1, target);
      y' := AdvanceDecodes(d, at + 1, t, y1, k + 1, r, target, se, al);
    } else {
      assert [] + CorrBits(t, k + 1, target) == CorrBits(t, k + 1, target);
      y' := AdvanceDecodes(d, at, t, y, k + 1, r - 1, target, se, al);
    }
  }

  /** Correcting the rest of a band without newly nonzero coefficients. */
  lemma {:induction false} CorrectionsDecode(d: seq<bit>, at: nat, t: seq<int>, y: Block, k: nat, se: nat, al: nat)
    returns (y': Block)
    requires k <= se + 1 && se < |t| == DCTSIZE2 && AllRefinable(t, y, k, se, al)
    requires (forall j :: k <= j <= se ==> Abs(t[j]) != 1) && Holds(d, at, CorrBits(t, k, se + 1))
    ensures Corrections(d, at, y, k, se, al) == (y', at + |CorrBits(t, k, se + 1)|)
    ensures Done(t, y, y', k, se + 1, al)
    decreases se + 1 - k
  {
    hide Peek, Refinable, Corrected, Holds;
    if k > se {
      y' := y;
    } else {
      CorrectedOne(t[k], y[k], al);
      if Abs(t[k]) > 1 {
        PeekOne(d, at, CorrBits(t, k, se + 1));
        var y1 := y[k := t[k] * Pow2(al)];
        assert CorrBits(t, k, se + 1)[1..] == CorrBits(t, k + 1, se + 1);
        y' := CorrectionsDecode(d, at + 1, t, y1, k + 1, se, al);
      } else {
        assert [] + CorrBits(t, k + 1, se + 1) == CorrBits(t, k + 1, se + 1);
        y' := CorrectionsDecode(d, at, t, y, k + 1, se, al);
      }
    }
  }

  /** After the sixteenth zero since the last symbol there are no correction bits: they
      would have followed a ZRL. */
  ghost predicate NoneLate(t: seq<int>, k0: nat, k: nat)
    requires k <= |t|
  {
    forall j :: k0 <= j < k && Abs(t[j]) > 1 ==> Zeros(t, k0, j) <= 15
  }

  /** The position of zero number n + 1 from k on. */
  lemma {:induction false} NthZero(t: seq<int>, k0: nat, k: nat, n: nat) returns (p: nat)
    requires k0 <= k <= |t| && Zeros(t, k0, k) > n
    ensures k0 <= p < k && t[p] == 0 && Zeros(t, k0, p) == n
    decreases k - k0
  {
    if t[k0] == 0 && n == 0 {
      p := k0;
    } else {
      p := NthZero(t, k0 + 1, k, if t[k0] == 0 then n - 1 else n);
    }
  }

  lemma {:induction false} NoCorrections(t: seq<int>, k: nat, n: nat)
    requires k <= n <= |t| && forall j :: k <= j < n ==> Abs(t[j]) <= 1
    ensures CorrBits(t, k, n) == []
    decreases n - k
  {
    if k < n {
      NoCorrections(t, k + 1, n);
    }
  }

  /** The sixteenth zero splits what has been seen since the last symbol. */
  lemma AtZrl(t: seq<int>, k0: nat, k: nat) returns (p: nat)
    requires k0 <= k <= |t| && Zeros(t, k0, k) > 15 && NoneLate(t, k0, k)
    requires forall j :: k0 <= j < k ==> Abs(t[j]) != 1
    ensures k0 <= p < k && t[p] == 0 && Zeros(t, k0, p) == 15 && Zeros(t, p + 1, k) == Zeros(t, k0, k) - 16
    ensures CorrBits(t, k0, p) == CorrBits(t, k0, k) && CorrBits(t, p + 1, k) == [] && NoneLate(t, p + 1, k)
  {
    p := NthZero(t, k0, k, 15);
    CorrSplit(t, k0, p, p + 1);
    CorrOne(t, p);
    CorrSplit(t, k0, p + 1, k);
    forall j | p + 1 <= j < k
      ensures Abs(t[j]) <= 1
    {
      CorrSplit(t, k0, p + 1, j);
    }
    NoCorrections(t, p + 1, k);
  }

  lemma DoneStep(t: seq<int>, y: Block, y1: Block, y2: Block, y': Block, k0: nat, k: nat, n: nat, al: nat)
    requires k0 <= k < n <= |t| == DCTSIZE2 && Done(t, y, y1, k0, k, al) && Done(t, y2, y', k + 1, n, al)
    requires forall j :: 0 <= j < DCTSIZE2 ==> y2[j] == if j == k then t[k] * Pow2(al) else y1[j]
    ensures Done(t, y, y', k0, n, al)
  {
  }

  lemma StillRefinable(t: seq<int>, y: Block, y1: Block, k0: nat, k: nat, se: nat, al: nat)
    requires se < |t| == DCTSIZE2 && k0 <= k <= se && AllRefinable(t, y, k0, se, al)
    requires forall j :: k < j <= se ==> y1[j] == y[j]
    ensures AllRefinable(t, y1, k + 1, se, al)
  {
    hide Refinable;
    forall j | k + 1 <= j <= se
      ensures Refinable(t[j], y1[j], al)
    {
      assert Refinable(t[j], y[j], al);
    }
  }

  /** A ZRL with its correction bits takes the decoder behind the sixteenth zero. */
  lemma ZrlStep(ts: Tables, d: seq<bit>, at: nat, tbl: nat, t: seq<int>, y: Block, k0: nat, p: nat, rest: seq<Item>,
    se: nat, al: nat)
    returns (y1: Block)
    requires ts.Valid() && tbl < NUM_HUFF_TBLS && k0 <= p <= se < |t| == DCTSIZE2 && AllRefinable(t, y, k0, se, al)
    requires Zeros(t, k0, p) == 15 && t[p] == 0 && forall j :: k0 <= j < p ==> Abs(t[j]) != 1
    requires Next(ts, d, at, ZrlItems(tbl, t, k0, p, rest))
    ensures var items := ZrlItems(tbl, t, k0, p, rest);
            var at' := at + Length(ts, items) - Length(ts, rest);
            && at' >= 0 && Next(ts, d, at', rest) && Done(t, y, y1, k0, p, al) && y1[p] == t[p] * Pow2(al)
            && DecodeRefCoefs(ts.ac[tbl], d, at, y, k0, se, al) == DecodeRefCoefs(ts.ac[tbl], d, at', y1, p + 1, se, al)
  {
    hide Next, Length, DecodeSym, Peek, Corrections, Advance, AllRefinable, DecodeEob, CorrBits, Zeros, RawBits,
      Refinable;
    var sym, br := [AcSym(tbl, ZRL)], CorrBits(t, k0, p);
    NextConcat(ts, d, at, sym, RawBits(br) + rest);
    AcSymDecodes(ts, d, at, tbl, ZRL);
    var at1 := at + Length(ts, sym);
    NextConcat(ts, d, at1, RawBits(br), rest);
    RawBitsNext(ts, d, at1, br);
    y1 := AdvanceDecodes(d, at1, t, y, k0, 15, p, se, al);
    ZeroStays(t, y, k0, p, se, al);
  }

  lemma ZeroStays(t: seq<int>, y: Block, k0: nat, p: nat, se: nat, al: nat)
    requires k0 <= p <= se < |t| == DCTSIZE2 && AllRefinable(t, y, k0, se, al) && t[p] == 0
    ensures y[p] == t[p] * Pow2(al)
  {
    assert Refinable(t[p], y[p], al);
    CorrectedOne(t[p], y[p], al);
  }

  /** The symbol of a newly nonzero coefficient, its sign and the correction bits of those
      in front of it. */
  lemma NewStep(ts: Tables, d: seq<bit>, at: nat, tbl: nat, t: seq<int>, y: Block, k0: nat, k: nat, rest: seq<Item>,
    se: nat, al: nat)
    returns (y1: Block)
    requires ts.Valid() && tbl < NUM_HUFF_TBLS && k0 <= k <= se < |t| == DCTSIZE2 && AllRefinable(t, y, k0, se, al)
    requires Zeros(t, k0, k) <= 15 && Abs(t[k]) == 1 && forall j :: k0 <= j < k ==> Abs(t[j]) != 1
    requires Next(ts, d, at, NewItems(tbl, t, k0, k, rest))
    ensures -0x8000 <= t[k] * Pow2(al) < 0x8000
    ensures var items := NewItems(tbl, t, k0, k, rest);
            var at' := at + Length(ts, items) - Length(ts, rest);
            && at' >= 0 && Next(ts, d, at', rest) && Done(t, y, y1, k0, k, al)
            && DecodeRefCoefs(ts.ac[tbl], d, at, y, k0, se, al)
               == DecodeRefCoefs(ts.ac[tbl], d, at', y1[k := t[k] * Pow2(al)], k + 1, se, al)
  {
    hide Next, Length, DecodeSym, Peek, Corrections, Advance, AllRefinable, DecodeEob, CorrBits, Zeros, RawBits,
      Refinable, NewValue, Pow2;
    var r, br := Zeros(t, k0, k), CorrBits(t, k0, k);
    var sym, raw := [AcSym(tbl, r * 16 + 1)], [Raw(1 - SignBit(t[k]), 1)];
    NextConcat(ts, d, at, sym, raw + (RawBits(br) + rest));
    AcSymDecodes(ts, d, at, tbl, r * 16 + 1);
    var at1 := at + Length(ts, sym);
    NextConcat(ts, d, at1, raw, RawBits(br) + rest);
    RawDecodes(ts, d, at1, 1 - SignBit(t[k]), 1);
    NextConcat(ts, d, at1 + 1, RawBits(br), rest);
    RawBitsNext(ts, d, at1 + 1, br);
    y1 := AdvanceDecodes(d, at1 + 1, t, y, k0, r, k, se, al);
    NewComes(t, y, k0, k, se, al);
  }

  lemma NewComes(t: seq<int>, y: Block, k0: nat, k: nat, se: nat, al: nat)
    requires k0 <= k <= se < |t| == DCTSIZE2 && AllRefinable(t, y, k0, se, al) && Abs(t[k]) == 1
    ensures NewValue(1 - SignBit(t[k]), al) == t[k] * Pow2(al)
  {
    assert Refinable(t[k], y[k], al);
    CorrectedOne(t[k], y[k], al);
  }

  /** HeadItems in terms of the decoder's position k0. */
  function Head(tbl: nat, t: seq<int>, k0: nat, k: nat, eob: nat): seq<Item>
    requires eob < |t| && k <= |t|
  {
    HeadItems(tbl, t, k, Zeros(t, k0, k), CorrBits(t, k0, k), eob)
  }

  function ZrlItems(tbl: nat, t: seq<int>, k0: nat, p: nat, rest: seq<Item>): seq<Item>
    requires p <= |t|
  {
    [AcSym(tbl, ZRL)] + (RawBits(CorrBits(t, k0, p)) + rest)
  }

  function NewItems(tbl: nat, t: seq<int>, k0: nat, k: nat, rest: seq<Item>): seq<Item>
    requires k < |t|
  {
    [AcSym(tbl, Zeros(t, k0, k) * 16 + 1)] + ([Raw(1 - SignBit(t[k]), 1)] + (RawBits(CorrBits(t, k0, k)) + rest))
  }

  lemma HeadSkips(tbl: nat, t: seq<int>, k0: nat, k: nat, eob: nat)
    requires k0 <= k <= eob < |t| && NoneLate(t, k0, k)
    requires t[k] == 0 || (Abs(t[k]) > 1 && Zeros(t, k0, k) <= 15)
    ensures Head(tbl, t, k0, k, eob) == Head(tbl, t, k0, k + 1, eob) && NoneLate(t, k0, k + 1)
  {
    CorrSplit(t, k0, k, k + 1);
    CorrOne(t, k);
    assert CorrBits(t, k0, k) + [] == CorrBits(t, k0, k);
  }

  lemma HeadZrl(tbl: nat, t: seq<int>, k0: nat, p: nat, k: nat, eob: nat)
    requires k0 <= p < k <= eob < |t| && t[k] != 0 && Zeros(t, k0, k) > 15
    requires Zeros(t, p + 1, k) == Zeros(t, k0, k) - 16 && CorrBits(t, k0, p) == CorrBits(t, k0, k)
      && CorrBits(t, p + 1, k) == []
    ensures Head(tbl, t, k0, k, eob) == ZrlItems(tbl, t, k0, p, Head(tbl, t, p + 1, k, eob))
  {
    hide RawBits, Zeros, CorrBits;
  }

  lemma HeadNew(tbl: nat, t: seq<int>, k0: nat, k: nat, eob: nat)
    requires k0 <= k <= eob < |t| && Abs(t[k]) == 1 && Zeros(t, k0, k) <= 15
    ensures Head(tbl, t, k0, k, eob) == NewItems(tbl, t, k0, k, Head(tbl, t, k + 1, k + 1, eob))
  {
    hide RawBits;
    assert Zeros(t, k + 1, k + 1) == 0 && CorrBits(t, k + 1, k + 1) == [];
  }

  lemma HeadEnds(tbl: nat, t: seq<int>, eob: nat)
    requires eob < |t|
    ensures Head(tbl, t, eob + 1, eob + 1, eob) == []
  {
  }

  /** Everything up to the last newly nonzero coefficient is decoded.  The decoder is at
      position k0, behind the last symbol; the encoder has moved on to k. */
  lemma {:induction false} HeadDecodes(ts: Tables, d: seq<bit>, at: nat, tbl: nat, t: seq<int>, y: Block, k0: nat,
    k: nat, eob: nat, se: nat, al: nat)
    returns (y': Block)
    requires ts.Valid() && tbl < NUM_HUFF_TBLS && k0 <= k <= eob + 1 && eob <= se < |t| == DCTSIZE2
    requires AllRefinable(t, y, k0, se, al) && NoneLate(t, k0, k) && Abs(t[eob]) == 1
    requires (forall j :: k0 <= j < k ==> Abs(t[j]) != 1) && (k > eob ==> k0 == k)
    requires Next(ts, d, at, Head(tbl, t, k0, k, eob))
    ensures Done(t, y, y', k0, eob + 1, al)
    ensures DecodeRefCoefs(ts.ac[tbl], d, at, y, k0, se, al)
      == DecodeRefCoefs(ts.ac[tbl], d, at + Length(ts, Head(tbl, t, k0, k, eob)), y', eob + 1, se, al)
    decreases eob + 1 - k, Zeros(t, k0, k)
  {
    hide Next, Length, DecodeRefCoefs, AllRefinable, Head, ZrlItems, NewItems, NoneLate, CorrBits, Done, Zeros;
    if k > eob {
      HeadEnds(tbl, t, eob);
      NextNone(ts, d, at);
      NothingDone(t, y, k, al);
      y' := y;
    } else if t[k] != 0 && Zeros(t, k0, k) > 15 {
      var p := AtZrl(t, k0, k);
      HeadZrl(tbl, t, k0, p, k, eob);
      var rest := Head(tbl, t, p + 1, k, eob);
      var y1 := ZrlStep(ts, d, at, tbl, t, y, k0, p, rest, se, al);
      Unchanged(t, y, y1, k0, p, al);
      StillRefinable(t, y, y1, k0, p, se, al);
      y' := HeadDecodes(ts, d, at + Length(ts, ZrlItems(tbl, t, k0, p, rest)) - Length(ts, rest), tbl, t, y1, p + 1, k,
        eob, se, al);
      DoneStep(t, y, y1, y1, y', k0, p, eob + 1, al);
    } else if Abs(t[k]) == 1 {
      HeadNew(tbl, t, k0, k, eob);
      var rest := Head(tbl, t, k + 1, k + 1, eob);
      var y1 := NewStep(ts, d, at, tbl, t, y, k0, k, rest, se, al);
      var y2 := y1[k := t[k] * Pow2(al)];
      Unchanged(t, y, y1, k0, k, al);
      StillRefinable(t, y, y2, k0, k, se, al);
      NoneYet(t, k + 1);
      y' := HeadDecodes(ts, d, at + Length(ts, NewItems(tbl, t, k0, k, rest)) - Length(ts, rest), tbl, t, y2, k + 1, k
        + 1, eob, se, al);
      DoneStep(t, y, y1, y2, y', k0, k, eob + 1, al);
    } else {
      HeadSkips(tbl, t, k0, k, eob);
      y' := HeadDecodes(ts, d, at, tbl, t, y, k0, k + 1, eob, se, al);
    }
  }

  lemma NothingDone(t: seq<int>, y: Block, k: nat, al: nat)
    requires k <= |t| == DCTSIZE2
    ensures Done(t, y, y, k, k, al)
  {
  }

  lemma NoneYet(t: seq<int>, k: nat)
    requires k <= |t|
    ensures NoneLate(t, k, k)
  {
  }

  lemma Unchanged(t: seq<int>, y: Block, y': Block, k: nat, n: nat, al: nat)
    requires k <= n <= |t| == DCTSIZE2 && Done(t, y, y', k, n, al)
    ensures forall j :: n <= j < DCTSIZE2 ==> y'[j] == y[j]
  {
  }

  // ----- whole segments

  /** An end-of-band symbol, with the correction bits of the rest of the block. */
  lemma RefEob(t: HuffTable, d: seq<bit>, at: nat, z: seq<int>, y: Block, k: nat, se: nat, al: nat) returns (y': Block)
    requires CountsOk(t) && k <= se < |z| == DCTSIZE2 && AllRefinable(z, y, k, se, al) && AtEob(t, d, at)
    requires forall j :: k <= j <= se ==> Abs(z[j]) != 1
    requires Holds(d, ReadEob(t, d, at).1, CorrBits(z, k, se + 1))
    ensures var (run, at1) := ReadEob(t, d, at);
            run > 0 && DecodeRefCoefs(t, d, at, y, k, se, al) == (y', at1 + |CorrBits(z, k, se + 1)|, run - 1)
    ensures Done(z, y, y', k, se + 1, al)
  {
    hide DecodeSym, Peek, Corrections, AllRefinable, CorrBits, Holds, Done, Advance;
    y' := CorrectionsDecode(d, ReadEob(t, d, at).1, z, y, k, se, al);
  }

  lemma RefEnd(t: HuffTable, d: seq<bit>, at: nat, y: Block, se: nat, al: nat)
    requires CountsOk(t) && se < DCTSIZE2
    ensures DecodeRefCoefs(t, d, at, y, se + 1, se, al) == (y, at, 0)
  {
  }

  lemma DoneJoin(t: seq<int>, y: Block, y1: Block, y': Block, k: nat, m: nat, n: nat, al: nat)
    requires k <= m <= n <= |t| == DCTSIZE2 && Done(t, y, y1, k, m, al) && Done(t, y1, y', m, n, al)
    ensures Done(t, y, y', k, n, al)
  {
  }

  ghost predicate AllDone(blocks: seq<seq<int>>, ys: seq<Block>, ys': seq<Block>, ss: nat, se: nat, al: nat)
    requires se < DCTSIZE2 && forall i :: 0 <= i < |blocks| ==> |blocks[i]| == DCTSIZE2
  {
    |blocks| == |ys| == |ys'| && forall i :: 0 <= i < |blocks| ==> Done(blocks[i], ys[i], ys'[i], ss, se + 1, al)
  }

  lemma ConsDone(blocks: seq<seq<int>>, ys: seq<Block>, y': Block, rest: seq<Block>, ss: nat, se: nat, al: nat)
    requires se < DCTSIZE2 && blocks != [] && ys != [] && forall i :: 0 <= i < |blocks| ==> |blocks[i]| == DCTSIZE2
    requires Done(blocks[0], ys[0], y', ss, se + 1, al) && AllDone(blocks[1..], ys[1..], rest, ss, se, al)
    ensures AllDone(blocks, ys, [y'] + rest, ss, se, al)
  {
    hide Done;
    forall i | 0 <= i < |blocks|
      ensures Done(blocks[i], ys[i], ([y'] + rest)[i], ss, se + 1, al)
    {
      if i > 0 {
        assert Done(blocks[1..][i - 1], ys[1..][i - 1], rest[i - 1], ss, se + 1, al);
      }
    }
  }

  lemma DecodeRefinesCons(t: HuffTable, d: seq<bit>, at: nat, run: nat, ys: seq<Block>, ss: nat, se: nat, al: nat)
    requires CountsOk(t) && se < DCTSIZE2 && ys != []
    ensures var (y, at1, run1) := DecodeRefine(t, d, at, run, ys[0], ss, se, al);
            var (rest, at2, run2) := DecodeRefines(t, d, at1, run1, ys[1..], ss, se, al);
            DecodeRefines(t, d, at, run, ys, ss, se, al) == ([y] + rest, at2, run2)
  {
  }

  /** What decoding from `at` does with blocks in front of which e blocks have ended early,
      with the correction bits corr, and are still waiting for their run to be sent. */
  ghost predicate RefSync(ts: Tables, d: seq<bit>, at: nat, tbl: nat, blocks: seq<seq<int>>, ys: seq<Block>,
                          ss: nat, se: nat, al: nat, e: nat, corr: seq<bit>, end: nat)
    requires ts.Valid() && tbl < NUM_HUFF_TBLS && se < DCTSIZE2 && forall i :: 0 <= i < |blocks| ==>
      |blocks[i]| == DCTSIZE2
  {
    if e == 0 then
      var (ys', at', run') := DecodeRefines(ts.ac[tbl], d, at, 0, ys, ss, se, al);
      AllDone(blocks, ys, ys', ss, se, al) && at' == end && run' == 0
    else
      var (run, at1) := ReadEob(ts.ac[tbl], d, at);
      && AtEob(ts.ac[tbl], d, at) && run >= e && Holds(d, at1, corr)
      && var (ys', at', run') := DecodeRefines(ts.ac[tbl], d, at1 + |corr|, run - e, ys, ss, se, al);
         AllDone(blocks, ys, ys', ss, se, al) && at' == end && run' == 0
  }

  /** A block without newly nonzero coefficients joins the waiting ones. */
  lemma OldSync(ts: Tables, d: seq<bit>, at: nat, tbl: nat, blocks: seq<seq<int>>, ys: seq<Block>,
                ss: nat, se: nat, al: nat, e: nat, corr: seq<bit>, end: nat)
    requires ts.Valid() && tbl < NUM_HUFF_TBLS && 0 < ss <= se < DCTSIZE2 && blocks != [] && |ys| == |blocks|
    requires forall i :: 0 <= i < |blocks| ==> |blocks[i]| == DCTSIZE2
    requires LastNew(blocks[0], ss, se) < ss && AllRefinable(blocks[0], ys[0], ss, se, al) && (e == 0 ==> corr == [])
    requires RefSync(ts, d, at, tbl, blocks[1..], ys[1..], ss, se, al, e + 1, corr + CorrBits(blocks[0], ss, se + 1),
      end)
    ensures RefSync(ts, d, at, tbl, blocks, ys, ss, se, al, e, corr, end)
  {
    hide AtEob, ReadEob, DecodeRefCoefs, Corrections, Done, AllDone, AllRefinable, DecodeRefines, CorrBits, Holds;
    var t, z, y, cb := ts.ac[tbl], blocks[0], ys[0], CorrBits(blocks[0], ss, se + 1);
    var (run, at1) := ReadEob(t, d, at);
    HoldsConcat(d, at1, corr, cb);
    var rest := DecodeRefines(t, d, at1 + |corr + cb|, run - e - 1, ys[1..], ss, se, al).0;
    var y';
    if e == 0 {
      assert corr + cb == cb;
      y' := RefEob(t, d, at, z, y, ss, se, al);
      DecodeRefinesCons(t, d, at, 0, ys, ss, se, al);
    } else {
      y' := CorrectionsDecode(d, at1 + |corr|, z, y, ss, se, al);
      DecodeRefinesCons(t, d, at1 + |corr|, run - e, ys, ss, se, al);
    }
    ConsDone(blocks, ys, y', rest, ss, se, al);
  }

  /** The pending run is sent with its correction bits. */
  lemma FlushRefSync(ts: Tables, d: seq<bit>, at: nat, tbl: nat, blocks: seq<seq<int>>, ys: seq<Block>,
                     ss: nat, se: nat, al: nat, e: nat, corr: seq<bit>, end: nat)
    requires ts.Valid() && tbl < NUM_HUFF_TBLS && se < DCTSIZE2 && forall i :: 0 <= i < |blocks| ==>
      |blocks[i]| == DCTSIZE2
    requires 0 < e <= MAX_EOBRUN && Next(ts, d, at, FlushItems(tbl, e, corr))
    requires RefSync(ts, d, at + Length(ts, FlushItems(tbl, e, corr)), tbl, blocks, ys, ss, se, al, 0, [], end)
    ensures RefSync(ts, d, at, tbl, blocks, ys, ss, se, al, e, corr, end)
  {
    hide AtEob, ReadEob, AllDone, DecodeRefines, Next, Length, EobItems, RawBits, Holds;
    var eob := EobItems(tbl, e);
    NextConcat(ts, d, at, eob, RawBits(corr));
    EobDecodes(ts, d, at, tbl, e);
    RawBitsNext(ts, d, at + Length(ts, eob), corr);
  }

  /** A block with newly nonzero coefficients, with none waiting in front. */
  lemma NewSync(ts: Tables, d: seq<bit>, at: nat, tbl: nat, blocks: seq<seq<int>>, ys: seq<Block>,
                ss: nat, se: nat, al: nat, end: nat)
    requires ts.Valid() && tbl < NUM_HUFF_TBLS && 0 < ss <= se < DCTSIZE2 && blocks != [] && |ys| == |blocks|
    requires forall i :: 0 <= i < |blocks| ==> |blocks[i]| == DCTSIZE2
    requires LastNew(blocks[0], ss, se) >= ss && AllRefinable(blocks[0], ys[0], ss, se, al)
    requires var eob := LastNew(blocks[0], ss, se);
             var head := HeadItems(tbl, blocks[0], ss, 0, [], eob);
             && Next(ts, d, at, head)
             && RefSync(ts, d, at + Length(ts, head), tbl, blocks[1..], ys[1..], ss, se, al,
                        if eob < se then 1 else 0, if eob < se then CorrBits(blocks[0], eob + 1, se + 1) else [], end)
    ensures RefSync(ts, d, at, tbl, blocks, ys, ss, se, al, 0, [], end)
  {
    hide AtEob, ReadEob, DecodeRefCoefs, Done, AllDone, AllRefinable, DecodeRefines, CorrBits, Holds, HeadItems, Next,
      Length, LastNew;
    var t, z, y := ts.ac[tbl], blocks[0], ys[0];
    var eob := LastNew(z, ss, se);
    StartHead(tbl, z, ss, eob);
    var at1 := at + Length(ts, Head(tbl, z, ss, ss, eob));
    var y1 := HeadDecodes(ts, d, at, tbl, z, y, ss, ss, eob, se, al);
    var y';
    if eob == se {
      RefEnd(t, d, at1, y1, se, al);
      y' := y1;
    } else {
      Unchanged(z, y, y1, ss, eob + 1, al);
      StillRefinable(z, y, y1, ss, eob, se, al);
      y' := RefEob(t, d, at1, z, y1, eob + 1, se, al);
      DoneJoin(z, y, y1, y', ss, eob + 1, se + 1, al);
    }
    DecodeRefinesCons(t, d, at, 0, ys, ss, se, al);
    var (_, at2, run2) := DecodeRefine(t, d, at, 0, y, ss, se, al);
    ConsDone(blocks, ys, y', DecodeRefines(t, d, at2, run2, ys[1..], ss, se, al).0, ss, se, al);
  }

  lemma StartHead(tbl: nat, t: seq<int>, ss: nat, eob: nat)
    requires ss <= eob < |t|
    ensures Head(tbl, t, ss, ss, eob) == HeadItems(tbl, t, ss, 0, [], eob) && NoneLate(t, ss, ss)
  {
    assert Zeros(t, ss, ss) == 0 && CorrBits(t, ss, ss) == [];
  }

  ghost predicate BlocksRefinable(blocks: seq<seq<int>>, ys: seq<Block>, ss: nat, se: nat, al: nat)
    requires se < DCTSIZE2 && forall i :: 0 <= i < |blocks| ==> |blocks[i]| == DCTSIZE2
  {
    |ys| == |blocks| && forall i :: 0 <= i < |blocks| ==> AllRefinable(blocks[i], ys[i], ss, se, al)
  }

  /** Whole segments: what the refinement pass outputs for any sequence of blocks decodes to
      their coefficients with one more bit. */
  lemma {:induction false} RefDecodes(ts: Tables, d: seq<bit>, at: nat, tbl: nat, blocks: seq<seq<int>>, ys: seq<Block>,
                                      ss: nat, se: nat, al: nat, e: nat, corr: seq<bit>)
    requires ts.Valid() && tbl < NUM_HUFF_TBLS && 0 < ss <= se < DCTSIZE2 && Pending(e, corr)
    requires (forall i :: 0 <= i < |blocks| ==> |blocks[i]| == DCTSIZE2) && BlocksRefinable(blocks, ys, ss, se, al)
    requires Next(ts, d, at, RefItems(tbl, blocks, ss, se, e, corr))
    ensures RefSync(ts, d, at, tbl, blocks, ys, ss, se, al, e, corr, at
      + Length(ts, RefItems(tbl, blocks, ss, se, e, corr)))
    decreases |blocks|
  {
    hide AtEob, ReadEob, DecodeRefine, AllRefinable, Next, Length, RefSync, RefBlock, Pending;
    if blocks == [] {
      RefEndSync(ts, d, at, tbl, ss, se, al, e, corr);
    } else {
      var (items, e1, c1) := RefBlock(tbl, blocks[0], ss, se, e, corr);
      var rest := RefItems(tbl, blocks[1..], ss, se, e1, c1);
      var end := at + Length(ts, items + rest);
      NextConcat(ts, d, at, items, rest);
      RefBlockPending(tbl, blocks[0], ss, se, e, corr);
      assert forall i :: 0 <= i < |ys[1..]| ==> ys[1..][i] == ys[i + 1] && blocks[1..][i] == blocks[i + 1];
      RefDecodes(ts, d, at + Length(ts, items), tbl, blocks[1..], ys[1..], ss, se, al, e1, c1);
      RefStep(ts, d, at, tbl, blocks, ys, ss, se, al, e, corr, end);
    }
  }

  lemma RefEndSync(ts: Tables, d: seq<bit>, at: nat, tbl: nat, ss: nat, se: nat, al: nat, e: nat, corr: seq<bit>)
    requires ts.Valid() && tbl < NUM_HUFF_TBLS && se < DCTSIZE2 && Pending(e, corr)
      && Next(ts, d, at, FlushItems(tbl, e, corr))
    ensures RefSync(ts, d, at, tbl, [], [], ss, se, al, e, corr, at + Length(ts, FlushItems(tbl, e, corr)))
  {
    hide AtEob, ReadEob, Next, Length, EobItems, RawBits, Holds;
    if e > 0 {
      NextConcat(ts, d, at, EobItems(tbl, e), RawBits(corr));
      EobDecodes(ts, d, at, tbl, e);
      RawBitsNext(ts, d, at + Length(ts, EobItems(tbl, e)), corr);
    } else {
      NextNone(ts, d, at);
    }
  }

  /** One block in front of a rest in sync. */
  lemma RefStep(ts: Tables, d: seq<bit>, at: nat, tbl: nat, blocks: seq<seq<int>>, ys: seq<Block>,
                ss: nat, se: nat, al: nat, e: nat, corr: seq<bit>, end: nat)
    requires ts.Valid() && tbl < NUM_HUFF_TBLS && 0 < ss <= se < DCTSIZE2 && |ys| == |blocks| && blocks != []
      && Pending(e, corr)
    requires (forall i :: 0 <= i < |blocks| ==> |blocks[i]| == DCTSIZE2) && AllRefinable(blocks[0], ys[0], ss, se, al)
    requires Next(ts, d, at, RefBlock(tbl, blocks[0], ss, se, e, corr).0)
    requires var (items, e1, c1) := RefBlock(tbl, blocks[0], ss, se, e, corr);
             RefSync(ts, d, at + Length(ts, items), tbl, blocks[1..], ys[1..], ss, se, al, e1, c1, end)
    ensures RefSync(ts, d, at, tbl, blocks, ys, ss, se, al, e, corr, end)
  {
    hide HeadItems, Next, Length, LastNew, RefSync, AllRefinable, FlushItems, CorrBits, MustFlush;
    var eob := LastNew(blocks[0], ss, se);
    NoLength(ts);
    if eob < ss {
      OldStep(ts, d, at, tbl, blocks, ys, ss, se, al, e, corr, end);
    } else {
      var flush, head := FlushItems(tbl, e, corr), HeadItems(tbl, blocks[0], ss, 0, [], eob);
      NextConcat(ts, d, at, flush, head);
      TailFits(tbl, blocks[0], ss, se, eob);
      NewSync(ts, d, at + Length(ts, flush), tbl, blocks, ys, ss, se, al, end);
      if e > 0 {
        FlushRefSync(ts, d, at, tbl, blocks, ys, ss, se, al, e, corr, end);
      } else {
        NoFlush(tbl, corr);
      }
    }
  }

  lemma NoFlush(tbl: nat, corr: seq<bit>)
    ensures FlushItems(tbl, 0, corr) == []
  {
  }

  /** The correction bits of one block alone never force a flush. */
  lemma TailFits(tbl: nat, t: seq<int>, ss: nat, se: nat, eob: nat)
    requires 0 < ss <= eob <= se < |t| == DCTSIZE2
    ensures !MustFlush(1, [] + CorrBits(t, eob + 1, se + 1)) && [] + CorrBits(t, eob + 1, se + 1)
      == CorrBits(t, eob + 1, se + 1)
  {
    CorrFew(t, eob + 1, se + 1);
  }

  lemma OldStep(ts: Tables, d: seq<bit>, at: nat, tbl: nat, blocks: seq<seq<int>>, ys: seq<Block>,
                ss: nat, se: nat, al: nat, e: nat, corr: seq<bit>, end: nat)
    requires ts.Valid() && tbl < NUM_HUFF_TBLS && 0 < ss <= se < DCTSIZE2 && |ys| == |blocks| && blocks != []
      && Pending(e, corr)
    requires (forall i :: 0 <= i < |blocks| ==> |blocks[i]| == DCTSIZE2) && AllRefinable(blocks[0], ys[0], ss, se, al)
    requires LastNew(blocks[0], ss, se) < ss && Next(ts, d, at, RefBlock(tbl, blocks[0], ss, se, e, corr).0)
    requires var (items, e1, c1) := RefBlock(tbl, blocks[0], ss, se, e, corr);
             RefSync(ts, d, at + Length(ts, items), tbl, blocks[1..], ys[1..], ss, se, al, e1, c1, end)
    ensures RefSync(ts, d, at, tbl, blocks, ys, ss, se, al, e, corr, end)
  {
    hide HeadItems, Next, Length, RefSync, AllRefinable, FlushItems, CorrBits, MustFlush;
    var e1, c1 := e + 1, corr + CorrBits(blocks[0], ss, se + 1);
    NoLength(ts);
    if MustFlush(e1, c1) {
      assert [] + FlushItems(tbl, e1, c1) == FlushItems(tbl, e1, c1);
      FlushRefSync(ts, d, at, tbl, blocks[1..], ys[1..], ss, se, al, e1, c1, end);
    }
    OldSync(ts, d, at, tbl, blocks, ys, ss, se, al, e, corr, end);
  }
}
