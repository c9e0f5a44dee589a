/** The Huffman entropy encoder of jchuff.c: MCUs in all coding modes, to output or to
    gather symbol statistics. */
module HuffmanEncoding {
  import opened JpegLib
  import opened Bytes
  import opened Arithmetic
  import opened Blocks
  import opened Markers
  import opened Segments
  import opened BitStreams
  import opened BitReading
  import opened BitWriting
  import opened CodeTable
  import opened HuffmanDecoding
  import opened HuffmanItems
  import opened HuffmanBlocks
  import opened HuffmanFirst
  import opened HuffmanRefine
  import opened HuffmanScan
  import opened HuffmanSegments
  import opened HuffmanStatistics
  import opened HuffmanAlphabets

  /** The items of a coefficient behind r zeros. */
  function RunCoef(tbl: nat, r: nat, v: int): seq<Item>
  {
    Zrls(tbl, r / 16) + ([AcSym(tbl, r % 16 * 16 + NBits(Abs(v)))] + [Raw(Extra(v), NBits(Abs(v)))])
  }

  lemma AcItemsZero(tbl: nat, z: seq<int>, k: nat, r: nat, se: nat)
    requires k <= se < |z| && z[k] == 0
    ensures AcItems(tbl, z, k, r, se) == AcItems(tbl, z, k + 1, r + 1, se)
  {
  }

  lemma AcItemsEnd(tbl: nat, z: seq<int>, r: nat, se: nat)
    requires se < |z|
    ensures AcItems(tbl, z, se + 1, r, se) == if r > 0 then [AcSym(tbl, 0)] else []
  {
  }

  lemma SmallStart(z: Block)
    ensures SmallAc(z, 1, 0)
  {
  }

  lemma SmallStep(z: Block, k: nat, se: nat)
    requires 1 <= k <= se < DCTSIZE2
    ensures SmallAc(z, 1, k) <==> SmallAc(z, 1, k - 1) && NBits(Abs(z[k])) <= MAX_COEF_BITS
    ensures z[k] == 0 ==> NBits(Abs(z[k])) == 0
    ensures NBits(Abs(z[k])) > MAX_COEF_BITS ==> !SmallAc(z, 1, se)
  {
  }

  lemma AcItemsStep(tbl: nat, z: seq<int>, k: nat, r: nat, se: nat)
    requires k <= se < |z| && z[k] != 0
    ensures AcItems(tbl, z, k, r, se) == RunCoef(tbl, r, z[k]) + AcItems(tbl, z, k + 1, 0, se)
  {
    hide Extra, NBits, Zrls;
  }

  lemma Associate(a: seq<Item>, b: seq<Item>, c: seq<Item>)
    ensures (a + b) + c == a + (b + c)
  {
  }

  lemma CodableOne(ts: Tables, i: Item)
    requires ts.Valid()
    ensures AllCodable(ts, [i]) <==> Codable(ts, i)
  {
    assert [i][0] == i;
  }

  lemma {:induction false} CodableZrls(ts: Tables, tbl: nat, m: nat)
    requires ts.Valid()
    ensures AllCodable(ts, Zrls(tbl, m)) <==> m == 0 || Codable(ts, AcSym(tbl, ZRL))
  {
    hide Codable;
    if m > 0 {
      CodableZrls(ts, tbl, m - 1);
      CodableConcat(ts, [AcSym(tbl, ZRL)], Zrls(tbl, m - 1));
      CodableOne(ts, AcSym(tbl, ZRL));
    }
  }

  lemma {:induction false} ZrlsSnoc(tbl: nat, m: nat)
    ensures Zrls(tbl, m + 1) == Zrls(tbl, m) + [AcSym(tbl, ZRL)]
  {
    if m > 0 {
      ZrlsSnoc(tbl, m - 1);
    }
  }

  lemma BitsSnoc(ts: Tables, items: seq<Item>, i: Item)
    requires ts.Valid()
    ensures Bits(ts, items + [i]) == Bits(ts, items) + ItemBits(ts, i)
    ensures AllCodable(ts, items + [i]) <==> AllCodable(ts, items) && Codable(ts, i)
  {
    assert (items + [i])[..|items|] == items && (items + [i])[|items|] == i;
    CodableConcat(ts, items, [i]);
    assert AllCodable(ts, [i]) <==> Codable(ts, i) by {
      assert [i][0] == i;
    }
  }

  /** What a derived table says of a symbol. */
  lemma DerivedCode(c: CTable, t: HuffTable, sym: nat)
    requires CountsOk(t) && Encodes(c, t) && sym < MAX_SYMBOLS
    ensures |c.ehufco| == |c.ehufsi| == MAX_SYMBOLS
    ensures c.ehufsi[sym] > 0 <==> HasCode(t, sym)
    ensures c.ehufsi[sym] <= MAX_LENGTH
    ensures HasCode(t, sym) ==> BitsOf(Mask(c.ehufco[sym], c.ehufsi[sym]), c.ehufsi[sym]) == CodeOf(t, sym)
  {
    var p := IndexTo(t, sym, |Sizes(t)|);
    if p >= 0 {
      HuffmanDecoding.CodeFits(t, p);
      hide Area, Code, SizesTo, BitsOf;
      ModSelf(Code(Sizes(t), p), Pow2(Sizes(t)[p]));
    } else {
      assert sym !in t.huffval[..|Sizes(t)|];
    }
  }

  class HuffEncoder {
    const writer: BitWriter
    const order: seq<nat>
    const bitBuffer: array<bit>
    const dcCounts: array2<nat>
    const acCounts: array2<nat>
    var sc: HScan
    var gather: bool
    var dcDerived: seq<CTable>
    var acDerived: seq<CTable>
    var lastDcVal: seq<int>
    var eobrun: nat
    var be: nat
    var restartInterval: nat
    var restartsToGo: nat
    var nextRestartNum: nat

    // What has been emitted: the tables, the items of earlier restart intervals, and those
    // of the current one.
    ghost var ts: Tables
    ghost var earlier: seq<Item>
    ghost var log: seq<Item>

    // What has been coded since start_pass: where in the output the scan starts, the
    // complete restart intervals, the current one, and the bytes of the complete ones.
    ghost var scanStart: nat
    ghost var segs: seq<seq<Mcu>>
    ghost var cur: seq<Mcu>
    ghost var ps: seq<seq<byte>>

    constructor (order: seq<nat>)
      requires ValidOrder(order)
      ensures this.order == order && fresh(writer) && fresh(bitBuffer) && fresh(dcCounts) && fresh(acCounts) && Shape()
      ensures writer.Valid() && writer.out == [] && writer.start == 0 && writer.bits == []
    {
      writer := new BitWriter();
      this.order := order;
      bitBuffer := new bit[MAX_CORR_BITS](i => 0);
      dcCounts := new nat[NUM_HUFF_TBLS, 257]((i, j) => 0);
      acCounts := new nat[NUM_HUFF_TBLS, 257]((i, j) => 0);
      gather, eobrun, be := false, 0, 0;
      dcDerived, acDerived, lastDcVal := [], [], NO_PREDS;
      restartInterval, restartsToGo, nextRestartNum := 0, 0, 0;
    }

    ghost predicate Shape()
    {
      && ValidOrder(order) && bitBuffer.Length == MAX_CORR_BITS && dcCounts != acCounts
      && dcCounts.Length0 == acCounts.Length0 == NUM_HUFF_TBLS && dcCounts.Length1 == acCounts.Length1 == 257
    }

    /** The derived tables are those of ts. */
    ghost predicate Derived()
      reads `dcDerived, `acDerived, `ts
    {
      && ts.Valid() && |dcDerived| == |acDerived| == NUM_HUFF_TBLS
      && forall i :: 0 <= i < NUM_HUFF_TBLS ==> Encodes(dcDerived[i], ts.dc[i]) && Encodes(acDerived[i], ts.ac[i])
    }

    ghost predicate Counted()
      requires Shape()
      reads `sc, `earlier, `log, dcCounts, acCounts
    {
      && AllSound(sc, earlier + log)
      && forall i, s :: 0 <= i < NUM_HUFF_TBLS && 0 <= s < MAX_SYMBOLS ==>
        && (sc.UsesDc(i) ==> dcCounts[i, s] == Occurrences(earlier + log, DcSym(i, s)))
        && (sc.UsesAc(i) ==> acCounts[i, s] == Occurrences(earlier + log, AcSym(i, s)))
    }

    ghost predicate Output()
      reads `dcDerived, `acDerived, `ts, `log, writer
    {
      Derived() && writer.Valid() && writer.bits == Bits(ts, log) && AllCodable(ts, log)
    }

    /** Everything emitted is in the output, or counted. */
    ghost predicate Logged()
      reads `sc, `gather, `dcDerived, `acDerived, `ts, `earlier, `log, writer, dcCounts, acCounts
    {
      Shape() && ts.Valid() && if gather then Counted() else Output()
    }

    ghost predicate Emittable(i: Item)
      requires ts.Valid()
      reads `gather, `ts
    {
      gather || Codable(ts, i)
    }

    ghost predicate AllEmittable(items: seq<Item>)
      requires ts.Valid()
      reads `gather, `ts
    {
      gather || AllCodable(ts, items)
    }

    twostate predicate Wrote()
      reads writer, `ts, `gather
    {
      writer.start == old(writer.start) && old(writer.out) <= writer.out && ts == old(ts) && gather == old(gather)
    }

    ghost function State(): EncState
      requires be <= MAX_CORR_BITS == bitBuffer.Length && |lastDcVal| == MAX_COMPS_IN_SCAN
      reads `lastDcVal, `eobrun, `be, bitBuffer
    {
      EncState(lastDcVal, eobrun, bitBuffer[..be])
    }

    /** Between blocks. */
    ghost predicate Running()
      reads `sc, `lastDcVal, `eobrun, `be, bitBuffer, `gather, `dcDerived, `acDerived, `ts, `earlier, `log, writer,
        dcCounts, acCounts
    {
      && Shape() && Logged() && sc.Valid() && |lastDcVal| == MAX_COMPS_IN_SCAN && be <= MAX_CORR_BITS
        && Pending(eobrun, bitBuffer[..be])
      && (!sc.pass.mode.AcRefinePass? ==> be == 0) && (Simple(sc) ==> eobrun == 0)
    }

    ghost predicate Consistent()
      reads `sc, `lastDcVal, `eobrun, `be, bitBuffer, `gather, `dcDerived, `acDerived, `ts, `earlier, `log, writer,
        dcCounts, acCounts
      reads `restartInterval, `scanStart, `segs, `cur, `ps
    {
      && Running() && AllFit(sc, cur) && SentOk(sc, cur) && (log, State()) == Sent(sc, cur)
      && FullSegs(sc, restartInterval, segs) && earlier == AllItems(sc, segs)
      && (gather || Record(sc, ts, writer.out, scanStart, writer.start, segs, ps))
    }

    /** Between MCUs. */
    ghost predicate Valid()
      reads this, writer, bitBuffer, dcCounts, acCounts
    {
      && Consistent()
      && restartsToGo == (if restartInterval == 0 then 0 else restartInterval - |cur|)
      && (restartInterval != 0 ==> |cur| <= restartInterval)
      && (gather || nextRestartNum == |segs| % 8)
      && (segs != [] ==> cur != [])
    }

    /** All MCUs coded since start_pass, blocks in zigzag order. */
    ghost function Mcus(): seq<Mcu>
      reads `segs, `cur
    {
      Flatten(segs) + cur
    }

    /** emit_dc_symbol. */
    method EmitDcSymbol(tbl: nat, symbol: nat) returns (ok: bool)
      requires Logged() && sc.UsesDc(tbl) && symbol <= 15
      modifies writer, dcCounts, `log
      ensures ok == Emittable(DcSym(tbl, symbol)) && Wrote()
      ensures ok ==> Logged() && log == old(log) + [DcSym(tbl, symbol)]
    {
      hide Encodes, Bits, Occurrences, HasCode, CodeOf, BitWriter.Valid, AllSound;
      ghost var i := DcSym(tbl, symbol);
      SymbolsSnoc(earlier + log, i);
      SoundSnoc(sc, earlier + log, i);
      assert earlier + (log + [i]) == (earlier + log) + [i];
      if gather {
        dcCounts[tbl, symbol] := dcCounts[tbl, symbol] + 1;
        ok := true;
      } else {
        var c := dcDerived[tbl];
        DerivedCode(c, ts.dc[tbl], symbol);
        BitsSnoc(ts, log, i);
        ok := writer.EmitBits(c.ehufco[symbol], c.ehufsi[symbol]);
      }
      if ok {
        log := log + [i];
      }
    }

    /** emit_ac_symbol. */
    method EmitAcSymbol(tbl: nat, symbol: nat) returns (ok: bool)
      requires Logged() && sc.UsesAc(tbl) && symbol < MAX_SYMBOLS && symbol % 16 <= MAX_COEF_BITS
      modifies writer, acCounts, `log
      ensures ok == Emittable(AcSym(tbl, symbol)) && Wrote()
      ensures ok ==> Logged() && log == old(log) + [AcSym(tbl, symbol)]
    {
      hide Encodes, Bits, Occurrences, HasCode, CodeOf, BitWriter.Valid, AllSound;
      ghost var i := AcSym(tbl, symbol);
      SymbolsSnoc(earlier + log, i);
      SoundSnoc(sc, earlier + log, i);
      assert earlier + (log + [i]) == (earlier + log) + [i];
      if gather {
        acCounts[tbl, symbol] := acCounts[tbl, symbol] + 1;
        ok := true;
      } else {
        var c := acDerived[tbl];
        DerivedCode(c, ts.ac[tbl], symbol);
        BitsSnoc(ts, log, i);
        ok := writer.EmitBits(c.ehufco[symbol], c.ehufsi[symbol]);
      }
      if ok {
        log := log + [i];
      }
    }

    /** emit_bits for the n low-order bits of code, unless only statistics are gathered. */
    method EmitBits(code: int, n: nat)
      requires Logged() && 0 < n <= 16
      modifies writer, `log
      ensures Logged() && Wrote() && log == old(log) + [Raw(Mask(code, n), n)]
    {
      hide Encodes, Bits, Occurrences, HasCode, CodeOf, BitWriter.Valid, AllSound, Mask;
      ghost var i := Raw(Mask(code, n), n);
      MaskSmall(code, n);
      SymbolsSnoc(earlier + log, i);
      SoundSnoc(sc, earlier + log, i);
      assert earlier + (log + [i]) == (earlier + log) + [i];
      if !gather {
        BitsSnoc(ts, log, i);
        var _ := writer.EmitBits(code, n);
      }
      log := log + [i];
    }

    /** `nbits = 0; while (temp) { nbits++; temp >>= 1; }`. */
    method CountBits(temp0: nat) returns (nbits: nat)
      ensures nbits == NBits(temp0)
    {
      var temp := temp0;
      nbits := 0;
      while temp != 0
        invariant nbits + NBits(temp) == NBits(temp0)
        decreases temp
      {
        nbits := nbits + 1;
        temp := temp / 2;
      }
    }

    /** A DC difference: fails on large ones and on a missing code. */
    method EncodeDcDiff(tbl: nat, diff: int) returns (ok: bool)
      requires Logged() && sc.UsesDc(tbl)
      modifies writer, dcCounts, `log
      ensures Wrote() && ok == (NBits(Abs(diff)) <= MAX_COEF_BITS + 1 && AllEmittable(DcItems(tbl, diff)))
      ensures ok ==> Logged() && log == old(log) + DcItems(tbl, diff)
    {
      hide HuffEncoder.Logged, NBits, Mask, Extra;
      var temp, temp2 := diff, diff;
      if temp < 0 {
        temp := -temp;
        temp2 := temp2 - 1;
      }
      var nbits := CountBits(temp);
      if nbits > MAX_COEF_BITS + 1 {
        return false;
      }
      TablesValid();
      CodableDc(ts, tbl, diff);
      ok := EmitDcSymbol(tbl, nbits);
      if ok && nbits > 0 {
        MaskIsExtra(diff);
        EmitBits(temp2, nbits);
      }
    }

    lemma Uses(ci: nat)
      requires sc.Valid() && ci < |sc.acTbl| && sc.pass.CodesAc()
      ensures sc.UsesAc(sc.acTbl[ci])
    {
    }

    lemma TablesValid()
      requires Logged()
      ensures ts.Valid()
    {
    }

    lemma CodableDc(ts: Tables, tbl: nat, diff: int)
      requires ts.Valid()
      ensures AllCodable(ts, DcItems(tbl, diff)) <==> Codable(ts, DcSym(tbl, NBits(Abs(diff))))
    {
      var n := NBits(Abs(diff));
      CodableOne(ts, DcSym(tbl, n));
      if n > 0 {
        ExtendExtra(diff);
        CodableConcat(ts, [DcSym(tbl, n)], [Raw(Extra(diff), n)]);
        CodableOne(ts, Raw(Extra(diff), n));
      } else {
        assert DcItems(tbl, diff) == [DcSym(tbl, n)];
      }
    }

    /** `while (r > 15) { emit ZRL; r -= 16; }`. */
    method EncodeZrls(tbl: nat, r0: nat) returns (ok: bool, r: nat)
      requires Logged() && sc.UsesAc(tbl)
      modifies writer, acCounts, `log
      ensures Wrote() && ok == AllEmittable(Zrls(tbl, r0 / 16))
      ensures ok ==> Logged() && log == old(log) + Zrls(tbl, r0 / 16) && r == r0 % 16
    {
      hide HuffEncoder.Logged, Codable;
      r, ok := r0, true;
      TablesValid();
      CodableZrls(ts, tbl, r0 / 16);
      ghost var m := 0;
      while r > 15
        invariant ok && Logged() && Wrote() && r + 16 * m == r0 && log == old(log) + Zrls(tbl, m)
        invariant m > 0 ==> Emittable(AcSym(tbl, ZRL))
      {
        ok := EmitAcSymbol(tbl, ZRL);
        if !ok {
          return;
        }
        ZrlsSnoc(tbl, m);
        r := r - 16;
        m := m + 1;
      }
    }

    /** The symbol and bits of a nonzero coefficient behind r zeros, r < 16. */
    method EncodeCoef(tbl: nat, r: nat, v: int) returns (ok: bool)
      requires Logged() && sc.UsesAc(tbl) && r < 16 && v != 0
      modifies writer, acCounts, `log
      ensures var n := NBits(Abs(v));
              var items := [AcSym(tbl, r * 16 + n)] + [Raw(Extra(v), n)];
              && Wrote() && ok == (n <= MAX_COEF_BITS && AllEmittable(items))
              && (ok ==> Logged() && log == old(log) + items)
    {
      hide HuffEncoder.Logged, NBits, Mask, Extra;
      var temp, temp2 := v, v;
      if temp < 0 {
        temp := -temp;
        temp2 := temp2 - 1;
      }
      var nbits := CountBits(temp);
      if nbits > MAX_COEF_BITS {
        return false;
      }
      TablesValid();
      CodableCoef(ts, tbl, r, v);
      ok := EmitAcSymbol(tbl, r * 16 + nbits);
      if ok {
        MaskIsExtra(v);
        EmitBits(temp2, nbits);
      }
    }

    lemma CodableCoef(ts: Tables, tbl: nat, r: nat, v: int)
      requires ts.Valid() && v != 0
      ensures var n := NBits(Abs(v));
              n > 0 && (AllCodable(ts, [AcSym(tbl, r * 16 + n)] + [Raw(Extra(v), n)]) <==>
                Codable(ts, AcSym(tbl, r * 16 + n)))
    {
      var n := NBits(Abs(v));
      ExtendExtra(v);
      CodableOne(ts, AcSym(tbl, r * 16 + n));
      CodableConcat(ts, [AcSym(tbl, r * 16 + n)], [Raw(Extra(v), n)]);
      CodableOne(ts, Raw(Extra(v), n));
    }

    /** A coefficient behind any number of zeros: ZRLs as needed, then its symbol and bits. */
    method EncodeRunCoef(tbl: nat, r0: nat, v: int) returns (ok: bool)
      requires Logged() && sc.UsesAc(tbl) && v != 0
      modifies writer, acCounts, `log
      ensures var items := RunCoef(tbl, r0, v);
              && Wrote() && ok == (NBits(Abs(v)) <= MAX_COEF_BITS && AllEmittable(items))
              && (ok ==> Logged() && log == old(log) + items)
    {
      hide HuffEncoder.Logged, NBits, Extra, Zrls, AllCodable;
      TablesValid();
      CodableConcat(ts, Zrls(tbl, r0 / 16), [AcSym(tbl, r0 % 16 * 16 + NBits(Abs(v)))]
        + [Raw(Extra(v), NBits(Abs(v)))]);
      var r;
      ok, r := EncodeZrls(tbl, r0);
      if ok {
        ok := EncodeCoef(tbl, r, v);
      }
    }

    /** The AC coefficients of a sequential block. */
    method EncodeAc(ci: nat, block: Block) returns (ok: bool)
      requires Logged() && Shape() && sc.Valid() && sc.pass.mode.Sequential? && ci < |sc.acTbl|
      modifies writer, acCounts, `log
      ensures var z := Zigzag(order, block);
              var items := AcItems(sc.acTbl[ci], z, 1, 0, sc.pass.limSe);
              && Wrote() && ok == (SmallAc(z, 1, sc.pass.limSe) && AllEmittable(items))
              && (ok ==> Logged() && log == old(log) + items)
    {
      hide HuffEncoder.Logged, NBits, Extra, Zrls, RunCoef, AllCodable, HScan.UsesAc, ValidOrder, AcItems, SmallAc,
        Zigzag;
      var tbl, se := sc.acTbl[ci], sc.pass.limSe;
      if se > 0 { Uses(ci); }
      OrderShape();
      ghost var z := Zigzag(order, block);
      ghost var goal := AcItems(tbl, z, 1, 0, se);
      ghost var done: seq<Item> := [];
      var r: nat := 0;
      TablesValid();
      CodableNone(ts);
      SmallStart(z);
      for k := 1 to se + 1
        invariant Logged() && Wrote() && log == old(log) + done && done + AcItems(tbl, z, k, r, se) == goal
        invariant AllEmittable(done) && SmallAc(z, 1, k - 1) && r < k
      {
        var temp := block[order[k]];
        SmallStep(z, k, se);
        if temp == 0 {
          AcItemsZero(tbl, z, k, r, se);
          r := r + 1;
        } else {
          ghost var coef, rest := RunCoef(tbl, r, z[k]), AcItems(tbl, z, k + 1, 0, se);
          AcItemsStep(tbl, z, k, r, se);
          AllParts(ts, done, coef, rest);
          ok := EncodeRunCoef(tbl, r, temp);
          if !ok {
            return;
          }
          r := 0;
          Associate(old(log), done, coef);
          done := done + coef;
        }
      }
      ok := true;
      AcItemsEnd(tbl, z, r, se);
      if r > 0 {
        CodableConcat(ts, done, [AcSym(tbl, 0)]);
        CodableOne(ts, AcSym(tbl, 0));
        ok := EmitAcSymbol(tbl, 0);
      } else {
        assert done == goal;
      }
    }

    lemma NoBitsNeeded()
      ensures NBits(0) == 0
    {
    }

    lemma CodableNone(ts: Tables)
      requires ts.Valid()
      ensures AllCodable(ts, [])
    {
    }

    lemma AllParts(ts: Tables, p: seq<Item>, x: seq<Item>, r: seq<Item>)
      requires ts.Valid()
      ensures AllCodable(ts, p + (x + r)) <==> AllCodable(ts, p) && AllCodable(ts, x) && AllCodable(ts, r)
      ensures AllCodable(ts, p + x) <==> AllCodable(ts, p) && AllCodable(ts, x)
      ensures p + x + r == p + (x + r)
    {
      hide AllCodable;
      CodableConcat(ts, p, x + r);
      CodableConcat(ts, x, r);
      CodableConcat(ts, p, x);
    }

    /** Emits n bits of the correction bit buffer. */
    method EmitBufferedBits(bufstart: nat, n: nat)
      requires Logged() && Shape() && bufstart + n <= MAX_CORR_BITS
      modifies writer, `log
      ensures Logged() && Wrote() && log == old(log) + RawBits(bitBuffer[bufstart..bufstart + n])
    {
      hide HuffEncoder.Logged, Mask;
      ghost var b := bitBuffer[bufstart..bufstart + n];
      if gather {
        SkipBits(b);
        return;
      }
      for i := 0 to n
        invariant Logged() && Wrote() && log == old(log) + RawBits(b[..i]) && bitBuffer[bufstart..bufstart + n] == b
      {
        assert b[..i + 1][..i] == b[..i] && b[i] == bitBuffer[bufstart + i];
        OneBitMask(b[i]);
        EmitBits(bitBuffer[bufstart + i], 1);
      }
      assert b[..n] == b;
    }

    lemma OneBitMask(b: bit)
      ensures Mask(b, 1) == b
    {
      assert Pow2(1) == 2;
    }

    /** Raw bits are not counted. */
    ghost method SkipBits(b: seq<bit>)
      requires Logged() && gather
      modifies `log
      ensures Logged() && log == old(log) + RawBits(b)
    {
      hide Occurrences, RawBits, AllSound;
      RawUncounted(earlier + log, b);
      SoundBits(sc, earlier + log, b);
      assert earlier + (log + RawBits(b)) == (earlier + log) + RawBits(b);
      log := log + RawBits(b);
    }

    /** emit_eobrun: any pending end-of-band run, and its correction bits. */
    method EmitEobrun(tbl: nat) returns (ok: bool)
      requires Logged() && Shape() && tbl < NUM_HUFF_TBLS && (eobrun > 0 ==>
        sc.UsesAc(tbl)) && eobrun <= MAX_EOBRUN && be <= MAX_CORR_BITS
      modifies writer, acCounts, `log, `eobrun, `be
      ensures var items := FlushItems(tbl, old(eobrun), old(bitBuffer[..be]));
              && Wrote() && ok == AllEmittable(items)
              && (ok ==> Logged() && log == old(log) + items)
      ensures ok ==> eobrun == 0 && be == if old(eobrun) > 0 then 0 else old(be)
    {
      hide HuffEncoder.Logged, Mask, EobItems, RawBits, Pow2, AllCodable;
      TablesValid();
      ok := true;
      if eobrun > 0 {
        ghost var corr := bitBuffer[..be];
        CodableFlush(ts, tbl, eobrun, corr);
        var temp, nbits := eobrun, 0;
        while temp / 2 != 0
          invariant temp > 0 && nbits + Log2(temp) == Log2(eobrun)
          decreases temp
        {
          temp := temp / 2;
          nbits := nbits + 1;
        }
        RunSmall(eobrun);
        if nbits > 14 {
          assert false;
          return false;
        }
        ok := EmitAcSymbol(tbl, nbits * 16);
        if !ok {
          return;
        }
        RunBits(tbl, eobrun);
        if nbits != 0 {
          EmitBits(eobrun, nbits);
        }
        eobrun := 0;
        assert log == old(log) + EobItems(tbl, old(eobrun));
        EmitBufferedBits(0, be);
        be := 0;
      } else {
        CodableNone(ts);
      }
    }

    lemma RunBits(tbl: nat, e: nat)
      requires e > 0
      ensures Mask(e, Log2(e)) == e - Pow2(Log2(e))
      ensures EobItems(tbl, e) == [AcSym(tbl, Log2(e) * 16)]
        + if Log2(e) > 0 then [Raw(Mask(e, Log2(e)), Log2(e))] else []
    {
      Log2Bounds(e);
      ModOnce(e, Pow2(Log2(e)));
    }

    lemma CodableFlush(ts: Tables, tbl: nat, e: nat, corr: seq<bit>)
      requires ts.Valid() && e > 0
      ensures AllCodable(ts, FlushItems(tbl, e, corr)) <==> Codable(ts, AcSym(tbl, Log2(e) * 16))
    {
      CodableConcat(ts, EobItems(tbl, e), RawBits(corr));
      RawBitsBits(ts, corr);
      CodableOne(ts, AcSym(tbl, Log2(e) * 16));
      if Log2(e) > 0 {
        Log2Bounds(e);
        CodableOne(ts, Raw(e - Pow2(Log2(e)), Log2(e)));
        CodableConcat(ts, [AcSym(tbl, Log2(e) * 16)], [Raw(e - Pow2(Log2(e)), Log2(e))]);
      } else {
        assert EobItems(tbl, e) == [AcSym(tbl, Log2(e) * 16)];
      }
    }

    /** A coefficient of a band at zigzag position k, after the point transform. */
    method Coefficient(block: Block, k: nat) returns (v: int)
      requires Shape() && k < DCTSIZE2
      ensures v == Transform(Zigzag(order, block)[k], sc.pass.al)
    {
      var temp: int := block[order[k]];
      if temp < 0 {
        temp := -temp;
        temp := Quotient(temp, Pow2(sc.pass.al));
        v := -temp;
      } else {
        temp := Quotient(temp, Pow2(sc.pass.al));
        v := temp;
      }
    }

    /** The block of an MCU in the first AC pass. */
    method EncodeAcFirst(block: Block) returns (ok: bool)
      requires Logged() && Shape() && sc.Valid() && sc.pass.mode.AcFirstPass? && eobrun < MAX_EOBRUN && be == 0
      modifies writer, acCounts, `log, `eobrun, `be
      ensures var t := Transformed(Zigzag(order, block), sc.pass.al);
              var (items, e) := FirstBlock(sc.acTbl[0], t, sc.pass.ss, sc.pass.se, old(eobrun));
              && Wrote() && ok == (SmallBand(t, sc.pass.ss, sc.pass.se) && AllEmittable(items))
              && (ok ==> Logged() && log == old(log) + items && eobrun == e && e < MAX_EOBRUN && be == 0)
    {
      hide HuffEncoder.Logged, AllCodable, EobItems, CoefItems, FlushItems, SmallBand, HScan.UsesAc;
      var tbl, ss, se := sc.acTbl[0], sc.pass.ss, sc.pass.se;
      Uses(0);
      ghost var t, e0 := Transformed(Zigzag(order, block), sc.pass.al), eobrun;
      var r;
      ghost var sent, done;
      TablesValid();
      ok, r, sent, done := EncodeBand(block);
      ghost var e1 := (if sent then 0 else e0) + if LastNonzero(t, ss, se) < se then 1 else 0;
      CodableConcat(ts, done, EobItems(tbl, e1));
      if !ok {
        return;
      }
      if r > 0 {
        eobrun := eobrun + 1;
        if eobrun == MAX_EOBRUN {
          FlushIsEob(tbl, eobrun);
          assert bitBuffer[..be] == [];
          ok := EmitEobrun(tbl);
        }
      }
    }

    /** A coefficient of a first pass, with the run pending in front of it. */
    method SendCoef(tbl: nat, r: nat, v: int) returns (ok: bool)
      requires Logged() && Shape() && sc.UsesAc(tbl) && v != 0 && eobrun < MAX_EOBRUN && be == 0
      modifies writer, acCounts, `log, `eobrun, `be
      ensures var items := EobItems(tbl, old(eobrun)) + RunCoef(tbl, r, v);
              && Wrote() && ok == (NBits(Abs(v)) <= MAX_COEF_BITS && AllEmittable(items))
              && (ok ==> Logged() && log == old(log) + items && eobrun == 0 && be == 0)
    {
      hide HuffEncoder.Logged, RunCoef, AllCodable, EobItems, NBits, FlushItems;
      TablesValid();
      CodableConcat(ts, EobItems(tbl, eobrun), RunCoef(tbl, r, v));
      CodableNone(ts);
      FlushIsEob(tbl, eobrun);
      NoRun(tbl);
      if eobrun > 0 {
        assert bitBuffer[..be] == [];
        ok := EmitEobrun(tbl);
        if !ok {
          return;
        }
      }
      ok := EncodeRunCoef(tbl, r, v);
    }

    /** The same behind the items `out`, with the items `rest` of the band still to come. */
    method SendNext(tbl: nat, r: nat, v: int, ghost log0: seq<Item>, ghost out: seq<Item>, ghost rest: seq<Item>)
      returns (ok: bool, ghost next: seq<Item>)
      requires Logged() && Shape() && sc.UsesAc(tbl) && v != 0 && eobrun < MAX_EOBRUN && be == 0
      requires log == log0 + out && AllEmittable(out)
      modifies writer, acCounts, `log, `eobrun, `be
      ensures Wrote() && next + rest == out + (EobItems(tbl, old(eobrun)) + (RunCoef(tbl, r, v) + rest))
      ensures if ok then
                Logged() && log == log0 + next && AllEmittable(next) && eobrun == 0 && be == 0
                && NBits(Abs(v)) <= MAX_COEF_BITS
              else !(NBits(Abs(v)) <= MAX_COEF_BITS && AllEmittable(next + rest))
    {
      hide HuffEncoder.Logged, RunCoef, AllCodable, EobItems, NBits, ValidOrder, HScan.UsesAc;
      TablesValid();
      ghost var coef := EobItems(tbl, eobrun) + RunCoef(tbl, r, v);
      next := out + coef;
      Associate(EobItems(tbl, eobrun), RunCoef(tbl, r, v), rest);
      AllParts(ts, out, coef, rest);
      Associate(log0, out, coef);
      ok := SendCoef(tbl, r, v);
    }

    lemma OrderShape()
      requires Shape()
      ensures |order| == DCTSIZE2 && forall k :: 0 <= k < DCTSIZE2 ==> order[k] < DCTSIZE2
    {
    }

    /** The loop over the band: the trailing zeros, and whether anything was sent. */
    method EncodeBand(block: Block) returns (ok: bool, r: nat, ghost sent: bool, ghost done: seq<Item>)
      requires Logged() && Shape() && sc.Valid() && sc.pass.mode.AcFirstPass? && eobrun < MAX_EOBRUN && be == 0
      modifies writer, acCounts, `log, `eobrun, `be
      ensures var t := Transformed(Zigzag(order, block), sc.pass.al);
              var last := LastNonzero(t, sc.pass.ss, sc.pass.se);
              && Wrote() && sent == (last >= sc.pass.ss)
              && done == (if sent then EobItems(sc.acTbl[0], old(eobrun))
                + CoefItems(sc.acTbl[0], t, sc.pass.ss, 0, sc.pass.se) else [])
              && ok == (SmallBand(t, sc.pass.ss, sc.pass.se) && AllEmittable(done))
              && (ok ==> Logged() && log == old(log) + done && be == 0 && eobrun == (if sent then 0 else old(eobrun)))
              && (ok ==> (r > 0 <==> last < sc.pass.se))
    {
      hide HuffEncoder.Logged, RunCoef, AllCodable, EobItems, NBits, LastNonzero, CoefItems, FlushItems, Transform,
        HScan.UsesAc, ValidOrder, SmallBand, Transformed, Zigzag, Quotient;
      var tbl, ss, se := sc.acTbl[0], sc.pass.ss, sc.pass.se;
      Uses(0);
      OrderShape();
      ghost var t, e0 := Transformed(Zigzag(order, block), sc.pass.al), eobrun;
      ghost var eob := EobItems(tbl, e0);
      ghost var goal := eob + CoefItems(tbl, t, ss, 0, se);
      ghost var out: seq<Item> := [];
      done := if LastNonzero(t, ss, se) >= ss then goal else [];
      sent := LastNonzero(t, ss, se) >= ss;
      ghost var begun := false;
      r := 0;
      TablesValid();
      CodableNone(ts);
      BandStart(t, ss);
      for k := ss to se + 1
        invariant Logged() && Wrote() && log == old(log) + out && be == 0 && AllEmittable(out)
        invariant out + (EobItems(tbl, eobrun) + CoefItems(tbl, t, k, r, se)) == goal
        invariant begun == (LastNonzero(t, ss, k - 1) >= ss) && SmallBand(t, ss, k - 1)
        invariant if begun then eobrun == 0 else eobrun == e0 && out == []
        invariant r > 0 <==> LastNonzero(t, ss, k - 1) < k - 1
      {
        var v := Coefficient(block, k);
        BandStep(t, ss, k, se);
        if v == 0 {
          CoefItemsZero(tbl, t, k, r, se);
          r := r + 1;
        } else {
          CoefItemsStep(tbl, t, k, r, se);
          NoRun(tbl);
          ok, out := SendNext(tbl, r, v, old(log), out, CoefItems(tbl, t, k + 1, 0, se));
          if !ok {
            return;
          }
          r, begun := 0, true;
        }
      }
      ok := true;
      CoefItemsEnd(tbl, t, r, se);
      NoRun(tbl);
      assert begun ==> out + ([] + []) == out == done;
    }

    /** The pre-pass of a refinement: absolute values after the point transform, and the last
        newly nonzero position. */
    method PrePass(block: Block, absvalues: array<nat>) returns (eob: nat)
      requires Shape() && sc.Valid() && sc.pass.mode.AcRefinePass? && absvalues.Length == DCTSIZE2
      modifies absvalues
      ensures var t := Transformed(Zigzag(order, block), sc.pass.al);
              && (forall k :: sc.pass.ss <= k <= sc.pass.se ==> absvalues[k] == Abs(t[k]))
              && eob == if LastNew(t, sc.pass.ss,
                sc.pass.se) >= sc.pass.ss then LastNew(t, sc.pass.ss, sc.pass.se) else 0
    {
      ghost var t := Transformed(Zigzag(order, block), sc.pass.al);
      eob := 0;
      for k := sc.pass.ss to sc.pass.se + 1
        invariant forall j :: sc.pass.ss <= j < k ==> absvalues[j] == Abs(t[j])
        invariant eob == 0 || (sc.pass.ss <= eob < k && Abs(t[eob]) == 1)
        invariant forall j :: sc.pass.ss <= j < k && j > eob ==> Abs(t[j]) != 1
      {
        var v := Coefficient(block, k);
        var temp := if v < 0 then -v else v;
        absvalues[k] := temp;
        if temp == 1 {
          eob := k;
        }
      }
    }

    /** A symbol of a refinement pass: the pending run first, then the symbol, the sign of a
        newly nonzero coefficient, and the n correction bits that belong to it. */
    method SendSymbol(tbl: nat, symbol: nat, sign: seq<bit>, bufstart: nat, n: nat) returns (ok: bool)
      requires Logged() && Shape() && sc.UsesAc(tbl) && |sign| <= 1 && eobrun <= MAX_EOBRUN
      requires symbol < MAX_SYMBOLS && symbol % 16 <= MAX_COEF_BITS
      requires be <= MAX_CORR_BITS && bufstart + n <= MAX_CORR_BITS && (eobrun == 0 ==> be == 0)
      modifies writer, acCounts, `log, `eobrun, `be
      ensures var items := FlushItems(tbl, old(eobrun), old(bitBuffer[..be]))
        + ([AcSym(tbl, symbol)] + (RawBits(sign) + RawBits(old(bitBuffer[bufstart..bufstart + n]))));
              && Wrote() && ok == AllEmittable(items)
              && (ok ==> Logged() && log == old(log) + items && eobrun == 0 && be == 0)
    {
      hide HuffEncoder.Logged, AllCodable, FlushItems, RawBits, Codable;
      TablesValid();
      ghost var flush, br := FlushItems(tbl, eobrun, bitBuffer[..be]), bitBuffer[bufstart..bufstart + n];
      CodableSymbol(ts, flush, AcSym(tbl, symbol), sign, br);
      ok := EmitEobrun(tbl);
      if !ok {
        return;
      }
      ok := EmitAcSymbol(tbl, symbol);
      if !ok {
        return;
      }
      OneRawBit(sign);
      if sign != [] {
        OneBitMask(sign[0]);
        EmitBits(sign[0], 1);
      }
      EmitBufferedBits(bufstart, n);
      Associate4(old(log), flush, [AcSym(tbl, symbol)], RawBits(sign), RawBits(br));
    }

    lemma OneRawBit(sign: seq<bit>)
      requires |sign| <= 1
      ensures RawBits(sign) == if sign == [] then [] else [Raw(sign[0], 1)]
    {
      if sign != [] {
        assert RawBits(sign) == RawBits([]) + [Raw(sign[0], 1)];
      }
    }

    lemma CodableSymbol(ts: Tables, flush: seq<Item>, x: Item, sign: seq<bit>, br: seq<bit>)
      requires ts.Valid()
      ensures AllCodable(ts, flush + ([x] + (RawBits(sign) + RawBits(br)))) <==> AllCodable(ts, flush) && Codable(ts, x)
    {
      hide AllCodable, RawBits, Codable;
      CodableConcat(ts, flush, [x] + (RawBits(sign) + RawBits(br)));
      CodableConcat(ts, [x], RawBits(sign) + RawBits(br));
      CodableConcat(ts, RawBits(sign), RawBits(br));
      RawBitsBits(ts, sign);
      RawBitsBits(ts, br);
      CodableOne(ts, x);
    }

    /** What is still to be sent for a block, from position k on. */
    ghost function ToSend(tbl: nat, t: seq<int>, k: nat, r: nat, br: seq<bit>, eob: nat): seq<Item>
      requires eob < |t| && be <= MAX_CORR_BITS && bitBuffer.Length == MAX_CORR_BITS
      reads `eobrun, `be, bitBuffer
    {
      FlushItems(tbl, eobrun, bitBuffer[..be]) + HeadItems(tbl, t, k, r, br, eob)
    }

    /** ZRLs that cannot be folded into the end of the band, each with its correction bits. */
    method SendZrls(tbl: nat, ghost t: seq<int>, k: nat, ghost last: nat, r0: nat, n0: nat, ghost goal: seq<Item>)
      returns (ok: bool, r: nat, n: nat, ghost out: seq<Item>)
      requires Logged() && Shape() && sc.UsesAc(tbl) && k <= last < |t| && t[k] != 0
      requires be + n0 <= MAX_CORR_BITS && Pending(eobrun, bitBuffer[..be])
      requires ToSend(tbl, t, k, r0, bitBuffer[be..be + n0], last) == goal
      modifies writer, acCounts, `log, `eobrun, `be
      ensures Wrote() && ok == AllEmittable(out) && (!ok ==> !AllEmittable(goal))
      ensures ok ==>
        Logged() && log == old(log) + out && r <= 15 && n <= n0 && be <= old(be) && Pending(eobrun, bitBuffer[..be])
      ensures ok ==> out + ToSend(tbl, t, k, r, bitBuffer[be..be + n], last) == goal
    {
      hide HuffEncoder.Logged, AllCodable, FlushItems, RawBits, Codable, HeadItems, HuffEncoder.ToSend, ValidOrder,
        HScan.UsesAc;
      r, n, out, ok := r0, n0, [], true;
      TablesValid();
      CodableNone(ts);
      assert [] + goal == goal;
      while r > 15
        invariant ok && Logged() && Wrote() && log == old(log) + out && AllEmittable(out)
        invariant n <= n0 && be <= old(be) && be + n <= MAX_CORR_BITS && Pending(eobrun, bitBuffer[..be])
        invariant out + ToSend(tbl, t, k, r, bitBuffer[be..be + n], last) == goal
        decreases r
      {
        ghost var br, flush := bitBuffer[be..be + n], FlushItems(tbl, eobrun, bitBuffer[..be]);
        ghost var items := flush + ([AcSym(tbl, ZRL)] + (RawBits([]) + RawBits(br)));
        ghost var rest := HeadItems(tbl, t, k, r - 16, [], last);
        ZrlParts(tbl, t, k, r, br, last);
        AllParts(ts, out, items, rest);
        ok := SendSymbol(tbl, ZRL, [], be, n);
        Associate(old(log), out, items);
        out := out + items;
        if !ok {
          return;
        }
        r, n := r - 16, 0;
        NothingPending(tbl, t, k, r, last);
      }
    }

    lemma NothingPending(tbl: nat, t: seq<int>, k: nat, r: nat, last: nat)
      requires Shape() && last < |t| && eobrun == 0 && be == 0
      ensures ToSend(tbl, t, k, r, [], last) == HeadItems(tbl, t, k, r, [], last)
      ensures bitBuffer[be..be] == [] && Pending(eobrun, bitBuffer[..be])
    {
    }

    /** A newly nonzero coefficient with its correction bits. */
    method SendNew(tbl: nat, ghost t: seq<int>, k: nat, ghost last: nat, r: nat, n: nat, sign: bit,
      ghost goal: seq<Item>) returns (ok: bool, ghost out: seq<Item>)
      requires Logged() && Shape() && sc.UsesAc(tbl) && k <= last < |t| && Abs(t[k]) == 1 && r <= 15 && sign
        == 1 - SignBit(t[k])
      requires be + n <= MAX_CORR_BITS && Pending(eobrun, bitBuffer[..be])
      requires ToSend(tbl, t, k, r, bitBuffer[be..be + n], last) == goal
      modifies writer, acCounts, `log, `eobrun, `be
      ensures Wrote() && ok == AllEmittable(out) && (!ok ==> !AllEmittable(goal))
      ensures ok ==> Logged() && log == old(log) + out && eobrun == 0 && be == 0
      ensures out + HeadItems(tbl, t, k + 1, 0, [], last) == goal
    {
      hide HuffEncoder.Logged, AllCodable, FlushItems, RawBits, Codable, HeadItems, HuffEncoder.ToSend;
      ghost var br, flush := bitBuffer[be..be + n], FlushItems(tbl, eobrun, bitBuffer[..be]);
      out := flush + ([AcSym(tbl, r * 16 + 1)] + (RawBits([sign]) + RawBits(br)));
      ghost var rest := HeadItems(tbl, t, k + 1, 0, [], last);
      TablesValid();
      NewSplit(tbl, t, k, r, br, last, sign);
      SymbolSplit(flush, AcSym(tbl, r * 16 + 1), [sign], br, rest);
      CodableConcat(ts, out, rest);
      ok := SendSymbol(tbl, r * 16 + 1, [sign], be, n);
    }

    lemma ZrlSplit(tbl: nat, t: seq<int>, k: nat, r: nat, br: seq<bit>, last: nat)
      requires Shape() && k <= last < |t| && t[k] != 0 && r > 15 && be <= MAX_CORR_BITS
      ensures ToSend(tbl, t, k, r, br, last)
        == FlushItems(tbl, eobrun, bitBuffer[..be]) + ([AcSym(tbl, ZRL)]
          + (RawBits(br) + HeadItems(tbl, t, k, r - 16, [], last)))
    {
      hide FlushItems, RawBits;
    }

    lemma ZrlParts(tbl: nat, t: seq<int>, k: nat, r: nat, br: seq<bit>, last: nat)
      requires Shape() && k <= last < |t| && t[k] != 0 && r > 15 && be <= MAX_CORR_BITS
      ensures ToSend(tbl, t, k, r, br, last)
        == FlushItems(tbl, eobrun, bitBuffer[..be]) + ([AcSym(tbl, ZRL)] + (RawBits([]) + RawBits(br)))
          + HeadItems(tbl, t, k, r - 16, [], last)
    {
      hide FlushItems, RawBits, HeadItems, HuffEncoder.ToSend;
      ghost var flush, rest := FlushItems(tbl, eobrun, bitBuffer[..be]), HeadItems(tbl, t, k, r - 16, [], last);
      ZrlSplit(tbl, t, k, r, br, last);
      SymbolSplit(flush, AcSym(tbl, ZRL), [], br, rest);
      assert [] + (RawBits(br) + rest) == RawBits(br) + rest;
    }

    lemma NewSplit(tbl: nat, t: seq<int>, k: nat, r: nat, br: seq<bit>, last: nat, sign: bit)
      requires Shape() && k <= last < |t| && Abs(t[k]) == 1 && r <= 15 && be <= MAX_CORR_BITS && sign
        == 1 - SignBit(t[k])
      ensures ToSend(tbl, t, k, r, br, last)
        == FlushItems(tbl, eobrun, bitBuffer[..be]) + ([AcSym(tbl, r * 16 + 1)]
          + ([Raw(sign, 1)] + (RawBits(br) + HeadItems(tbl, t, k + 1, 0, [], last))))
    {
      hide FlushItems, RawBits;
    }

    lemma SymbolSplit(flush: seq<Item>, x: Item, sign: seq<bit>, br: seq<bit>, rest: seq<Item>)
      requires |sign| <= 1
      ensures var s: seq<Item> := if sign == [] then [] else [Raw(sign[0], 1)];
              flush + ([x] + (RawBits(sign) + RawBits(br))) + rest == flush + ([x] + (s + (RawBits(br) + rest)))
    {
      hide RawBits;
      OneRawBit(sign);
      Associate4(flush, [x], RawBits(sign), RawBits(br), rest);
    }

    lemma NoneSeen(t: seq<int>, k: nat)
      requires k <= |t|
      ensures Zeros(t, k, k) == 0 && CorrBits(t, k, k) == []
    {
    }

    /** Past the last newly nonzero position the zeros and correction bits are all there is. */
    lemma Behind(t: seq<int>, k0: nat, k: nat)
      requires k0 <= k < |t|
      ensures CorrBits(t, k0, k + 1) == CorrBits(t, k0, k) + if Abs(t[k]) > 1 then [Abs(t[k]) % 2] else []
      ensures Zeros(t, k0, k + 1) == Zeros(t, k0, k) + if t[k] == 0 then 1 else 0
    {
      CorrSplit(t, k0, k, k + 1);
      CorrOne(t, k);
    }

    lemma SkipZero(tbl: nat, t: seq<int>, k: nat, r: nat, br: seq<bit>, last: nat)
      requires Shape() && k < |t| && last < |t| && t[k] == 0 && be <= MAX_CORR_BITS
      ensures ToSend(tbl, t, k, r, br, last) == ToSend(tbl, t, k + 1, r + 1, br, last)
    {
      hide FlushItems;
    }

    lemma AddCorrection(tbl: nat, t: seq<int>, k: nat, r: nat, br: seq<bit>, last: nat)
      requires Shape() && k < |t| && last < |t| && Abs(t[k]) > 1 && (k <= last ==> r <= 15) && be <= MAX_CORR_BITS
      ensures ToSend(tbl, t, k, r, br, last) == ToSend(tbl, t, k + 1, r, br + [Abs(t[k]) % 2], last)
    {
      hide FlushItems;
    }

    lemma AllSent(tbl: nat, t: seq<int>, k: nat, r: nat, br: seq<bit>, last: nat)
      requires Shape() && last < k <= |t| && be <= MAX_CORR_BITS && eobrun == 0
      ensures ToSend(tbl, t, k, r, br, last) == []
    {
    }

    lemma NewlySigned(block: Block, k: nat)
      requires Shape() && k < DCTSIZE2 && Abs(Transformed(Zigzag(order, block), sc.pass.al)[k]) == 1
      ensures (if block[order[k]] < 0 then 0 else 1) == 1 - SignBit(Transformed(Zigzag(order, block), sc.pass.al)[k])
    {
      hide Pow2;
    }

    /** Inside a refinement, before position k: what is still to be sent, and, behind the last
        newly nonzero position, what will be left over. */
    ghost predicate RefineAt(tbl: nat, t: seq<int>, ss: nat, k: nat, last: nat, r: nat, n: nat, e0: nat,
      corr0: seq<bit>, rest: seq<Item>)
      requires Shape() && last < |t| && k <= |t|
      reads `eobrun, `be, bitBuffer
    {
      && be + n <= MAX_CORR_BITS && Pending(eobrun, bitBuffer[..be])
      && (if last >= ss then ToSend(tbl, t, k, r, bitBuffer[be..be + n], last) == rest
          else rest == [] && eobrun == e0 && bitBuffer[..be] == corr0)
      && (k > last ==> r == Zeros(t, last + 1, k) && bitBuffer[be..be + n] == CorrBits(t, last + 1, k))
      && (k > last >= ss ==> eobrun == 0)
    }

    lemma SkippedZero(tbl: nat, t: seq<int>, ss: nat, k: nat, last: nat, r: nat, n: nat, e0: nat, corr0: seq<bit>,
      rest: seq<Item>)
      requires Shape() && last < |t| && k < |t| && RefineAt(tbl, t, ss, k, last, r, n, e0, corr0, rest) && t[k] == 0
      requires k <= last ==> Abs(t[last]) == 1
      ensures RefineAt(tbl, t, ss, k + 1, last, r + 1, n, e0, corr0, rest)
    {
      hide CorrBits, Zeros, HuffEncoder.ToSend, Pending;
      SkipZero(tbl, t, k, r, bitBuffer[be..be + n], last);
      if k > last {
        Behind(t, last + 1, k);
      }
    }

    /** A correction bit behind the n buffered for this block. */
    method AppendBit(tbl: nat, ghost t: seq<int>, ghost ss: nat, k: nat, ghost last: nat, r: nat, n: nat, b: bit,
      ghost e0: nat, ghost corr0: seq<bit>, ghost rest: seq<Item>)
      requires Shape() && be + n < MAX_CORR_BITS && last < |t| && k < |t|
        && RefineAt(tbl, t, ss, k, last, r, n, e0, corr0, rest)
      requires Abs(t[k]) > 1 && b == Abs(t[k]) % 2 && (k <= last ==> r <= 15 && Abs(t[last]) == 1)
      modifies bitBuffer
      ensures RefineAt(tbl, t, ss, k + 1, last, r, n + 1, e0, corr0, rest)
    {
      hide FlushItems, HeadItems, CorrBits, Zeros;
      ghost var corr, br := bitBuffer[..be], bitBuffer[be..be + n];
      AddCorrection(tbl, t, k, r, br, last);
      bitBuffer[be + n] := b;
      assert bitBuffer[..be] == corr && bitBuffer[be..be + (n + 1)] == br + [b];
      if k > last {
        Behind(t, last + 1, k);
      }
    }

    /** After a newly nonzero coefficient nothing is pending. */
    lemma AfterNew(tbl: nat, t: seq<int>, ss: nat, k: nat, last: nat, e0: nat, corr0: seq<bit>)
      requires Shape() && ss <= last < |t| && k <= last && eobrun == 0 && be == 0
      ensures RefineAt(tbl, t, ss, k + 1, last, 0, 0, e0, corr0, HeadItems(tbl, t, k + 1, 0, [], last))
    {
      hide HeadItems, HuffEncoder.ToSend;
      NothingPending(tbl, t, k + 1, 0, last);
      NoneSeen(t, k + 1);
    }

    /** One nonzero position at or before the last newly nonzero one: the ZRLs due. */
    method RefineZrls(tbl: nat, ghost t: seq<int>, ghost ss: nat, k: nat, ghost last: nat, r0: nat, n0: nat,
      ghost e0: nat, ghost corr0: seq<bit>, ghost rest0: seq<Item>)
      returns (ok: bool, r: nat, n: nat, ghost out: seq<Item>, ghost rest: seq<Item>)
      requires Logged() && Shape() && sc.UsesAc(tbl) && ss <= k <= last < |t| && t[k] != 0
      requires RefineAt(tbl, t, ss, k, last, r0, n0, e0, corr0, rest0)
      modifies writer, acCounts, `log, `eobrun, `be
      ensures Wrote() && ok == AllEmittable(out) && (!ok ==> !AllEmittable(rest0))
      ensures ok ==> Logged() && log == old(log) + out && r <= 15 && n <= n0 && be <= old(be) && out + rest == rest0
      ensures ok ==> RefineAt(tbl, t, ss, k, last, r, n, e0, corr0, rest)
    {
      hide HuffEncoder.Logged, AllCodable, FlushItems, HeadItems, HuffEncoder.ToSend, CorrBits, Zeros;
      ok, r, n, out := SendZrls(tbl, t, k, last, r0, n0, rest0);
      rest := if ok then ToSend(tbl, t, k, r, bitBuffer[be..be + n], last) else [];
    }

    /** A newly nonzero position, its ZRLs out of the way. */
    method RefineNew(tbl: nat, ghost t: seq<int>, ghost ss: nat, k: nat, ghost last: nat, r: nat, n: nat, sign: bit,
      ghost e0: nat, ghost corr0: seq<bit>, ghost rest0: seq<Item>)
      returns (ok: bool, ghost out: seq<Item>, ghost rest: seq<Item>)
      requires Logged() && Shape() && sc.UsesAc(tbl) && ss <= k <= last < |t| && Abs(t[k]) == 1 && r <= 15 && sign
        == 1 - SignBit(t[k])
      requires RefineAt(tbl, t, ss, k, last, r, n, e0, corr0, rest0)
      modifies writer, acCounts, `log, `eobrun, `be
      ensures Wrote() && ok == AllEmittable(out) && (!ok ==> !AllEmittable(rest0)) && out + rest == rest0
      ensures ok ==>
        Logged() && log == old(log) + out && be <= old(be) && RefineAt(tbl, t, ss, k + 1, last, 0, 0, e0, corr0, rest)
    {
      hide HuffEncoder.Logged, AllCodable, FlushItems, HeadItems, HuffEncoder.ToSend, CorrBits, Zeros;
      rest := HeadItems(tbl, t, k + 1, 0, [], last);
      ok, out := SendNew(tbl, t, k, last, r, n, sign, rest0);
      if ok {
        AfterNew(tbl, t, ss, k, last, e0, corr0);
      }
    }

    /** One nonzero position of the band. */
    method RefineNonzero(block: Block, temp: nat, eob: nat, k: nat, ghost last: nat, r0: nat, n0: nat, ghost e0: nat,
      ghost corr0: seq<bit>, ghost rest0: seq<Item>)
      returns (ok: bool, r: nat, n: nat, ghost out: seq<Item>, ghost rest: seq<Item>)
      requires Logged() && Shape() && sc.Valid() && sc.pass.mode.AcRefinePass? && sc.pass.ss <= k <= sc.pass.se
      requires be <= MAX_CORR_BITS - DCTSIZE2 + 1 && n0 <= k - sc.pass.ss
      requires var t := Transformed(Zigzag(order, block), sc.pass.al);
               && temp == Abs(t[k]) && temp != 0
               && last == LastNew(t, sc.pass.ss, sc.pass.se) && eob == (if last >= sc.pass.ss then last else 0)
               && RefineAt(sc.acTbl[0], t, sc.pass.ss, k, last, r0, n0, e0, corr0, rest0)
      modifies writer, acCounts, bitBuffer, `log, `eobrun, `be
      ensures Wrote() && ok == AllEmittable(out) && (!ok ==> !AllEmittable(rest0))
      ensures ok ==>
        Logged() && log == old(log) + out && n <= k + 1 - sc.pass.ss && be <= old(be) && out + rest == rest0
      ensures ok ==>
        RefineAt(sc.acTbl[0], Transformed(Zigzag(order, block), sc.pass.al), sc.pass.ss, k + 1, last, r, n, e0, corr0,
        rest)
    {
      hide HuffEncoder.Logged, AllCodable, Codable, HeadItems, CorrBits, Zeros, LastNew, Transform, HuffEncoder.ToSend,
        HuffEncoder.RefineAt, HScan.UsesAc;
      var tbl, ss, se := sc.acTbl[0], sc.pass.ss, sc.pass.se;
      ghost var t := Transformed(Zigzag(order, block), sc.pass.al);
      Uses(0);
      TablesValid();
      CodableNone(ts);
      ok, r, n, out, rest := true, r0, n0, [], rest0;
      assert [] + rest0 == rest0;
      if k <= eob {
        ok, r, n, out, rest := RefineZrls(tbl, t, ss, k, last, r, n, e0, corr0, rest);
        if !ok {
          return;
        }
        CodableConcat(ts, out, rest);
      }
      if temp > 1 {
        AppendBit(tbl, t, ss, k, last, r, n, temp % 2, e0, corr0, rest);
        n := n + 1;
      } else {
        ghost var x, rest', written := [], rest, writer.out;
        var sign: bit := if block[order[k]] < 0 then 0 else 1;
        NewlySigned(block, k);
        NotBeyond(t, ss, se, k);
        ok, x, rest' := RefineNew(tbl, t, ss, k, last, r, n, sign, e0, corr0, rest);
        Prefixes(old(writer.out), written, writer.out);
        CodableConcat(ts, out, x);
        Moved(old(log), out, x, rest');
        out, rest := out + x, rest';
        r, n := 0, 0;
      }
    }

    /** The main loop of a refinement; what it leaves are the zeros and correction bits behind
        the last newly nonzero coefficient. */
    method EncodeRefineBand(block: Block, absvalues: array<nat>, eob: nat, ghost t: seq<int>, ghost last: nat,
      ghost e0: nat, ghost corr0: seq<bit>, ghost goal: seq<Item>)
      returns (ok: bool, r: nat, n: nat)
      requires Logged() && Shape() && sc.Valid() && sc.pass.mode.AcRefinePass? && absvalues.Length == DCTSIZE2
        && be <= MAX_CORR_BITS - DCTSIZE2 + 1
      requires t == Transformed(Zigzag(order, block), sc.pass.al) && forall k :: sc.pass.ss <= k <= sc.pass.se ==>
        absvalues[k] == Abs(t[k])
      requires last == LastNew(t, sc.pass.ss, sc.pass.se) && eob == if last >= sc.pass.ss then last else 0
      requires RefineAt(sc.acTbl[0], t, sc.pass.ss, sc.pass.ss, last, 0, 0, e0, corr0, goal)
      modifies writer, acCounts, bitBuffer, `log, `eobrun, `be
      ensures Wrote() && ok == AllEmittable(goal) && (ok ==> Logged() && log == old(log) + goal)
      ensures ok ==> RefineAt(sc.acTbl[0], t, sc.pass.ss, sc.pass.se + 1, last, r, n, e0, corr0, [])
    {
      hide HuffEncoder.Logged, AllCodable, Codable, HeadItems, CorrBits, Zeros, LastNew, Transform, HuffEncoder.ToSend,
        HuffEncoder.RefineAt, HScan.UsesAc;
      var tbl, ss, se := sc.acTbl[0], sc.pass.ss, sc.pass.se;
      Uses(0);
      ghost var out: seq<Item>, rest := [], goal;
      r, n, ok := 0, 0, true;
      TablesValid();
      CodableNone(ts);
      assert [] + goal == goal;
      for k := ss to se + 1
        invariant ok && Logged() && Wrote() && log == old(log) + out && AllEmittable(out) && out + rest == goal
        invariant be <= old(be) && n <= k - ss && RefineAt(tbl, t, ss, k, last, r, n, e0, corr0, rest)
      {
        var temp := absvalues[k];
        CodableConcat(ts, out, rest);
        if temp == 0 {
          SkippedZero(tbl, t, ss, k, last, r, n, e0, corr0, rest);
          r := r + 1;
        } else {
          ghost var x, rest', written := [], rest, writer.out;
          ok, r, n, x, rest' := RefineNonzero(block, temp, eob, k, last, r, n, e0, corr0, rest);
          Prefixes(old(writer.out), written, writer.out);
          if !ok {
            return;
          }
          Moved(old(log), out, x, rest');
          CodableConcat(ts, out, x);
          out, rest := out + x, rest';
        }
      }
      RefineEnd(tbl, t, ss, se, last, r, n, e0, corr0, rest);
      assert out + [] == out;
    }

    lemma Prefixes(a: seq<byte>, b: seq<byte>, c: seq<byte>)
      requires a <= b <= c
      ensures a <= c
    {
    }

    lemma NotBeyond(t: seq<int>, ss: nat, se: nat, k: nat)
      requires 0 < ss <= k <= se < |t| && Abs(t[k]) == 1
      ensures k <= LastNew(t, ss, se)
    {
    }

    lemma RefineStart(tbl: nat, t: seq<int>, ss: nat, last: nat, rest: seq<Item>)
      requires Shape() && 0 < ss <= |t| && ss - 1 <= last < |t| && be <= MAX_CORR_BITS
        && Pending(eobrun, bitBuffer[..be])
      requires rest == if last >= ss then ToSend(tbl, t, ss, 0, [], last) else []
      ensures RefineAt(tbl, t, ss, ss, last, 0, 0, eobrun, bitBuffer[..be], rest)
    {
      hide HuffEncoder.ToSend;
      assert bitBuffer[be..be + 0] == [];
    }

    lemma RefineEnd(tbl: nat, t: seq<int>, ss: nat, se: nat, last: nat, r: nat, n: nat, e0: nat, corr0: seq<bit>,
      rest: seq<Item>)
      requires Shape() && last <= se < |t| && RefineAt(tbl, t, ss, se + 1, last, r, n, e0, corr0, rest)
      ensures rest == [] && be + n <= MAX_CORR_BITS && Pending(eobrun, bitBuffer[..be])
      ensures r == Zeros(t, last + 1, se + 1) && bitBuffer[be..be + n] == CorrBits(t, last + 1, se + 1)
      ensures eobrun == if last >= ss then 0 else e0
      ensures bitBuffer[..be] == if last >= ss then [] else corr0
    {
      hide Zeros, CorrBits;
      if last >= ss {
        AllSent(tbl, t, se + 1, r, bitBuffer[be..be + n], last);
      }
    }

    lemma Moved(l: seq<Item>, out: seq<Item>, x: seq<Item>, rest: seq<Item>)
      ensures l + out + x == l + (out + x) && out + (x + rest) == (out + x) + rest
    {
    }

    /** The block of an MCU in an AC refinement pass. */
    method EncodeAcRefine(block: Block) returns (ok: bool)
      requires Logged() && Shape() && sc.Valid() && sc.pass.mode.AcRefinePass? && be <= MAX_CORR_BITS
        && Pending(eobrun, bitBuffer[..be])
      modifies writer, acCounts, bitBuffer, `log, `eobrun, `be
      ensures var t := Transformed(Zigzag(order, block), sc.pass.al);
              var (items, e, corr) := RefBlock(sc.acTbl[0], t, sc.pass.ss, sc.pass.se, old(eobrun),
                old(bitBuffer[..be]));
              && Wrote() && ok == AllEmittable(items)
              && (ok ==>
                  Logged() && log == old(log) + items && be <= MAX_CORR_BITS && eobrun == e && bitBuffer[..be] == corr
                  && Pending(e, corr))
    {
      hide HuffEncoder.Logged, AllCodable, LastNew, RefBlock, Pending, Transform;
      ghost var t := Transformed(Zigzag(order, block), sc.pass.al);
      RefBlockPending(sc.acTbl[0], t, sc.pass.ss, sc.pass.se, eobrun, bitBuffer[..be]);
      var absvalues := new nat[DCTSIZE2];
      var eob := PrePass(block, absvalues);
      ok := EncodeRefined(block, absvalues, eob, t);
    }

    /** The same after the pre-pass. */
    method EncodeRefined(block: Block, absvalues: array<nat>, eob: nat, ghost t: seq<int>) returns (ok: bool)
      requires Logged() && Shape() && sc.Valid() && sc.pass.mode.AcRefinePass? && be <= MAX_CORR_BITS
        && Pending(eobrun, bitBuffer[..be])
      requires t == Transformed(Zigzag(order, block), sc.pass.al) && absvalues.Length == DCTSIZE2
      requires forall k :: sc.pass.ss <= k <= sc.pass.se ==> absvalues[k] == Abs(t[k])
      requires eob == if LastNew(t, sc.pass.ss, sc.pass.se) >= sc.pass.ss then LastNew(t, sc.pass.ss, sc.pass.se) else 0
      modifies writer, acCounts, bitBuffer, `log, `eobrun, `be
      ensures var (items, e, corr) := RefBlock(sc.acTbl[0], t, sc.pass.ss, sc.pass.se, old(eobrun),
        old(bitBuffer[..be]));
              && Wrote() && ok == AllEmittable(items)
              && (ok ==>
                  Logged() && log == old(log) + items && be <= MAX_CORR_BITS && eobrun == e && bitBuffer[..be] == corr)
    {
      hide HuffEncoder.Logged, AllCodable, FlushItems, HeadItems, CorrBits, Zeros, LastNew, RefBlock,
        HuffEncoder.FlushRest, MustFlush, HScan.UsesAc, Pending, Transform, HuffEncoder.RefineAt, ValidOrder,
        HuffEncoder.ToSend;
      var tbl, ss, se := sc.acTbl[0], sc.pass.ss, sc.pass.se;
      Uses(0);
      ghost var last, e0, c0 := LastNew(t, ss, se), eobrun, bitBuffer[..be];
      ghost var items := if last >= ss then ToSend(tbl, t, ss, 0, [], last) else [];
      ghost var e1, c1 := (if last >= ss then 0 else e0) + 1, (if last >= ss then [] else c0)
        + CorrBits(t, last + 1, se + 1);
      ghost var rest := if last == se then [] else FlushRest(tbl, e1, c1);
      TablesValid();
      CodableConcat(ts, items, rest);
      RefBlockParts(tbl, t, ss, se, e0, c0);
      AllSentIs(tbl, t, ss, last);
      CorrExact(t, last + 1, se + 1);
      RefineStart(tbl, t, ss, last, items);
      BufferRoom();
      var r, n;
      ok, r, n := EncodeRefineBand(block, absvalues, eob, t, last, e0, c0, items);
      if ok {
        RefineEnd(tbl, t, ss, se, last, r, n, e0, c0, []);
        ok := EndBand(tbl, r, n);
        Associate(old(log), items, rest);
      }
    }

    lemma AllSentIs(tbl: nat, t: seq<int>, ss: nat, last: nat)
      requires Shape() && last < |t| && be <= MAX_CORR_BITS
      ensures ToSend(tbl, t, ss, 0, [], last) == FlushItems(tbl, eobrun, bitBuffer[..be])
        + HeadItems(tbl, t, ss, 0, [], last)
    {
    }

    lemma BufferRoom()
      requires Shape() && be <= MAX_CORR_BITS && Pending(eobrun, bitBuffer[..be])
      ensures be <= MAX_CORR_BITS - DCTSIZE2 + 1
    {
    }

    function FlushRest(tbl: nat, e: nat, corr: seq<bit>): seq<Item>
    {
      if MustFlush(e, corr) then FlushItems(tbl, e, corr) else []
    }

    lemma RefBlockParts(tbl: nat, t: seq<int>, ss: nat, se: nat, e: nat, corr: seq<bit>)
      requires 0 < ss <= se < |t|
      ensures var last := LastNew(t, ss, se);
              var items := if last >= ss then FlushItems(tbl, e, corr) + HeadItems(tbl, t, ss, 0, [], last) else [];
              var e1, c1 := (if last >= ss then 0 else e) + 1, (if last >= ss then [] else corr)
                + CorrBits(t, last + 1, se + 1);
              RefBlock(tbl, t, ss, se, e, corr)
              == if last == se then (items + [], 0, [])
                 else (items + FlushRest(tbl, e1, c1), if MustFlush(e1, c1) then 0
                   else e1, if MustFlush(e1, c1) then [] else c1)
    {
      hide FlushItems, HeadItems, CorrBits, LastNew, MustFlush;
      ghost var last := LastNew(t, ss, se);
      ghost var items := if last >= ss then FlushItems(tbl, e, corr) + HeadItems(tbl, t, ss, 0, [], last) else [];
      assert items + [] == items;
    }

    /** Trailing zeros and correction bits join the pending run, which is forced out when a
        counter or the buffer could overflow. */
    method EndBand(tbl: nat, r: nat, n: nat) returns (ok: bool)
      requires Logged() && Shape() && sc.UsesAc(tbl) && be + n <= MAX_CORR_BITS && Pending(eobrun, bitBuffer[..be])
      modifies writer, acCounts, `log, `eobrun, `be
      ensures var e1, c1 := old(eobrun) + 1, old(bitBuffer[..be]) + old(bitBuffer[be..be + n]);
              var items := if r == 0 && n == 0 then [] else FlushRest(tbl, e1, c1);
              && Wrote() && ok == AllEmittable(items)
              && (ok ==> Logged() && log == old(log) + items && be <= MAX_CORR_BITS)
              && (ok ==> (eobrun, bitBuffer[..be]) == if r == 0 && n == 0 then (old(eobrun), old(bitBuffer[..be]))
                                                      else if MustFlush(e1, c1) then (0, []) else (e1, c1))
    {
      hide HuffEncoder.Logged, AllCodable, FlushItems;
      TablesValid();
      CodableNone(ts);
      ok := true;
      if r > 0 || n > 0 {
        assert bitBuffer[..be + n] == bitBuffer[..be] + bitBuffer[be..be + n];
        eobrun := eobrun + 1;
        be := be + n;
        if eobrun == MAX_EOBRUN || be > MAX_CORR_BITS - DCTSIZE2 + 1 {
          ok := EmitEobrun(tbl);
        }
      }
    }

    method EncodeDcFirst(ci: nat, block: Block) returns (ok: bool)
      requires Running() && ci < |sc.dcTbl| && sc.pass.mode.DcFirst?
      modifies writer, dcCounts, acCounts, bitBuffer, `log, `lastDcVal, `eobrun, `be
      ensures var z := Zigzag(order, block);
              var (items, st) := BlockItems(sc, old(State()), ci, z);
              && Wrote() && ok == (BlockFits(sc, old(State()), ci, z) && AllEmittable(items))
              && (ok ==> Running() && log == old(log) + items && State() == st)
    {
      hide HuffEncoder.Logged, DcItems, AllCodable, Shift, NBits;
      UsesTable(ci);
      DcIsFirst(block);
      var temp2 := Shift(block[0], sc.pass.al);
      var temp := temp2 - lastDcVal[ci];
      lastDcVal := lastDcVal[ci := temp2];
      ok := EncodeDcDiff(sc.dcTbl[ci], temp);
    }

    lemma DcIsFirst(block: Block)
      requires Shape()
      ensures Zigzag(order, block)[0] == block[0]
    {
    }

    method EncodeDcRefine(ci: nat, block: Block) returns (ok: bool)
      requires Running() && ci < |sc.dcTbl| && sc.pass.mode.DcRefine?
      modifies writer, dcCounts, acCounts, bitBuffer, `log, `lastDcVal, `eobrun, `be
      ensures var z := Zigzag(order, block);
              var (items, st) := BlockItems(sc, old(State()), ci, z);
              && Wrote() && ok == (BlockFits(sc, old(State()), ci, z) && AllEmittable(items))
              && (ok ==> Running() && log == old(log) + items && State() == st)
    {
      hide HuffEncoder.Logged, AllCodable, Shift;
      TablesValid();
      DcIsFirst(block);
      LowBit(ts, Shift(block[0], sc.pass.al));
      EmitBits(Shift(block[0], sc.pass.al), 1);
      ok := true;
    }

    lemma LowBit(ts: Tables, v: int)
      requires ts.Valid()
      ensures Mask(v, 1) == v % 2 && AllCodable(ts, [Raw(v % 2, 1)])
    {
      assert Pow2(1) == 2;
    }

    method EncodeBlockAcFirst(ci: nat, block: Block) returns (ok: bool)
      requires Running() && ci < |sc.dcTbl| && sc.pass.mode.AcFirstPass?
      modifies writer, dcCounts, acCounts, bitBuffer, `log, `lastDcVal, `eobrun, `be
      ensures var z := Zigzag(order, block);
              var (items, st) := BlockItems(sc, old(State()), ci, z);
              && Wrote() && ok == (BlockFits(sc, old(State()), ci, z) && AllEmittable(items))
              && (ok ==> Running() && log == old(log) + items && State() == st)
    {
      hide HuffEncoder.Logged, AllCodable, FirstBlock, Transform, SmallBand, SmallAc;
      SmallIsSmall(Zigzag(order, block));
      assert bitBuffer[..be] == [];
      ok := EncodeAcFirst(block);
      assert ok ==> bitBuffer[..be] == [];
    }

    method EncodeBlockAcRefine(ci: nat, block: Block) returns (ok: bool)
      requires Running() && ci < |sc.dcTbl| && sc.pass.mode.AcRefinePass?
      modifies writer, dcCounts, acCounts, bitBuffer, `log, `lastDcVal, `eobrun, `be
      ensures var z := Zigzag(order, block);
              var (items, st) := BlockItems(sc, old(State()), ci, z);
              && Wrote() && ok == (BlockFits(sc, old(State()), ci, z) && AllEmittable(items))
              && (ok ==> Running() && log == old(log) + items && State() == st)
    {
      hide HuffEncoder.Logged, AllCodable, RefBlock, Transform;
      ok := EncodeAcRefine(block);
    }

    /** One block of an MCU. */
    method EncodeBlock(ci: nat, block: Block) returns (ok: bool)
      requires Running() && ci < |sc.dcTbl|
      modifies writer, dcCounts, acCounts, bitBuffer, `log, `lastDcVal, `eobrun, `be
      ensures var z := Zigzag(order, block);
              var (items, st) := BlockItems(sc, old(State()), ci, z);
              && Wrote() && ok == (BlockFits(sc, old(State()), ci, z) && AllEmittable(items))
              && (ok ==> Running() && log == old(log) + items && State() == st)
    {
      hide HuffEncoder.Logged, BlockItems, BlockFits, AllCodable;
      match sc.pass.mode
      case Sequential => ok := EncodeOneBlock(ci, block);
      case DcFirst => ok := EncodeDcFirst(ci, block);
      case DcRefine => ok := EncodeDcRefine(ci, block);
      case AcFirstPass => ok := EncodeBlockAcFirst(ci, block);
      case AcRefinePass => ok := EncodeBlockAcRefine(ci, block);
    }

    lemma UsesTable(ci: nat)
      requires sc.Valid() && ci < |sc.dcTbl| && sc.pass.CodesDc()
      ensures sc.UsesDc(sc.dcTbl[ci])
    {
    }

    lemma SmallIsSmall(z: Block)
      requires sc.Valid() && sc.pass.mode.AcFirstPass?
      ensures var t := Transformed(z, sc.pass.al);
              SmallBand(t, sc.pass.ss, sc.pass.se) <==> SmallAc(t, sc.pass.ss, sc.pass.se)
    {
      hide Pow2, NBits;
    }

    /** encode_one_block. */
    method EncodeOneBlock(ci: nat, block: Block) returns (ok: bool)
      requires Running() && ci < |sc.dcTbl| && sc.pass.mode.Sequential?
      modifies writer, dcCounts, acCounts, `log, `lastDcVal
      ensures var z := Zigzag(order, block);
              var (items, st) := BlockItems(sc, old(State()), ci, z);
              && Wrote() && ok == (BlockFits(sc, old(State()), ci, z) && AllEmittable(items))
              && (ok ==> Running() && log == old(log) + items && State() == st)
    {
      hide HuffEncoder.Logged, DcItems, AcItems, AllCodable, NBits, SmallAc;
      DcIsFirst(block);
      var diff: int := block[0] - lastDcVal[ci];
      ghost var dc, ac := DcItems(sc.dcTbl[ci], diff), AcItems(sc.acTbl[ci], Zigzag(order, block), 1, 0, sc.pass.limSe);
      UsesTable(ci);
      TablesValid();
      CodableConcat(ts, dc, ac);
      ok := EncodeDcDiff(sc.dcTbl[ci], diff);
      if ok {
        ok := EncodeAc(ci, block);
        Associate(old(log), dc, ac);
      }
      lastDcVal := lastDcVal[ci := block[0]];
    }

    // ----- gathering statistics

    /** Counts a DC symbol. */
    method CountDc(tbl: nat, symbol: nat)
      requires Logged() && gather && sc.UsesDc(tbl) && symbol <= 15
      modifies dcCounts, `log
      ensures Logged() && log == old(log) + [DcSym(tbl, symbol)]
    {
      hide Occurrences, AllSound;
      ghost var i := DcSym(tbl, symbol);
      SymbolsSnoc(earlier + log, i);
      SoundSnoc(sc, earlier + log, i);
      assert earlier + (log + [i]) == (earlier + log) + [i];
      dcCounts[tbl, symbol] := dcCounts[tbl, symbol] + 1;
      log := log + [i];
    }

    /** Counts an AC symbol. */
    method CountAc(tbl: nat, symbol: nat)
      requires Logged() && gather && sc.UsesAc(tbl) && symbol < MAX_SYMBOLS && symbol % 16 <= MAX_COEF_BITS
      modifies acCounts, `log
      ensures Logged() && log == old(log) + [AcSym(tbl, symbol)]
    {
      hide Occurrences, AllSound;
      ghost var i := AcSym(tbl, symbol);
      SymbolsSnoc(earlier + log, i);
      SoundSnoc(sc, earlier + log, i);
      assert earlier + (log + [i]) == (earlier + log) + [i];
      acCounts[tbl, symbol] := acCounts[tbl, symbol] + 1;
      log := log + [i];
    }

    /** Other bits are not counted. */
    ghost method SkipRaw(v: nat, n: nat)
      requires Logged() && gather && v < Pow2(n)
      modifies `log
      ensures Logged() && log == old(log) + [Raw(v, n)]
    {
      hide Occurrences, AllSound;
      ghost var i := Raw(v, n);
      SymbolsSnoc(earlier + log, i);
      SoundSnoc(sc, earlier + log, i);
      assert earlier + (log + [i]) == (earlier + log) + [i];
      log := log + [i];
    }

    /** htest_one_block: counts what encode_one_block would emit. */
    method HtestOneBlock(ci: nat, block: Block) returns (ok: bool)
      requires Running() && ci < |sc.dcTbl| && sc.pass.mode.Sequential? && gather
      modifies dcCounts, acCounts, `log
      ensures var (items, st) := BlockItems(sc, old(State()), ci, Zigzag(order, block));
              && ok == BlockFits(sc, old(State()), ci, Zigzag(order, block))
              && (ok ==> Running() && log == old(log) + items && State().(preds := lastDcVal[ci := block[0]]) == st)
    {
      hide HuffEncoder.Logged, AcItems, AllCodable, NBits, SmallAc, Extra;
      DcIsFirst(block);
      UsesTable(ci);
      ghost var diff: int := block[0] - lastDcVal[ci];
      var temp: int := block[0] - lastDcVal[ci];
      if temp < 0 {
        temp := -temp;
      }
      var nbits := CountBits(temp);
      if nbits > MAX_COEF_BITS + 1 {
        return false;
      }
      CountDc(sc.dcTbl[ci], nbits);
      if nbits > 0 {
        ExtendExtra(diff);
        SkipRaw(Extra(diff), nbits);
      }
      assert log == old(log) + DcItems(sc.dcTbl[ci], diff);
      Associate(old(log), DcItems(sc.dcTbl[ci], diff), AcItems(sc.acTbl[ci], Zigzag(order, block), 1, 0,
        sc.pass.limSe));
      ok := HtestAc(ci, block);
    }

    method HtestAc(ci: nat, block: Block) returns (ok: bool)
      requires Logged() && Shape() && sc.Valid() && sc.pass.mode.Sequential? && gather && ci < |sc.acTbl|
      modifies acCounts, `log
      ensures var z := Zigzag(order, block);
              var items := AcItems(sc.acTbl[ci], z, 1, 0, sc.pass.limSe);
              ok == SmallAc(z, 1, sc.pass.limSe) && (ok ==> Logged() && log == old(log) + items)
    {
      hide HuffEncoder.Logged, NBits, Extra, Zrls, RunCoef, HScan.UsesAc, ValidOrder, AcItems, SmallAc, Zigzag;
      var tbl, se := sc.acTbl[ci], sc.pass.limSe;
      if se > 0 {
        Uses(ci);
      }
      OrderShape();
      ghost var z := Zigzag(order, block);
      ghost var goal := old(log) + AcItems(tbl, z, 1, 0, se);
      var r: nat := 0;
      SmallStart(z);
      for k := 1 to se + 1
        invariant Logged() && log + AcItems(tbl, z, k, r, se) == goal && r < k
        invariant SmallAc(z, 1, k - 1)
      {
        var temp: int := block[order[k]];
        SmallStep(z, k, se);
        if temp == 0 {
          AcItemsZero(tbl, z, k, r, se);
          r := r + 1;
        } else {
          AcItemsStep(tbl, z, k, r, se);
          Associate(log, RunCoef(tbl, r, z[k]), AcItems(tbl, z, k + 1, 0, se));
          ok := HtestRunCoef(tbl, r, temp);
          if !ok {
            return;
          }
          r := 0;
        }
      }
      ok := true;
      AcItemsEnd(tbl, z, r, se);
      if r > 0 {
        CountAc(tbl, 0);
      }
    }

    method HtestRunCoef(tbl: nat, r0: nat, v: int) returns (ok: bool)
      requires Logged() && gather && sc.UsesAc(tbl) && v != 0
      modifies acCounts, `log
      ensures ok == (NBits(Abs(v)) <= MAX_COEF_BITS)
      ensures ok ==> Logged() && log == old(log) + RunCoef(tbl, r0, v)
    {
      hide HuffEncoder.Logged, NBits, Extra;
      var r: nat := r0;
      ghost var m: nat := 0;
      while r > 15
        invariant Logged() && r + 16 * m == r0 && log == old(log) + Zrls(tbl, m)
      {
        CountAc(tbl, ZRL);
        ZrlsSnoc(tbl, m);
        r := r - 16;
        m := m + 1;
      }
      var temp := v;
      if temp < 0 {
        temp := -temp;
      }
      var nbits := CountBits(temp);
      if nbits > MAX_COEF_BITS {
        return false;
      }
      CountAc(tbl, r * 16 + nbits);
      ExtendExtra(v);
      SkipRaw(Extra(v), nbits);
      Associate(old(log), Zrls(tbl, m), [AcSym(tbl, r * 16 + nbits)] + [Raw(Extra(v), nbits)]);
      ok := true;
    }

    // ----- MCUs

    /** The blocks of an MCU. */
    method EncodeBlocks(mcu: Mcu) returns (ok: bool)
      requires Consistent() && Fits(sc, mcu)
      modifies writer, dcCounts, acCounts, bitBuffer, `log, `lastDcVal, `eobrun, `be, `cur
      ensures Wrote() && ok == BlocksGo(old(State()), Zigzags(order, mcu))
      ensures ok ==> Consistent() && cur == old(cur) + [Zigzags(order, mcu)]
    {
      hide HuffEncoder.Logged, BlockItems, BlockFits, AllCodable, Sent, SentOk, FullSegs, Record, AllItems, Zigzags;
      ghost var z, out0, st0 := Zigzags(order, mcu), writer.out, State();
      ghost var done: seq<Item> := [];
      TablesValid();
      SentSnoc(sc, cur, z);
      CodableNone(ts);
      assert [] + McuItems(sc, st0, z, 0).0 == McuItems(sc, st0, z, 0).0;
      for i := 0 to |mcu|
        invariant Running() && Wrote() && cur == old(cur) && log == old(log) + done && AllEmittable(done)
        invariant done + McuItems(sc, State(), z, i).0 == McuItems(sc, st0, z, 0).0
        invariant McuItems(sc, State(), z, i).1 == McuItems(sc, st0, z, 0).1
        invariant McuCodable(sc, State(), z, i) == McuCodable(sc, st0, z, 0)
      {
        ghost var (x, st1) := BlockItems(sc, State(), sc.membership[i], z[i]);
        ghost var rest := McuItems(sc, st1, z, i + 1).0;
        ghost var written := writer.out;
        AllParts(ts, done, x, rest);
        ok := EncodeAnyBlock(sc.membership[i], mcu[i]);
        Prefixes(old(writer.out), written, writer.out);
        if !ok {
          return;
        }
        Associate(old(log), done, x);
        done := done + x;
      }
      ok := true;
      assert done + [] == done;
      if !gather {
        RecordPrefix(sc, ts, out0, writer.out, scanStart, writer.start, segs, ps);
      }
      cur := cur + [z];
    }

    /** What makes the blocks of an MCU go through: their range, and their codes unless
        statistics are gathered. */
    ghost predicate BlocksGo(st: EncState, z: Mcu)
      requires sc.Valid() && Fits(sc, z) && ts.Valid()
      reads `sc, `gather, `ts
    {
      McuCodable(sc, st, z, 0) && AllEmittable(McuItems(sc, st, z, 0).0)
    }

    /** encode_one_block, htest_one_block or the block of a progressive pass. */
    method EncodeAnyBlock(ci: nat, block: Block) returns (ok: bool)
      requires Running() && ci < |sc.dcTbl|
      modifies writer, dcCounts, acCounts, bitBuffer, `log, `lastDcVal, `eobrun, `be
      ensures var z := Zigzag(order, block);
              var (items, st) := BlockItems(sc, old(State()), ci, z);
              && Wrote() && ok == (BlockFits(sc, old(State()), ci, z) && AllEmittable(items))
              && (ok ==> Running() && log == old(log) + items && State() == st)
    {
      hide HuffEncoder.Logged, BlockItems, BlockFits, AllCodable;
      if gather && sc.pass.mode.Sequential? {
        ok := HtestOneBlock(ci, block);
        lastDcVal := lastDcVal[ci := block[0]];
      } else {
        ok := EncodeBlock(ci, block);
      }
    }

    // ----- restarts and passes

    /** emit_eobrun at the end of a restart interval. */
    method EndRun() returns (ok: bool)
      requires Running()
      modifies writer, acCounts, `log, `eobrun, `be
      ensures var items := EndItems(sc, old(State()));
              && Wrote() && ok == AllEmittable(items)
              && (ok ==> Running() && log == old(log) + items && eobrun == 0 && be == 0)
    {
      hide HuffEncoder.Logged, AllCodable, EobItems, RawBits;
      if eobrun > 0 {
        Uses(0);
      }
      FlushIsEob(sc.acTbl[0], eobrun);
      NoRun(sc.acTbl[0]);
      assert be == 0 ==> bitBuffer[..be] == [];
      ok := EmitEobrun(sc.acTbl[0]);
    }

    /** The current interval is complete and its items are all sent. */
    ghost predicate Ended()
      reads `sc, `gather, `dcDerived, `acDerived, `ts, `earlier, `log, writer, dcCounts, acCounts
      reads `restartInterval, `scanStart, `segs, `cur, `ps
    {
      && Shape() && Logged() && sc.Valid() && AllFit(sc, cur) && SegCodable(sc, ENC0, cur) && log
        == SegItems(sc, ENC0, cur)
      && FullSegs(sc, restartInterval, segs) && earlier == AllItems(sc, segs)
      && (gather || Record(sc, ts, writer.out, scanStart, writer.start, segs, ps))
    }

    /** The run that may be pending is sent. */
    method EndInterval() returns (ok: bool)
      requires Consistent()
      modifies writer, acCounts, `log, `eobrun, `be
      ensures Wrote() && ok == AllEmittable(EndItems(sc, old(State())))
      ensures ok ==> Ended() && eobrun == 0 && be == 0
    {
      hide HuffEncoder.Logged, AllCodable, EndItems, SegItems, SegCodable, Sent, SentOk, Record, FullSegs, AllItems;
      ghost var out0 := writer.out;
      ok := EndRun();
      SegEnds(sc, cur);
      if ok && !gather {
        RecordPrefix(sc, ts, out0, writer.out, scanStart, writer.start, segs, ps);
      }
    }

    /** The bits of the interval are filled up. */
    method FlushSegment()
      requires Ended() && !gather
      modifies writer
      ensures writer.putBuffer == 0 && writer.putBits == 0 && writer.start == old(writer.start)
        && old(writer.out) <= writer.out
      ensures Derived() && SegCoded(sc, ts, cur, writer.plain) && Written(writer.out, writer.start, writer.plain)
      ensures Record(sc, ts, writer.out, scanStart, writer.start, segs, ps)
    {
      hide Encodes, AllCodable, SegItems, SegCodable, Record, FullSegs, AllItems, Bits, ByteBits, Written,
        BitWriter.Valid;
      ghost var out0 := writer.out;
      writer.FlushBits();
      assert Padded(writer.plain, Bits(ts, log));
      RecordPrefix(sc, ts, out0, writer.out, scanStart, writer.start, segs, ps);
    }

    /** The marker behind an interval. */
    method EmitMarker(restartNum: nat)
      requires Ended() && !gather && restartInterval != 0 && restartNum == |segs| % 8
      modifies writer, `ps
      ensures writer.Valid() && writer.bits == [] && old(writer.out) <= writer.out && Derived()
      ensures Record(sc, ts, writer.out, scanStart, writer.start, segs + [cur], ps)
    {
      hide Encodes, SegCoded, SegItems, SegCodable, Record, FullSegs, AllItems, Bits, Written, BitWriter.Valid;
      FlushSegment();
      RecordLengths(sc, ts, writer.out, scanStart, writer.start, segs, ps);
      RecordGrows(sc, ts, writer.out, scanStart, writer.start, segs, ps, cur, writer.plain);
      ps := ps + [writer.plain];
      writer.EmitByte(0xFF);
      writer.EmitByte(M_RST0 + restartNum);
      writer.StartSegment();
    }

    /** emit_restart. */
    method EmitRestart(restartNum: nat) returns (ok: bool)
      requires Consistent() && restartInterval != 0 && |cur| == restartInterval && (gather || restartNum == |segs| % 8)
      modifies writer, acCounts, `log, `lastDcVal, `eobrun, `be, `earlier, `segs, `cur, `ps
      ensures ok == AllEmittable(EndItems(sc, old(State()))) && ts == old(ts)
      ensures old(writer.out) <= writer.out
      ensures ok ==> Consistent() && segs == old(segs) + [old(cur)] && cur == []
    {
      hide HuffEncoder.Logged, HuffEncoder.Counted, HuffEncoder.Derived, BitWriter.Valid, AllCodable, EndItems,
        SegItems, SegCodable, Record, FullSegs, AllItems, Sent, SentOk, Untouched;
      ghost var mcus := cur;
      TablesValid();
      ok := EndInterval();
      if !ok {
        return;
      }
      ghost var out1 := writer.out;
      if !gather {
        EmitMarker(restartNum);
        Prefixes(old(writer.out), out1, writer.out);
      } else {
        CountedNow();
      }
      NextInterval();
      SentPredsKept(sc, mcus);
      ResetState();
      NothingSent(sc);
      assert bitBuffer[..be] == [];
    }

    lemma CountedNow()
      requires Logged() && gather
      ensures Counted()
    {
    }

    lemma NothingSent(sc: HScan)
      requires sc.Valid()
      ensures AllFit(sc, []) && Sent(sc, []) == ([], ENC0) && SentOk(sc, [])
    {
    }

    /** The record moves on to the next interval. */
    ghost method NextInterval()
      requires Shape() && ts.Valid() && sc.Valid() && AllFit(sc, cur) && SegCodable(sc, ENC0, cur) && log
        == SegItems(sc, ENC0, cur)
      requires FullSegs(sc, restartInterval, segs) && earlier == AllItems(sc, segs) && |cur| == restartInterval != 0
      requires if gather then Counted() else Derived() && writer.Valid() && writer.bits == []
      modifies `earlier, `log, `segs, `cur
      ensures Logged() && log == [] && FullSegs(sc, restartInterval, segs) && earlier == AllItems(sc, segs)
      ensures segs == old(segs) + [old(cur)] && cur == []
    {
      hide SegItems, SegCodable, Occurrences, AllSound, Encodes, BitWriter.Valid;
      AllItemsSnoc(sc, segs, cur);
      CodableNone(ts);
      assert (earlier + log) + [] == earlier + log;
      earlier, log, segs, cur := earlier + log, [], segs + [cur], [];
    }

    /** Predictions and runs start afresh. */
    method ResetState()
      requires sc.Valid() && |lastDcVal| == MAX_COMPS_IN_SCAN && Untouched(sc, NO_PREDS, lastDcVal) && eobrun == 0 && be
        == 0
      modifies `lastDcVal, `eobrun, `be
      ensures lastDcVal == NO_PREDS && eobrun == 0 && be == 0
    {
      if sc.pass.ss == 0 {
        for ci := 0 to |sc.dcTbl|
          invariant |lastDcVal| == MAX_COMPS_IN_SCAN && eobrun == 0 && be == 0
          invariant forall j :: 0 <= j < MAX_COMPS_IN_SCAN ==> lastDcVal[j] == if j < ci then 0 else old(lastDcVal)[j]
        {
          lastDcVal := lastDcVal[ci := 0];
        }
      } else {
        eobrun, be := 0, 0;
      }
      AllZero(lastDcVal);
    }

    lemma AllZero(p: seq<int>)
      requires |p| == MAX_COMPS_IN_SCAN && forall j :: 0 <= j < MAX_COMPS_IN_SCAN ==> p[j] == 0
      ensures p == NO_PREDS
    {
      assert p == [p[0], p[1], p[2], p[3]];
    }

    /** Whether the next MCU is to be preceded by a restart. */
    ghost predicate Due()
      reads `restartInterval, `restartsToGo
    {
      restartInterval != 0 && restartsToGo == 0
    }

    /** What makes the next MCU go through. */
    ghost predicate Goes(z: Mcu)
      requires Running() && Fits(sc, z)
      reads this, bitBuffer, writer, dcCounts, acCounts
    {
      && (Due() ==> AllEmittable(EndItems(sc, State())))
      && BlocksGo(if Due() then ENC0 else State(), z)
    }

    /** `if (restarts_to_go == 0) emit_restart`. */
    method RestartIfDue() returns (ok: bool)
      requires Valid()
      modifies writer, acCounts, `log, `lastDcVal, `eobrun, `be, `earlier, `segs, `cur, `ps
      ensures ts == old(ts) && old(writer.out) <= writer.out
      ensures ok == (Due() ==> AllEmittable(EndItems(sc, old(State()))))
      ensures ok ==> Consistent() && Mcus() == old(Mcus()) && State() == (if Due() then ENC0 else old(State()))
      ensures ok ==> Counting(|cur|)
    {
      hide HuffEncoder.Running, Sent, SentOk, FullSegs, Record, AllItems, AllCodable, EndItems, HScan.Valid;
      RunningNow();
      ok := true;
      if restartInterval != 0 && restartsToGo == 0 {
        FlattenSnoc(segs, cur);
        ok := EmitRestart(nextRestartNum);
        if ok {
          assert Flatten(segs) + [] == Flatten(segs);
          StateNow();
        }
      }
    }

    /** The counters behind the check for a restart, with n MCUs in the interval. */
    ghost predicate Counting(n: nat)
      reads `gather, `restartInterval, `restartsToGo, `nextRestartNum, `segs
    {
      var restarted := n == 0 && segs != [];
      && (gather || nextRestartNum == (if restarted && restartInterval != 0 then |segs| - 1 else |segs|) % 8)
      && (if restartInterval == 0 then restartsToGo == 0
          else n < restartInterval && restartsToGo == if restarted then 0 else restartInterval - n)
    }

    /** The restart accounting behind an MCU. */
    method AccountRestart()
      requires Consistent() && cur != [] && Counting(|cur| - 1)
      modifies `restartsToGo, `nextRestartNum
      ensures Valid()
    {
      hide HuffEncoder.Running, Sent, SentOk, FullSegs, Record, AllItems;
      if restartInterval != 0 {
        if restartsToGo == 0 {
          restartsToGo := restartInterval;
          nextRestartNum := (nextRestartNum + 1) % 8;
        }
        restartsToGo := restartsToGo - 1;
      }
    }

    /** The blocks, and the accounting behind them. */
    method EncodeCounted(mcu: Mcu) returns (ok: bool)
      requires Consistent() && Fits(sc, mcu) && Counting(|cur|)
      modifies writer, dcCounts, acCounts, bitBuffer, `log, `lastDcVal, `eobrun, `be, `cur, `restartsToGo,
        `nextRestartNum
      ensures old(writer.out) <= writer.out && ok == BlocksGo(old(State()), Zigzags(order, mcu))
      ensures ok ==> Valid() && Mcus() == old(Mcus()) + [Zigzags(order, mcu)]
    {
      hide HuffEncoder.Consistent, HuffEncoder.BlocksGo, Zigzags, HScan.Valid;
      RunningNow();
      ghost var z := Zigzags(order, mcu);
      ok := EncodeBlocks(mcu);
      if ok {
        AddedMcu(segs, old(Mcus()), cur, z);
        AccountRestart();
      }
    }

    /** The encode_mcu routines. */
    method EncodeMcu(mcu: Mcu) returns (ok: bool)
      requires Valid() && Fits(sc, mcu)
      modifies writer, dcCounts, acCounts, bitBuffer, `log, `lastDcVal, `eobrun, `be, `earlier, `segs, `cur, `ps,
        `restartsToGo, `nextRestartNum
      ensures ts == old(ts) && old(writer.out) <= writer.out && ok == old(Goes(Zigzags(order, mcu)))
      ensures ok ==> Valid() && Mcus() == old(Mcus()) + [Zigzags(order, mcu)]
    {
      hide HuffEncoder.Consistent, HuffEncoder.Running, HuffEncoder.BlocksGo, HuffEncoder.AllEmittable, EndItems,
        Zigzags, HScan.Valid, Fits;
      RunningNow();
      ok := RestartIfDue();
      if ok {
        RunningNow();
        ghost var written := writer.out;
        ok := EncodeCounted(mcu);
        Prefixes(old(writer.out), written, writer.out);
      }
    }

    lemma AddedMcu(segs: seq<seq<Mcu>>, all: seq<Mcu>, cur: seq<Mcu>, z: Mcu)
      requires cur != [] && cur[|cur| - 1] == z && all == Flatten(segs) + cur[..|cur| - 1]
      ensures Flatten(segs) + cur == all + [z]
    {
      assert cur == cur[..|cur| - 1] + [z];
    }

    lemma RunningNow()
      requires Consistent()
      ensures Running()
    {
    }

    /** At the start of an interval. */
    lemma StateNow()
      requires Consistent() && cur == []
      ensures State() == ENC0
    {
      NothingSent(sc);
    }

    /** jpeg_make_c_derived_tbl for the tables with the given numbers. */
    method DeriveTables(used: seq<nat>, tables: seq<HuffTable>, isDC: bool) returns (ok: bool, derived: seq<CTable>)
      requires |tables| == NUM_HUFF_TBLS && forall i :: 0 <= i < |used| ==> used[i] < NUM_HUFF_TBLS
      ensures ok <==> forall i :: 0 <= i < |used| ==> TableUsable(tables[used[i]], isDC)
      ensures ok ==> |derived| == NUM_HUFF_TBLS
      ensures ok ==> forall i :: 0 <= i < NUM_HUFF_TBLS ==>
        DerivedFor(derived[i], Selected(tables, used)[i])
    {
      hide SymbolsOk, SizesTo, Sizes, Encodes, CountsOk;
      var none := CTable(seq(MAX_SYMBOLS, _ => 0), seq(MAX_SYMBOLS, _ => 0));
      EncodesNone(none);
      derived := seq(NUM_HUFF_TBLS, _ => none);
      for j := 0 to |used|
        invariant |derived| == NUM_HUFF_TBLS && forall i :: 0 <= i < j ==> TableUsable(tables[used[i]], isDC)
        invariant forall i :: 0 <= i < NUM_HUFF_TBLS ==>
          DerivedFor(derived[i], Selected(tables, used[..j])[i])
      {
        var c;
        ok, c := MakeCDerived(tables[used[j]], isDC);
        assert ok <==> TableUsable(tables[used[j]], isDC);
        if !ok {
          return;
        }
        derived := derived[used[j] := c];
        assert used[..j + 1] == used[..j] + [used[j]];
      }
      ok := true;
      assert used[..|used|] == used;
    }

    lemma EncodesNone(none: CTable)
      requires none == CTable(seq(MAX_SYMBOLS, _ => 0), seq(MAX_SYMBOLS, _ => 0))
      ensures DerivedFor(none, NoTable())
    {
      NoTableEmpty();
    }

    /** Zeroes the counts of the tables with the given numbers. */
    method ZeroCounts(counts: array2<nat>, used: seq<nat>)
      requires counts.Length0 == NUM_HUFF_TBLS && counts.Length1 == 257 && forall i :: 0 <= i < |used| ==>
        used[i] < NUM_HUFF_TBLS
      modifies counts
      ensures forall i, s :: 0 <= i < NUM_HUFF_TBLS && 0 <= s < 257 && i in used ==> counts[i, s] == 0
    {
      for j := 0 to |used|
        invariant forall i, s :: 0 <= i < j && 0 <= s < 257 ==> counts[used[i], s] == 0
      {
        forall s | 0 <= s < 257 {
          counts[used[j], s] := 0;
        }
      }
    }

    /** The counts of the tables of the scan are zeroed. */
    method PrepareCounts()
      requires Shape() && sc.Valid()
      modifies `ts, dcCounts, acCounts
      ensures ts.Valid() && CountsOf([])
    {
      hide CountsOk, ValidOrder, HuffEncoder.CountsOf;
      UsedNumbers();
      hide HScan.Valid;
      ZeroCounts(dcCounts, if sc.pass.CodesDc() then sc.dcTbl else []);
      ZeroCounts(acCounts, if sc.pass.CodesAc() then sc.acTbl else []);
      ts := Tables(seq(NUM_HUFF_TBLS, _ => NoTable()), seq(NUM_HUFF_TBLS, _ => NoTable()));
      NoTableEmpty();
      ZeroIsNone();
    }

    lemma ZeroIsNone()
      requires Shape()
      requires forall i, s :: 0 <= i < NUM_HUFF_TBLS && 0 <= s < 257 && sc.pass.CodesDc() && i in sc.dcTbl ==>
        dcCounts[i, s] == 0
      requires forall i, s :: 0 <= i < NUM_HUFF_TBLS && 0 <= s < 257 && sc.pass.CodesAc() && i in sc.acTbl ==>
        acCounts[i, s] == 0
      ensures CountsOf([])
    {
    }

    /** The codes of the tables of the scan are derived. */
    method PrepareCodes(dc: seq<HuffTable>, ac: seq<HuffTable>) returns (ok: bool)
      requires sc.Valid() && |dc| == |ac| == NUM_HUFF_TBLS
      modifies `ts, `dcDerived, `acDerived
      ensures ok == Usable(sc, dc, ac) && (ok ==> Derived() && ts == TablesOf(sc, dc, ac))
    {
      hide TableUsable, Selected, DerivedFor, Usable, Encodes, CountsOk, HScan.Valid;
      AllUsable(sc, dc, ac);
      UsedNumbers();
      ok, dcDerived := DeriveTables(if sc.pass.CodesDc() then sc.dcTbl else [], dc, true);
      if !ok {
        return;
      }
      ok, acDerived := DeriveTables(if sc.pass.CodesAc() then sc.acTbl else [], ac, false);
      if ok {
        ts := TablesOf(sc, dc, ac);
        DerivedNow();
      }
    }

    lemma UsedNumbers()
      requires sc.Valid()
      ensures forall i :: 0 <= i < |sc.dcTbl| ==> sc.dcTbl[i] < NUM_HUFF_TBLS
      ensures forall i :: 0 <= i < |sc.acTbl| ==> sc.acTbl[i] < NUM_HUFF_TBLS
    {
    }

    lemma DerivedNow()
      requires |dcDerived| == |acDerived| == |ts.dc| == |ts.ac| == NUM_HUFF_TBLS
      requires forall i :: 0 <= i < NUM_HUFF_TBLS ==> DerivedFor(dcDerived[i], ts.dc[i])
      requires forall i :: 0 <= i < NUM_HUFF_TBLS ==> DerivedFor(acDerived[i], ts.ac[i])
      ensures Derived()
    {
      hide CountsOk, Encodes;
    }

    lemma CountedNone()
      requires Shape() && ts.Valid() && gather && CountsOf([]) && earlier == log == []
      ensures Logged()
    {
      hide Occurrences, Sound;
      assert earlier + log == [];
    }

    lemma OutputNone()
      requires Shape() && Derived() && !gather && writer.Valid() && writer.bits == [] && log == []
      ensures Logged()
    {
      CodableNone(ts);
    }

    /** The fields set at the start of a scan. */
    method InitScan(scan: HScan, interval: nat, gatherStatistics: bool)
      modifies this, writer
      ensures gather == gatherStatistics && sc == scan && AtStart(interval)
      ensures writer.Valid() && writer.bits == [] && writer.out == old(writer.out)
    {
      writer.Restart();
      gather := gatherStatistics;
      sc := scan;
      lastDcVal, eobrun, be := NO_PREDS, 0, 0;
      restartInterval, restartsToGo, nextRestartNum := interval, interval, 0;
      InitRecord();
    }

    ghost method InitRecord()
      modifies `scanStart, `segs, `cur, `ps, `log, `earlier
      ensures scanStart == |writer.out| && segs == [] && cur == [] && ps == [] && log == [] && earlier == []
    {
      scanStart, segs, cur, ps, log, earlier := |writer.out|, [], [], [], [], [];
    }

    ghost predicate AtStart(interval: nat)
      reads `lastDcVal, `eobrun, `be, `restartInterval, `restartsToGo, `nextRestartNum, `scanStart, `segs, `cur, `ps,
        `log, `earlier, writer
    {
      && lastDcVal == NO_PREDS && eobrun == 0 && be == 0 && writer.start == |writer.out|
      && restartInterval == interval && restartsToGo == interval && nextRestartNum == 0 && scanStart == |writer.out|
      && segs == [] && cur == [] && ps == [] && log == [] && earlier == []
    }

    /** start_pass_huff, with the tables defined at the time; fails on a table that cannot be
        used. */
    method StartPass(scan: HScan, interval: nat, gatherStatistics: bool, dc: seq<HuffTable>, ac: seq<HuffTable>)
      returns (ok: bool)
      requires Shape() && scan.Valid() && |dc| == |ac| == NUM_HUFF_TBLS
      modifies this, writer, dcCounts, acCounts
      ensures ok == (gatherStatistics || Usable(scan, dc, ac)) && writer.out == old(writer.out)
      ensures ok ==> Valid() && sc == scan && restartInterval == interval && gather == gatherStatistics && Mcus() == []
      ensures ok ==> scanStart == |writer.out| && (!gather ==> ts == TablesOf(scan, dc, ac))
    {
      hide HuffEncoder.Derived, HuffEncoder.CountsOf, BitWriter.Valid, TablesOf, Usable, HuffEncoder.Valid,
        HuffEncoder.Logged;
      InitScan(scan, interval, gatherStatistics);
      if gather {
        PrepareCounts();
        ok := true;
        CountedNone();
      } else {
        ok := PrepareCodes(dc, ac);
        if !ok {
          return;
        }
        OutputNone();
      }
      Started();
    }

    lemma Started()
      requires Shape() && Logged() && sc.Valid() && AtStart(restartInterval)
      ensures Valid() && Mcus() == []
    {
      hide HuffEncoder.Logged, Sent, SentOk, Record;
      NothingSent(sc);
      TablesValid();
      RecordStart(sc, ts, writer.out);
      assert bitBuffer[..be] == [];
    }

    lemma AllUsable(scan: HScan, dc: seq<HuffTable>, ac: seq<HuffTable>)
      requires scan.Valid() && |dc| == |ac| == NUM_HUFF_TBLS
      ensures Usable(scan, dc, ac) <==>
        && (scan.pass.CodesDc() ==> forall i :: 0 <= i < |scan.dcTbl| ==> TableUsable(dc[scan.dcTbl[i]], true))
        && (scan.pass.CodesAc() ==> forall i :: 0 <= i < |scan.acTbl| ==> TableUsable(ac[scan.acTbl[i]], false))
    {
      hide TableUsable;
      if Usable(scan, dc, ac) {
        assert forall i :: 0 <= i < |scan.dcTbl| && scan.pass.CodesDc() ==> scan.UsesDc(scan.dcTbl[i]);
        assert forall i :: 0 <= i < |scan.acTbl| && scan.pass.CodesAc() ==> scan.UsesAc(scan.acTbl[i]);
      }
    }

    /** finish_pass_huff: the bytes output since start_pass are the segments of the restart
        intervals joined by markers, each holding the items of its interval. */
    method FinishPass() returns (ok: bool)
      requires Valid() && !gather
      modifies writer, acCounts, `log, `eobrun, `be, `segs, `cur, `ps
      ensures ok == AllCodable(ts, EndItems(sc, old(State()))) && old(writer.out) <= writer.out
      ensures ok ==> scanStart <= |writer.out| && ps != [] && writer.out[scanStart..] == Join(ps, 0)
      ensures ok ==> Cut(segs, restartInterval) && Flatten(segs) == old(Mcus()) && |segs| == |ps|
      ensures ok ==> forall i :: 0 <= i < |segs| ==> SegCoded(sc, ts, segs[i], ps[i])
    {
      hide HuffEncoder.Running, HuffEncoder.Ended, AllCodable, EndItems, SegCoded, Record, FullSegs, Sent, SentOk,
        AllItems, Cut, Flatten, Join, Written;
      RunningNow();
      SegsCut(sc, restartInterval, segs, cur);
      ok := EndInterval();
      if !ok {
        return;
      }
      ghost var out1 := writer.out;
      FlushSegment();
      Prefixes(old(writer.out), out1, writer.out);
      RecordEnds(sc, ts, writer.out, scanStart, writer.start, segs, ps, cur, writer.plain);
      RecordLengths(sc, ts, writer.out, scanStart, writer.start, segs, ps);
      segs, cur, ps := segs + [cur], [], ps + [writer.plain];
    }

    /** The end of a statistics pass: every symbol of every interval has been counted. */
    method EndGathering()
      requires Valid() && gather
      modifies writer, acCounts, `log, `earlier, `eobrun, `be, `segs, `cur
      ensures Shape() && sc.Valid() && Cut(segs, restartInterval) && Flatten(segs) == old(Mcus()) && segs
        == old(segs + [cur])
      ensures forall i :: 0 <= i < |segs| ==> AllFit(sc, segs[i]) && SegCodable(sc, ENC0, segs[i])
      ensures CountsOf(AllItems(sc, segs)) && AllSound(sc, AllItems(sc, segs))
    {
      hide HuffEncoder.Running, AllCodable, EndItems, SegItems, SegCodable, Sent, SentOk, AllItems, Cut, Flatten,
        AllSound, Occurrences;
      RunningNow();
      SegsCut(sc, restartInterval, segs, cur);
      var ok := EndInterval();
      assert ok;
      AllItemsSnoc(sc, segs, cur);
      segs, cur := segs + [cur], [];
    }

    /** The counts are those of the items. */
    ghost predicate CountsOf(items: seq<Item>)
      requires Shape()
      reads `sc, dcCounts, acCounts
    {
      forall i, s :: 0 <= i < NUM_HUFF_TBLS && 0 <= s < MAX_SYMBOLS ==>
        && (sc.UsesDc(i) ==> dcCounts[i, s] == Occurrences(items, DcSym(i, s)))
        && (sc.UsesAc(i) ==> acCounts[i, s] == Occurrences(items, AcSym(i, s)))
    }

    lemma RowsCounted(items: seq<Item>, i: nat)
      requires Shape() && CountsOf(items) && i < NUM_HUFF_TBLS
      ensures sc.UsesDc(i) ==> Row(dcCounts, i) == DcFreq(items, i)
      ensures sc.UsesAc(i) ==> Row(acCounts, i) == AcFreq(items, i)
    {
      hide Occurrences, HScan.UsesDc, HScan.UsesAc;
    }

    /** finish_pass_gather: the optimal tables for the symbols of the scan. */
    method FinishGathering(dc: seq<HuffTable>, ac: seq<HuffTable>)
      returns (ok: bool, dcMade: seq<HuffTable>, acMade: seq<HuffTable>)
      requires Valid() && gather && |dc| == |ac| == NUM_HUFF_TBLS
      requires forall i :: 0 <= i < |segs| ==> AllFit(sc, segs[i])
      requires var items := AllItems(sc, segs) + SegItems(sc, ENC0, cur);
               EveryTableUsed(sc, items) && Countable(sc, items)
      modifies writer, acCounts, `log, `earlier, `eobrun, `be, `segs, `cur
      ensures Cut(segs, restartInterval) && Flatten(segs) == old(Mcus())
      ensures forall i :: 0 <= i < |segs| ==> AllFit(sc, segs[i]) && SegCodable(sc, ENC0, segs[i])
      ensures AllSound(sc, AllItems(sc, segs))
      ensures ok ==> |dcMade| == |acMade| == NUM_HUFF_TBLS && Gathered(sc, AllItems(sc, segs), dcMade, acMade)
      ensures !ok ==> SomeDeep(sc, AllItems(sc, segs))
    {
      hide HuffEncoder.Consistent, HuffEncoder.CountsOf, SegItems, SegCodable, AllItems, AllFit, AllSound, Cut, Flatten,
        Gatherable, Gathered, SomeDeep, EveryTableUsed, Countable;
      ValidNow();
      AllItemsSnoc(sc, segs, cur);
      EndGathering();
      StatisticsGatherable(sc, AllItems(sc, segs));
      ok, dcMade, acMade := MakeTables(AllItems(sc, segs), dc, ac);
    }

    /** jpeg_gen_optimal_table for every table of the scan. */
    method MakeTables(ghost items: seq<Item>, dc: seq<HuffTable>, ac: seq<HuffTable>)
      returns (ok: bool, dcMade: seq<HuffTable>, acMade: seq<HuffTable>)
      requires Shape() && sc.Valid() && CountsOf(items) && Gatherable(sc, items) && |dc| == |ac| == NUM_HUFF_TBLS
      ensures ok ==> |dcMade| == |acMade| == NUM_HUFF_TBLS && Gathered(sc, items, dcMade, acMade)
      ensures !ok ==> SomeDeep(sc, items)
    {
      hide HuffEncoder.CountsOf, Occurrences, Generable, OptimalFor, TooDeep;
      forall i | 0 <= i < NUM_HUFF_TBLS
        ensures sc.UsesDc(i) ==> Row(dcCounts, i) == DcFreq(items, i)
        ensures sc.UsesAc(i) ==> Row(acCounts, i) == AcFreq(items, i)
      {
        RowsCounted(items, i);
      }
      UsedNumbers();
      acMade := ac;
      ok, dcMade := OptimalTables(dcCounts, if sc.pass.CodesDc() then sc.dcTbl else [], dc);
      if !ok {
        return;
      }
      ok, acMade := OptimalTables(acCounts, if sc.pass.CodesAc() then sc.acTbl else [], ac);
    }

    lemma ValidNow()
      requires Consistent()
      ensures Shape() && sc.Valid() && AllFit(sc, cur) && SegCodable(sc, ENC0, cur)
    {
      hide SegCodable, HuffEncoder.Logged;
      SegEnds(sc, cur);
    }
  }

  lemma Associate4(a: seq<Item>, b: seq<Item>, c: seq<Item>, d: seq<Item>, e: seq<Item>)
    ensures a + b + c + d + e == a + (b + (c + (d + e)))
    ensures a + (b + (c + d)) + e == a + (b + (c + (d + e)))
  {
  }

  ghost predicate SmallBand(t: seq<int>, ss: nat, se: nat)
  {
    se < |t| && forall j :: ss <= j <= se ==> NBits(Abs(t[j])) <= MAX_COEF_BITS
  }

  lemma CoefItemsZero(tbl: nat, t: seq<int>, k: nat, r: nat, se: nat)
    requires k <= se < |t| && t[k] == 0
    ensures CoefItems(tbl, t, k, r, se) == CoefItems(tbl, t, k + 1, r + 1, se)
  {
  }

  lemma CoefItemsStep(tbl: nat, t: seq<int>, k: nat, r: nat, se: nat)
    requires k <= se < |t| && t[k] != 0
    ensures CoefItems(tbl, t, k, r, se) == RunCoef(tbl, r, t[k]) + CoefItems(tbl, t, k + 1, 0, se)
  {
    hide Extra, NBits, Zrls;
  }

  lemma CoefItemsEnd(tbl: nat, t: seq<int>, r: nat, se: nat)
    requires se < |t|
    ensures CoefItems(tbl, t, se + 1, r, se) == []
  {
  }

  lemma BandStart(t: seq<int>, ss: nat)
    requires 0 < ss <= |t|
    ensures SmallBand(t, ss, ss - 1) && LastNonzero(t, ss, ss - 1) == ss - 1
  {
  }

  /** What coefficient k means for the band up to k, and for the whole band. */
  lemma BandStep(t: seq<int>, ss: nat, k: nat, se: nat)
    requires 0 < ss <= k <= se < |t|
    ensures LastNonzero(t, ss, k) == if t[k] != 0 then k else LastNonzero(t, ss, k - 1)
    ensures SmallBand(t, ss, k) <==> SmallBand(t, ss, k - 1) && NBits(Abs(t[k])) <= MAX_COEF_BITS
    ensures t[k] == 0 ==> NBits(Abs(t[k])) == 0
    ensures t[k] != 0 ==> LastNonzero(t, ss, se) >= k
    ensures NBits(Abs(t[k])) > MAX_COEF_BITS ==> !SmallBand(t, ss, se)
  {
  }

  lemma NoRun(tbl: nat)
    ensures EobItems(tbl, 0) == []
  {
  }

  lemma FlushIsEob(tbl: nat, e: nat)
    ensures FlushItems(tbl, e, []) == EobItems(tbl, e)
  {
  }
}
