/** Which symbols a scan can send: every table in use has one, and none has them all, so that
    its statistics can be made into tables. */
module HuffmanAlphabets {
  import opened JpegLib
  import opened Bytes
  import opened Arithmetic
  import opened Sums
  import opened Blocks
  import opened BitStreams
  import opened HuffmanItems
  import opened HuffmanBlocks
  import opened HuffmanFirst
  import opened HuffmanRefine
  import opened HuffmanScan
  import opened HuffmanSegments
  import opened HuffmanStatistics
  import OptimalCode

  ghost predicate HasDc(items: seq<Item>, tbl: nat)
  {
    exists i :: 0 <= i < |items| && items[i].DcSym? && items[i].tbl == tbl
  }

  ghost predicate HasAc(items: seq<Item>, tbl: nat)
  {
    exists i :: 0 <= i < |items| && items[i].AcSym? && items[i].tbl == tbl
  }

  /** Every table in use has a symbol. */
  ghost predicate EveryTableUsed(sc: HScan, items: seq<Item>)
  {
    forall i :: 0 <= i < NUM_HUFF_TBLS ==> (sc.UsesDc(i) ==> HasDc(items, i)) && (sc.UsesAc(i) ==> HasAc(items, i))
  }

  /** Every component of the scan has blocks in its MCUs. */
  ghost predicate AllInMcu(sc: HScan)
  {
    forall ci :: 0 <= ci < |sc.dcTbl| ==> ci in sc.membership
  }

  /** The counts of a scan, the pseudo-symbols included, do not exceed what
      jpeg_gen_optimal_table takes for infinity. */
  ghost predicate Countable(sc: HScan, items: seq<Item>)
  {
    forall i :: 0 <= i < NUM_HUFF_TBLS ==>
      && (sc.UsesDc(i) ==> Sum(DcFreq(items, i)) <= OptimalCode.LIMIT)
      && (sc.UsesAc(i) ==> Sum(AcFreq(items, i)) <= OptimalCode.LIMIT)
  }

  lemma HasParts(a: seq<Item>, b: seq<Item>, tbl: nat)
    ensures HasDc(a, tbl) || HasDc(b, tbl) ==> HasDc(a + b, tbl)
    ensures HasAc(a, tbl) || HasAc(b, tbl) ==> HasAc(a + b, tbl)
  {
    assert forall i :: 0 <= i < |a| ==> (a + b)[i] == a[i];
    assert forall i :: 0 <= i < |b| ==> (a + b)[|a| + i] == b[i];
  }

  lemma HasFirst(x: Item, rest: seq<Item>)
    ensures x.DcSym? ==> HasDc([x] + rest, x.tbl)
    ensures x.AcSym? ==> HasAc([x] + rest, x.tbl)
  {
    assert ([x] + rest)[0] == x;
  }

  // ----- what a block sends

  lemma EobHas(tbl: nat, e: nat)
    requires e > 0
    ensures HasAc(EobItems(tbl, e), tbl)
  {
    Log2Bounds(e);
    HasFirst(AcSym(tbl, Log2(e) * 16), if Log2(e) > 0 then [Raw(e - Pow2(Log2(e)), Log2(e))] else []);
  }

  lemma FlushHas(tbl: nat, e: nat, corr: seq<bit>)
    requires e > 0
    ensures HasAc(FlushItems(tbl, e, corr), tbl)
  {
    EobHas(tbl, e);
    HasParts(EobItems(tbl, e), RawBits(corr), tbl);
  }

  lemma {:induction false} AcItemsHas(tbl: nat, z: seq<int>, k: nat, r: nat, se: nat)
    requires se < |z| && (k <= se || r > 0)
    ensures HasAc(AcItems(tbl, z, k, r, se), tbl)
    decreases se + 1 - k
  {
    hide NBits, Extra, HasAc;
    if k > se {
      HasFirst(AcSym(tbl, 0), []);
      assert [AcSym(tbl, 0)] + [] == [AcSym(tbl, 0)];
    } else if z[k] == 0 {
      AcItemsHas(tbl, z, k + 1, r + 1, se);
    } else {
      var n := NBits(Abs(z[k]));
      var rest := [Raw(Extra(z[k]), n)] + AcItems(tbl, z, k + 1, 0, se);
      HasFirst(AcSym(tbl, r % 16 * 16 + n), rest);
      HasParts(Zrls(tbl, r / 16), [AcSym(tbl, r % 16 * 16 + n)] + rest, tbl);
    }
  }

  lemma {:induction false} CoefItemsHas(tbl: nat, t: seq<int>, k: nat, r: nat, last: nat, se: nat)
    requires k <= last <= se < |t| && t[last] != 0
    ensures HasAc(CoefItems(tbl, t, k, r, se), tbl)
    decreases last - k
  {
    hide NBits, Extra, HasAc;
    if t[k] == 0 {
      CoefItemsHas(tbl, t, k + 1, r + 1, last, se);
    } else {
      var n := NBits(Abs(t[k]));
      var rest := [Raw(Extra(t[k]), n)] + CoefItems(tbl, t, k + 1, 0, se);
      HasFirst(AcSym(tbl, r % 16 * 16 + n), rest);
      HasParts(Zrls(tbl, r / 16), [AcSym(tbl, r % 16 * 16 + n)] + rest, tbl);
    }
  }

  lemma {:induction false} HeadItemsHas(tbl: nat, t: seq<int>, k: nat, r: nat, br: seq<bit>, eob: nat)
    requires k <= eob < |t| && Abs(t[eob]) == 1
    ensures HasAc(HeadItems(tbl, t, k, r, br, eob), tbl)
    decreases eob - k
  {
    hide HasAc;
    if t[k] == 0 {
      HeadItemsHas(tbl, t, k + 1, r + 1, br, eob);
    } else if r > 15 {
      HasFirst(AcSym(tbl, ZRL), RawBits(br) + HeadItems(tbl, t, k, r - 16, [], eob));
    } else if Abs(t[k]) > 1 {
      HeadItemsHas(tbl, t, k + 1, r, br + [Abs(t[k]) % 2], eob);
    } else {
      HasFirst(AcSym(tbl, r * 16 + 1),
        [Raw(1 - SignBit(t[k]), 1)] + (RawBits(br) + HeadItems(tbl, t, k + 1, 0, [], eob)));
    }
  }

  /** A block of a first AC pass sends a symbol or joins the pending run. */
  lemma FirstBlockHas(tbl: nat, t: seq<int>, ss: nat, se: nat, e: nat)
    requires 0 < ss <= se < |t|
    ensures var (items, e1) := FirstBlock(tbl, t, ss, se, e); HasAc(items, tbl) || e1 > 0
  {
    hide HasAc, EobItems, CoefItems;
    var last := LastNonzero(t, ss, se);
    var e1 := (if last >= ss then 0 else e) + if last < se then 1 else 0;
    if last >= ss {
      CoefItemsHas(tbl, t, ss, 0, last, se);
      HasParts(EobItems(tbl, e), CoefItems(tbl, t, ss, 0, se), tbl);
      HasParts(EobItems(tbl, e) + CoefItems(tbl, t, ss, 0, se), EobItems(tbl, e1), tbl);
    } else {
      EobHas(tbl, e1);
      HasParts([], EobItems(tbl, e1), tbl);
    }
  }

  /** So does one of a refinement pass. */
  lemma RefBlockHas(tbl: nat, t: seq<int>, ss: nat, se: nat, e: nat, corr: seq<bit>)
    requires 0 < ss <= se < |t|
    ensures var (items, e1, c1) := RefBlock(tbl, t, ss, se, e, corr); HasAc(items, tbl) || e1 > 0
  {
    hide HasAc, FlushItems, HeadItems, CorrBits;
    var eob := LastNew(t, ss, se);
    if eob >= ss {
      HeadItemsHas(tbl, t, ss, 0, [], eob);
      HasParts(FlushItems(tbl, e, corr), HeadItems(tbl, t, ss, 0, [], eob), tbl);
      assert [] + CorrBits(t, eob + 1, se + 1) == CorrBits(t, eob + 1, se + 1);
      HasParts(FlushItems(tbl, e, corr) + HeadItems(tbl, t, ss, 0, [], eob),
        FlushItems(tbl, 1, CorrBits(t, eob + 1, se + 1)), tbl);
    } else {
      var c1 := corr + CorrBits(t, eob + 1, se + 1);
      FlushHas(tbl, e + 1, c1);
      HasParts([], FlushItems(tbl, e + 1, c1), tbl);
    }
  }

  // ----- what an MCU and a restart interval send

  lemma BlockHas(sc: HScan, st: EncState, ci: nat, z: Block)
    requires sc.Valid() && ci < |sc.dcTbl|
    ensures sc.pass.CodesDc() ==> HasDc(BlockItems(sc, st, ci, z).0, sc.dcTbl[ci])
    ensures sc.pass.mode.Sequential? && sc.pass.CodesAc() ==> HasAc(BlockItems(sc, st, ci, z).0, sc.acTbl[ci])
  {
    hide HasDc, HasAc, AcItems, NBits, Extra, FirstBlock, RefBlock, Shift;
    if sc.pass.mode.Sequential? {
      var dc, ac := DcItems(sc.dcTbl[ci], z[0] - st.preds[ci]), AcItems(sc.acTbl[ci], z, 1, 0, sc.pass.limSe);
      DcItemsHas(sc.dcTbl[ci], z[0] - st.preds[ci]);
      HasParts(dc, ac, sc.dcTbl[ci]);
      if sc.pass.CodesAc() {
        AcItemsHas(sc.acTbl[ci], z, 1, 0, sc.pass.limSe);
        HasParts(dc, ac, sc.acTbl[ci]);
      }
    } else if sc.pass.mode.DcFirst? {
      DcItemsHas(sc.dcTbl[ci], Shift(z[0], sc.pass.al) - st.preds[ci]);
    }
  }

  lemma DcItemsHas(tbl: nat, diff: int)
    ensures HasDc(DcItems(tbl, diff), tbl)
  {
    hide NBits, Extra;
    assert DcItems(tbl, diff)[0] == DcSym(tbl, NBits(Abs(diff)));
  }

  lemma {:induction false} McuHas(sc: HScan, st: EncState, mcu: Mcu, i: nat, j: nat)
    requires sc.Valid() && Fits(sc, mcu) && i <= j < |mcu|
    ensures sc.pass.CodesDc() ==> HasDc(McuItems(sc, st, mcu, i).0, sc.dcTbl[sc.membership[j]])
    ensures sc.pass.mode.Sequential? && sc.pass.CodesAc() ==>
      HasAc(McuItems(sc, st, mcu, i).0, sc.acTbl[sc.membership[j]])
    decreases |mcu| - i
  {
    hide HasDc, HasAc, BlockItems;
    var ci := sc.membership[j];
    var (items, st1) := BlockItems(sc, st, sc.membership[i], mcu[i]);
    var rest := McuItems(sc, st1, mcu, i + 1).0;
    if i == j {
      BlockHas(sc, st, ci, mcu[i]);
    } else {
      McuHas(sc, st1, mcu, i + 1, j);
    }
    HasParts(items, rest, sc.dcTbl[ci]);
    HasParts(items, rest, sc.acTbl[ci]);
  }

  /** In an AC pass the first symbol of an interval comes at its end at the latest. */
  lemma {:induction false} AcSegHas(sc: HScan, st: EncState, mcus: seq<Mcu>)
    requires sc.Valid() && AllFit(sc, mcus) && (sc.pass.mode.AcFirstPass? || sc.pass.mode.AcRefinePass?)
    requires mcus != [] || st.e > 0
    ensures HasAc(SegItems(sc, st, mcus), sc.acTbl[0])
    decreases |mcus|
  {
    hide HasAc, EobItems, FlushItems, FirstBlock, RefBlock;
    var tbl := sc.acTbl[0];
    if mcus == [] {
      EobHas(tbl, st.e);
      FlushHas(tbl, st.e, st.corr);
    } else {
      var (items, st1) := McuItems(sc, st, mcus[0], 0);
      AcMcuHas(sc, st, mcus[0]);
      if !HasAc(items, tbl) {
        AcSegHas(sc, st1, mcus[1..]);
      }
      HasParts(items, SegItems(sc, st1, mcus[1..]), tbl);
    }
  }

  lemma AcMcuHas(sc: HScan, st: EncState, mcu: Mcu)
    requires sc.Valid() && Fits(sc, mcu) && (sc.pass.mode.AcFirstPass? || sc.pass.mode.AcRefinePass?)
    ensures var (items, st1) := McuItems(sc, st, mcu, 0); HasAc(items, sc.acTbl[0]) || st1.e > 0
  {
    hide HasAc, FirstBlock, RefBlock;
    var t := Transformed(mcu[0], sc.pass.al);
    FirstBlockHas(sc.acTbl[0], t, sc.pass.ss, sc.pass.se, st.e);
    RefBlockHas(sc.acTbl[0], t, sc.pass.ss, sc.pass.se, st.e, st.corr);
    var (items, st1) := BlockItems(sc, st, sc.membership[0], mcu[0]);
    assert McuItems(sc, st1, mcu, 1) == ([], st1);
    assert McuItems(sc, st, mcu, 0) == (items + [], st1);
    assert items + [] == items;
  }

  /** A restart interval sends a symbol of every table of the scan. */
  lemma SegmentHas(sc: HScan, mcus: seq<Mcu>)
    requires sc.Valid() && AllFit(sc, mcus) && mcus != [] && AllInMcu(sc)
    ensures EveryTableUsed(sc, SegItems(sc, ENC0, mcus))
  {
    hide HasDc, HasAc, McuItems;
    var (items, st1) := McuItems(sc, ENC0, mcus[0], 0);
    var rest := SegItems(sc, st1, mcus[1..]);
    forall i | 0 <= i < NUM_HUFF_TBLS
      ensures sc.UsesDc(i) ==> HasDc(items + rest, i)
    {
      if sc.UsesDc(i) {
        var ci :| 0 <= ci < |sc.dcTbl| && sc.dcTbl[ci] == i;
        assert ci in sc.membership;
        var j :| 0 <= j < |sc.membership| && sc.membership[j] == ci;
        McuHas(sc, ENC0, mcus[0], 0, j);
        HasParts(items, rest, i);
      }
    }
    forall i | 0 <= i < NUM_HUFF_TBLS
      ensures sc.UsesAc(i) ==> HasAc(items + rest, i)
    {
      if sc.UsesAc(i) {
        var ci :| 0 <= ci < |sc.acTbl| && sc.acTbl[ci] == i;
        assert ci in sc.membership;
        var j :| 0 <= j < |sc.membership| && sc.membership[j] == ci;
        if sc.pass.mode.Sequential? {
          McuHas(sc, ENC0, mcus[0], 0, j);
          HasParts(items, rest, i);
        } else {
          assert 0 in sc.membership;
          assert ci == 0;
          AcSegHas(sc, ENC0, mcus);
        }
      }
    }
  }

  lemma {:induction false} AllHave(sc: HScan, segs: seq<seq<Mcu>>)
    requires sc.Valid() && AllInMcu(sc) && forall i :: 0 <= i < |segs| ==> AllFit(sc, segs[i])
    requires segs != [] && segs[|segs| - 1] != []
    ensures EveryTableUsed(sc, AllItems(sc, segs))
  {
    hide HasDc, HasAc, SegItems, AllInMcu, AllFit;
    var n := |segs| - 1;
    SegmentHas(sc, segs[n]);
    forall i | 0 <= i < NUM_HUFF_TBLS
      ensures (sc.UsesDc(i) ==> HasDc(AllItems(sc, segs), i)) && (sc.UsesAc(i) ==> HasAc(AllItems(sc, segs), i))
    {
      HasParts(AllItems(sc, segs[..n]), SegItems(sc, ENC0, segs[n]), i);
    }
  }

  // ----- the statistics can be made into tables

  lemma {:induction false} FewPresent(f: OptimalCode.Counts, n: nat, a: nat, b: nat)
    requires n <= OptimalCode.SYMBOLS && a < b < OptimalCode.SYMBOLS && f[a] == 0 && f[b] == 0
    ensures SumTo(OptimalCode.Present(f), n) + (if a < n then 1 else 0) + (if b < n then 1 else 0) <= n
  {
    if n > 0 {
      FewPresent(f, n - 1, a, b);
    }
  }

  lemma NeverSent(sc: HScan, items: seq<Item>, x: Item)
    requires AllSound(sc, items) && !Sound(sc, x)
    ensures Occurrences(items, x) == 0
  {
    hide Sound;
    if Occurrences(items, x) > 0 {
      Occurring(items, x);
    }
  }

  lemma DcGenerable(sc: HScan, items: seq<Item>, tbl: nat)
    requires AllSound(sc, items) && HasDc(items, tbl) && Sum(DcFreq(items, tbl)) <= OptimalCode.LIMIT
    ensures Generable(DcFreq(items, tbl))
  {
    hide Occurrences, OptimalCode.Present;
    var f := DcFreq(items, tbl);
    var i :| 0 <= i < |items| && items[i].DcSym? && items[i].tbl == tbl;
    assert Sound(sc, items[i]);
    OccursOnce(items, i);
    assert f[items[i].sym] > 0;
    NeverSent(sc, items, DcSym(tbl, 16));
    NeverSent(sc, items, DcSym(tbl, 17));
    FewPresent(f, OptimalCode.SYMBOLS, 16, 17);
  }

  lemma AcGenerable(sc: HScan, items: seq<Item>, tbl: nat)
    requires AllSound(sc, items) && HasAc(items, tbl) && Sum(AcFreq(items, tbl)) <= OptimalCode.LIMIT
    ensures Generable(AcFreq(items, tbl))
  {
    hide Occurrences, OptimalCode.Present;
    var f := AcFreq(items, tbl);
    var i :| 0 <= i < |items| && items[i].AcSym? && items[i].tbl == tbl;
    assert Sound(sc, items[i]);
    OccursOnce(items, i);
    assert f[items[i].sym] > 0;
    NeverSent(sc, items, AcSym(tbl, 11));
    NeverSent(sc, items, AcSym(tbl, 12));
    FewPresent(f, OptimalCode.SYMBOLS, 11, 12);
  }

  /** jpeg_gen_optimal_table is given what it expects, provided only that the counts are not
      too large. */
  lemma StatisticsGatherable(sc: HScan, items: seq<Item>)
    requires AllSound(sc, items) && EveryTableUsed(sc, items) && Countable(sc, items)
    ensures Gatherable(sc, items)
  {
    hide HasDc, HasAc, AllSound, Generable, DcFreq, AcFreq, HScan.UsesDc, HScan.UsesAc;
    forall i | 0 <= i < NUM_HUFF_TBLS
      ensures (sc.UsesDc(i) ==> Generable(DcFreq(items, i))) && (sc.UsesAc(i) ==> Generable(AcFreq(items, i)))
    {
      if sc.UsesDc(i) { DcGenerable(sc, items, i); }
      if sc.UsesAc(i) { AcGenerable(sc, items, i); }
    }
  }
}
