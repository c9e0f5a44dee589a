/** Symbol statistics of a scan, and the optimal tables made from them. */
module HuffmanStatistics {
  import opened JpegLib
  import opened Bytes
  import opened Sums
  import opened BitStreams
  import opened CodeTable
  import opened HuffmanItems
  import opened HuffmanRefine
  import opened HuffmanScan
  import opened HuffmanSegments
  import OptimalCode
  import LengthLimits
  import OptimalTable

  /** How often x occurs. */
  function Occurrences(items: seq<Item>, x: Item): nat
  {
    if items == [] then 0
    else Occurrences(items[..|items| - 1], x) + if items[|items| - 1] == x then 1 else 0
  }

  lemma SymbolsSnoc(items: seq<Item>, x: Item)
    ensures forall i,
      s :: Occurrences(items + [x], DcSym(i, s)) == Occurrences(items, DcSym(i, s)) + if x == DcSym(i, s) then 1 else 0
    ensures forall i,
      s :: Occurrences(items + [x], AcSym(i, s)) == Occurrences(items, AcSym(i, s)) + if x == AcSym(i, s) then 1 else 0
  {
    assert (items + [x])[..|items|] == items;
  }

  lemma {:induction false} OccursOnce(items: seq<Item>, i: nat)
    requires i < |items|
    ensures Occurrences(items, items[i]) > 0
  {
    var n := |items| - 1;
    if i < n {
      assert items[..n][i] == items[i];
      OccursOnce(items[..n], i);
    }
  }

  lemma {:induction false} RawUncounted(items: seq<Item>, b: seq<bit>)
    ensures forall i, s :: Occurrences(items + RawBits(b), DcSym(i, s)) == Occurrences(items, DcSym(i, s))
    ensures forall i, s :: Occurrences(items + RawBits(b), AcSym(i, s)) == Occurrences(items, AcSym(i, s))
    decreases |b|
  {
    if b == [] {
      assert items + RawBits(b) == items;
    } else {
      var n := |b| - 1;
      RawUncounted(items, b[..n]);
      SymbolsSnoc(items + RawBits(b[..n]), Raw(b[n], 1));
      assert items + RawBits(b) == (items + RawBits(b[..n])) + [Raw(b[n], 1)];
    }
  }

  lemma {:induction false} Occurring(items: seq<Item>, x: Item)
    requires Occurrences(items, x) > 0
    ensures exists i :: 0 <= i < |items| && items[i] == x
  {
    var n := |items| - 1;
    if items[n] != x {
      Occurring(items[..n], x);
      var i :| 0 <= i < n && items[..n][i] == x;
      assert items[i] == x;
    }
  }

  // ----- tables

  /** What jpeg_gen_optimal_table expects of the counts, the pseudo-symbol included: some
      real symbol, at most 254 of them, and a total that does not exceed its notion of
      infinity. */
  ghost predicate Generable(f: OptimalCode.Counts)
  {
    && (exists r :: 0 <= r < MAX_SYMBOLS && f[r] > 0) && OptimalCode.Active(f) <= 255
    && Sum(f) <= OptimalCode.LIMIT
  }

  ghost predicate MadeFrom(f: OptimalCode.Counts, cs: OptimalCode.Lengths, t: HuffTable)
  {
    OptimalTable.Optimal(f, cs) && LengthLimits.TableFor(f, cs, t)
  }

  ghost predicate Deep(f: OptimalCode.Counts, cs: OptimalCode.Lengths)
  {
    OptimalTable.Optimal(f, cs) && exists s :: 0 <= s < OptimalCode.SYMBOLS && cs[s] > LengthLimits.MAX_CLEN
  }

  /** A table made from the optimal code lengths for the counts. */
  ghost predicate OptimalFor(f: OptimalCode.Counts, t: HuffTable)
  {
    exists cs: OptimalCode.Lengths :: MadeFrom(f, cs, t)
  }

  /** The optimal code is too deep to be limited. */
  ghost predicate TooDeep(f: OptimalCode.Counts)
  {
    exists cs: OptimalCode.Lengths :: Deep(f, cs)
  }

  /** The counts of a table, and 1 for the pseudo-symbol. */
  function Row(counts: array2<nat>, i: nat): (f: OptimalCode.Counts)
    requires i < counts.Length0 && counts.Length1 == OptimalCode.SYMBOLS
    reads counts
    ensures forall s :: 0 <= s < OptimalCode.SYMBOLS ==> f[s] == if s == MAX_SYMBOLS then 1 else counts[i, s]
  {
    seq(OptimalCode.SYMBOLS, s requires 0 <= s < OptimalCode.SYMBOLS reads counts => if s
      == MAX_SYMBOLS then 1 else counts[i, s])
  }

  /** One table, from a copy of its counts. */
  method OneTable(counts: array2<nat>, i: nat) returns (ok: bool, t: HuffTable)
    requires i < counts.Length0 && counts.Length1 == OptimalCode.SYMBOLS && Generable(Row(counts, i))
    ensures ok ==> OptimalFor(Row(counts, i), t)
    ensures !ok ==> TooDeep(Row(counts, i))
  {
    hide OptimalCode.Active, Sum, OptimalTable.Optimal, LengthLimits.TableFor;
    var freq := new nat[OptimalCode.SYMBOLS](s requires 0 <= s < OptimalCode.SYMBOLS reads counts => counts[i, s]);
    assert freq[..][MAX_SYMBOLS := 1] == Row(counts, i);
    ghost var r :| 0 <= r < MAX_SYMBOLS && Row(counts, i)[r] > 0;
    assert freq[r] > 0;
    ghost var cs;
    ok, t, cs := LengthLimits.GenOptimalTable(freq);
    assert if ok then MadeFrom(Row(counts, i), cs, t) else Deep(Row(counts, i), cs);
  }

  /** jpeg_gen_optimal_table once for each of the tables with the given numbers. */
  method OptimalTables(counts: array2<nat>, used: seq<nat>, tables: seq<HuffTable>)
    returns (ok: bool, made: seq<HuffTable>)
    requires counts.Length0 == NUM_HUFF_TBLS == |tables| && counts.Length1 == OptimalCode.SYMBOLS
    requires forall j :: 0 <= j < |used| ==> used[j] < NUM_HUFF_TBLS && Generable(Row(counts, used[j]))
    ensures ok ==> |made| == NUM_HUFF_TBLS
    ensures ok ==> forall i :: 0 <= i < NUM_HUFF_TBLS ==>
      if i in used then OptimalFor(Row(counts, i), made[i]) else made[i] == tables[i]
    ensures !ok ==> exists j :: 0 <= j < |used| && TooDeep(Row(counts, used[j]))
  {
    hide Generable, OptimalFor, TooDeep, Row;
    var did := seq(NUM_HUFF_TBLS, _ => false);
    made := tables;
    for j := 0 to |used|
      invariant |made| == |did| == NUM_HUFF_TBLS
      invariant forall i :: 0 <= i < NUM_HUFF_TBLS ==> (did[i] <==> i in used[..j])
      invariant forall i :: 0 <= i < NUM_HUFF_TBLS ==>
        if did[i] then OptimalFor(Row(counts, i), made[i]) else made[i] == tables[i]
    {
      var tbl := used[j];
      assert used[..j + 1] == used[..j] + [tbl];
      if !did[tbl] {
        var t;
        ok, t := OneTable(counts, tbl);
        if !ok {
          return;
        }
        made := made[tbl := t];
        did := did[tbl := true];
      }
    }
    ok := true;
    assert used[..|used|] == used;
  }

  // ----- the tables cover what was counted

  /** The counts of the items. */
  function DcFreq(items: seq<Item>, tbl: nat): (f: OptimalCode.Counts)
    ensures forall s :: 0 <= s < OptimalCode.SYMBOLS ==>
      f[s] == if s == MAX_SYMBOLS then 1 else Occurrences(items, DcSym(tbl, s))
  {
    seq(OptimalCode.SYMBOLS, s requires 0 <= s < OptimalCode.SYMBOLS => if s
      == MAX_SYMBOLS then 1 else Occurrences(items, DcSym(tbl, s)))
  }

  function AcFreq(items: seq<Item>, tbl: nat): (f: OptimalCode.Counts)
    ensures forall s :: 0 <= s < OptimalCode.SYMBOLS ==>
      f[s] == if s == MAX_SYMBOLS then 1 else Occurrences(items, AcSym(tbl, s))
  {
    seq(OptimalCode.SYMBOLS, s requires 0 <= s < OptimalCode.SYMBOLS => if s
      == MAX_SYMBOLS then 1 else Occurrences(items, AcSym(tbl, s)))
  }

  /** The statistics of a scan can be made into tables. */
  ghost predicate Gatherable(sc: HScan, items: seq<Item>)
  {
    forall i :: 0 <= i < NUM_HUFF_TBLS ==>
      (sc.UsesDc(i) ==> Generable(DcFreq(items, i))) && (sc.UsesAc(i) ==> Generable(AcFreq(items, i)))
  }

  /** They were made into these tables. */
  ghost predicate Gathered(sc: HScan, items: seq<Item>, dc: seq<HuffTable>, ac: seq<HuffTable>)
    requires |dc| == |ac| == NUM_HUFF_TBLS
  {
    forall i :: 0 <= i < NUM_HUFF_TBLS ==>
      (sc.UsesDc(i) ==> OptimalFor(DcFreq(items, i), dc[i])) && (sc.UsesAc(i) ==> OptimalFor(AcFreq(items, i), ac[i]))
  }

  /** One of them is too deep. */
  ghost predicate SomeDeep(sc: HScan, items: seq<Item>)
  {
    exists i ::
        0 <= i < NUM_HUFF_TBLS
        && ((sc.UsesDc(i) && TooDeep(DcFreq(items, i))) || (sc.UsesAc(i) && TooDeep(AcFreq(items, i))))
  }

  lemma InTable(t: HuffTable, sym: nat)
    requires CountsOk(t) && sym in t.huffval[..|Sizes(t)|]
    ensures HasCode(t, sym)
  {
    hide SizesTo;
    var q :| 0 <= q < |Sizes(t)| && t.huffval[..|Sizes(t)|][q] == sym;
    assert t.huffval[q] == sym;
  }

  lemma OptimalCovers(f: OptimalCode.Counts, t: HuffTable, s: nat)
    requires OptimalFor(f, t) && s < MAX_SYMBOLS
    ensures CountsOk(t) && SymbolsOk(t, false)
    ensures f[s] > 0 <==> s in t.huffval[..|Sizes(t)|]
    ensures f[s] > 0 ==> HasCode(t, s)
  {
    hide OptimalTable.Optimal, CountsOk, SymbolsOk, Sizes, HasCode;
    var cs: OptimalCode.Lengths :| MadeFrom(f, cs, t);
    var b: byte := s;
    assert f[b] == f[s];
    if f[s] > 0 {
      InTable(t, s);
    }
  }

  /** Tables made from the counts of a scan can be used, and have a code for each of its
      symbols: encoding never meets a missing code. */
  lemma TablesCover(sc: HScan, items: seq<Item>, dc: seq<HuffTable>, ac: seq<HuffTable>)
    requires AllSound(sc, items) && |dc| == |ac| == NUM_HUFF_TBLS && Gathered(sc, items, dc, ac)
    ensures Usable(sc, dc, ac) && TablesOf(sc, dc, ac).Valid() && AllCodable(TablesOf(sc, dc, ac), items)
  {
    hide OptimalFor, HasCode, CountsOk, TableUsable, DcFreq, AcFreq;
    forall i | 0 <= i < NUM_HUFF_TBLS
      ensures (sc.UsesDc(i) ==> TableUsable(dc[i], true)) && (sc.UsesAc(i) ==> TableUsable(ac[i], false))
    {
      if sc.UsesDc(i) {
        DcUsable(sc, dc[i], items, i);
      }
      if sc.UsesAc(i) {
        AcUsable(AcFreq(items, i), ac[i]);
      }
    }
    UsableValid(sc, dc, ac);
    var ts := TablesOf(sc, dc, ac);
    forall k | 0 <= k < |items|
      ensures Codable(ts, items[k])
    {
      assert Sound(sc, items[k]);
      OccursOnce(items, k);
      match items[k]
      case DcSym(tbl, sym) => OptimalCovers(DcFreq(items, tbl), dc[tbl], sym);
      case AcSym(tbl, sym) => OptimalCovers(AcFreq(items, tbl), ac[tbl], sym);
      case Raw(v, n) =>
    }
  }

  lemma AcUsable(f: OptimalCode.Counts, t: HuffTable)
    requires OptimalFor(f, t)
    ensures TableUsable(t, false)
  {
    OptimalCovers(f, t, 0);
  }

  lemma UsableValid(sc: HScan, dc: seq<HuffTable>, ac: seq<HuffTable>)
    requires |dc| == |ac| == NUM_HUFF_TBLS && Usable(sc, dc, ac)
    ensures TablesOf(sc, dc, ac).Valid()
  {
    hide CountsOk, SymbolsOk;
    NoTableEmpty();
    forall i | 0 <= i < NUM_HUFF_TBLS
      ensures CountsOk(TablesOf(sc, dc, ac).dc[i]) && CountsOk(TablesOf(sc, dc, ac).ac[i])
    {
      assert (sc.UsesDc(i) ==> TableUsable(dc[i], true)) && (sc.UsesAc(i) ==> TableUsable(ac[i], false));
    }
  }

  /** A DC table made from the counts of a scan has no symbol over 15. */
  lemma DcUsable(sc: HScan, t: HuffTable, items: seq<Item>, tbl: nat)
    requires AllSound(sc, items) && OptimalFor(DcFreq(items, tbl), t)
    ensures TableUsable(t, true)
  {
    hide OptimalFor, HasCode, Occurrences, HScan.UsesDc, HScan.UsesAc, SizesTo;
    var f := DcFreq(items, tbl);
    OptimalCovers(f, t, 0);
    forall p | 0 <= p < |Sizes(t)|
      ensures t.huffval[p] <= 15
    {
      var s := t.huffval[p];
      OptimalCovers(f, t, s);
      assert t.huffval[..|Sizes(t)|][p] == s;
      Occurring(items, DcSym(tbl, s));
      var i :| 0 <= i < |items| && items[i] == DcSym(tbl, s);
      assert Sound(sc, items[i]);
    }
  }
}
