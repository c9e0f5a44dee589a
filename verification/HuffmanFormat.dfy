/** What the symbols and bits of Huffman coding are: canonical codes, the numbers that stand
    for values, run lengths and end-of-band runs (ITU-T T.81, annex C and sections F.1.2 and
    G.1.2). */
module HuffmanFormat {
  import opened JpegLib
  import opened Arithmetic
  import opened Bytes
  import opened Blocks
  import opened BitStreams
  import opened CodeTable
  import opened HuffmanItems
  import opened HuffmanBlocks
  import opened HuffmanFirst
  import opened HuffmanRefine
  import opened HuffmanScan

  // ----- bits

  /** Bits are sent with the most significant first. */
  lemma {:induction false} BitIs(v: nat, n: nat, i: nat)
    requires i < n
    ensures BitsOf(v, n)[i] == v / Pow2(n - 1 - i) % 2
  {
    if i < n - 1 {
      BitIs(v / 2, n - 1, i);
      HalfPower(v, n - 2 - i);
    } else {
      assert Pow2(0) == 1;
    }
  }

  lemma HalfPower(v: nat, k: nat)
    ensures v / 2 / Pow2(k) == v / Pow2(k + 1)
  {
    var q := Pow2(k);
    var h := v / 2 / q;
    assert Pow2(k + 1) == 2 * q;
    var r := v - h * (2 * q);
    assert v / 2 == h * q + v / 2 % q;
    assert 0 <= r < 2 * q;
    QuotientIs(v, 2 * q, h, r);
  }

  lemma {:induction false} ByteBitIs(p: seq<byte>, i: nat, j: nat)
    requires i < |p| && j < 8
    ensures ByteBits(p)[8 * i + j] == p[i] / Pow2(7 - j) % 2
  {
    if i == 0 {
      BitIs(p[0], 8, j);
    } else {
      ByteBitIs(p[1..], i - 1, j);
    }
  }

  // ----- codes (annex C)

  /** Codes are assigned in order of their lengths, without gaps: the first is 0, and each
      is the one before plus 1, with zeros behind it if it is longer. */
  lemma CodesInOrder(t: HuffTable, p: nat)
    requires CountsOk(t) && p < |Sizes(t)|
    ensures p == 0 ==> Code(Sizes(t), p) == 0
    ensures p > 0 ==> var s := Sizes(t);
      s[p - 1] <= s[p] && Code(s, p) == (Code(s, p - 1) + 1) * Pow2(s[p] - s[p - 1])
  {
    var s := Sizes(t);
    hide SizesTo, Pow2;
    if p == 0 {
      QuotientIs(0, Pow2(MAX_LENGTH - s[0]), 0, 0);
    } else {
      var q, d := Pow2(MAX_LENGTH - s[p]), Pow2(s[p] - s[p - 1]);
      AreaDivides(s, p - 1, s[p - 1]);
      PowerSum(s[p] - s[p - 1], MAX_LENGTH - s[p]);
      var u := Pow2(MAX_LENGTH - s[p - 1]);
      var c := Code(s, p - 1);
      Whole(Area(s, p - 1), u);
      OneMoreOf(c, u);
      Regrouped(c + 1, d, q);
      assert Area(s, p) == (c + 1) * d * q;
      QuotientIs(Area(s, p), q, (c + 1) * d, 0);
    }
  }

  lemma PowerSum(j: nat, k: nat)
    ensures Pow2(j + k) == Pow2(j) * Pow2(k)
  {
    ShlShl(1, j, k);
    ShlTimes(Pow2(j), k);
  }

  lemma Whole(a: nat, u: nat)
    requires u > 0 && a % u == 0
    ensures a == Quotient(a, u) * u
  {
  }

  lemma OneMoreOf(c: nat, u: nat)
    ensures c * u + u == (c + 1) * u
  {
  }

  lemma Regrouped(a: nat, b: nat, c: nat)
    ensures a * (b * c) == a * b * c
  {
  }

  // ----- values (tables F.1 and F.2)

  /** The size of a magnitude is its number of binary digits. */
  lemma SizeIs(a: nat, n: nat)
    ensures NBits(a) == n <==> if n == 0 then a == 0 else Pow2(n - 1) <= a < Pow2(n)
  {
    hide Pow2;
    if a > 0 {
      NBitsBounds(a);
      Pow2Next(NBits(a) - 1);
      if n > NBits(a) {
        Pow2Monotone(NBits(a), n - 1);
      } else if 0 < n < NBits(a) {
        Pow2Monotone(n, NBits(a) - 1);
      }
    }
  }

  /** The values of one size are numbered from 0 in ascending order, the negative ones first:
      the least is number 0, the greatest number 2^n - 1, and greater ones have greater
      numbers. */
  lemma ValuesNumbered(v: int, w: int)
    requires NBits(Abs(v)) == NBits(Abs(w)) > 0 && v < w
    ensures Extra(v) < Extra(w) < Pow2(NBits(Abs(w)))
    ensures v == 1 - Pow2(NBits(Abs(v))) ==> Extra(v) == 0
    ensures w == Pow2(NBits(Abs(w))) - 1 ==> Extra(w) == Pow2(NBits(Abs(w))) - 1
  {
    NBitsBounds(Abs(v));
    NBitsBounds(Abs(w));
    Pow2Next(NBits(Abs(v)) - 1);
  }

  /** Next to each other within a sign, and across the gap between the signs. */
  lemma NumbersAdjacent(v: int, n: nat)
    requires n > 0 && (Pow2(n - 1) <= Abs(v) < Pow2(n))
    ensures NBits(Abs(v)) == n
    ensures v > Pow2(n - 1) || 1 - Pow2(n) < v < 0 ==> NBits(Abs(v - 1)) == n && Extra(v) == Extra(v - 1) + 1
    ensures v == Pow2(n - 1) ==> NBits(Abs(-v)) == n && Extra(v) == Extra(-v) + 1
  {
    SizeIs(Abs(v), n);
    Pow2Next(n - 1);
    if v > Pow2(n - 1) || 1 - Pow2(n) < v < 0 {
      SizeIs(Abs(v - 1), n);
    }
  }

  // ----- sequential blocks

  /** A DC coefficient is sent as how much it exceeds its prediction. */
  lemma DifferenceSent(sc: HScan, st: EncState, ci: nat, z: Block)
    requires sc.Valid() && ci < |sc.dcTbl| && sc.pass.CodesDc()
    ensures var x, (items, st1) := Shift(z[0], sc.pass.al) - st.preds[ci], BlockItems(sc, st, ci, z);
            var n := NBits(Abs(x));
            && [DcSym(sc.dcTbl[ci], n)] + (if n > 0 then [Raw(Extra(x), n)] else []) <= items
            && st1.preds == st.preds[ci := Shift(z[0], sc.pass.al)]
  {
    hide NBits, Extra, AcItems;
    assert Pow2(0) == 1;
  }

  /** A nonzero coefficient at n with only zeros from k on: a symbol 0xF0 for every sixteen
      of them, then the symbol of the others and the size, then its number. */
  lemma {:induction false} RunIs(tbl: nat, z: seq<int>, k: nat, r: nat, n: nat, se: nat)
    requires k <= n <= se < |z| && z[n] != 0 && forall j :: k <= j < n ==> z[j] == 0
    ensures AcItems(tbl, z, k, r, se)
      == Zrls(tbl, (r + n - k) / 16)
      + ([AcSym(tbl, 16 * ((r + n - k) % 16) + NBits(Abs(z[n]))), Raw(Extra(z[n]), NBits(Abs(z[n])))]
         + AcItems(tbl, z, n + 1, 0, se))
    decreases n - k
  {
    hide NBits, Extra, Zrls;
    if k < n {
      RunIs(tbl, z, k + 1, r + 1, n, se);
    }
  }

  lemma {:induction false} SixteenZeros(tbl: nat, m: nat, i: nat)
    requires i < m
    ensures Zrls(tbl, m)[i] == AcSym(tbl, 0xF0)
  {
    if i > 0 {
      SixteenZeros(tbl, m - 1, i - 1);
    }
  }

  /** Nothing but zeros left: one symbol 0. */
  lemma {:induction false} RestIs(tbl: nat, z: seq<int>, k: nat, r: nat, se: nat)
    requires k <= se + 1 && se < |z| && forall j :: k <= j <= se ==> z[j] == 0
    ensures AcItems(tbl, z, k, r, se) == if r > 0 || k <= se then [AcSym(tbl, 0)] else []
    decreases se + 1 - k
  {
    if k <= se {
      RestIs(tbl, z, k + 1, r + 1, se);
    }
  }

  // ----- AC passes

  /** A coefficient of a first pass: the same. */
  lemma {:induction false} BandRunIs(tbl: nat, t: seq<int>, k: nat, r: nat, n: nat, se: nat)
    requires k <= n <= se < |t| && t[n] != 0 && forall j :: k <= j < n ==> t[j] == 0
    ensures CoefItems(tbl, t, k, r, se)
      == Zrls(tbl, (r + n - k) / 16)
      + ([AcSym(tbl, 16 * ((r + n - k) % 16) + NBits(Abs(t[n]))), Raw(Extra(t[n]), NBits(Abs(t[n])))]
         + CoefItems(tbl, t, n + 1, 0, se))
    decreases n - k
  {
    hide NBits, Extra, Zrls;
    if k < n {
      BandRunIs(tbl, t, k + 1, r + 1, n, se);
    }
  }

  /** A run of e bands without further coefficients, for 2^n <= e < 2^(n + 1): the symbol
      16 n, and e - 2^n in n bits. */
  lemma EndRunIs(tbl: nat, e: nat, n: nat)
    requires Pow2(n) <= e < Pow2(n + 1)
    ensures EobItems(tbl, e) == [AcSym(tbl, 16 * n)] + if n > 0 then [Raw(e - Pow2(n), n)] else []
  {
    Log2Bounds(e);
    if Log2(e) < n {
      Pow2Monotone(Log2(e) + 1, n);
    } else if Log2(e) > n {
      Pow2Monotone(n + 1, Log2(e));
    }
  }

  /** Bands of zeros are only counted, over any number of blocks, and their run is sent when
      it reaches 0x7FFF. */
  lemma {:induction false} EmptyBands(tbl: nat, zs: seq<seq<int>>, rest: seq<seq<int>>, ss: nat, se: nat, e: nat)
    requires 0 < ss <= se && forall i :: 0 <= i < |zs| ==> se < |zs[i]| && Empty(zs[i], ss, se)
    requires forall i :: 0 <= i < |rest| ==> se < |rest[i]|
    requires e < 0x7FFF && e + |zs| <= 0x7FFF
    ensures FirstItems(tbl, zs + rest, ss, se, e)
      == if e + |zs| < 0x7FFF then FirstItems(tbl, rest, ss, se, e + |zs|)
         else EobItems(tbl, 0x7FFF) + FirstItems(tbl, rest, ss, se, 0)
  {
    hide EobItems, FirstItems, FirstBlock, Empty;
    if zs == [] {
      assert zs + rest == rest;
    } else {
      assert (zs + rest)[1..] == zs[1..] + rest && (zs + rest)[0] == zs[0];
      EmptyBand(tbl, zs + rest, ss, se, e);
      if e + 1 < 0x7FFF {
        EmptyBands(tbl, zs[1..], rest, ss, se, e + 1);
      } else {
        assert zs[1..] + rest == rest;
      }
    }
  }

  lemma EmptyBand(tbl: nat, blocks: seq<seq<int>>, ss: nat, se: nat, e: nat)
    requires 0 < ss <= se && blocks != [] && forall i :: 0 <= i < |blocks| ==> se < |blocks[i]|
    requires Empty(blocks[0], ss, se)
    ensures FirstItems(tbl, blocks, ss, se, e)
      == if e + 1 == 0x7FFF then EobItems(tbl, 0x7FFF) + FirstItems(tbl, blocks[1..], ss, se, 0)
         else FirstItems(tbl, blocks[1..], ss, se, e + 1)
  {
    hide EobItems, CoefItems;
    var next := FirstItems(tbl, blocks[1..], ss, se, e + 1);
    assert LastNonzero(blocks[0], ss, se) == ss - 1;
    assert [] + EobItems(tbl, 0x7FFF) == EobItems(tbl, 0x7FFF);
    assert FirstBlock(tbl, blocks[0], ss, se, e)
      == if e + 1 == 0x7FFF then (EobItems(tbl, 0x7FFF), 0) else ([], e + 1);
    assert [] + next == next;
  }

  predicate Empty(t: seq<int>, ss: nat, se: nat)
    requires se < |t|
  {
    forall k :: ss <= k <= se ==> t[k] == 0
  }

  /** In front of a coefficient the run is sent; a new one begins with the zeros behind the
      last coefficient of the band. */
  lemma RunEnds(tbl: nat, t: seq<int>, ss: nat, se: nat, e: nat)
    requires 0 < ss <= se < |t| && !Empty(t, ss, se)
    ensures FirstBlock(tbl, t, ss, se, e)
      == (EobItems(tbl, e) + CoefItems(tbl, t, ss, 0, se), if t[se] == 0 then 1 else 0)
  {
    hide EobItems, CoefItems;
  }

  /** A newly nonzero coefficient at n, with fewer than 16 zeros in front of it: the symbol of
      the zeros and of size 1, a bit that is 1 if it is positive, and then the next bits of
      the coefficients already nonzero that were passed over. */
  lemma {:induction false} NewIs(tbl: nat, t: seq<int>, k: nat, r: nat, br: seq<bit>, n: nat, eob: nat)
    requires k <= n <= eob < |t| && Abs(t[n]) == 1 && (forall j :: k <= j < n ==> Abs(t[j]) != 1)
    requires r + Zeros(t, k, n) <= 15
    ensures HeadItems(tbl, t, k, r, br, eob)
      == [AcSym(tbl, 16 * (r + Zeros(t, k, n)) + 1)]
      + ([Raw(if t[n] > 0 then 1 else 0, 1)]
         + (RawBits(br + CorrBits(t, k, n)) + HeadItems(tbl, t, n + 1, 0, [], eob)))
    decreases n - k
  {
    hide RawBits;
    CorrSplit(t, k, k + (if k < n then 1 else 0), n);
    if k == n {
      assert br + CorrBits(t, k, n) == br;
    } else if t[k] == 0 {
      NewIs(tbl, t, k + 1, r + 1, br, n, eob);
      CorrOne(t, k);
      assert br + CorrBits(t, k, n) == br + CorrBits(t, k + 1, n);
    } else {
      NewIs(tbl, t, k + 1, r, br + [Abs(t[k]) % 2], n, eob);
      CorrOne(t, k);
      assert br + CorrBits(t, k, n) == br + [Abs(t[k]) % 2] + CorrBits(t, k + 1, n);
    }
  }

  /** At a nonzero coefficient behind 16 zeros or more: the symbol 0xF0, and the bits of the
      coefficients passed over. */
  lemma LongRunIs(tbl: nat, t: seq<int>, k: nat, r: nat, br: seq<bit>, eob: nat)
    requires k <= eob < |t| && t[k] != 0 && r >= 16
    ensures HeadItems(tbl, t, k, r, br, eob)
      == [AcSym(tbl, 0xF0)] + (RawBits(br) + HeadItems(tbl, t, k, r - 16, [], eob))
  {
  }

  /** A band without newly nonzero coefficients lengthens the run, and its bits wait behind
      those already waiting; the run is sent, and the bits behind it, when it reaches 0x7FFF or
      another block might bring the bits above 1000. */
  lemma NothingNew(tbl: nat, t: seq<int>, ss: nat, se: nat, e: nat, corr: seq<bit>)
    requires 0 < ss <= se < |t| && forall k :: ss <= k <= se ==> Abs(t[k]) != 1
    ensures var bits := corr + CorrBits(t, ss, se + 1);
            RefBlock(tbl, t, ss, se, e, corr)
              == if e + 1 == 0x7FFF || |bits| + 63 > 1000 then (EobItems(tbl, e + 1) + RawBits(bits), 0, [])
                 else ([], e + 1, bits)
  {
    hide EobItems, RawBits, CorrBits;
    assert [] + (EobItems(tbl, e + 1) + RawBits(corr + CorrBits(t, ss, se + 1)))
      == EobItems(tbl, e + 1) + RawBits(corr + CorrBits(t, ss, se + 1));
  }

  /** In front of the symbols of a newly nonzero coefficient the run is sent with its bits; what
      remains of the band behind the last such coefficient, at n, begins the next run. */
  lemma RunAndBits(tbl: nat, t: seq<int>, ss: nat, se: nat, e: nat, corr: seq<bit>, n: nat)
    requires 0 < ss <= n <= se < DCTSIZE2 && se < |t|
    requires Abs(t[n]) == 1 && forall k :: n < k <= se ==> Abs(t[k]) != 1
    ensures var (head, behind) := (HeadItems(tbl, t, ss, 0, [], n), CorrBits(t, n + 1, se + 1));
            var (items, e1, bits) := RefBlock(tbl, t, ss, se, e, corr);
            && items == (if e > 0 then EobItems(tbl, e) + RawBits(corr) else []) + head
            && e1 == (if n < se then 1 else 0)
            && bits == if n < se then behind else []
  {
    hide EobItems, RawBits, HeadItems, CorrBits, LastNew;
    LastNewIs(t, ss, se, n);
    if n < se {
      CorrFew(t, n + 1, se + 1);
      var behind := CorrBits(t, n + 1, se + 1);
      assert |behind| <= 63;
      assert [] + behind == behind;
    }
  }

  lemma LastNewIs(t: seq<int>, ss: nat, se: nat, n: nat)
    requires 0 < ss <= n <= se < |t| && Abs(t[n]) == 1 && forall k :: n < k <= se ==> Abs(t[k]) != 1
    ensures LastNew(t, ss, se) == n
  {
  }

  /** The bits sent for coefficients already nonzero are their lowest ones, in order. */
  lemma {:induction false} CorrectionIs(t: seq<int>, k: nat, n: nat, j: nat)
    requires k <= j < n <= |t| && Abs(t[j]) > 1
    ensures |CorrBits(t, k, j)| < |CorrBits(t, k, n)|
    ensures CorrBits(t, k, n)[|CorrBits(t, k, j)|] == Abs(t[j]) % 2
    decreases j - k
  {
    CorrSplit(t, k, j, n);
  }

  // ----- predictions

  /** A DC coefficient is predicted by the last one of its component in the interval. */
  lemma {:induction false} PredictedByLast(sc: HScan, st: EncState, mcu: Mcu, i: nat, b: nat)
    requires sc.Valid() && Fits(sc, mcu) && i <= b < |mcu| && sc.pass.CodesDc()
    requires forall j :: b < j < |mcu| ==> sc.membership[j] != sc.membership[b]
    ensures McuItems(sc, st, mcu, i).1.preds[sc.membership[b]] == Shift(mcu[b][0], sc.pass.al)
    decreases |mcu| - i
  {
    hide BlockItems, Shift;
    var ci := sc.membership[i];
    DifferenceSent(sc, st, ci, mcu[i]);
    var st1 := BlockItems(sc, st, ci, mcu[i]).1;
    if i < b {
      PredictedByLast(sc, st1, mcu, i + 1, b);
    } else {
      OthersPredicted(sc, st1, mcu, i + 1, ci);
    }
  }

  lemma {:induction false} OthersPredicted(sc: HScan, st: EncState, mcu: Mcu, i: nat, ci: nat)
    requires sc.Valid() && Fits(sc, mcu) && i <= |mcu| && ci < |sc.dcTbl| && sc.pass.CodesDc()
    requires forall j :: i <= j < |mcu| ==> sc.membership[j] != ci
    ensures McuItems(sc, st, mcu, i).1.preds[ci] == st.preds[ci]
    decreases |mcu| - i
  {
    hide BlockItems, Shift;
    if i < |mcu| {
      DifferenceSent(sc, st, sc.membership[i], mcu[i]);
      OthersPredicted(sc, BlockItems(sc, st, sc.membership[i], mcu[i]).1, mcu, i + 1, ci);
    }
  }
}
