/** What the binary decisions of arithmetic coding are: their bits as numbers, their bins in
    the statistics areas, and the conditioning of DC differences (ITU-T T.81, section F.1.4). */
module DecisionLayout {
  import opened JpegLib
  import opened Arithmetic
  import opened Bytes
  import opened Blocks
  import opened ProbabilityTable
  import opened IntervalCoder
  import opened Magnitudes
  import opened Coefficients
  import opened McuCoding

  // ----- conditioning categories (section F.1.4.4.1.2)

  /** The conditioning category after a difference depends only on its sign and on how its
      magnitude compares with the bounds: zero, small or large. */
  lemma ContextIs(v: int, lower: nat, upper: nat)
    ensures ContextAfter(v, lower, upper)
      == if v == 0 || (lower > 0 && Abs(v) <= Pow2(lower - 1)) then 0
         else if Abs(v) <= Pow2(upper) then (if v > 0 then 4 else 8)
         else (if v > 0 then 12 else 16)
  {
    hide Pow2, Log2;
    if v != 0 {
      CategoryBelow(Abs(v) - 1, lower);
      CategoryAbove(Abs(v) - 1, upper);
    }
  }

  lemma CategoryBelow(w: nat, lower: nat)
    ensures (if w == 0 then 0 else Pow2(Log2(w))) < Pow2(lower) / 2 <==> lower > 0 && w < Pow2(lower - 1)
  {
    if lower > 0 {
      assert Pow2(lower) == 2 * Pow2(lower - 1);
      if w > 0 {
        Log2Bounds(w);
        if Log2(w) < lower - 1 {
          Pow2Monotone(Log2(w) + 1, lower - 1);
        } else {
          Pow2Monotone(lower - 1, Log2(w));
        }
      }
    }
  }

  lemma CategoryAbove(w: nat, upper: nat)
    ensures (if w == 0 then 0 else Pow2(Log2(w))) > Pow2(upper) / 2 <==> w >= Pow2(upper)
  {
    if w > 0 {
      Log2Bounds(w);
      if Log2(w) < upper {
        Pow2Monotone(Log2(w) + 1, upper);
        Pow2Monotone(Log2(w), upper - 1);
        assert Pow2(upper) == 2 * Pow2(upper - 1);
      } else {
        Pow2Monotone(upper, Log2(w));
      }
    }
  }

  // ----- the bits of a magnitude

  /** A magnitude w + 1 above 1 is sent as the number of binary digits of w in unary, and
      then its digits below the highest, the most significant first. */
  lemma {:induction false} CategoryIsUnary(st: nat, w: nat, i: nat)
    requires w > 0 && st + Log2(w) < ALL_BINS && i <= Log2(w)
    ensures |Category(st, w)| == Log2(w) + 1
    ensures Category(st, w)[i] == Decision(st + i, if i < Log2(w) then 1 else 0)
    decreases w
  {
    if w / 2 > 0 {
      CategoryIsUnary(st + 1, w / 2, if i > 0 then i - 1 else 0);
    }
  }

  lemma {:induction false} PatternIsBinary(st: bin, w: nat, k: nat, i: nat)
    requires i < k
    ensures |Pattern(st, w, k)| == k && Pattern(st, w, k)[i] == Decision(st, w / Pow2(k - 1 - i) % 2)
  {
    hide Pow2;
    PatternLength(st, w, k);
    if i > 0 {
      PatternIsBinary(st, w, k - 1, i - 1);
    }
  }

  lemma {:induction false} PatternLength(st: bin, w: nat, k: nat)
    ensures |Pattern(st, w, k)| == k
  {
    if k > 0 {
      PatternLength(st, w, k - 1);
    }
  }

  // ----- DC differences

  /** A difference is sent with the bins of its context: whether it is zero, its sign (1 for
      negative), and whether its magnitude exceeds 1; then the category from bin 20 and
      the digits from bin 34 on, one of each for every category. */
  lemma DcDiffIs(b: nat, ctx: nat, v: int)
    requires b + DC_STAT_BINS <= ALL_BINS && ctx <= 16 && -0x10000 < v < 0x10000
    ensures var w, ds := Abs(v) - 1, DcDiff(b, ctx, v);
            if v == 0 then ds == [Decision(b + ctx, 0)]
            else
              && ds[..2] == [Decision(b + ctx, 1), Decision(b + ctx + 1, if v < 0 then 1 else 0)]
              && ds[2] == Decision(b + ctx + (if v < 0 then 3 else 2), if w > 0 then 1 else 0)
              && (w == 0 ==> |ds| == 3)
              && (w > 0 ==>
                    var m := Log2(w);
                    && m <= 15 && b + 34 + m < ALL_BINS
                    && ds[3..] == Category(b + 20, w) + Pattern(b + 34 + m, w, m))
  {
    hide Category, Pattern, Log2;
    if Abs(v) > 1 {
      Log2Small(Abs(v) - 1);
    }
  }

  /** The contexts share no bin with each other or with the categories. */
  lemma ContextsApart(v: int, lower: nat, upper: nat)
    ensures var c := ContextAfter(v, lower, upper); c % 4 == 0 && c + 3 < 20
  {
    ContextIs(v, lower, upper);
  }

  // ----- AC coefficients

  /** The bins of an AC area follow each other without gaps: three for each position, then
      those of the categories and digits of the positions up to Kx, then those above. */
  lemma AreaTiled(ac: AcTable, k: nat)
    requires ac.Valid() && 1 <= k < DCTSIZE2
    ensures ac.Bin(1, 0) == ac.b && ac.Bin(k, 1) == ac.Bin(k, 0) + 1 && ac.Bin(k, 2) == ac.Bin(k, 0) + 2
    ensures if k < 63 then ac.Bin(k + 1, 0) == ac.Bin(k, 0) + 3 else ac.Bin(k, 2) == ac.b + 188
    ensures ac.HighBin(k) == ac.b + 189 + if k <= ac.kx then 0 else 28
  {
  }

  /** A magnitude: whether it exceeds 1 and whether it exceeds 2, with the same bin; then the
      rest of the category of v - 1 and its digits. */
  lemma AcMagnitudeIs(st: bin, x: nat, v: nat)
    requires x + 28 <= ALL_BINS && 1 <= v <= 0x8000
    ensures var ds := AcMagnitude(st, x, v);
            if v == 1 then ds == [Decision(st, 0)]
            else if v == 2 then ds == [Decision(st, 1), Decision(st, 0)]
            else
              var m := Log2(v - 1);
              && 1 <= m <= 14 && ds[..2] == [Decision(st, 1), Decision(st, 1)]
              && ds[2..] == Category(x, (v - 1) / 2) + Pattern(x + 13 + m, v - 1, m)
  {
    hide Category, Pattern;
    if v > 2 {
      Log2Small(v - 1);
    }
  }

  /** From position k with a nonzero coefficient ahead at n: not the end of the block, a
      decision for each zero in between, and then the coefficient. */
  lemma {:induction false} RunIs(ac: AcTable, t: seq<int>, k: nat, n: nat, ke: nat, se: nat)
    requires ac.Valid() && 1 <= k <= n <= ke <= se < DCTSIZE2 && se < |t| && t[ke] != 0 && t[n] != 0
    requires (forall j :: k <= j <= ke ==> Abs(t[j]) <= 0x8000) && forall j :: k <= j < n ==> t[j] == 0
    ensures AcRun(ac, t, k, ke, se)
      == Zeros(ac, k, n) + ([Decision(ac.Bin(n, 1), 1), Decision(FIXED_BIN, if t[n] < 0 then 1 else 0)]
      + (AcMagnitude(ac.Bin(n, 2), ac.HighBin(n), Abs(t[n])) + AcFirst(ac, t, n + 1, ke, se)))
    decreases n - k
  {
    hide AcMagnitude, AcFirst;
    if k < n {
      RunIs(ac, t, k + 1, n, ke, se);
    }
  }

  function Zeros(ac: AcTable, k: nat, n: nat): seq<Decision>
    requires ac.Valid() && 1 <= k <= n < DCTSIZE2
  {
    seq(n - k, i requires 0 <= i < n - k => Decision(ac.Bin(k + i, 1), 0))
  }

  /** In front of every coefficient to be sent there is a decision whether the block ends. */
  lemma EndIs(ac: AcTable, t: seq<int>, k: nat, ke: nat, se: nat)
    requires ac.Valid() && 1 <= k <= se && ke <= se < DCTSIZE2 && se < |t|
    requires ke >= k ==> t[ke] != 0
    requires forall j :: k <= j <= ke ==> Abs(t[j]) <= 0x8000
    ensures AcFirst(ac, t, k, ke, se) != [] && AcFirst(ac, t, k, ke, se)[0]
      == Decision(ac.Bin(k, 0), if k > ke then 1 else 0)
    ensures k > ke ==> |AcFirst(ac, t, k, ke, se)| == 1
  {
    hide AcMagnitude;
  }

  // ----- refinement scans

  /** The bit sent for a coefficient known before: the step from what was known of its
      magnitude to what is known after the scan. */
  lemma CorrectionIs(x: int, al: nat)
    ensures Transform(x, al + 1) != 0 <==> Abs(Transform(x, al)) > 1
    ensures Abs(Approx(x, al)) == Abs(Approx(x, al + 1)) + Abs(Transform(x, al)) % 2 * Pow2(al)
    ensures Abs(Transform(x, al)) == 1 ==> Transform(x, al) == if x < 0 then -1 else 1
  {
    var q, a := Pow2(al), Abs(x);
    ShiftTwice(a, q);
    var h := a / q;
    assert Abs(Transform(x, al)) == h && Abs(Transform(x, al + 1)) == h / 2;
    assert h == 2 * (h / 2) + h % 2;
    assert h / 2 * (2 * q) + h % 2 * q == h * q;
    AbsApprox(x, al);
    AbsApprox(x, al + 1);
  }

  lemma AbsApprox(x: int, al: nat)
    ensures Abs(Approx(x, al)) == Abs(x) / Pow2(al) * Pow2(al)
  {
    var h, q := Abs(x) / Pow2(al), Pow2(al);
    assert (-h) * q == -(h * q);
  }

  /** Zeros in front of position n are skipped as in a first scan. */
  lemma {:induction false} ZerosRefined(ac: AcTable, t: seq<int>, k: nat, n: nat, kex: nat, ke: nat, se: nat)
    requires ac.Valid() && 1 <= k <= n <= ke <= se < DCTSIZE2 && se < |t| && t[ke] != 0
    requires forall j :: k <= j < n ==> t[j] == 0
    ensures AcRefineRun(ac, t, k, kex, ke, se) == Zeros(ac, k, n) + AcRefineRun(ac, t, n, kex, ke, se)
    decreases n - k
  {
    if k < n {
      ZerosRefined(ac, t, k + 1, n, kex, ke, se);
    }
  }

  /** A coefficient known before gets its next bit, with a bin of its own; a new one the
      decision that it is, and its sign, by the fixed bin. */
  lemma RefinedIs(ac: AcTable, t: seq<int>, n: nat, kex: nat, ke: nat, se: nat)
    requires ac.Valid() && 1 <= n <= ke <= se < DCTSIZE2 && se < |t| && t[ke] != 0 && t[n] != 0
    ensures AcRefineRun(ac, t, n, kex, ke, se)
      == (if Abs(t[n]) > 1 then [Decision(ac.Bin(n, 0) + 2, Abs(t[n]) % 2)]
          else [Decision(ac.Bin(n, 0) + 1, 1), Decision(FIXED_BIN, if t[n] < 0 then 1 else 0)])
         + AcRefine(ac, t, n + 1, kex, ke, se)
  {
    hide AcRefine;
  }

  /** A decision whether the block ends is sent only behind the last coefficient known before,
      at kex. */
  lemma EndRefinedIs(ac: AcTable, t: seq<int>, k: nat, kex: nat, ke: nat, se: nat)
    requires ac.Valid() && 1 <= k <= se && kex <= ke <= se < DCTSIZE2 && se < |t| && (ke >= k ==> t[ke] != 0)
    ensures if k <= kex then AcRefine(ac, t, k, kex, ke, se) == AcRefineRun(ac, t, k, kex, ke, se)
            else if k <= ke then AcRefine(ac, t, k, kex, ke, se)
              == [Decision(ac.Bin(k, 0), 0)] + AcRefineRun(ac, t, k, kex, ke, se)
            else AcRefine(ac, t, k, kex, ke, se) == [Decision(ac.Bin(k, 0), 1)]
  {
    hide AcRefineRun;
  }

  /** kex and ke are the last positions not zero before and after the scan. */
  lemma LastKnown(z: Block, se: nat, al: nat)
    requires se < DCTSIZE2
    ensures var t := Transformed(z, al);
            var ke := EndOfBlock(t, se);
            var kex := EndOfBlock(Transformed(z, al + 1), ke);
            && kex <= ke <= se
            && (kex > 0 ==> Abs(t[kex]) > 1) && (forall k :: kex < k <= se ==> Abs(t[k]) <= 1)
            && (ke > 0 ==> t[ke] != 0) && (forall k :: ke < k <= se ==> t[k] == 0)
  {
    hide Transform, Approx;
    forall k | 0 <= k < DCTSIZE2
      ensures Transform(z[k], al + 1) != 0 <==> Abs(Transform(z[k], al)) > 1
    {
      CorrectionIs(z[k], al);
    }
  }

  /** A DC refinement scan sends, by the fixed bin, the bit below those sent before. */
  lemma DcBitIs(sc: Scan, pr: Pred, ci: nat, z: Block)
    requires sc.Valid() && pr.Small() && ci < |sc.dcTbl| && sc.mode.DcRefine?
    ensures exists b: bit :: BlockDecisions(sc, pr, ci, z) == [Decision(FIXED_BIN, b)]
                             && Shift(z[0], sc.al) == 2 * Shift(z[0], sc.al + 1) + b
  {
    var b: bit := Shift(z[0], sc.al) % 2;
    ShiftTwice(z[0], Pow2(sc.al));
    assert Shift(z[0], sc.al + 1) == Shift(z[0], sc.al) / 2;
    assert BlockDecisions(sc, pr, ci, z) == [Decision(FIXED_BIN, b)];
  }

  // ----- predictions

  /** A DC coefficient is predicted by the last one of its component in the interval. */
  lemma {:induction false} PredictedByLast(sc: Scan, pr: Pred, mcu: Mcu, i: nat, b: nat)
    requires sc.Valid() && pr.Small() && McuFits(sc, mcu) && i <= b < |mcu| && sc.CodesDc()
    requires forall j :: b < j < |mcu| ==> sc.membership[j] != sc.membership[b]
    ensures PredAfterMcu(sc, pr, mcu, i).lastDc[sc.membership[b]] == Shift(mcu[b][0], sc.al)
    decreases |mcu| - i
  {
    hide Shift, ContextAfter;
    var ci := sc.membership[i];
    if i < b {
      PredictedByLast(sc, PredAfter(sc, pr, ci, mcu[i]), mcu, i + 1, b);
    } else {
      OthersPredicted(sc, PredAfter(sc, pr, ci, mcu[i]), mcu, i + 1, ci);
    }
  }

  /** And by nothing else. */
  lemma {:induction false} OthersPredicted(sc: Scan, pr: Pred, mcu: Mcu, i: nat, ci: nat)
    requires sc.Valid() && pr.Small() && McuFits(sc, mcu) && i <= |mcu| && ci < |sc.dcTbl|
    requires forall j :: i <= j < |mcu| ==> sc.membership[j] != ci
    ensures PredAfterMcu(sc, pr, mcu, i).lastDc[ci] == pr.lastDc[ci]
    decreases |mcu| - i
  {
    hide Shift, ContextAfter;
    if i < |mcu| {
      OthersPredicted(sc, PredAfter(sc, pr, sc.membership[i], mcu[i]), mcu, i + 1, ci);
    }
  }

  /** What is sent of a DC coefficient is how much it exceeds its prediction. */
  lemma DifferenceSent(sc: Scan, pr: Pred, ci: nat, z: Block)
    requires sc.Valid() && pr.Small() && ci < |sc.dcTbl| && sc.CodesDc()
    ensures var x := Shift(z[0], sc.al) - pr.lastDc[ci];
            && -0x10000 < x < 0x10000
            && DcDiff(sc.DcArea(ci), pr.context[ci], x) <= BlockDecisions(sc, pr, ci, z)
            && PredAfter(sc, pr, ci, z).context[ci] == ContextAfter(x, sc.dcL[sc.dcTbl[ci]], sc.dcU[sc.dcTbl[ci]])
  {
    hide DcDiff, AcPart, ContextAfter;
    ShiftSmall(z[0], sc.al);
  }
}
