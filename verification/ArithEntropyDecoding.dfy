/** The MCU level of jdarith.c: the decode_mcu routines, restarts and start_pass. */
module ArithEntropyDecoding {
  import opened JpegLib
  import opened Arithmetic
  import opened Blocks
  import opened Bytes
  import opened Markers
  import opened ProbabilityTable
  import opened IntervalCoder
  import opened ArithDecoding
  import opened Magnitudes
  import opened Coefficients
  import opened McuCoding
  import opened ScanCoding
  import opened Restarts
  import opened ArithEntropyEncoding

  class ArithEntropyDecoder {
    const decoder: ArithDecoder
    const order: seq<nat>
    var sc: Scan
    var lastDcVal: seq<int>
    var dcContext: seq<nat>
    var restartInterval: nat
    var restartsToGo: nat
    var nextRestartNum: nat     // kept by the marker reader
    var warnings: nat           // JWRN_ARITH_BAD_CODE so far

    constructor (order: seq<nat>, src: seq<byte>)
      requires ValidOrder(order)
      ensures fresh(decoder) && fresh(decoder.stats) && decoder.Valid() && decoder.src == src && this.order == order
      ensures decoder.State() == Dec(0, 0, -16, Input(0, 0), InitialStats()) && warnings == 0
    {
      decoder := new ArithDecoder(src);
      this.order := order;
      lastDcVal, dcContext := [0, 0, 0, 0], [0, 0, 0, 0];
      restartInterval, restartsToGo, nextRestartNum, warnings := 0, 0, 0, 0;
    }

    ghost predicate Ready()
      reads `sc, `lastDcVal, `dcContext, decoder, decoder.stats
    {
      && decoder.Valid() && ValidOrder(order) && sc.Valid()
      && Pred(lastDcVal, dcContext).Valid()
    }

    /** The unary category; on overflow the rest of the segment is given up. */
    method DecodeCategoryBits(st0: nat, ghost k0: nat, m0: nat) returns (m: nat, st: nat, ok: bool)
      requires decoder.Valid() && k0 <= 14 && st0 + (14 - k0) < ALL_BINS && m0 == Pow2(k0)
      modifies decoder, decoder.stats
      ensures decoder.Valid() && decoder.src == old(decoder.src)
      ensures var (d, k, st', ok') := DecodeCategory(decoder.src, old(decoder.State()), st0, k0);
              ok' == ok && decoder.State() == d && (ok ==> m == Pow2(k) && st == st')
    {
      hide Decode;
      Pow2Values();
      m, st, ok := m0, st0, true;
      ghost var p, k := decoder.State(), k0;
      var bit := decoder.ArithDecode(st);
      while bit != 0
        invariant decoder.Valid() && decoder.src == old(decoder.src) && DecOk(p)
        invariant k0 <= k <= 14 && st == st0 + (k - k0) && m == Pow2(k)
        invariant (bit, decoder.State()) == Decode(decoder.src, p, st)
        invariant DecodeCategory(decoder.src, p, st, k) == DecodeCategory(decoder.src, old(decoder.State()), st0, k0)
        decreases 14 - k
      {
        m := m * 2;
        Pow2Exact(k + 1);
        if m == 0x8000 {
          ok := false;
          return;
        }
        st := st + 1;
        k := k + 1;
        p := decoder.State();
        bit := decoder.ArithDecode(st);
      }
    }

    lemma Pow2Exact(k: nat)
      requires k <= 15
      ensures Pow2(k) == 0x8000 <==> k == 15
    {
      Pow2Values();
      if k < 15 {
        Pow2Monotone(k, 14);
        assert Pow2(14) == 0x4000;
      }
    }

    /** `while (m >>= 1) if (arith_decode(cinfo, st)) v |= m`; bit m of v is still clear. */
    method DecodePatternBits(st: bin, m0: nat, ghost k0: nat) returns (v: nat)
      requires decoder.Valid() && (m0 == Pow2(k0) || (m0 == 0 && k0 == 0))
      modifies decoder, decoder.stats
      ensures decoder.Valid() && decoder.src == old(decoder.src)
      ensures (decoder.State(), v) == DecodePattern(decoder.src, old(decoder.State()), st, k0, m0)
    {
      hide Decode;
      v := m0;
      var m := m0 / 2;
      ghost var k := k0;
      while m != 0
        invariant decoder.Valid() && decoder.src == old(decoder.src)
        invariant m == if k == 0 then 0 else Pow2(k - 1)
        invariant DecodePattern(decoder.src, decoder.State(), st, k, v)
          == DecodePattern(decoder.src, old(decoder.State()), st, k0, m0)
        decreases k
      {
        var bit := decoder.ArithDecode(st);
        if bit == 1 {
          v := v + m;
        }
        m := m / 2;
        k := k - 1;
      }
    }

    /** Magnitude of a DC difference less one, and its category. */
    method DecodeDcMagnitudeBits(base: nat, st0: bin) returns (v: nat, m: nat, ok: bool)
      requires decoder.Valid() && base + DC_STAT_BINS <= ALL_BINS
      modifies decoder, decoder.stats
      ensures decoder.Valid() && decoder.src == old(decoder.src)
      ensures (decoder.State(), v, m, ok) == DecodeDcMagnitude(decoder.src, old(decoder.State()), base, st0)
    {
      hide Decode, DecodeCategory, DecodePattern;
      m := decoder.ArithDecode(st0);
      v, ok := 0, true;
      if m != 0 {
        ghost var k := DecodeCategory(decoder.src, decoder.State(), base + 20, 0).1;
        var st: nat;
        m, st, ok := DecodeCategoryBits(base + 20, 0, 1);
        if !ok {
          m := 0;
          return;
        }
        v := DecodePatternBits(st + 14, m, k);
      }
    }

    /** Decode_DC_DIFF: the difference and the new conditioning category, for the bounds L
        and U of the table. */
    method DecodeDiff(base: nat, context: nat, lower: nat, upper: nat) returns (v: int, c: nat, ok: bool)
      requires decoder.Valid() && base + DC_STAT_BINS <= ALL_BINS && context <= 16
      modifies decoder, decoder.stats
      ensures decoder.Valid() && decoder.src == old(decoder.src)
      ensures (decoder.State(), v, c, ok) == DecodeDcDiff(decoder.src, old(decoder.State()), base, context, lower,
        upper)
    {
      hide Decode, DecodeDcMagnitude, Pow2;
      var st: nat := base + context;
      v, c, ok := 0, 0, true;
      var nonzero := decoder.ArithDecode(st);
      if nonzero != 0 {
        var sign: nat := decoder.ArithDecode(st + 1);
        st := st + 2 + sign;
        var m: nat;
        v, m, ok := DecodeDcMagnitudeBits(base, st);
        if m < Pow2(lower) / 2 {
          c := 0;                 // zero diff category
        } else if m > Pow2(upper) / 2 {
          c := 12 + sign * 4;     // large diff category
        } else {
          c := 4 + sign * 4;      // small diff category
        }
        v := v + 1;
        if sign == 1 {
          v := -v;
        }
      }
    }

    /** The DC coefficient of a block of component ci; on overflow nothing is stored. */
    method DecodeDcCoef(ci: nat, block: array<jcoef>) returns (ok: bool)
      requires Ready() && ci < |sc.dcTbl| && block.Length == DCTSIZE2
      modifies `lastDcVal, `dcContext, decoder, decoder.stats, block
      ensures Ready() && decoder.src == old(decoder.src)
      ensures (decoder.State(), Pred(lastDcVal, dcContext), Zigzag(order, block[..]), ok)
        == DecodeDc(decoder.src, sc, old(decoder.State()), old(Pred(lastDcVal, dcContext)), ci,
          old(Zigzag(order, block[..])))
    {
      hide DecodeDcDiff, Pow2;
      var tbl := sc.dcTbl[ci];
      var v, c;
      v, c, ok := DecodeDiff(sc.DcArea(ci), dcContext[ci], sc.dcL[tbl], sc.dcU[tbl]);
      if ok {
        dcContext := dcContext[ci := c];
        lastDcVal := lastDcVal[ci := lastDcVal[ci] + v];
        Store(order, block, 0, Jcoef(lastDcVal[ci] * Pow2(sc.al)));
      }
    }

    /** Magnitude of an AC coefficient at position k, from bin st0. */
    method DecodeAcMagnitudeBits(ci: nat, k: nat, st0: bin) returns (v: nat, ok: bool)
      requires decoder.Valid() && sc.Valid() && ci < |sc.acTbl| && 1 <= k < DCTSIZE2
      modifies decoder, decoder.stats
      ensures decoder.Valid() && decoder.src == old(decoder.src)
      ensures (decoder.State(), v, ok) == DecodeAcMagnitude(decoder.src, old(decoder.State()), st0,
        sc.Ac(ci).HighBin(k))
    {
      hide Decode, DecodeCategory, DecodePattern;
      v, ok := 0, true;
      var m: nat := decoder.ArithDecode(st0);
      if m != 0 {
        var more := decoder.ArithDecode(st0);
        v := 1;
        if more != 0 {
          var st: nat := sc.Ac(ci).b + if k <= sc.acK[sc.acTbl[ci]] then 189 else 217;
          ghost var j := DecodeCategory(decoder.src, decoder.State(), st, 1).1;
          m, st, ok := DecodeCategoryBits(st, 1, 2);
          if !ok {
            return;
          }
          v := DecodePatternBits(st + 14, m, j);
        }
      }
      v := v + 1;
    }

    /** First pass over the band: decode_mcu_AC_first. */
    method DecodeAcFirst(ci: nat, block: array<jcoef>) returns (ok: bool)
      requires decoder.Valid() && ValidOrder(order) && sc.Valid() && ci < |sc.acTbl| && sc.mode.AcFirstPass?
      requires block.Length == DCTSIZE2
      modifies decoder, decoder.stats, block
      ensures decoder.Valid() && decoder.src == old(decoder.src)
      ensures (decoder.State(), Zigzag(order, block[..]), ok)
        == DecodeFirst(decoder.src, old(decoder.State()), sc.Ac(ci), old(Zigzag(order, block[..])), sc.ss, sc.se, sc.al)
    {
      hide Decode, DecodeRun;
      ghost var src, d0, z0 := decoder.src, decoder.State(), Zigzag(order, block[..]);
      var ac, k := sc.Ac(ci), sc.ss;
      ok := true;
      while k <= sc.se
        invariant ok && sc.ss <= k <= sc.se + 1 && decoder.Valid() && decoder.src == src
        invariant DecodeFirst(src, decoder.State(), ac, Zigzag(order, block[..]), k, sc.se, sc.al)
          == DecodeFirst(src, d0, ac, z0, sc.ss, sc.se, sc.al)
      {
        var eob := decoder.ArithDecode(ac.b + 3 * (k - 1));
        if eob == 1 {
          return;
        }
        k, ok := DecodeZeroRun(ci, block, k, sc.se);
        if !ok {
          return;
        }
      }
    }

    /** A zero run and the coefficient behind it; the position after it, unless some
        overflow was met. */
    method DecodeZeroRun(ci: nat, block: array<jcoef>, k0: nat, se: nat) returns (k: nat, ok: bool)
      requires decoder.Valid() && ValidOrder(order) && sc.Valid() && ci < |sc.acTbl| && 1 <= k0 <= se < DCTSIZE2
      requires block.Length == DCTSIZE2
      modifies decoder, decoder.stats, block
      ensures decoder.Valid() && decoder.src == old(decoder.src)
      ensures var r := DecodeRun(decoder.src, old(decoder.State()), sc.Ac(ci), old(Zigzag(order, block[..])), k0, se,
        sc.al);
              if ok then
                k0 < k <= se + 1 && DecodeFirst(decoder.src, decoder.State(), sc.Ac(ci), Zigzag(order, block[..]), k,
                  se, sc.al) == r
              else (decoder.State(), Zigzag(order, block[..]), false) == r
    {
      hide Decode, DecodeAcMagnitude, DecodeFirst;
      ghost var src, d0, z := decoder.src, decoder.State(), Zigzag(order, block[..]);
      var ac := sc.Ac(ci);
      k, ok := k0, true;
      var st: nat := ac.b + 3 * (k - 1);
      ghost var d := decoder.State();
      var nonzero := decoder.ArithDecode(st + 1);
      while nonzero == 0
        invariant k0 <= k <= se && st == ac.b + 3 * (k - 1)
        invariant decoder.Valid() && decoder.src == src && block[..] == old(block[..]) && DecOk(d)
        invariant (nonzero, decoder.State()) == Decode(src, d, ac.Bin(k, 1))
        invariant DecodeRun(src, d, ac, z, k, se, sc.al) == DecodeRun(src, d0, ac, z, k0, se, sc.al)
        decreases se - k
      {
        st := st + 3;
        k := k + 1;
        if k > se {
          ok := false;
          return;
        }
        d := decoder.State();
        nonzero := decoder.ArithDecode(st + 1);
      }
      var sign := decoder.ArithDecode(FIXED_BIN);
      var v;
      v, ok := DecodeAcMagnitudeBits(ci, k, st + 2);
      if ok {
        Store(order, block, k, Jcoef(Signed(sign, v) * Pow2(sc.al)));
        k := k + 1;
      }
    }

    /** The AC part of a sequential block: the do-while loop of decode_mcu, where k is the
        last position done. */
    method DecodeAcSequential(ci: nat, block: array<jcoef>) returns (ok: bool)
      requires decoder.Valid() && ValidOrder(order) && sc.Valid() && ci < |sc.acTbl| && sc.mode.Sequential?
      requires block.Length == DCTSIZE2 && sc.limSe != 0
      modifies decoder, decoder.stats, block
      ensures decoder.Valid() && decoder.src == old(decoder.src)
      ensures (decoder.State(), Zigzag(order, block[..]), ok)
        == DecodeFirst(decoder.src, old(decoder.State()), sc.Ac(ci), old(Zigzag(order, block[..])), 1, sc.limSe, 0)
    {
      hide Decode, DecodeRun;
      ghost var src, d0, z0 := decoder.src, decoder.State(), Zigzag(order, block[..]);
      var ac := sc.Ac(ci);
      var k: nat := 0;
      ok := true;
      while true
        invariant ok && k < sc.limSe && decoder.Valid() && decoder.src == src
        invariant DecodeFirst(src, decoder.State(), ac, Zigzag(order, block[..]), k + 1, sc.limSe, 0)
          == DecodeFirst(src, d0, ac, z0, 1, sc.limSe, 0)
        decreases sc.limSe - k
      {
        var eob := decoder.ArithDecode(ac.b + 3 * k);
        if eob == 1 {
          return;
        }
        k, ok := DecodeSequentialRun(ci, block, k);
        if !ok || k >= sc.limSe {
          return;
        }
      }
    }

    /** A zero run after position k0 and the coefficient behind it, at k. */
    method DecodeSequentialRun(ci: nat, block: array<jcoef>, k0: nat) returns (k: nat, ok: bool)
      requires decoder.Valid() && ValidOrder(order) && sc.Valid() && ci < |sc.acTbl| && k0 < sc.limSe
      requires block.Length == DCTSIZE2
      modifies decoder, decoder.stats, block
      ensures decoder.Valid() && decoder.src == old(decoder.src)
      ensures var r := DecodeRun(decoder.src, old(decoder.State()), sc.Ac(ci), old(Zigzag(order, block[..])), k0 + 1,
        sc.limSe, 0);
              if ok then
                k0 < k <= sc.limSe && DecodeFirst(decoder.src, decoder.State(), sc.Ac(ci), Zigzag(order, block[..]),
                  k + 1, sc.limSe, 0) == r
              else (decoder.State(), Zigzag(order, block[..]), false) == r
    {
      hide Decode, DecodeAcMagnitude, DecodeFirst;
      ghost var src, d0, z := decoder.src, decoder.State(), Zigzag(order, block[..]);
      var ac, se := sc.Ac(ci), sc.limSe;
      ok := true;
      k := k0 + 1;
      var st: nat := ac.b + 3 * k0;
      ghost var d := decoder.State();
      var nonzero := decoder.ArithDecode(st + 1);
      while nonzero == 0
        invariant k0 < k <= se && st == ac.b + 3 * (k - 1)
        invariant decoder.Valid() && decoder.src == src && block[..] == old(block[..]) && DecOk(d)
        invariant (nonzero, decoder.State()) == Decode(src, d, ac.Bin(k, 1))
        invariant DecodeRun(src, d, ac, z, k, se, 0) == DecodeRun(src, d0, ac, z, k0 + 1, se, 0)
        decreases se - k
      {
        st := st + 3;
        if k >= se {
          ok := false;
          return;
        }
        k := k + 1;
        d := decoder.State();
        nonzero := decoder.ArithDecode(st + 1);
      }
      var sign := decoder.ArithDecode(FIXED_BIN);
      var v;
      v, ok := DecodeAcMagnitudeBits(ci, k, st + 2);
      if ok {
        Store(order, block, k, Jcoef(Signed(sign, v)));
      }
    }

    /** Refinement of the band: decode_mcu_AC_refine. */
    method DecodeAcRefine(ci: nat, block: array<jcoef>) returns (ok: bool)
      requires decoder.Valid() && ValidOrder(order) && sc.Valid() && ci < |sc.acTbl| && sc.mode.AcRefinePass?
      requires block.Length == DCTSIZE2
      modifies decoder, decoder.stats, block
      ensures decoder.Valid() && decoder.src == old(decoder.src)
      ensures var z := old(Zigzag(order, block[..]));
              (decoder.State(), Zigzag(order, block[..]), ok)
                == DecodeRefine(decoder.src, old(decoder.State()), sc.Ac(ci), z, sc.ss, EndOfBlock(z, sc.se), sc.se,
                  sc.al)
    {
      hide Decode, DecodeRefineRun, EndOfBlock;
      ghost var src, d0, z0 := decoder.src, decoder.State(), Zigzag(order, block[..]);
      var ac, k := sc.Ac(ci), sc.ss;
      var kex := FindPreviousEob(block);
      ok := true;
      while k <= sc.se
        invariant ok && sc.ss <= k <= sc.se + 1 && decoder.Valid() && decoder.src == src
        invariant DecodeRefine(src, decoder.State(), ac, Zigzag(order, block[..]), k, kex, sc.se, sc.al)
          == DecodeRefine(src, d0, ac, z0, sc.ss, kex, sc.se, sc.al)
      {
        if k > kex {
          var eob := decoder.ArithDecode(ac.b + 3 * (k - 1));
          if eob == 1 {
            return;
          }
        }
        k, ok := DecodeRefineZeros(ci, block, k, kex);
        if !ok {
          return;
        }
      }
    }

    /** Establishes the previous stage's end-of-block index. */
    method FindPreviousEob(block: array<jcoef>) returns (kex: nat)
      requires ValidOrder(order) && block.Length == DCTSIZE2 && sc.se < DCTSIZE2
      ensures kex == EndOfBlock(Zigzag(order, block[..]), sc.se)
    {
      ghost var z := Zigzag(order, block[..]);
      kex := sc.se;
      while kex > 0
        invariant kex <= sc.se && EndOfBlock(z, kex) == EndOfBlock(z, sc.se)
      {
        if block[order[kex]] != 0 {
          break;
        }
        kex := kex - 1;
      }
    }

    /** Positions that stay zero, and the nonzero or newly nonzero coefficient behind them. */
    method DecodeRefineZeros(ci: nat, block: array<jcoef>, k0: nat, ghost kex: nat) returns (k: nat, ok: bool)
      requires decoder.Valid() && ValidOrder(order) && sc.Valid() && ci < |sc.acTbl| && 1 <= k0 <= sc.se < DCTSIZE2
      requires block.Length == DCTSIZE2
      modifies decoder, decoder.stats, block
      ensures decoder.Valid() && decoder.src == old(decoder.src)
      ensures var r := DecodeRefineRun(decoder.src, old(decoder.State()), sc.Ac(ci), old(Zigzag(order, block[..])), k0,
        kex, sc.se, sc.al);
              if ok then
                k0 < k <= sc.se + 1 && DecodeRefine(decoder.src, decoder.State(), sc.Ac(ci), Zigzag(order, block[..]),
                  k, kex, sc.se, sc.al) == r
              else (decoder.State(), Zigzag(order, block[..]), false) == r
    {
      hide Decode, DecodeRefine;
      ghost var src, d0, z := decoder.src, decoder.State(), Zigzag(order, block[..]);
      var ac := sc.Ac(ci);
      k, ok := k0, true;
      var st: nat := ac.b + 3 * (k - 1);
      while true
        invariant k0 <= k <= sc.se && st == ac.b + 3 * (k - 1)
        invariant decoder.Valid() && decoder.src == src && block[..] == old(block[..]) && ok
        invariant DecodeRefineRun(src, decoder.State(), ac, z, k, kex, sc.se, sc.al)
          == DecodeRefineRun(src, d0, ac, z, k0, kex, sc.se, sc.al)
        decreases sc.se - k
      {
        var coef := block[order[k]];
        assert coef == z[k];
        if coef != 0 {  // previously nonzero coefficient
          var more := decoder.ArithDecode(st + 2);
          if more == 1 {
            Store(order, block, k, Enlarge(coef, sc.al));
          }
          k := k + 1;
          return;
        }
        var nonzero := decoder.ArithDecode(st + 1);
        if nonzero == 1 {  // newly nonzero coefficient
          var sign := decoder.ArithDecode(FIXED_BIN);
          Store(order, block, k, Jcoef(Signed(sign, Pow2(sc.al))));
          k := k + 1;
          return;
        }
        st := st + 3;
        if k + 1 > sc.se {
          ok := false;
          return;
        }
        k := k + 1;
      }
    }

    /** One block, by the coding mode of the scan. */
    method DecodeOneBlock(ci: nat, block: array<jcoef>) returns (ok: bool)
      requires Ready() && ci < |sc.dcTbl| && block.Length == DCTSIZE2
      modifies `lastDcVal, `dcContext, decoder, decoder.stats, block
      ensures Ready() && decoder.src == old(decoder.src)
      ensures (decoder.State(), Pred(lastDcVal, dcContext), Zigzag(order, block[..]), ok)
        == DecodeBlock(decoder.src, sc, old(decoder.State()), old(Pred(lastDcVal, dcContext)), ci,
          old(Zigzag(order, block[..])))
    {
      hide Decode, DecodeDc, DecodeFirst, DecodeRefine, EndOfBlock;
      match sc.mode
      case Sequential =>
        ok := DecodeDcCoef(ci, block);
        if ok && sc.limSe != 0 {
          ok := DecodeAcSequential(ci, block);
        }
      case DcFirst => ok := DecodeDcCoef(ci, block);
      case AcFirstPass => ok := DecodeAcFirst(ci, block);
      case DcRefine =>
        ok := true;
        var bit := decoder.ArithDecode(FIXED_BIN);
        if bit == 1 {
          Store(order, block, 0, SetBit(block[0], sc.al));
        }
      case AcRefinePass => ok := DecodeAcRefine(ci, block);
    }

    /** Between MCUs, by value. */
    ghost function Scanning(): ScanDec
      requires decoder.stats.Length == ALL_BINS
      reads `lastDcVal, `dcContext, `restartsToGo, `nextRestartNum, `warnings, decoder, decoder.stats
    {
      ScanDec(decoder.State(), Pred(lastDcVal, dcContext), restartsToGo, nextRestartNum, warnings)
    }

    ghost predicate Valid()
      reads this, decoder, decoder.stats
    {
      && decoder.stats.Length == ALL_BINS && ValidOrder(order) && sc.Valid()
      && Scanning().Valid()
    }

    /** process_restart. */
    method Restart()
      requires Valid()
      modifies `lastDcVal, `dcContext, `restartsToGo, `nextRestartNum, decoder, decoder.stats
      ensures Valid() && decoder.src == old(decoder.src)
      ensures Scanning() == ProcessRestart(decoder.src, sc, restartInterval, old(Scanning()))
    {
      hide ReadRestart;
      var input, _, _ := ReadRestartMarker(decoder.src, Input(decoder.pos, decoder.unreadMarker), nextRestartNum, 0);
      decoder.pos, decoder.unreadMarker := input.pos, input.marker;
      nextRestartNum := (nextRestartNum + 1) % 8;
      ResetScan();
      restartsToGo := restartInterval;
    }

    /** Statistics areas, predictions and registers at the start of a segment. */
    method ResetScan()
      requires decoder.stats.Length == ALL_BINS && sc.Valid() && Pred(lastDcVal, dcContext).Valid()
      modifies `lastDcVal, `dcContext, decoder`c, decoder`a, decoder`ct, decoder.stats
      ensures decoder.State() == StartOfSegment(Input(decoder.pos, decoder.unreadMarker),
        Reset(sc, old(decoder.stats[..])))
      ensures Pred(lastDcVal, dcContext) == PredReset(sc, old(Pred(lastDcVal, dcContext)))
    {
      hide Reset;
      ZeroAreas(sc, decoder.stats);
      if sc.CodesDc() {
        for ci := 0 to |sc.dcTbl|
          invariant |lastDcVal| == |dcContext| == MAX_COMPS_IN_SCAN
          invariant decoder.stats[..] == Reset(sc, old(decoder.stats[..]))
          invariant forall j :: 0 <= j < MAX_COMPS_IN_SCAN ==> lastDcVal[j] == (if j < ci then 0 else old(lastDcVal)[j])
          invariant forall j :: 0 <= j < MAX_COMPS_IN_SCAN ==> dcContext[j] == (if j < ci then 0 else old(dcContext)[j])
        {
          lastDcVal := lastDcVal[ci := 0];
          dcContext := dcContext[ci := 0];
        }
      }
      decoder.c, decoder.a, decoder.ct := 0, 0, -16;
    }

    /** The block loops of the decode_mcu routines: whether no overflow was met. */
    method DecodeBlocks(mcu: seq<array<jcoef>>) returns (ok: bool)
      requires Ready() && BlockArrays(mcu) && |mcu| == |sc.membership|
      modifies `lastDcVal, `dcContext, decoder, decoder.stats, mcu
      ensures Ready() && decoder.src == old(decoder.src)
      ensures (decoder.State(), Pred(lastDcVal, dcContext), Contents(order, mcu), ok)
        == DecodeMcu(decoder.src, sc, old(decoder.State()), old(Pred(lastDcVal, dcContext)), old(Contents(order, mcu)),
          0)
    {
      hide DecodeBlock, Zigzag;
      ghost var src := decoder.src;
      ghost var goal := DecodeMcu(src, sc, decoder.State(), Pred(lastDcVal, dcContext), Contents(order, mcu), 0);
      ok := true;
      for blkn := 0 to |mcu|
        invariant ok && Ready() && decoder.src == src
        invariant DecodeMcu(src, sc, decoder.State(), Pred(lastDcVal, dcContext), Contents(order, mcu), blkn) == goal
      {
        ghost var z := Contents(order, mcu);
        ok := DecodeOneBlock(sc.membership[blkn], mcu[blkn]);
        assert Contents(order, mcu) == z[blkn := Zigzag(order, mcu[blkn][..])];
        if !ok {
          return;
        }
      }
    }

    /** The decode_mcu routines: the restart accounting, and the blocks unless an overflow
        has ended the segment. */
    method DecodeNextMcu(mcu: seq<array<jcoef>>)
      requires Valid() && BlockArrays(mcu) && |mcu| == |sc.membership|
      modifies `lastDcVal, `dcContext, `restartsToGo, `nextRestartNum, `warnings, decoder, decoder.stats, mcu
      ensures Valid() && decoder.src == old(decoder.src)
      ensures (Scanning(), Contents(order, mcu))
        == NextMcu(decoder.src, sc, restartInterval, old(Scanning()), old(Contents(order, mcu)))
    {
      hide ProcessRestart, DecodeMcu, DecOk;
      if restartInterval != 0 {
        if restartsToGo == 0 {
          Restart();
        }
        restartsToGo := restartsToGo - 1;
      }
      if decoder.ct != -1 {
        var ok := DecodeBlocks(mcu);
        if !ok {
          warnings := warnings + 1;
          decoder.ct := -1;
        }
      }
    }

    /** Initialises for a scan at the current position of the input. */
    method StartPass(scan: Scan, interval: nat)
      requires scan.Valid() && ValidOrder(order) && decoder.stats.Length == ALL_BINS
      modifies this, decoder`c, decoder`a, decoder`ct, decoder.stats
      ensures Valid() && sc == scan && restartInterval == interval
      ensures Scanning() == ScanDec(StartOfSegment(Input(decoder.pos, decoder.unreadMarker),
        Reset(sc, old(decoder.stats[..]))), PRED0, interval, 0, old(warnings))
    {
      hide Reset;
      sc := scan;
      lastDcVal, dcContext := [0, 0, 0, 0], [0, 0, 0, 0];
      ResetScan();
      restartInterval, restartsToGo, nextRestartNum := interval, interval, 0;
    }
  }
}
