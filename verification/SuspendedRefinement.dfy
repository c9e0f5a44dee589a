/** Suspension in decode_mcu_AC_refine.  When the data source has no more bytes the routine
    gives up in the middle of a block: newly nonzero coefficients are zeroed again, correction
    bits already added stay, and the next call starts over.  However often and wherever it
    gives up, the block ends as if it never had. */
module SuspendedRefinement {
  import opened JpegLib
  import opened Bytes
  import opened Arithmetic
  import opened Blocks
  import opened BitStreams
  import opened CodeTable
  import opened HuffmanDecoding
  import opened HuffmanBlocks
  import opened HuffmanFirst
  import opened HuffmanRefine

  /** A finished block with the place in the data and the run, or one given up. */
  datatype Outcome = Finished(y: Block, at: nat, run: nat) | Suspended(y: Block)

  /** The same for the rest of a band, and on the way to a position. */
  datatype Progress = Arrived(y: Block, k: nat, at: nat, left: nat) | Dry(y: Block)

  // ----- with data for only so many more reads

  function CorrectUntilDry(d: seq<bit>, at: nat, y: Block, k: nat, se: nat, al: nat, left: nat): Progress
    requires se < DCTSIZE2
    decreases se + 1 - k
  {
    if k > se then Arrived(y, k, at, left)
    else if y[k] == 0 then CorrectUntilDry(d, at, y, k + 1, se, al, left)
    else if left == 0 then Dry(y)
    else CorrectUntilDry(d, at + 1, y[k := Corrected(y[k], Peek(d, at, 1), al)], k + 1, se, al, left - 1)
  }

  function AdvanceUntilDry(d: seq<bit>, at: nat, y: Block, k: nat, r: nat, se: nat, al: nat, left: nat): (p: Progress)
    requires se < DCTSIZE2 && k <= se + 1
    ensures p.Arrived? ==> k <= p.k <= se + 1 && p.left <= left
    decreases se + 1 - k
  {
    if k > se then Arrived(y, k, at, left)
    else if y[k] == 0 then
      if r == 0 then Arrived(y, k, at, left) else AdvanceUntilDry(d, at, y, k + 1, r - 1, se, al, left)
    else if left == 0 then Dry(y)
    else AdvanceUntilDry(d, at + 1, y[k := Corrected(y[k], Peek(d, at, 1), al)], k + 1, r, se, al, left - 1)
  }

  /** Newly nonzero coefficients are zeroed again when a later read fails. */
  function RefineUntilDry(t: HuffTable, d: seq<bit>, at: nat, y: Block, k: nat, se: nat, al: nat, left: nat): Outcome
    requires CountsOk(t) && se < DCTSIZE2
    decreases se + 1 - k
  {
    if k > se then Finished(y, at, 0)
    else if left == 0 then Suspended(y)
    else
      var (sym, at1) := DecodeSym(t, d, at);
      var r, s := sym / 16, sym % 16;
      if s == 0 && r != 15 then
        if r > 0 && left == 1 then Suspended(y)
        else
          var (run, at2) := DecodeEob(d, at1, r);
          match CorrectUntilDry(d, at2, y, k, se, al, if r > 0 then left - 2 else left - 1)
          case Arrived(y1, _, at3, _) => Finished(y1, at3, run - 1)
          case Dry(y1) => Suspended(y1)
      else if s != 0 && left == 1 then Suspended(y)
      else
        match AdvanceUntilDry(d,
          if s != 0 then at1 + 1 else at1, y, k, r, se, al, if s != 0 then left - 2 else left - 1)
        case Dry(y1) => Suspended(y1)
        case Arrived(y1, k1, at3, left1) =>
          var slot := Slot(k1, DCTSIZE2 - 1);
          var v := NewValue(Peek(d, at1, 1), al);
          match RefineUntilDry(t, d, at3, if s != 0 then y1[slot := v] else y1, k1 + 1, se, al, left1)
          case Finished(y2, at4, run) => Finished(y2, at4, run)
          case Suspended(y2) => Suspended(if s != 0 then y2[slot := 0] else y2)
  }

  /** decode_mcu_AC_refine with data for `left` reads. */
  function BlockUntilDry(t: HuffTable, d: seq<bit>, at: nat, run: nat, y: Block, ss: nat, se: nat, al: nat,
    left: nat): Outcome
    requires CountsOk(t) && se < DCTSIZE2
  {
    if run > 0 then
      match CorrectUntilDry(d, at, y, ss, se, al, left)
      case Arrived(y1, _, at1, _) => Finished(y1, at1, run - 1)
      case Dry(y1) => Suspended(y1)
    else RefineUntilDry(t, d, at, y, ss, se, al, left)
  }

  // ----- a call that is not suspended

  lemma {:induction false} CorrectFinishes(d: seq<bit>, at: nat, y: Block, k: nat, se: nat, al: nat, left: nat)
    requires se < DCTSIZE2
    ensures var p := CorrectUntilDry(d, at, y, k, se, al, left);
            p.Arrived? ==> (p.y, p.at) == Corrections(d, at, y, k, se, al)
    decreases se + 1 - k
  {
    hide Peek, Corrected;
    if k > se {
    } else if y[k] == 0 {
      CorrectFinishes(d, at, y, k + 1, se, al, left);
    } else if left > 0 {
      CorrectFinishes(d, at + 1, y[k := Corrected(y[k], Peek(d, at, 1), al)], k + 1, se, al, left - 1);
    }
  }

  lemma {:induction false} AdvanceArrives(d: seq<bit>, at: nat, y: Block, k: nat, r: nat, se: nat, al: nat, left: nat)
    requires se < DCTSIZE2 && k <= se + 1
    ensures var p := AdvanceUntilDry(d, at, y, k, r, se, al, left);
            p.Arrived? ==> (p.y, p.k, p.at) == Advance(d, at, y, k, r, se, al)
    decreases se + 1 - k
  {
    hide Peek, Corrected;
    if k > se {
    } else if y[k] == 0 {
      if r > 0 {
        AdvanceArrives(d, at, y, k + 1, r - 1, se, al, left);
      }
    } else if left > 0 {
      AdvanceArrives(d, at + 1, y[k := Corrected(y[k], Peek(d, at, 1), al)], k + 1, r, se, al, left - 1);
    }
  }

  lemma {:induction false} RefineFinishes(t: HuffTable, d: seq<bit>, at: nat, y: Block, k: nat, se: nat, al: nat,
    left: nat)
    requires CountsOk(t) && se < DCTSIZE2
    ensures var o := RefineUntilDry(t, d, at, y, k, se, al, left);
            o.Finished? ==> (o.y, o.at, o.run) == DecodeRefCoefs(t, d, at, y, k, se, al)
    decreases se + 1 - k
  {
    hide Peek, DecodeSym, NewValue, CountsOk, Advance, Corrections, AdvanceUntilDry, CorrectUntilDry, Pow2;
    if k <= se && left > 0 {
      var (sym, at1) := DecodeSym(t, d, at);
      var r, s := sym / 16, sym % 16;
      if s == 0 && r != 15 {
        if !(r > 0 && left == 1) {
          CorrectFinishes(d, DecodeEob(d, at1, r).1, y, k, se, al, if r > 0 then left - 2 else left - 1);
        }
      } else if !(s != 0 && left == 1) {
        var at2, left1 := if s != 0 then at1 + 1 else at1, if s != 0 then left - 2 else left - 1;
        AdvanceArrives(d, at2, y, k, r, se, al, left1);
        var p := AdvanceUntilDry(d, at2, y, k, r, se, al, left1);
        if p.Arrived? {
          var v := NewValue(Peek(d, at1, 1), al);
          RefineFinishes(t, d, p.at,
            if s != 0 then p.y[Slot(p.k, DCTSIZE2 - 1) := v] else p.y, p.k + 1, se, al, p.left);
        }
      }
    }
  }

  /** A call that is not suspended does what decode_mcu_AC_refine does. */
  lemma BlockFinishes(t: HuffTable, d: seq<bit>, at: nat, run: nat, y: Block, ss: nat, se: nat, al: nat, left: nat)
    requires CountsOk(t) && se < DCTSIZE2
    ensures var o := BlockUntilDry(t, d, at, run, y, ss, se, al, left);
            o.Finished? ==> (o.y, o.at, o.run) == DecodeRefine(t, d, at, run, y, ss, se, al)
  {
    hide RefineUntilDry, CorrectUntilDry, DecodeRefCoefs, Corrections, CountsOk;
    if run > 0 {
      CorrectFinishes(d, at, y, ss, se, al, left);
    } else {
      RefineFinishes(t, d, at, y, ss, se, al, left);
    }
  }

  // ----- blocks that decode alike

  /** A correction bit added twice is added once. */
  lemma CorrectedTwice(x: jcoef, b: nat, al: nat)
    requires x != 0 && al <= 13
    ensures var v := Corrected(x, b, al); v != 0 && Corrected(v, b, al) == v
  {
    if b == 1 && Shift(x, al) % 2 == 0 {
      Flipped(x, al);
      OddNow(x, al, Enlarge(x, al));
    }
  }

  /** Adding to the magnitude sets a bit that was clear, even where it wraps around. */
  lemma Flipped(x: jcoef, al: nat)
    requires x != 0 && al <= 13 && Shift(x, al) % 2 == 0
    ensures Enlarge(x, al) != 0 && Shift(Enlarge(x, al), al) % 2 == 1
  {
    hide Pow2;
    var q, p := Pow2(al), Pow2(15 - al);
    Pow2Monotone(al, 13);
    assert q <= 0x2000 by { Pow2Values(); }
    var e: int := if x < 0 then x - q else x + q;
    var m: int := if e < -0x8000 then 1 else if e >= 0x8000 then -1 else 0;
    Wrapped(e, m);
    AddMultiple(x, if x < 0 then -1 else 1, q);
    Halves(al);
    WrapIs(m, p, q);
    AddMultiple(e, m * (2 * p), q);
    EvenStays(e / q, m, p);
  }

  lemma Wrapped(e: int, m: int)
    requires -0xA000 <= e < 0xA000 && e != 0
    requires m == if e < -0x8000 then 1 else if e >= 0x8000 then -1 else 0
    ensures Jcoef(e) == e + m * 0x10000 != 0
  {
  }

  lemma OddNow(x: jcoef, al: nat, v: jcoef)
    requires Shift(x, al) % 2 == 0 && v == Enlarge(x, al) && Shift(v, al) % 2 == 1
    ensures Corrected(x, 1, al) == v && Corrected(v, 1, al) == v
  {
  }

  lemma AddMultiple(x: int, m: int, q: nat)
    requires q > 0
    ensures (x + m * q) / q == x / q + m
  {
    var h, r := x / q, x % q;
    assert x == h * q + r;
    assert (h + m) * q == h * q + m * q;
    ShiftIs(x + m * q, q, h + m, r);
  }

  lemma WrapIs(m: int, p: nat, q: nat)
    requires q * p == 0x8000
    ensures m * (2 * p) * q == m * 0x10000
  {
    assert m * (2 * p) * q == m * (2 * (q * p));
  }

  lemma EvenStays(h: int, m: int, p: nat)
    ensures (h + m * (2 * p)) % 2 == h % 2
  {
    assert m * (2 * p) == 2 * (m * p);
  }

  /** At every position visited when y is decoded, w is zero like y, or becomes what y
      becomes. */
  ghost predicate AlikeCorrected(d: seq<bit>, at: nat, y: Block, w: Block, k: nat, se: nat, al: nat)
    requires se < DCTSIZE2
    decreases se + 1 - k
  {
    k > se ||
    if y[k] == 0 then w[k] == 0 && AlikeCorrected(d, at, y, w, k + 1, se, al)
    else Agree(y[k], w[k], Peek(d, at, 1), al) && AlikeCorrected(d, at + 1, y, w, k + 1, se, al)
  }

  predicate Agree(x: jcoef, u: jcoef, b: nat, al: nat)
  {
    u != 0 && Corrected(u, b, al) == Corrected(x, b, al)
  }

  ghost predicate AlikeAdvanced(d: seq<bit>, at: nat, y: Block, w: Block, k: nat, r: nat, se: nat, al: nat)
    requires se < DCTSIZE2
    decreases se + 1 - k
  {
    k > se ||
    if y[k] == 0 then w[k] == 0 && (r == 0 || AlikeAdvanced(d, at, y, w, k + 1, r - 1, se, al))
    else Agree(y[k], w[k], Peek(d, at, 1), al) && AlikeAdvanced(d, at + 1, y, w, k + 1, r, se, al)
  }

  ghost predicate Alike(t: HuffTable, d: seq<bit>, at: nat, y: Block, w: Block, k: nat, se: nat, al: nat)
    requires CountsOk(t) && se < DCTSIZE2
    decreases se + 1 - k
  {
    k > se ||
    var (sym, at1) := DecodeSym(t, d, at);
    var r, s := sym / 16, sym % 16;
    if s == 0 && r != 15 then AlikeCorrected(d, DecodeEob(d, at1, r).1, y, w, k, se, al)
    else
      var at2 := if s != 0 then at1 + 1 else at1;
      var (_, k1, at3) := Advance(d, at2, y, k, r, se, al);
      AlikeAdvanced(d, at2, y, w, k, r, se, al) && Alike(t, d, at3, y, w, k1 + 1, se, al)
  }

  /** From position k on. */
  predicate SameFrom(y: Block, w: Block, k: nat)
  {
    forall j :: k <= j < DCTSIZE2 ==> y[j] == w[j]
  }

  /** Outside positions k to se. */
  predicate SameOutside(y: Block, w: Block, k: nat, se: nat)
  {
    forall j :: 0 <= j < DCTSIZE2 && (j < k || j > se) ==> y[j] == w[j]
  }

  lemma {:induction false} CorrectAlike(d: seq<bit>, at: nat, y: Block, w: Block, y0: Block, w0: Block, k: nat, se: nat,
    al: nat)
    requires se < DCTSIZE2 && SameFrom(y, y0, k) && SameFrom(w, w0, k) && SameOutside(y, w, k, se)
    requires AlikeCorrected(d, at, y0, w0, k, se, al)
    ensures Corrections(d, at, y, k, se, al) == Corrections(d, at, w, k, se, al)
    decreases se + 1 - k
  {
    hide Peek, Corrected;
    if k > se {
      assert y == w;
    } else if y[k] == 0 {
      CorrectAlike(d, at, y, w, y0, w0, k + 1, se, al);
    } else {
      var v := Corrected(y[k], Peek(d, at, 1), al);
      CorrectAlike(d, at + 1, y[k := v], w[k := v], y0, w0, k + 1, se, al);
    }
  }

  lemma {:induction false} AdvanceAlike(d: seq<bit>, at: nat, y: Block, w: Block, y0: Block, w0: Block, k: nat, r: nat,
    se: nat, al: nat)
    requires se < DCTSIZE2 && k <= se + 1 && SameFrom(y, y0, k) && SameFrom(w, w0, k) && SameOutside(y, w, k, se)
    requires AlikeAdvanced(d, at, y0, w0, k, r, se, al)
    ensures var (y1, k1, at1) := Advance(d, at, y, k, r, se, al);
            var (w1, k2, at2) := Advance(d, at, w, k, r, se, al);
            && k1 == k2 && at1 == at2 && SameFrom(y1, y0, k1) && SameFrom(w1, w0, k1) && SameOutside(y1, w1, k1, se)
            && (k1 <= se ==> y1[k1] == w1[k1] == 0)
    decreases se + 1 - k
  {
    hide Peek, Corrected;
    if k > se {
    } else if y[k] == 0 {
      if r > 0 {
        AdvanceAlike(d, at, y, w, y0, w0, k + 1, r - 1, se, al);
      }
    } else {
      var v := Corrected(y[k], Peek(d, at, 1), al);
      AdvanceAlike(d, at + 1, y[k := v], w[k := v], y0, w0, k + 1, r, se, al);
    }
  }

  /** Blocks that are alike decode to the same. */
  lemma {:induction false} RefineAlike(t: HuffTable, d: seq<bit>, at: nat, y: Block, w: Block, y0: Block, w0: Block,
    k: nat, se: nat, al: nat)
    requires CountsOk(t) && se < DCTSIZE2 && SameFrom(y, y0, k) && SameFrom(w, w0, k) && SameOutside(y, w, k, se)
    requires Alike(t, d, at, y0, w0, k, se, al)
    ensures DecodeRefCoefs(t, d, at, y, k, se, al) == DecodeRefCoefs(t, d, at, w, k, se, al)
    decreases se + 1 - k
  {
    hide Peek, DecodeSym, NewValue, CountsOk, Advance, Corrections, AlikeAdvanced, AlikeCorrected, Pow2;
    if k > se {
      assert y == w;
    } else {
      var (sym, at1) := DecodeSym(t, d, at);
      var r, s := sym / 16, sym % 16;
      if s == 0 && r != 15 {
        CorrectAlike(d, DecodeEob(d, at1, r).1, y, w, y0, w0, k, se, al);
      } else {
        var at2 := if s != 0 then at1 + 1 else at1;
        AdvanceAlike(d, at2, y, w, y0, w0, k, r, se, al);
        AdvanceFrame(d, at2, y, y0, k, r, se, al);
        var (y1, k1, at3) := Advance(d, at2, y, k, r, se, al);
        var w1 := Advance(d, at2, w, k, r, se, al).0;
        var slot, v := Slot(k1, DCTSIZE2 - 1), NewValue(Peek(d, at1, 1), al);
        var y2, w2 := if s != 0 then y1[slot := v] else y1, if s != 0 then w1[slot := v] else w1;
        RefineAlike(t, d, at3, y2, w2, y0, w0, k1 + 1, se, al);
      }
    }
  }

  /** What advancing finds depends on the positions from k on only. */
  lemma {:induction false} AdvanceFrame(d: seq<bit>, at: nat, y: Block, y0: Block, k: nat, r: nat, se: nat, al: nat)
    requires se < DCTSIZE2 && k <= se + 1 && SameFrom(y, y0, k)
    ensures Advance(d, at, y, k, r, se, al).1 == Advance(d, at, y0, k, r, se, al).1
    ensures Advance(d, at, y, k, r, se, al).2 == Advance(d, at, y0, k, r, se, al).2
    decreases se + 1 - k
  {
    hide Peek, Corrected;
    if k > se {
    } else if y[k] == 0 {
      if r > 0 {
        AdvanceFrame(d, at, y, y0, k + 1, r - 1, se, al);
      }
    } else {
      var v := Corrected(y[k], Peek(d, at, 1), al);
      AdvanceFrame(d, at + 1, y[k := v], y0[k := v], k + 1, r, se, al);
    }
  }

  // ----- what a suspended call leaves is alike

  /** w is y where it has not been visited, and corrected where it has. */
  lemma {:induction false} CorrectDry(d: seq<bit>, at: nat, y: Block, y0: Block, k: nat, se: nat, al: nat, left: nat)
    requires se < DCTSIZE2 && al <= 13 && SameFrom(y, y0, k)
    ensures var p := CorrectUntilDry(d, at, y, k, se, al, left);
            p.Dry? ==> AlikeCorrected(d, at, y0, p.y, k, se, al) && SameOutside(y, p.y, k, se)
    decreases se + 1 - k
  {
    hide Peek, Corrected;
    if k > se {
    } else if y[k] == 0 {
      CorrectDry(d, at, y, y0, k + 1, se, al, left);
    } else if left == 0 {
      NotVisited(d, at, y0, y, k, se, al);
    } else {
      var b := Peek(d, at, 1);
      CorrectedTwice(y[k], b, al);
      CorrectDry(d, at + 1, y[k := Corrected(y[k], b, al)], y0, k + 1, se, al, left - 1);
    }
  }

  lemma {:induction false} NotVisited(d: seq<bit>, at: nat, y: Block, w: Block, k: nat, se: nat, al: nat)
    requires se < DCTSIZE2 && SameFrom(w, y, k)
    ensures AlikeCorrected(d, at, y, w, k, se, al)
    decreases se + 1 - k
  {
    hide Peek, Corrected;
    if k <= se {
      NotVisited(d, if y[k] == 0 then at else at + 1, y, w, k + 1, se, al);
    }
  }

  lemma {:induction false} NotAdvanced(d: seq<bit>, at: nat, y: Block, w: Block, k: nat, r: nat, se: nat, al: nat)
    requires se < DCTSIZE2 && SameFrom(w, y, k)
    ensures AlikeAdvanced(d, at, y, w, k, r, se, al)
    decreases se + 1 - k
  {
    hide Peek, Corrected;
    if k <= se && (y[k] != 0 || r > 0) {
      NotAdvanced(d, if y[k] == 0 then at else at + 1, y, w, k + 1, if y[k] == 0 then r - 1 else r, se, al);
    }
  }

  lemma {:induction false} NotRefined(t: HuffTable, d: seq<bit>, at: nat, y: Block, w: Block, k: nat, se: nat, al: nat)
    requires CountsOk(t) && se < DCTSIZE2 && SameFrom(w, y, k)
    ensures Alike(t, d, at, y, w, k, se, al)
    decreases se + 1 - k
  {
    hide Peek, DecodeSym, CountsOk, Advance, AlikeAdvanced, AlikeCorrected, Pow2;
    if k <= se {
      var (sym, at1) := DecodeSym(t, d, at);
      var r, s := sym / 16, sym % 16;
      if s == 0 && r != 15 {
        NotVisited(d, DecodeEob(d, at1, r).1, y, w, k, se, al);
      } else {
        var at2 := if s != 0 then at1 + 1 else at1;
        NotAdvanced(d, at2, y, w, k, r, se, al);
        var (_, k1, at3) := Advance(d, at2, y, k, r, se, al);
        NotRefined(t, d, at3, y, w, k1 + 1, se, al);
      }
    }
  }

  /** Advancing up to where the data end: alike, and untouched behind where advancing would
      have arrived. */
  lemma {:induction false} AdvanceDry(d: seq<bit>, at: nat, y: Block, y0: Block, k: nat, r: nat, se: nat, al: nat,
    left: nat)
    requires se < DCTSIZE2 && k <= se + 1 && al <= 13 && SameFrom(y, y0, k)
    ensures var p, k1 := AdvanceUntilDry(d, at, y, k, r, se, al, left), Advance(d, at, y0, k, r, se, al).1;
            p.Dry? ==>
                AlikeAdvanced(d, at, y0, p.y, k, r, se, al) && SameOutside(y, p.y, k, se) && SameFrom(p.y, y0, k1 + 1)
    decreases se + 1 - k
  {
    hide Peek, Corrected;
    if k > se {
    } else if y[k] == 0 {
      if r > 0 {
        AdvanceDry(d, at, y, y0, k + 1, r - 1, se, al, left);
      }
    } else if left == 0 {
      NotAdvanced(d, at, y0, y, k, r, se, al);
    } else {
      var b := Peek(d, at, 1);
      CorrectedTwice(y[k], b, al);
      var v := Corrected(y[k], b, al);
      AdvanceDry(d, at + 1, y[k := v], y0, k + 1, r, se, al, left - 1);
      AdvanceFrame(d, at + 1, y0[k := v], y0, k + 1, r, se, al);
    }
  }

  /** A block corrected up to k1 is alike as far as advancing goes. */
  lemma {:induction false} AdvancedAlike(d: seq<bit>, at: nat, y: Block, y0: Block, w: Block, k: nat, r: nat, se: nat,
    al: nat)
    requires se < DCTSIZE2 && k <= se + 1 && al <= 13 && SameFrom(y, y0, k)
    requires var (y1, k1, _) := Advance(d, at, y, k, r, se, al);
             (forall j :: k <= j < k1 ==> w[j] == y1[j]) && (k1 <= se ==> w[k1] == 0)
    ensures AlikeAdvanced(d, at, y0, w, k, r, se, al)
    decreases se + 1 - k
  {
    hide Peek, Corrected;
    if k > se {
    } else if y[k] == 0 {
      if r > 0 {
        AdvanceKeeps(d, at, y, k + 1, r - 1, se, al);
        AdvancedAlike(d, at, y, y0, w, k + 1, r - 1, se, al);
      }
    } else {
      var b := Peek(d, at, 1);
      CorrectedTwice(y[k], b, al);
      var v := Corrected(y[k], b, al);
      AdvanceKeeps(d, at + 1, y[k := v], k + 1, r, se, al);
      AdvancedAlike(d, at + 1, y[k := v], y0, w, k + 1, r, se, al);
    }
  }

  lemma {:induction false} AdvanceKeeps(d: seq<bit>, at: nat, y: Block, k: nat, r: nat, se: nat, al: nat)
    requires se < DCTSIZE2 && k <= se + 1
    ensures var (y1, k1, _) := Advance(d, at, y, k, r, se, al);
            && (forall j :: 0 <= j < DCTSIZE2 && (j < k || j >= k1) ==> y1[j] == y[j]) && (k1 <= se ==> y1[k1] == 0)
    decreases se + 1 - k
  {
    hide Peek, Corrected;
    if k > se {
    } else if y[k] == 0 {
      if r > 0 {
        AdvanceKeeps(d, at, y, k + 1, r - 1, se, al);
      }
    } else {
      AdvanceKeeps(d, at + 1, y[k := Corrected(y[k], Peek(d, at, 1), al)], k + 1, r, se, al);
    }
  }

  /** A suspended call leaves a block that is alike. */
  lemma {:induction false} RefineDry(t: HuffTable, d: seq<bit>, at: nat, y: Block, y0: Block, k: nat, se: nat, al: nat,
    left: nat)
    requires CountsOk(t) && se < DCTSIZE2 && al <= 13 && SameFrom(y, y0, k)
    ensures var o := RefineUntilDry(t, d, at, y, k, se, al, left);
            o.Suspended? ==> Alike(t, d, at, y0, o.y, k, se, al) && SameOutside(y, o.y, k, se)
    decreases se + 1 - k
  {
    hide Peek, DecodeSym, NewValue, CountsOk, Advance, Alike, AlikeAdvanced, AlikeCorrected, AdvanceUntilDry,
      CorrectUntilDry, Pow2;
    if k > se {
      return;
    }
    NotRefined(t, d, at, y0, y, k, se, al);
    if left == 0 {
      return;
    }
    var (sym, at1) := DecodeSym(t, d, at);
    var r, s := sym / 16, sym % 16;
    if s == 0 && r != 15 {
      CorrectDry(d, DecodeEob(d, at1, r).1, y, y0, k, se, al, if r > 0 && left > 1 then left - 2 else left - 1);
      AlikeEob(t, d, at, y0, k, se, al);
    } else if s == 0 || left > 1 {
      var at2, left1 := if s != 0 then at1 + 1 else at1, if s != 0 then left - 2 else left - 1;
      RefineStepDry(t, d, at, y, y0, k, se, al, left);
    }
  }

  /** Unfolding at an EOBn symbol. */
  lemma AlikeEob(t: HuffTable, d: seq<bit>, at: nat, y0: Block, k: nat, se: nat, al: nat)
    requires CountsOk(t) && se < DCTSIZE2 && k <= se
    requires DecodeSym(t, d, at).0 % 16 == 0 && DecodeSym(t, d, at).0 / 16 != 15
    ensures forall w ::
      (Alike(t, d, at, y0, w, k, se, al) ==
       AlikeCorrected(d, DecodeEob(d, DecodeSym(t, d, at).1, DecodeSym(t, d, at).0 / 16).1, y0, w, k, se, al))
  {
    hide DecodeSym, CountsOk, AlikeCorrected, Pow2, Peek;
  }

  lemma {:induction false} RefineStepDry(t: HuffTable, d: seq<bit>, at: nat, y: Block, y0: Block, k: nat, se: nat,
    al: nat, left: nat)
    requires CountsOk(t) && se < DCTSIZE2 && al <= 13 && SameFrom(y, y0, k) && k <= se && left > 0
    requires DecodeSym(t, d, at).0 % 16 != 0 || DecodeSym(t, d, at).0 / 16 == 15
    requires DecodeSym(t, d, at).0 % 16 == 0 || left > 1
    ensures var o := RefineUntilDry(t, d, at, y, k, se, al, left);
            o.Suspended? ==> Alike(t, d, at, y0, o.y, k, se, al) && SameOutside(y, o.y, k, se)
    decreases se + 1 - k, 0
  {
    hide Peek, DecodeSym, NewValue, CountsOk, Advance, AlikeAdvanced, AlikeCorrected, AdvanceUntilDry, CorrectUntilDry,
      Pow2;
    var (sym, at1) := DecodeSym(t, d, at);
    var r, s := sym / 16, sym % 16;
    var at2, left1 := if s != 0 then at1 + 1 else at1, if s != 0 then left - 2 else left - 1;
    var p := AdvanceUntilDry(d, at2, y, k, r, se, al, left1);
    var (_, k1, at3) := Advance(d, at2, y0, k, r, se, al);
    AdvanceFrame(d, at2, y, y0, k, r, se, al);
    if p.Dry? {
      AdvanceDry(d, at2, y, y0, k, r, se, al, left1);
      NotRefined(t, d, at3, y0, p.y, k1 + 1, se, al);
    } else {
      AdvanceArrives(d, at2, y, k, r, se, al, left1);
      AdvanceKeeps(d, at2, y, k, r, se, al);
      var slot, v := Slot(k1, DCTSIZE2 - 1), NewValue(Peek(d, at1, 1), al);
      var y2 := if s != 0 then p.y[slot := v] else p.y;
      RefineDry(t, d, at3, y2, y0, k1 + 1, se, al, p.left);
      var o := RefineUntilDry(t, d, at3, y2, k1 + 1, se, al, p.left);
      if o.Suspended? {
        var w := if s != 0 then o.y[slot := 0] else o.y;
        NotPast(t, d, at3, y2, k1, se, al, p.left);
        AdvancedAlike(d, at2, y, y0, w, k, r, se, al);
        AlikeFrame(t, d, at3, y0, o.y, w, k1 + 1, se, al);
      }
    }
  }

  /** Past the band there is nothing to read. */
  lemma NotPast(t: HuffTable, d: seq<bit>, at: nat, y: Block, k1: nat, se: nat, al: nat, left: nat)
    requires CountsOk(t) && se < DCTSIZE2 && RefineUntilDry(t, d, at, y, k1 + 1, se, al, left).Suspended?
    ensures k1 < se
  {
  }

  lemma {:induction false} AlikeFrame(t: HuffTable, d: seq<bit>, at: nat, y: Block, w: Block, w': Block, k: nat,
    se: nat, al: nat)
    requires CountsOk(t) && se < DCTSIZE2 && SameFrom(w, w', k) && Alike(t, d, at, y, w, k, se, al)
    ensures Alike(t, d, at, y, w', k, se, al)
    decreases se + 1 - k
  {
    hide Peek, DecodeSym, CountsOk, Advance, AlikeAdvanced, AlikeCorrected, Pow2;
    if k <= se {
      var (sym, at1) := DecodeSym(t, d, at);
      var r, s := sym / 16, sym % 16;
      if s == 0 && r != 15 {
        CorrectedFrame(d, DecodeEob(d, at1, r).1, y, w, w', k, se, al);
      } else {
        var at2 := if s != 0 then at1 + 1 else at1;
        AdvancedFrame(d, at2, y, w, w', k, r, se, al);
        var (_, k1, at3) := Advance(d, at2, y, k, r, se, al);
        AlikeFrame(t, d, at3, y, w, w', k1 + 1, se, al);
      }
    }
  }

  lemma {:induction false} CorrectedFrame(d: seq<bit>, at: nat, y: Block, w: Block, w': Block, k: nat, se: nat, al: nat)
    requires se < DCTSIZE2 && SameFrom(w, w', k) && AlikeCorrected(d, at, y, w, k, se, al)
    ensures AlikeCorrected(d, at, y, w', k, se, al)
    decreases se + 1 - k
  {
    hide Peek, Agree;
    if k <= se {
      CorrectedFrame(d, if y[k] == 0 then at else at + 1, y, w, w', k + 1, se, al);
    }
  }

  lemma {:induction false} AdvancedFrame(d: seq<bit>, at: nat, y: Block, w: Block, w': Block, k: nat, r: nat, se: nat,
    al: nat)
    requires se < DCTSIZE2 && SameFrom(w, w', k) && AlikeAdvanced(d, at, y, w, k, r, se, al)
    ensures AlikeAdvanced(d, at, y, w', k, r, se, al)
    decreases se + 1 - k
  {
    hide Peek, Agree;
    if k <= se && (y[k] != 0 || r > 0) {
      AdvancedFrame(d, if y[k] == 0 then at else at + 1, y, w, w', k + 1, if y[k] == 0 then r - 1 else r, se, al);
    }
  }

  /** Decoding what a suspended call left gives what decoding the block it was given would
      have given. */
  lemma BlockSuspends(t: HuffTable, d: seq<bit>, at: nat, run: nat, y: Block, ss: nat, se: nat, al: nat, left: nat)
    requires CountsOk(t) && se < DCTSIZE2 && al <= 13
    ensures var o := BlockUntilDry(t, d, at, run, y, ss, se, al, left);
            o.Suspended? ==> DecodeRefine(t, d, at, run, o.y, ss, se, al) == DecodeRefine(t, d, at, run, y, ss, se, al)
  {
    hide RefineUntilDry, CorrectUntilDry, DecodeRefCoefs, Corrections, CountsOk, Alike, AlikeCorrected;
    var o := BlockUntilDry(t, d, at, run, y, ss, se, al, left);
    if o.Suspended? {
      if run > 0 {
        CorrectDry(d, at, y, y, ss, se, al, left);
        CorrectAlike(d, at, y, o.y, y, o.y, ss, se, al);
      } else {
        RefineDry(t, d, at, y, y, ss, se, al, left);
        RefineAlike(t, d, at, y, o.y, y, o.y, ss, se, al);
      }
    }
  }

  // ----- the routine itself

  /** Positions zeroed again, the last one first. */
  function Zeroed(y: Block, slots: seq<nat>): Block
    requires forall i :: 0 <= i < |slots| ==> slots[i] < DCTSIZE2
    decreases |slots|
  {
    if slots == [] then y else Zeroed(y[slots[|slots| - 1] := 0], slots[..|slots| - 1])
  }

  /** What a call ends with when these positions have to be zeroed again. */
  function Undone(o: Outcome, slots: seq<nat>): Outcome
    requires forall i :: 0 <= i < |slots| ==> slots[i] < DCTSIZE2
  {
    match o
    case Finished(y, at, run) => o
    case Suspended(y) => Suspended(Zeroed(y, slots))
  }

  /** The correction bits from position k on, while there are data. */
  method CorrectRest(order: seq<nat>, d: seq<bit>, at0: nat, block: array<jcoef>, k0: nat, se: nat, al: nat, left0: nat)
    returns (dry: bool, at: nat)
    requires ValidOrder(order) && block.Length == DCTSIZE2 && se < DCTSIZE2
    modifies block
    ensures var p := CorrectUntilDry(d, at0, old(Zigzag(order, block[..])), k0, se, al, left0);
            dry == p.Dry? && p.y == Zigzag(order, block[..]) && (!dry ==> at == p.at)
  {
    hide Peek, Corrected;
    ghost var goal := CorrectUntilDry(d, at0, Zigzag(order, block[..]), k0, se, al, left0);
    var k, left := k0, left0;
    at, dry := at0, false;
    while k <= se
      invariant CorrectUntilDry(d, at, Zigzag(order, block[..]), k, se, al, left) == goal && !dry
      decreases se + 1 - k
    {
      assert block[order[k]] == Zigzag(order, block[..])[k];
      if block[order[k]] != 0 {
        if left == 0 {
          dry := true;
          return;
        }
        Store(order, block, k, Corrected(block[order[k]], Peek(d, at, 1), al));
        at, left := at + 1, left - 1;
      }
      k := k + 1;
    }
  }

  /** Over already-nonzero coefficients and r still-zero ones, while there are data. */
  method AdvanceOver(order: seq<nat>, d: seq<bit>, at0: nat, block: array<jcoef>, k0: nat, r0: nat, se: nat, al: nat,
    left0: nat)
    returns (dry: bool, k: nat, at: nat, left: nat)
    requires ValidOrder(order) && block.Length == DCTSIZE2 && k0 <= se < DCTSIZE2
    modifies block
    ensures var p := AdvanceUntilDry(d, at0, old(Zigzag(order, block[..])), k0, r0, se, al, left0);
            dry == p.Dry? && p.y == Zigzag(order, block[..]) && (!dry ==>
              (k, at, left) == (p.k, p.at, p.left) && k0 <= k <= se + 1)
  {
    hide Peek, Corrected;
    ghost var goal := AdvanceUntilDry(d, at0, Zigzag(order, block[..]), k0, r0, se, al, left0);
    var r := r0;
    k, left, at, dry := k0, left0, at0, false;
    while true
      invariant k0 <= k <= se && AdvanceUntilDry(d, at, Zigzag(order, block[..]), k, r, se, al, left) == goal && !dry
      decreases se - k
    {
      assert block[order[k]] == Zigzag(order, block[..])[k];
      if block[order[k]] != 0 {
        if left == 0 {
          dry := true;
          return;
        }
        Store(order, block, k, Corrected(block[order[k]], Peek(d, at, 1), al));
        at, left := at + 1, left - 1;
      } else {
        if r == 0 {
          return;
        }
        r := r - 1;
      }
      k := k + 1;
      if k > se {
        return;
      }
    }
  }

  /** undoit: re-zeroes any output coefficients made newly nonzero. */
  method UndoIt(order: seq<nat>, block: array<jcoef>, newnzPos: seq<nat>, ghost slots: seq<nat>)
    requires ValidOrder(order) && block.Length == DCTSIZE2 && |newnzPos| == |slots|
    requires forall i :: 0 <= i < |slots| ==> slots[i] < DCTSIZE2 && newnzPos[i] == order[slots[i]]
    modifies block
    ensures Zigzag(order, block[..]) == Zeroed(old(Zigzag(order, block[..])), slots)
  {
    ghost var goal := Zeroed(Zigzag(order, block[..]), slots);
    var numNewnz := |newnzPos|;
    assert slots[..numNewnz] == slots;
    while numNewnz > 0
      invariant numNewnz <= |slots| && Zeroed(Zigzag(order, block[..]), slots[..numNewnz]) == goal
    {
      numNewnz := numNewnz - 1;
      ghost var b := block[..];
      block[newnzPos[numNewnz]] := 0;
      assert block[..] == b[order[slots[numNewnz]] := 0];
      ZigzagStore(order, b, slots[numNewnz], 0);
      assert slots[..numNewnz + 1][..numNewnz] == slots[..numNewnz];
    }
  }

  /** decode_mcu_AC_refine with a data source that runs dry after `left` reads: the saved
      state is updated only when the block is complete. */
  method DecodeAcRefine(order: seq<nat>, t: HuffTable, d: seq<bit>, at0: nat, run0: nat, block: array<jcoef>, ss: nat,
    se: nat, al: nat, left: nat)
    returns (done: bool, at: nat, run: nat)
    requires ValidOrder(order) && block.Length == DCTSIZE2 && CountsOk(t) && se < DCTSIZE2
    modifies block
    ensures var o := BlockUntilDry(t, d, at0, run0, old(Zigzag(order, block[..])), ss, se, al, left);
            && done == o.Finished? && o.y == Zigzag(order, block[..])
            && (at, run) == if done then (o.at, o.run) else (at0, run0)
  {
    hide RefineUntilDry, CorrectUntilDry, CountsOk;
    if run0 > 0 {
      var dry;
      dry, at := CorrectRest(order, d, at0, block, ss, se, al, left);
      done, run := !dry, run0 - 1;
    } else {
      done, at, run := DecodeRefined(order, t, d, at0, block, ss, se, al, left);
    }
    if !done {
      at, run := at0, run0;
    }
  }

  /** What precedes the coefficients: nothing any more, an end-of-band run, or a number of
      zeros to skip, with the value of a newly nonzero coefficient unless it is a ZRL. */
  datatype Header = NoData | Eob(run: nat, at: nat, left: nat) | Skip(r: nat, isNew: bool, v: jcoef, at: nat, left: nat)

  function HeaderAt(t: HuffTable, d: seq<bit>, at: nat, al: nat, left: nat): Header
    requires CountsOk(t)
  {
    if left == 0 then NoData
    else
      var (sym, at1) := DecodeSym(t, d, at);
      var r, s := sym / 16, sym % 16;
      if s != 0 then if left == 1 then NoData else Skip(r, true, NewValue(Peek(d, at1, 1), al), at1 + 1, left - 2)
      else if r == 15 then Skip(r, false, 0, at1, left - 1)
      else if r > 0 && left == 1 then NoData
      else Eob(DecodeEob(d, at1, r).0, DecodeEob(d, at1, r).1, if r > 0 then left - 2 else left - 1)
  }

  /** Behind the position advanced to, after storing there. */
  function Stored(t: HuffTable, d: seq<bit>, at: nat, y: Block, k1: nat, isNew: bool, v: jcoef, se: nat, al: nat,
    left: nat): Outcome
    requires CountsOk(t) && se < DCTSIZE2
  {
    var slot := Slot(k1, DCTSIZE2 - 1);
    if isNew then
      match RefineUntilDry(t, d, at, y[slot := v], k1 + 1, se, al, left)
      case Finished(y2, at4, run) => Finished(y2, at4, run)
      case Suspended(y2) => Suspended(y2[slot := 0])
    else RefineUntilDry(t, d, at, y, k1 + 1, se, al, left)
  }

  /** The rest of the block behind a header. */
  function AfterHeader(t: HuffTable, d: seq<bit>, y: Block, k: nat, se: nat, al: nat, h: Header): Outcome
    requires CountsOk(t) && k <= se < DCTSIZE2
  {
    match h
    case NoData => Suspended(y)
    case Eob(run, at, left) =>
      var p := CorrectUntilDry(d, at, y, k, se, al, left);
      if p.Dry? then Suspended(p.y) else Finished(p.y, p.at, if run > 0 then run - 1 else 0)
    case Skip(r, isNew, v, at, left) =>
      var p := AdvanceUntilDry(d, at, y, k, r, se, al, left);
      if p.Dry? then Suspended(p.y) else Stored(t, d, p.at, p.y, p.k, isNew, v, se, al, p.left)
  }

  lemma HeaderStep(t: HuffTable, d: seq<bit>, at: nat, y: Block, k: nat, se: nat, al: nat, left: nat)
    requires CountsOk(t) && k <= se < DCTSIZE2
    ensures RefineUntilDry(t, d, at, y, k, se, al, left) == AfterHeader(t, d, y, k, se, al,
      HeaderAt(t, d, at, al, left))
    ensures HeaderAt(t, d, at, al, left).Eob? ==> HeaderAt(t, d, at, al, left).run > 0
  {
    hide DecodeSym, Peek, CountsOk, NewValue, AdvanceUntilDry, CorrectUntilDry;
  }

  /** Reads the header. */
  method ReadHeader(t: HuffTable, d: seq<bit>, at: nat, al: nat, left: nat) returns (h: Header)
    requires CountsOk(t)
    ensures h == HeaderAt(t, d, at, al, left)
  {
    hide DecodeSym, Peek, CountsOk, Pow2, NewValue;
    if left == 0 {
      return NoData;
    }
    var (sym, at1) := DecodeSym(t, d, at);
    var r, s := sym / 16, sym % 16;
    if s != 0 {
      if left == 1 {
        return NoData;
      }
      return Skip(r, true, NewValue(Peek(d, at1, 1), al), at1 + 1, left - 2);
    }
    if r == 15 {
      return Skip(r, false, 0, at1, left - 1);
    }
    if r > 0 && left == 1 {
      return NoData;
    }
    var (run, at2) := DecodeEob(d, at1, r);
    h := Eob(run, at2, if r > 0 then left - 2 else left - 1);
  }

  /** A block in front of which no run is pending. */
  method DecodeRefined(order: seq<nat>, t: HuffTable, d: seq<bit>, at0: nat, block: array<jcoef>, ss: nat, se: nat,
    al: nat, left0: nat)
    returns (done: bool, at: nat, run: nat)
    requires ValidOrder(order) && block.Length == DCTSIZE2 && CountsOk(t) && se < DCTSIZE2
    modifies block
    ensures var o := RefineUntilDry(t, d, at0, old(Zigzag(order, block[..])), ss, se, al, left0);
            done == o.Finished? && o.y == Zigzag(order, block[..]) && (done ==> (at, run) == (o.at, o.run))
  {
    hide CountsOk, AdvanceUntilDry, CorrectUntilDry, RefineUntilDry, HeaderAt, Zeroed;
    ghost var goal := RefineUntilDry(t, d, at0, Zigzag(order, block[..]), ss, se, al, left0);
    var newnzPos: seq<nat> := [];
    ghost var slots: seq<nat> := [];
    var k, left := ss, left0;
    done, at, run := true, at0, 0;
    NoneUndone(goal);
    while k <= se
      invariant done && run == 0 && |newnzPos| == |slots|
      invariant forall i :: 0 <= i < |slots| ==> slots[i] < DCTSIZE2 && newnzPos[i] == order[slots[i]]
      invariant Undone(RefineUntilDry(t, d, at, Zigzag(order, block[..]), k, se, al, left), slots) == goal
      decreases se + 1 - k
    {
      HeaderStep(t, d, at, Zigzag(order, block[..]), k, se, al, left);
      var h := ReadHeader(t, d, at, al, left);
      var dry := true;
      if h.Eob? {
        dry, at := CorrectRest(order, d, h.at, block, k, se, al, h.left);
        if !dry {
          run := h.run - 1;
          return;
        }
      } else if h.Skip? {
        dry, k, at, left := AdvanceOver(order, d, h.at, block, k, h.r, se, al, h.left);
        if !dry && h.isNew {
          StoreNew(order, t, d, at, block, k, h.v, se, al, left, slots);
          newnzPos := newnzPos + [order[Slot(k, DCTSIZE2 - 1)]];
          slots := slots + [Slot(k, DCTSIZE2 - 1)];
        }
      }
      if dry {
        UndoIt(order, block, newnzPos, slots);
        done := false;
        return;
      }
      k := k + 1;
    }
    BandOver(t, d, at, Zigzag(order, block[..]), k, se, al, left);
  }

  lemma BandOver(t: HuffTable, d: seq<bit>, at: nat, y: Block, k: nat, se: nat, al: nat, left: nat)
    requires CountsOk(t) && se < DCTSIZE2 && k > se
    ensures RefineUntilDry(t, d, at, y, k, se, al, left) == Finished(y, at, 0)
  {
  }

  lemma NoneUndone(o: Outcome)
    ensures Undone(o, []) == o
  {
  }

  /** A newly nonzero coefficient, to be zeroed again if the data do not last. */
  method StoreNew(order: seq<nat>, ghost t: HuffTable, ghost d: seq<bit>, ghost at: nat, block: array<jcoef>, k: nat,
    v: jcoef,
                  ghost se: nat, ghost al: nat, ghost left: nat, ghost slots: seq<nat>)
    requires ValidOrder(order) && block.Length == DCTSIZE2 && CountsOk(t) && se < DCTSIZE2
    requires forall i :: 0 <= i < |slots| ==> slots[i] < DCTSIZE2
    modifies block
    ensures Undone(RefineUntilDry(t, d, at, Zigzag(order, block[..]), k + 1, se, al, left), slots
      + [Slot(k, DCTSIZE2 - 1)])
      == Undone(Stored(t, d, at, old(Zigzag(order, block[..])), k, true, v, se, al, left), slots)
  {
    hide CountsOk, RefineUntilDry, Zeroed, Undone;
    Store(order, block, Slot(k, DCTSIZE2 - 1), v);
    UndoneMore(RefineUntilDry(t, d, at, Zigzag(order, block[..]), k + 1, se, al, left), slots, Slot(k, DCTSIZE2 - 1));
  }

  lemma UndoneMore(o: Outcome, slots: seq<nat>, slot: nat)
    requires slot < DCTSIZE2 && forall i :: 0 <= i < |slots| ==> slots[i] < DCTSIZE2
    ensures Undone(o, slots + [slot]) == Undone(if o.Suspended? then Suspended(o.y[slot := 0]) else o, slots)
  {
    assert (slots + [slot])[..|slots|] == slots;
  }

  // ----- calls repeated

  /** Call after call on the same block, until one is not suspended. */
  function Calls(t: HuffTable, d: seq<bit>, at: nat, run: nat, y: Block, ss: nat, se: nat, al: nat,
    lefts: seq<nat>): Outcome
    requires CountsOk(t) && se < DCTSIZE2
    decreases |lefts|
  {
    if lefts == [] then Suspended(y)
    else
      match BlockUntilDry(t, d, at, run, y, ss, se, al, lefts[0])
      case Finished(y1, at1, run1) => Finished(y1, at1, run1)
      case Suspended(y1) => Calls(t, d, at, run, y1, ss, se, al, lefts[1..])
  }

  /** However often and wherever the calls are suspended, once one completes, the block, the
      run and the place in the data are those of one uninterrupted call. */
  lemma {:induction false} Restartable(t: HuffTable, d: seq<bit>, at: nat, run: nat, y: Block, ss: nat, se: nat,
    al: nat, lefts: seq<nat>)
    requires CountsOk(t) && se < DCTSIZE2 && al <= 13
    ensures var o := Calls(t, d, at, run, y, ss, se, al, lefts);
            o.Finished? ==> (o.y, o.at, o.run) == DecodeRefine(t, d, at, run, y, ss, se, al)
    decreases |lefts|
  {
    hide BlockUntilDry, DecodeRefine, CountsOk;
    if lefts != [] {
      BlockFinishes(t, d, at, run, y, ss, se, al, lefts[0]);
      BlockSuspends(t, d, at, run, y, ss, se, al, lefts[0]);
      var o := BlockUntilDry(t, d, at, run, y, ss, se, al, lefts[0]);
      if o.Suspended? {
        Restartable(t, d, at, run, o.y, ss, se, al, lefts[1..]);
      }
    }
  }
}
