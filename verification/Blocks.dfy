/** Blocks of coefficients, zigzag order, and the point transforms of successive
    approximation (ITU-T T.81, section G.1.2). */
module Blocks {
  import opened JpegLib
  import opened Bytes
  import opened Arithmetic

  type jcoef = x: int | -0x8000 <= x < 0x8000

  /** Conversion to the 16-bit coefficient type. */
  function Jcoef(x: int): jcoef
  {
    (x + 0x8000) % 0x10000 - 0x8000
  }

  /** The point transform of AC coefficients: division by 2^al, rounding towards zero. */
  function Transform(x: int, al: nat): int
  {
    Signed(SignBit(x), Quotient(Abs(x), Pow2(al)))
  }

  /** What is known of an AC coefficient after a scan with this al. */
  function Approx(x: int, al: nat): int
  {
    Transform(x, al) * Pow2(al)
  }

  function Abs(x: int): nat
  {
    if x >= 0 then x else -x
  }

  function SignBit(x: int): bit
  {
    if x >= 0 then 0 else 1
  }

  function Signed(sign: bit, v: int): int
  {
    if sign == 1 then -v else v
  }

  /** End-of-block index: the last nonzero position at or below k, or 0. */
  function EndOfBlock(t: seq<int>, k: nat): (e: nat)
    requires k < |t|
    ensures e <= k && (e > 0 ==> t[e] != 0)
    ensures forall j :: e < j <= k ==> t[j] == 0
  {
    if k == 0 || t[k] != 0 then k else EndOfBlock(t, k - 1)
  }

  /** A block in zigzag order. */
  type Block = b: seq<jcoef> | |b| == DCTSIZE2 witness seq(DCTSIZE2, _ => 0)

  /** The point transform of DC coefficients: an arithmetic right shift. */
  function Shift(x: int, al: nat): int
  {
    x / Pow2(al)
  }

  lemma ShiftSmall(x: int, al: nat)
    requires -0x8000 <= x < 0x8000
    ensures -0x8000 <= Shift(x, al) < 0x8000
  {
    var q := Pow2(al);
    assert x == x / q * q + x % q;
    if x / q > 0 {
      AtLeastOnce(q, x / q);
    } else if x / q < 0 {
      AtLeastOnce(q, -(x / q) - 1);
      assert -(x / q) * q == q + (-(x / q) - 1) * q;
    }
  }

  function Transformed(z: Block, al: nat): (t: seq<int>)
    ensures |t| == DCTSIZE2
    ensures forall k :: 0 <= k < DCTSIZE2 ==> t[k] == Transform(z[k], al)
  {
    seq(DCTSIZE2, k requires 0 <= k < DCTSIZE2 => Transform(z[k], al))
  }

  lemma TransformSmall(x: int, al: nat)
    requires -0x8000 <= x < 0x8000
    ensures Abs(Transform(x, al)) <= Abs(x) <= 0x8000
    ensures -0x8000 <= Approx(x, al) < 0x8000
    ensures Jcoef(Approx(x, al)) == Approx(x, al)
    ensures al == 0 ==> Approx(x, al) == x
  {
    var h: int, q: int := Quotient(Abs(x), Pow2(al)), Pow2(al);
    QuotientSmall(Abs(x), q);
    assert Approx(x, al) == Signed(SignBit(x), h * q) by {
      assert (-h) * q == -(h * q);
    }
    JcoefId(Approx(x, al));
    if al == 0 {
      assert q == 1 && h == Abs(x);
    }
    hide Jcoef, Approx, Quotient, Pow2;
  }

  lemma JcoefId(x: int)
    requires -0x8000 <= x < 0x8000
    ensures Jcoef(x) == x
  {
  }

  lemma QuotientSmall(a: nat, q: nat)
    requires q > 0
    ensures Quotient(a, q) <= Quotient(a, q) * q <= a
  {
    assert a == a / q * q + a % q;
    if a / q > 0 {
      AtLeastOnce(q, a / q);
    }
  }

  /** One more bit of precision is the transform of the transform. */
  lemma TransformTwice(x: int, al: nat)
    ensures Transform(x, al + 1) == Transform(Transform(x, al), 1)
    ensures Transform(x, al + 1) != 0 ==> Transform(x, al) != 0
  {
    var a, q := Abs(x), Pow2(al);
    var h := Quotient(a, q);
    assert a == h * q + a % q;
    assert h == 2 * (h / 2) + h % 2;
    assert 2 * (h / 2) * q == h / 2 * (2 * q);
    assert a == h / 2 * (2 * q) + (h % 2 * q + a % q);
    QuotientIs(a, 2 * q, h / 2, h % 2 * q + a % q);
    assert Pow2(1) == 2;
  }

  lemma ShiftBack(x: int, al: nat)
    requires -0x8000 <= x < 0x8000 && al <= 15
    ensures -0x8000 <= Shift(x, al) * Pow2(al) <= x < (Shift(x, al) + 1) * Pow2(al)
    ensures Jcoef(Shift(x, al) * Pow2(al)) == Shift(x, al) * Pow2(al)
    ensures al == 0 ==> Shift(x, al) == x
  {
    var h, q, b := Shift(x, al), Pow2(al), Pow2(15 - al);
    FloorOf(x, q);
    Halves(al);
    hide Shift, Pow2, Jcoef;
    FloorAbove(h, q, b);
    JcoefId(h * q);
  }

  lemma FloorOf(x: int, q: nat)
    requires q > 0
    ensures x / q * q <= x < (x / q + 1) * q
    ensures q == 1 ==> x / q == x
  {
    assert x == x / q * q + x % q;
    assert (x / q + 1) * q == x / q * q + q;
  }

  lemma Halves(al: nat)
    requires al <= 15
    ensures Pow2(al) * Pow2(15 - al) == 0x8000 && (al == 0 ==> Pow2(al) == 1)
  {
    ShlShl(1, al, 15 - al);
    ShlTimes(Pow2(al), 15 - al);
    Pow2Values();
  }

  lemma FloorAbove(h: int, q: int, b: int)
    requires q > 0
    requires (h + 1) * q > -(q * b)
    ensures h * q >= -(q * b)
  {
    assert (h + 1 + b) * q == (h + 1) * q + q * b;
    Grows(h + 1 + b, q);
    assert (h + b) * q == h * q + q * b;
    Grows(h + b, q);
  }

  type Mcu = seq<Block>

  /** `x |= p1` for p1 = 2^al. */
  function SetBit(x: jcoef, al: nat): jcoef
  {
    if Shift(x, al) % 2 == 1 then x else Jcoef(x + Pow2(al))
  }

  lemma SetBitExact(x: int, al: nat)
    requires -0x8000 <= x < 0x8000 && al <= 14
    ensures var y := Shift(x, al + 1) * Pow2(al + 1);
            && -0x8000 <= y < 0x8000
            && Shift(x, al) * Pow2(al) == if Shift(x, al) % 2 == 1 then SetBit(y, al) else y
  {
    hide Jcoef;
    var q, h := Pow2(al), Shift(x, al);
    var a := Shift(x, al + 1);
    ShiftBack(x, al + 1);
    ShiftBack(x, al);
    ShiftDoubles(x, al);
    Doubled(a, q);
    JcoefId(h * q);
  }

  lemma ShiftDoubles(x: int, al: nat)
    ensures var a, q := Shift(x, al + 1), Pow2(al);
            a == Shift(x, al) / 2 && Pow2(al + 1) == 2 * q && Shift(2 * a * q, al) == 2 * a
  {
    ShiftTwice(x, Pow2(al));
    ShiftExact(2 * Shift(x, al + 1), Pow2(al));
  }

  lemma Doubled(a: int, q: nat)
    ensures a * (2 * q) == 2 * a * q && (2 * a + 1) * q == 2 * a * q + q
  {
  }

  lemma ShiftTwice(x: int, q: nat)
    requires q > 0
    ensures x / (2 * q) == x / q / 2
  {
    var h := x / q;
    var r := x % q;
    assert x == h * q + r;
    assert h == 2 * (h / 2) + h % 2;
    assert h * q == h / 2 * (2 * q) + h % 2 * q;
    ShiftIs(x, 2 * q, h / 2, h % 2 * q + r);
  }

  lemma ShiftExact(h: int, q: nat)
    requires q > 0
    ensures h * q / q == h
  {
    ShiftIs(h * q, q, h, 0);
  }

  lemma ShiftIs(x: int, q: nat, h: int, r: nat)
    requires 0 <= r < q && x == h * q + r
    ensures x / q == h
  {
    var t := x / q - h;
    assert t * q == x / q * q - h * q;
    SmallMultiple(t, q, r - x % q);
  }

  /** Adds 1 in bit position al to the magnitude. */
  function Enlarge(x: jcoef, al: nat): jcoef
  {
    Jcoef(if x < 0 then x - Pow2(al) else x + Pow2(al))
  }

  /** What a refinement scan finds and leaves at one position: the approximation with one
      more bit. */
  ghost predicate Refinable(t: int, z: int, al: nat)
  {
    z == Transform(t, 1) * (2 * Pow2(al)) && -0x8000 <= t * Pow2(al) < 0x8000
  }

  lemma RefineOne(t: int, z: jcoef, al: nat)
    requires Refinable(t, z, al)
    ensures z == 0 <==> Abs(t) / 2 == 0
    ensures Abs(t) / 2 != 0 ==> (if Abs(t) % 2 == 1 then Enlarge(z, al) else z) == t * Pow2(al)
    ensures t != 0 && Abs(t) / 2 == 0 ==> t * Pow2(al) == Signed(SignBit(t), Pow2(al))
  {
    var q := Pow2(al);
    var h := Abs(t) / 2;
    assert Transform(t, 1) == Signed(SignBit(t), h);
    assert z == Signed(SignBit(t), h * (2 * q));
    if h == 0 {
    } else {
      AtLeastOnce(h, 2 * q);
      assert Abs(t) == 2 * h + Abs(t) % 2;
      assert (2 * h + 1) * q == h * (2 * q) + q;
      assert (2 * h) * q == h * (2 * q);
      assert t < 0 ==> t * q == -(Abs(t) * q);
    }
  }

  lemma RefinableFits(t: int, z: int, al: nat)
    requires Refinable(t, z, al)
    ensures -0x8000 <= t * Pow2(al) < 0x8000
  {
  }

  /** natural_order: a permutation of the coefficient positions that fixes 0. */
  ghost predicate ValidOrder(order: seq<nat>)
  {
    && |order| == DCTSIZE2 && order[0] == 0
    && (forall k :: 0 <= k < DCTSIZE2 ==> order[k] < DCTSIZE2)
    && (forall j, k :: 0 <= j < k < DCTSIZE2 ==> order[j] != order[k])
  }

  /** A block in natural order, read in zigzag order. */
  function Zigzag(order: seq<nat>, b: Block): (z: Block)
    requires |order| == DCTSIZE2 && forall k :: 0 <= k < DCTSIZE2 ==> order[k] < DCTSIZE2
    ensures forall k :: 0 <= k < DCTSIZE2 ==> z[k] == b[order[k]]
  {
    seq(DCTSIZE2, k requires 0 <= k < DCTSIZE2 => b[order[k]])
  }

  function Zigzags(order: seq<nat>, mcu: Mcu): (z: Mcu)
    requires |order| == DCTSIZE2 && forall k :: 0 <= k < DCTSIZE2 ==> order[k] < DCTSIZE2
    ensures |z| == |mcu| && forall i :: 0 <= i < |mcu| ==> z[i] == Zigzag(order, mcu[i])
  {
    seq(|mcu|, i requires 0 <= i < |mcu| => Zigzag(order, mcu[i]))
  }

  /** Storing at a natural position stores at its zigzag position. */
  lemma ZigzagStore(order: seq<nat>, b: Block, k: nat, v: jcoef)
    requires ValidOrder(order) && k < DCTSIZE2
    ensures Zigzag(order, b[order[k] := v]) == Zigzag(order, b)[k := v]
  {
  }

  function ZigzagAll(order: seq<nat>, mcus: seq<Mcu>): (z: seq<Mcu>)
    requires |order| == DCTSIZE2 && forall k :: 0 <= k < DCTSIZE2 ==> order[k] < DCTSIZE2
    ensures |z| == |mcus| && forall i :: 0 <= i < |mcus| ==> z[i] == Zigzags(order, mcus[i])
  {
    seq(|mcus|, i requires 0 <= i < |mcus| => Zigzags(order, mcus[i]))
  }

  // ----- what a scan sends of a block

  datatype Mode = Sequential | DcFirst | AcFirstPass | DcRefine | AcRefinePass

  /** The coding mode of a scan, its spectral band and bit position, and the last
      coefficient of a block (0 for 1x1 blocks). */
  datatype Pass = Pass(mode: Mode, ss: nat, se: nat, al: nat, limSe: nat)
  {
    /** What jcmaster.c and the start_pass routines have established, but for the number of
        blocks in an MCU. */
    ghost predicate Valid()
    {
      && limSe < DCTSIZE2 && al <= 13
      && match mode
         case Sequential => ss == 0 && al == 0
         case AcFirstPass => 1 <= ss <= se <= limSe
         case AcRefinePass => 1 <= ss <= se <= limSe
         case _ => ss == 0 && se == 0
    }

    predicate CodesDc()
    {
      mode.Sequential? || mode.DcFirst?
    }

    predicate CodesAc()
    {
      (mode.Sequential? && limSe != 0) || mode.AcFirstPass? || mode.AcRefinePass?
    }

    function FirstAc(): nat
    {
      if mode.Sequential? then 1 else ss
    }

    function LastAc(): nat
    {
      if mode.Sequential? then limSe else se
    }

    /** What the decoder's block y must hold before the scan for the coefficients z. */
    ghost predicate Ready(z: Block, y: Block)
    {
      match mode
      case Sequential => forall k :: 0 <= k <= limSe && k < DCTSIZE2 ==> y[k] == 0
      case AcFirstPass => forall k :: ss <= k <= se && k < DCTSIZE2 ==> y[k] == 0
      case AcRefinePass => forall k :: ss <= k <= se && k < DCTSIZE2 ==> y[k] == Approx(z[k], al + 1)
      case _ => true
    }

    /** What it holds afterwards: DC coefficients shifted down and up again, or with one bit
        more, AC coefficients rounded towards zero, everything else unchanged. */
    ghost predicate Refined(z: Block, y: Block, y': Block)
    {
      forall k :: 0 <= k < DCTSIZE2 ==>
        y'[k] == if k == 0 && CodesDc() then Shift(z[k], al) * Pow2(al)
                 else if k == 0 && mode.DcRefine? then (if Shift(z[k], al) % 2 == 1 then SetBit(y[k], al) else y[k])
                 else if CodesAc() && FirstAc() <= k <= LastAc() then Approx(z[k], al)
                 else y[k]
    }
  }

  ghost predicate McuReady(p: Pass, mcu: Mcu, y: Mcu)
  {
    |y| == |mcu| && forall i :: 0 <= i < |mcu| ==> p.Ready(mcu[i], y[i])
  }

  ghost predicate McuRefined(p: Pass, mcu: Mcu, y: Mcu, y': Mcu)
  {
    |mcu| == |y| == |y'| && forall i :: 0 <= i < |mcu| ==> p.Refined(mcu[i], y[i], y'[i])
  }

  ghost predicate AllReady(p: Pass, mcus: seq<Mcu>, ys: seq<Mcu>)
  {
    |mcus| == |ys| && forall i :: 0 <= i < |mcus| ==> McuReady(p, mcus[i], ys[i])
  }

  ghost predicate AllRefined(p: Pass, mcus: seq<Mcu>, ys: seq<Mcu>, ys': seq<Mcu>)
  {
    |mcus| == |ys| == |ys'| && forall i :: 0 <= i < |mcus| ==> McuRefined(p, mcus[i], ys[i], ys'[i])
  }

  lemma JoinRefined(p: Pass, xs: seq<Mcu>, zs: seq<Mcu>, y0: seq<Mcu>, y1: seq<Mcu>, x0: seq<Mcu>, x1: seq<Mcu>)
    requires AllRefined(p, xs, y0, x0) && AllRefined(p, zs, y1, x1)
    ensures AllRefined(p, xs + zs, y0 + y1, x0 + x1)
  {
    hide McuRefined;
  }

  lemma SplitAllReady(p: Pass, xs: seq<Mcu>, zs: seq<Mcu>, ys: seq<Mcu>)
    requires AllReady(p, xs + zs, ys)
    ensures |ys| == |xs| + |zs| && AllReady(p, xs, ys[..|xs|]) && AllReady(p, zs, ys[|xs|..])
  {
    hide McuReady;
    forall i | 0 <= i < |xs|
      ensures McuReady(p, xs[i], ys[i])
    {
      assert McuReady(p, (xs + zs)[i], ys[i]);
    }
    forall i | 0 <= i < |zs|
      ensures McuReady(p, zs[i], ys[|xs| + i])
    {
      assert McuReady(p, (xs + zs)[|xs| + i], ys[|xs| + i]);
    }
  }

  // ----- MCUs as arrays

  /** The blocks of an MCU as the decoder gets them: distinct arrays in natural order. */
  ghost predicate BlockArrays(mcu: seq<array<jcoef>>)
  {
    && (forall i :: 0 <= i < |mcu| ==> mcu[i].Length == DCTSIZE2)
    && (forall i, j :: 0 <= i < j < |mcu| ==> mcu[i] != mcu[j])
  }

  /** Their contents in zigzag order. */
  ghost function Contents(order: seq<nat>, mcu: seq<array<jcoef>>): (z: Mcu)
    requires ValidOrder(order) && BlockArrays(mcu)
    reads mcu
    ensures |z| == |mcu| && forall i :: 0 <= i < |mcu| ==> z[i] == Zigzag(order, mcu[i][..])
  {
    seq(|mcu|, i requires 0 <= i < |mcu| && BlockArrays(mcu) reads mcu => Zigzag(order, mcu[i][..]))
  }

  /** Stores the coefficient at zigzag position k. */
  method Store(order: seq<nat>, block: array<jcoef>, k: nat, v: jcoef)
    requires ValidOrder(order) && block.Length == DCTSIZE2 && k < DCTSIZE2
    modifies block
    ensures Zigzag(order, block[..]) == old(Zigzag(order, block[..]))[k := v]
  {
    ghost var b := block[..];
    block[order[k]] := v;
    assert block[..] == b[order[k] := v];
    ZigzagStore(order, b, k, v);
  }

  /** A fresh array for each block, with its contents so far. */
  method Allocate(mcu: Mcu) returns (blocks: seq<array<jcoef>>)
    ensures fresh(blocks) && BlockArrays(blocks) && |blocks| == |mcu|
    ensures forall i :: 0 <= i < |mcu| ==> blocks[i][..] == mcu[i]
  {
    blocks := [];
    for i := 0 to |mcu|
      invariant fresh(blocks) && BlockArrays(blocks) && |blocks| == i
      invariant forall j :: 0 <= j < i ==> blocks[j][..] == mcu[j]
    {
      var b := mcu[i];
      var block := new jcoef[DCTSIZE2](k requires 0 <= k < DCTSIZE2 => b[k]);
      assert block[..] == b;
      blocks := blocks + [block];
    }
  }

  method Collect(blocks: seq<array<jcoef>>) returns (mcu: Mcu)
    requires BlockArrays(blocks)
    ensures |mcu| == |blocks| && forall i :: 0 <= i < |mcu| ==> mcu[i] == blocks[i][..]
  {
    mcu := [];
    for i := 0 to |blocks|
      invariant |mcu| == i && forall j :: 0 <= j < i ==> mcu[j] == blocks[j][..]
    {
      mcu := mcu + [blocks[i][..]];
    }
  }
}
