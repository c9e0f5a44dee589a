/** Successive approximation over whole scripts: what is known of a coefficient depends
    only on the last scan that sent it, whichever entropy coder was used. */
module SuccessiveApproximation {
  import opened Arithmetic
  import opened JpegLib
  import opened Bytes
  import opened Blocks
  import opened Scripts

  /** What a decoder knows of coefficient k of z when b is its last Al: nothing for -1, else
      the DC coefficient without its low b bits, an AC coefficient rounded towards zero. */
  function Value(z: Block, k: nat, b: int): int
    requires k < DCTSIZE2
  {
    if b < 0 then 0
    else if k == 0 then Shift(z[k], b) * Pow2(b)
    else Approx(z[k], b)
  }

  /** After the scans `past`, the block y is what is known of block z of component c. */
  ghost predicate Known(z: Block, past: seq<ScanInfo>, c: int, y: Block)
  {
    forall k :: 0 <= k < DCTSIZE2 ==> y[k] == Value(z, k, LastAl(past, c, k))
  }

  /** The coding mode start_pass selects for a progressive scan. */
  function ModeOf(s: ScanInfo): Mode
  {
    if s.ss == 0 then if s.ah == 0 then DcFirst else DcRefine
    else if s.ah == 0 then AcFirstPass else AcRefinePass
  }

  /** Its pass over full-size blocks. */
  function PassOf(s: ScanInfo): (p: Pass)
    requires ParamsOk(s)
  {
    Pass(ModeOf(s), s.ss, s.se, s.al, DCTSIZE2 - 1)
  }

  /** A valid scan finds exactly what it refines, and leaves what is known after it. */
  lemma ScanKnown(past: seq<ScanInfo>, s: ScanInfo, c: int, z: Block, y: Block)
    requires ParamsOk(s) && c in s.comps && ComponentOk(past, s, c) && Known(z, past, c, y)
    ensures PassOf(s).Valid() && PassOf(s).Ready(z, y)
    ensures forall y' :: PassOf(s).Refined(z, y, y') ==> Known(z, past + [s], c, y')
  {
    hide Shift, Approx, Pow2, SetBit;
    if PassOf(s).mode.DcRefine? {
      assert StepOk(LastAl(past, c, 0), s.ah, s.al);
      SetBitExact(z[0], s.al);
    }
    assert forall k :: s.ss <= k <= s.se ==> StepOk(LastAl(past, c, k), s.ah, s.al);
    forall y' | PassOf(s).Refined(z, y, y')
      ensures Known(z, past + [s], c, y')
    {
      forall k | 0 <= k < DCTSIZE2
        ensures y'[k] == Value(z, k, LastAl(past + [s], c, k))
      {
        LastAlSnoc(past, s, c, k);
      }
    }
  }

  lemma NotSent(past: seq<ScanInfo>, s: ScanInfo, c: int, z: Block, y: Block)
    requires c !in s.comps && Known(z, past, c, y)
    ensures Known(z, past + [s], c, y)
  {
    hide Value;
    forall k | 0 <= k < DCTSIZE2
      ensures LastAl(past + [s], c, k) == LastAl(past, c, k)
    {
      LastAlSnoc(past, s, c, k);
    }
  }

  /** What is known after a scan that ended at bit b: a multiple of 2^b, by less than 2^b
      below a DC coefficient, and nearer to zero by less than 2^b than an AC coefficient of
      the same sign. */
  lemma ValueNear(z: Block, k: nat, b: nat)
    requires k < DCTSIZE2
    ensures var v, q := Value(z, k, b), Pow2(b);
            && v % q == 0
            && (k == 0 ==> v <= z[0] < v + q)
            && (k > 0 ==> Abs(v) <= Abs(z[k]) < Abs(v) + q && (v != 0 ==> (v < 0 <==> z[k] < 0)))
  {
    var q := Pow2(b);
    if k == 0 {
      MultipleOf(z[0] / q, q);
    } else {
      var h := Abs(z[k]) / q;
      MultipleOf(h, q);
      MultipleOf(-h, q);
      assert Value(z, k, b) == (if z[k] >= 0 then h else -h) * q;
      assert (-h) * q == -(h * q);
    }
  }

  lemma MultipleOf(h: int, q: int)
    requires q > 0
    ensures h * q % q == 0
  {
    var t := h * q / q - h;
    assert t * q == h * q / q * q - h * q;
    SmallMultiple(t, q, -(h * q % q));
  }

  /** Coefficients whose last scan had Al = 0 are known exactly. */
  lemma CompleteKnown(z: Block, past: seq<ScanInfo>, c: int, y: Block)
    requires Known(z, past, c, y) && forall k :: 0 <= k < DCTSIZE2 ==> LastAl(past, c, k) == 0
    ensures y == z
  {
    forall k | 0 <= k < DCTSIZE2
      ensures y[k] == z[k]
    {
      AllBits(z[k]);
    }
  }

  lemma AllBits(x: int)
    ensures Shift(x, 0) * Pow2(0) == x
    ensures -0x8000 <= x < 0x8000 ==> Approx(x, 0) == x
  {
    if -0x8000 <= x < 0x8000 {
      TransformSmall(x, 0);
    }
  }
}
