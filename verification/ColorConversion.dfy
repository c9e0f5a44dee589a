/** YCbCr to RGB conversion with tables (jdcolor.c) and the range-limit table that clamps
    its results (jdmaster.c). */
module ColorConversion {
  import opened Bytes

  const CENTERJSAMPLE := 128
  const MAXJSAMPLE := 255
  const RGB_PIXELSIZE := 3

  // FIX(x), the nearest multiple of 2 to the power -16, of the four factors.
  const FIX_1_40200 := 91881
  const FIX_1_77200 := 116130
  const FIX_0_71414 := 46802
  const FIX_0_34414 := 22554
  const ONE_HALF := 0x8000

  // What the tables hold.  Division rounds down, as RIGHT_SHIFT does.

  /** The integer nearest to 1.402 Cr. */
  function CrR(cr: byte): (r: int)
    ensures -500 <= 1000 * r - 1402 * (cr - CENTERJSAMPLE) <= 500
  {
    var r := (FIX_1_40200 * (cr - CENTERJSAMPLE) + ONE_HALF) / 0x10000;
    assert 1000 * r - 1402 * (cr - CENTERJSAMPLE) == 2 * (500 * r - 701 * (cr - CENTERJSAMPLE));
    r
  }

  /** The integer nearest to 1.772 Cb. */
  function CbB(cb: byte): (b: int)
    ensures -500 <= 1000 * b - 1772 * (cb - CENTERJSAMPLE) <= 500
  {
    var b := (FIX_1_77200 * (cb - CENTERJSAMPLE) + ONE_HALF) / 0x10000;
    assert 1000 * b - 1772 * (cb - CENTERJSAMPLE) == 4 * (250 * b - 443 * (cb - CENTERJSAMPLE));
    b
  }

  function CrG(cr: byte): int
  {
    -FIX_0_71414 * (cr - CENTERJSAMPLE)
  }

  function CbG(cb: byte): int
  {
    -FIX_0_34414 * (cb - CENTERJSAMPLE) + ONE_HALF
  }

  /** Within 0.5011 of -0.34414 Cb - 0.71414 Cr. */
  function Green(cb: byte, cr: byte): (g: int)
    ensures -50110 <= 100000 * g + 34414 * (cb - CENTERJSAMPLE) + 71414 * (cr - CENTERJSAMPLE) <= 50110
  {
    (CbG(cb) + CrG(cr)) / 0x10000
  }

  function Clamp(v: int): byte
  {
    if v < 0 then 0 else if v > MAXJSAMPLE then MAXJSAMPLE else v
  }

  /** Red, green or blue of one pixel. */
  function Channel(y: byte, cb: byte, cr: byte, c: nat): byte
  {
    Clamp(y + if c == 0 then CrR(cr) else if c == 1 then Green(cb, cr) else CbB(cb))
  }

  /** ycc_rgb_convert on one row: interleaved pixels of w samples of each component. */
  function Convert(y: seq<byte>, cb: seq<byte>, cr: seq<byte>, w: nat): (r: seq<byte>)
    requires w <= |y| && w <= |cb| && w <= |cr|
    ensures |r| == 3 * w
    ensures forall i :: 0 <= i < 3 * w ==> r[i] == Channel(y[i / 3], cb[i / 3], cr[i / 3], i % 3)
  {
    seq(3 * w, i requires 0 <= i < 3 * w => Channel(y[i / 3], cb[i / 3], cr[i / 3], i % 3))
  }

  // ----- what the results mean

  function Distance(x: int, y: int): nat
  {
    if x < y then y - x else x - y
  }

  /** Limiting gives the sample nearest to any sum. */
  lemma ClampIsNearest(v: int, b: byte)
    ensures Distance(Clamp(v), v) <= Distance(b, v)
  {
  }

  /** Red, green and blue of a pixel are the exact values of the conversion, rounded, as far
      as these are samples: within 0.5 for red and blue, and 0.5011 for green; and the least
      or greatest sample where the exact value is beyond all samples. */
  lemma PixelIsExact(y: int, cb: int, cr: int)
    requires 0 <= y < 256 && 0 <= cb < 256 && 0 <= cr < 256
    ensures Rounds(Channel(y, cb, cr, 0), 100000 * y + 140200 * (cr - 128), 50000)
    ensures Rounds(Channel(y, cb, cr, 1), 100000 * y - 34414 * (cb - 128) - 71414 * (cr - 128), 50110)
    ensures Rounds(Channel(y, cb, cr, 2), 100000 * y + 177200 * (cb - 128), 50000)
  {
    hide CrR, CbB, Green;
    Limited(y + CrR(cr), 100000 * y + 140200 * (cr - 128), 50000);
    Limited(y + Green(cb, cr), 100000 * y - 34414 * (cb - 128) - 71414 * (cr - 128), 50110);
    Limited(y + CbB(cb), 100000 * y + 177200 * (cb - 128), 50000);
  }

  /** The sample b is within e of x, both in units of 1/100000, or the sample nearest to it. */
  predicate Rounds(b: byte, x: int, e: nat)
  {
    if x < 0 then 100000 * b <= e else if x > 25500000 then 25500000 - 100000 * b <= e
    else Distance(100000 * b, x) <= e
  }

  lemma Limited(v: int, x: int, e: nat)
    requires Distance(100000 * v, x) <= e
    ensures Rounds(Clamp(v), x, e)
  {
  }

  /** Pixel x of a row: its bytes 3x, 3x + 1 and 3x + 2 are red, green and blue. */
  predicate PixelIs(row: seq<byte>, x: nat, y: int, cb: int, cr: int)
    requires 3 * x + 2 < |row|
  {
    && Rounds(row[3 * x], 100000 * y + 140200 * (cr - 128), 50000)
    && Rounds(row[3 * x + 1], 100000 * y - 34414 * (cb - 128) - 71414 * (cr - 128), 50110)
    && Rounds(row[3 * x + 2], 100000 * y + 177200 * (cb - 128), 50000)
  }

  lemma PixelsAreRgb(ys: seq<byte>, cbs: seq<byte>, crs: seq<byte>, w: nat, x: nat)
    requires w <= |ys| && w <= |cbs| && w <= |crs| && x < w
    ensures |Convert(ys, cbs, crs, w)| == 3 * w && PixelIs(Convert(ys, cbs, crs, w), x, ys[x], cbs[x], crs[x])
  {
    hide Channel, Rounds, Convert;
    PixelIsExact(ys[x], cbs[x], crs[x]);
    Column(x);
  }

  lemma Column(x: nat)
    ensures (3 * x) / 3 == (3 * x + 1) / 3 == (3 * x + 2) / 3 == x
    ensures (3 * x) % 3 == 0 && (3 * x + 1) % 3 == 1 && (3 * x + 2) % 3 == 2
  {
  }

  // The range-limit table: sample_range_limit points behind its first 256 entries.
  const LIMIT_BASE := 256
  const LIMIT_SIZE := 1408

  class ColorTables {
    const crR: array<int>
    const cbB: array<int>
    const crG: array<int>
    const cbG: array<int>
    const rangeLimit: array<byte>

    ghost predicate Valid()
      reads crR, cbB, crG, cbG, rangeLimit
    {
      && crR.Length == cbB.Length == crG.Length == cbG.Length == 256 && rangeLimit.Length == LIMIT_SIZE
      && (forall i: byte :: crR[i] == CrR(i) && cbB[i] == CbB(i) && crG[i] == CrG(i) && cbG[i] == CbG(i))
      && (forall v :: -256 <= v < 640 ==> rangeLimit[LIMIT_BASE + v] == Clamp(v))
    }

    constructor ()
      ensures Valid() && fresh(crR) && fresh(cbB) && fresh(crG) && fresh(cbG) && fresh(rangeLimit)
    {
      crR, cbB := new int[256], new int[256];
      crG, cbG := new int[256], new int[256];
      rangeLimit := new byte[LIMIT_SIZE];
      new;
      BuildYccRgbTable();
      PrepareRangeLimitTable();
    }

    method BuildYccRgbTable()
      requires crR.Length == cbB.Length == crG.Length == cbG.Length == 256
      requires crR != cbB && crR != crG && crR != cbG && cbB != crG && cbB != cbG && crG != cbG
      modifies crR, cbB, crG, cbG
      ensures forall i: byte :: crR[i] == CrR(i) && cbB[i] == CbB(i) && crG[i] == CrG(i) && cbG[i] == CbG(i)
    {
      var x := -CENTERJSAMPLE;
      for i := 0 to 256
        invariant x == i - CENTERJSAMPLE
        invariant forall j: byte :: j < i ==>
          crR[j] == CrR(j) && cbB[j] == CbB(j) && crG[j] == CrG(j) && cbG[j] == CbG(j)
      {
        crR[i] := (FIX_1_40200 * x + ONE_HALF) / 0x10000;
        cbB[i] := (FIX_1_77200 * x + ONE_HALF) / 0x10000;
        crG[i] := -FIX_0_71414 * x;
        cbG[i] := -FIX_0_34414 * x + ONE_HALF;
        x := x + 1;
      }
    }

    method PrepareRangeLimitTable()
      requires rangeLimit.Length == LIMIT_SIZE
      modifies rangeLimit
      ensures forall v :: -256 <= v < 640 ==> rangeLimit[LIMIT_BASE + v] == Clamp(v)
    {
      Fill(0, 256, 0);
      for i := 0 to 256
        invariant forall v :: -256 <= v < i ==> rangeLimit[LIMIT_BASE + v] == Clamp(v)
      {
        rangeLimit[LIMIT_BASE + i] := i;
      }
      var idct := LIMIT_BASE + CENTERJSAMPLE;
      Fill(idct + CENTERJSAMPLE, idct + 512, MAXJSAMPLE);
      Fill(idct + 512, idct + 1024 - CENTERJSAMPLE, 0);
      for i := 0 to CENTERJSAMPLE
        invariant forall v :: -256 <= v < 640 ==> rangeLimit[LIMIT_BASE + v] == Clamp(v)
      {
        rangeLimit[idct + 1024 - CENTERJSAMPLE + i] := rangeLimit[LIMIT_BASE + i];
      }
    }

    method Fill(lo: nat, hi: nat, v: byte)
      requires lo <= hi <= rangeLimit.Length
      modifies rangeLimit
      ensures forall i :: 0 <= i < rangeLimit.Length ==> rangeLimit[i] == if lo <= i < hi then v else old(rangeLimit[i])
    {
      for i := lo to hi
        invariant forall j :: 0 <= j < rangeLimit.Length ==>
          rangeLimit[j] == if lo <= j < i then v else old(rangeLimit[j])
      {
        rangeLimit[i] := v;
      }
    }

    /** The pixel at column x, from a luminance sample and the chroma offsets. */
    method Put(out: array<byte>, x: nat, y: byte, ghost cb: byte, ghost cr: byte, cred: int, cgreen: int, cblue: int)
      requires Valid() && 3 * x + 3 <= out.Length && out != rangeLimit
      requires cred == CrR(cr) && cgreen == Green(cb, cr) && cblue == CbB(cb)
      modifies out
      ensures forall i :: 0 <= i < out.Length ==>
        out[i] == if i / 3 == x then Channel(y, cb, cr, i % 3) else old(out[i])
    {
      assert -256 <= y + cred < 640 && -256 <= y + cgreen < 640 && -256 <= y + cblue < 640;
      out[3 * x] := rangeLimit[LIMIT_BASE + (y + cred)];
      out[3 * x + 1] := rangeLimit[LIMIT_BASE + (y + cgreen)];
      out[3 * x + 2] := rangeLimit[LIMIT_BASE + (y + cblue)];
    }

    /** Converts one row. */
    method YccRgbConvert(y: array<byte>, cb: array<byte>, cr: array<byte>, out: array<byte>, w: nat)
      requires Valid() && w <= y.Length && w <= cb.Length && w <= cr.Length && out.Length == 3 * w
      requires out != rangeLimit && out != y && out != cb && out != cr
      modifies out
      ensures out[..] == Convert(y[..], cb[..], cr[..], w)
    {
      for col := 0 to w
        invariant forall i :: 0 <= i < 3 * col ==> out[i] == Channel(y[i / 3], cb[i / 3], cr[i / 3], i % 3)
      {
        var b, r := cb[col], cr[col];
        Put(out, col, y[col], b, r, crR[r], (cbG[b] + crG[r]) / 0x10000, cbB[b]);
      }
    }
  }
}
