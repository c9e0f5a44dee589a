/** How the blocks of the components are put into MCUs: block geometry of an image
    (initial_setup and per_scan_setup, jcmaster.c), and the place of every block of every
    MCU of a scan. */
module McuLayout {
  import opened JpegLib
  import opened Arithmetic
  import opened Blocks

  const MAX_SAMP_FACTOR := 4

  /** jdiv_round_up. */
  function DivRoundUp(a: nat, b: nat): nat
    requires b > 0
  {
    (a + b - 1) / b
  }

  lemma RoundUpIs(a: nat, b: nat, q: nat)
    requires b > 0
    ensures DivRoundUp(a, b) == q <==> (q * b >= a && (q > 0 ==> (q - 1) * b < a))
  {
    var p, r := (a + b - 1) / b, (a + b - 1) % b;
    assert a + b - 1 == p * b + r;
    assert (p - 1) * b == p * b - b;
    if q < p {
      Scale(q + 1, p, b);
      assert (q + 1) * b == q * b + b;
    } else if q > p {
      Scale(p + 1, q, b);
      assert (p + 1) * b == p * b + b && (q - 1) * b == q * b - b;
    }
  }

  lemma Scale(x: nat, y: nat, b: nat)
    requires x <= y
    ensures x * b <= y * b
  {
    AtLeastZero(y - x, b);
    assert (y - x) * b == y * b - x * b by { Spread(y, x, b); }
  }

  lemma ScaleIf(x: nat, y: nat, b: nat)
    ensures x <= y ==> x * b <= y * b
  {
    if x <= y {
      Scale(x, y, b);
    }
  }

  lemma ScaleStrictly(x: nat, y: nat, b: nat)
    requires x < y && b > 0
    ensures x * b < y * b
  {
    Scale(x + 1, y, b);
    assert (x + 1) * b == x * b + b;
  }

  /** Rounding up in two steps, to blocks and from blocks to MCUs, is rounding up once: all
      components have the same number of MCUs. */
  lemma RoundTwice(size: nat, f: nat, whole: nat)
    requires f > 0 && whole > 0
    ensures DivRoundUp(DivRoundUp(size * f, whole), f) == DivRoundUp(size, whole)
  {
    var a := DivRoundUp(size * f, whole);
    var b := DivRoundUp(a, f);
    RoundUpIs(size * f, whole, a);
    RoundUpIs(a, f, b);
    RoundUpIs(size, whole, b);
    TwiceLow(size, f, whole, a, b);
    if b > 0 {
      TwiceHigh(size, f, whole, a, b);
    }
  }

  lemma TwiceLow(size: nat, f: nat, whole: nat, a: nat, b: nat)
    requires f > 0 && a * whole >= size * f && b * f >= a
    ensures b * whole >= size
  {
    Scale(a, b * f, whole);
    assert b * f * whole == (b * whole) * f;
    if b * whole < size {
      ScaleStrictly(b * whole, size, f);
      assert false;
    }
  }

  lemma TwiceHigh(size: nat, f: nat, whole: nat, a: nat, b: nat)
    requires f > 0 && b > 0 && (a > 0 ==> (a - 1) * whole < size * f) && (b - 1) * f < a
    ensures (b - 1) * whole < size
  {
    Scale((b - 1) * f, a - 1, whole);
    assert (b - 1) * f * whole == ((b - 1) * whole) * f;
    if (b - 1) * whole >= size {
      Scale(size, (b - 1) * whole, f);
    }
  }

  /** Sampling factors that pass the checks of initial_setup. */
  type factor = n: nat | 0 < n <= MAX_SAMP_FACTOR witness 1

  /** Sampling factors of a component and its size in blocks. */
  datatype Component = Component(h: factor, v: factor, wide: nat, high: nat)

  /** The components, and the number of MCUs of interleaved scans across and down. */
  datatype Frame = Frame(comps: seq<Component>, across: nat, down: nat)
  {
    ghost predicate Valid()
    {
      across > 0 && down > 0 && forall c :: 0 <= c < |comps| ==> CompValid(comps[c])
    }

    ghost predicate CompValid(k: Component)
    {
      && (across - 1) * k.h < k.wide <= across * k.h && (down - 1) * k.v < k.high <= down * k.v
    }
  }

  /** n pieces of this size cover a length, and no fewer do. */
  predicate JustCovers(n: nat, piece: nat, length: nat)
  {
    n > 0 && n * piece >= length && (n - 1) * piece < length
  }

  lemma RoundUpCovers(length: nat, piece: nat)
    requires length > 0 && piece > 0
    ensures JustCovers(DivRoundUp(length, piece), piece, length)
  {
    var n := DivRoundUp(length, piece);
    RoundUpIs(length, piece, n);
    assert 0 * piece == 0;
  }

  /** Computes the maximum sampling factors. */
  method MaxFactors(hs: seq<factor>, vs: seq<factor>) returns (maxH: nat, maxV: nat)
    requires |hs| == |vs|
    ensures maxH > 0 && maxV > 0 && (|hs| > 0 ==> maxH in hs && maxV in vs)
    ensures forall c :: 0 <= c < |hs| ==> hs[c] <= maxH && vs[c] <= maxV
  {
    maxH, maxV := 1, 1;
    for c := 0 to |hs|
      invariant if c == 0 then maxH == maxV == 1 else maxH > 0 && maxV > 0 && maxH in hs[..c] && maxV in vs[..c]
      invariant forall i :: 0 <= i < c ==> hs[i] <= maxH && vs[i] <= maxV
    {
      var h, v := hs[c], vs[c];
      assert hs[..c + 1] == hs[..c] + [h] && vs[..c + 1] == vs[..c] + [v];
      maxH, maxV := if h > maxH then h else maxH, if v > maxV then v else maxV;
    }
    assert hs[..|hs|] == hs && vs[..|vs|] == vs;
  }

  /** The part of initial_setup that computes block dimensions, maxH and maxV being the
      greatest sampling factors: across and down are the numbers of MCUs that just cover the
      image, and the blocks of a component just cover it as it is sampled, h samples for
      maxH across and v for maxV down. */
  method InitialSetup(width: nat, height: nat, blockSize: nat, hs: seq<factor>, vs: seq<factor>)
    returns (f: Frame, maxH: nat, maxV: nat)
    requires width > 0 && height > 0 && blockSize > 0 && |hs| == |vs|
    ensures |hs| > 0 ==> maxH in hs && maxV in vs
    ensures forall c :: 0 <= c < |hs| ==> hs[c] <= maxH && vs[c] <= maxV
    ensures JustCovers(f.across, maxH * blockSize, width) && JustCovers(f.down, maxV * blockSize, height)
    ensures f.Valid() && |f.comps| == |hs| && forall c :: 0 <= c < |hs| ==>
      && f.comps[c].h == hs[c] && JustCovers(f.comps[c].wide, maxH * blockSize, width * hs[c])
      && f.comps[c].v == vs[c] && JustCovers(f.comps[c].high, maxV * blockSize, height * vs[c])
  {
    hide JustCovers, Frame.CompValid, DivRoundUp;
    maxH, maxV := MaxFactors(hs, vs);
    var mcuWide, mcuHigh := maxH * blockSize, maxV * blockSize;
    AtLeastOnce(maxH, blockSize);
    AtLeastOnce(maxV, blockSize);
    f := Frame([], DivRoundUp(width, mcuWide), DivRoundUp(height, mcuHigh));
    FrameCovers(width, height, mcuWide, mcuHigh);
    for c := 0 to |hs|
      invariant f.Valid() && |f.comps| == c && f.across == DivRoundUp(width, mcuWide) && f.down
        == DivRoundUp(height, mcuHigh)
      invariant forall i :: 0 <= i < c ==> f.comps[i].h == hs[i] && f.comps[i].v == vs[i]
      invariant forall i :: 0 <= i < c ==>
        JustCovers(f.comps[i].wide, mcuWide, width * hs[i]) && JustCovers(f.comps[i].high, mcuHigh, height * vs[i])
    {
      ComponentCovers(f, width, height, mcuWide, mcuHigh, hs[c], vs[c]);
      var wide, high := DivRoundUp(width * hs[c], mcuWide), DivRoundUp(height * vs[c], mcuHigh);
      f := f.(comps := f.comps + [Component(hs[c], vs[c], wide, high)]);
    }
  }

  lemma FrameCovers(width: nat, height: nat, mcuWide: nat, mcuHigh: nat)
    requires width > 0 && height > 0 && mcuWide > 0 && mcuHigh > 0
    ensures var f := Frame([], DivRoundUp(width, mcuWide), DivRoundUp(height, mcuHigh));
            f.Valid() && JustCovers(f.across, mcuWide, width) && JustCovers(f.down, mcuHigh, height)
  {
    RoundUpCovers(width, mcuWide);
    RoundUpCovers(height, mcuHigh);
  }

  lemma ComponentCovers(f: Frame, width: nat, height: nat, mcuWide: nat, mcuHigh: nat, h: factor, v: factor)
    requires width > 0 && height > 0 && mcuWide > 0 && mcuHigh > 0
    requires f.Valid() && f.across == DivRoundUp(width, mcuWide) && f.down == DivRoundUp(height, mcuHigh)
    ensures var wide, high := DivRoundUp(width * h, mcuWide), DivRoundUp(height * v, mcuHigh);
            && JustCovers(wide, mcuWide, width * h) && JustCovers(high, mcuHigh, height * v)
            && f.(comps := f.comps + [Component(h, v, wide, high)]).Valid()
  {
    hide DivRoundUp;
    var across, down := DivRoundUp(width, mcuWide), DivRoundUp(height, mcuHigh);
    AtLeastOnce(h, width);
    AtLeastOnce(v, height);
    RoundUpCovers(width * h, mcuWide);
    RoundUpCovers(height * v, mcuHigh);
    RoundTwice(width, h, mcuWide);
    RoundTwice(height, v, mcuHigh);
    RoundUpIs(DivRoundUp(width * h, mcuWide), h, across);
    RoundUpIs(DivRoundUp(height * v, mcuHigh), v, down);
    RoundUpCovers(width, mcuWide);
    RoundUpCovers(height, mcuHigh);
  }

  // ----- places

  /** Block row and column of a block of component c. */
  datatype Place = Place(c: nat, row: nat, col: nat)

  /** The last of k rows or columns, or all of them: n % k, but k for 0. */
  function Remainder(n: nat, k: nat): nat
    requires k > 0
  {
    if n % k == 0 then k else n % k
  }

  lemma RemainderIs(n: nat, k: nat, q: nat)
    requires k > 0 && q > 0 && (q - 1) * k < n <= q * k
    ensures Remainder(n, k) == n - (q - 1) * k
  {
    var r := n - (q - 1) * k;
    assert q * k == (q - 1) * k + k;
    if r == k {
      QuotientIs(n, k, q, 0);
    } else {
      QuotientIs(n, k, q - 1, r);
    }
  }

  /** A scan of the components cs: one block of an only component to an MCU, else as many of
      each component as its sampling factors say. */
  datatype Layout = Layout(f: Frame, cs: seq<nat>)
  {
    ghost predicate Valid()
    {
      && f.Valid() && 1 <= |cs| <= MAX_COMPS_IN_SCAN
      && (forall i :: 0 <= i < |cs| ==> cs[i] < |f.comps|)
      && (forall i, j :: 0 <= i < j < |cs| ==> cs[i] != cs[j])
    }

    function Comp(i: nat): Component
      requires Valid() && i < |cs|
    {
      f.comps[cs[i]]
    }

    /** MCU_width and MCU_height. */
    function Width(i: nat): (w: nat)
      requires Valid() && i < |cs|
      ensures w > 0
    {
      assert f.CompValid(f.comps[cs[i]]);
      if |cs| == 1 then 1 else Comp(i).h
    }

    function Height(i: nat): (n: nat)
      requires Valid() && i < |cs|
      ensures n > 0
    {
      assert f.CompValid(f.comps[cs[i]]);
      if |cs| == 1 then 1 else Comp(i).v
    }

    /** MCUs_per_row. */
    function PerRow(): (n: nat)
      requires Valid()
      ensures n > 0
    {
      assert f.CompValid(f.comps[cs[0]]);
      AtLeastZero(f.across - 1, Comp(0).h);
      if |cs| == 1 then Comp(0).wide else f.across
    }

    /** MCU_rows_per_iMCU_row. */
    function RowsIn(row: nat): nat
      requires Valid() && row < f.down
    {
      assert f.CompValid(f.comps[cs[0]]);
      if |cs| > 1 then 1
      else if row < f.down - 1 then Comp(0).v
      else Remainder(Comp(0).high, Comp(0).v)
    }

    /** The first block row of component i in MCU row y of an iMCU row. */
    function Top(i: nat, row: nat, y: nat): nat
      requires Valid() && i < |cs|
    {
      row * Comp(i).v + y * Height(i)
    }

    // The places of the first n blocks of a row of blocks, rows of blocks, components of an
    // MCU, MCUs of a row, rows of an iMCU row, and iMCU rows.

    function InRow(i: nat, top: nat, left: nat, n: nat): (ps: seq<Place>)
      requires Valid() && i < |cs|
      ensures |ps| == n
    {
      if n == 0 then [] else InRow(i, top, left, n - 1) + [Place(cs[i], top, left + n - 1)]
    }

    function InRows(i: nat, top: nat, left: nat, n: nat): seq<Place>
      requires Valid() && i < |cs|
    {
      if n == 0 then [] else InRows(i, top, left, n - 1) + InRow(i, top + n - 1, left, Width(i))
    }

    function InMcu(row: nat, y: nat, j: nat, n: nat): seq<Place>
      requires Valid() && n <= |cs|
    {
      if n == 0 then []
        else InMcu(row, y, j, n - 1) + InRows(n - 1, Top(n - 1, row, y), j * Width(n - 1), Height(n - 1))
    }

    function McusInRow(row: nat, y: nat, n: nat): seq<seq<Place>>
      requires Valid()
    {
      if n == 0 then [] else McusInRow(row, y, n - 1) + [InMcu(row, y, n - 1, |cs|)]
    }

    function McusInRows(row: nat, n: nat): seq<seq<Place>>
      requires Valid()
    {
      if n == 0 then [] else McusInRows(row, n - 1) + McusInRow(row, n - 1, PerRow())
    }

    function McusTo(n: nat): seq<seq<Place>>
      requires Valid() && n <= f.down
    {
      if n == 0 then [] else McusTo(n - 1) + McusInRows(n - 1, RowsIn(n - 1))
    }

    /** The places of the blocks of all MCUs of the scan, in coding order. */
    function Mcus(): seq<seq<Place>>
      requires Valid()
    {
      McusTo(f.down)
    }

    /** The MCUs before MCU j of MCU row y of an iMCU row. */
    function Prefix(row: nat, y: nat, j: nat): seq<seq<Place>>
      requires Valid() && row <= f.down
    {
      McusTo(row) + McusInRows(row, y) + McusInRow(row, y, j)
    }

    lemma PrefixStep(row: nat, y: nat, j: nat)
      requires Valid() && row < f.down
      ensures Prefix(row, y, j + 1) == Prefix(row, y, j) + [InMcu(row, y, j, |cs|)]
      ensures Prefix(row, y + 1, 0) == Prefix(row, y, PerRow())
      ensures Prefix(row + 1, 0, 0) == Prefix(row, RowsIn(row), 0)
      ensures Prefix(0, 0, 0) == []
      ensures Mcus() == Prefix(f.down, 0, 0)
    {
      assert Prefix(row, y + 1, 0) == McusTo(row) + McusInRows(row, y + 1);
    }

    predicate Past(p: Place, i: nat, row: nat, y: nat, j: nat)
      requires Valid() && i < |cs|
    {
      p.row < Top(i, row, y) || (p.row < Top(i, row, y) + Height(i) && p.col < j * Width(i))
    }

    /** The MCUs before this one are not all MCUs. */
    lemma PrefixWithin(row: nat, y: nat, j: nat)
      requires Valid() && row < f.down && y < RowsIn(row) && j < PerRow()
      ensures |Prefix(row, y, j)| < |Mcus()|
    {
      RowLength(row, y, j);
      RowLength(row, y, PerRow());
      RowsGrow(row, y + 1, RowsIn(row));
      McusGrow(row + 1, f.down);
    }

    lemma {:induction false} RowLength(row: nat, y: nat, n: nat)
      requires Valid()
      ensures |McusInRow(row, y, n)| == n
    {
      if n > 0 {
        RowLength(row, y, n - 1);
      }
    }

    lemma {:induction false} RowsGrow(row: nat, m: nat, n: nat)
      requires Valid() && m <= n
      ensures |McusInRows(row, m)| <= |McusInRows(row, n)|
    {
      if m < n {
        RowsGrow(row, m, n - 1);
      }
    }

    lemma {:induction false} McusGrow(m: nat, n: nat)
      requires Valid() && m <= n <= f.down
      ensures |McusTo(m)| <= |McusTo(n)|
    {
      if m < n {
        McusGrow(m, n - 1);
      }
    }

    /** A place of the scan in an MCU before this one. */
    ghost predicate Before(p: Place, row: nat, y: nat, j: nat)
      requires Valid()
    {
      exists i :: 0 <= i < |cs| && cs[i] == p.c && Past(p, i, row, y, j)
    }

    /** A place in this MCU, of one of the first n components. */
    ghost predicate Inside(p: Place, row: nat, y: nat, j: nat, n: nat)
      requires Valid() && n <= |cs|
    {
      exists i :: 0 <= i < n && cs[i] == p.c &&
        Top(i, row, y) <= p.row < Top(i, row, y) + Height(i) && j * Width(i) <= p.col < j * Width(i) + Width(i)
    }

    lemma {:induction false} RowPlaces(i: nat, top: nat, left: nat, n: nat)
      requires Valid() && i < |cs|
      ensures forall k :: 0 <= k < n ==> InRow(i, top, left, n)[k] == Place(cs[i], top, left + k)
    {
      if n > 0 {
        RowPlaces(i, top, left, n - 1);
      }
    }

    lemma {:induction false} RowsPlaces(i: nat, top: nat, left: nat, n: nat)
      requires Valid() && i < |cs|
      ensures NoDuplicate(InRows(i, top, left, n))
      ensures forall p :: p in InRows(i, top, left, n) <==>
        p.c == cs[i] && top <= p.row < top + n && left <= p.col < left + Width(i)
    {
      if n > 0 {
        RowsPlaces(i, top, left, n - 1);
        RowPlaces(i, top + n - 1, left, Width(i));
        var a, b := InRows(i, top, left, n - 1), InRow(i, top + n - 1, left, Width(i));
        JoinDistinct(a, b);
        forall p: Place | p.c == cs[i] && p.row == top + n - 1 && left <= p.col < left + Width(i)
          ensures p in b
        {
          assert b[p.col - left] == p;
        }
      }
    }

    lemma {:induction false} McuPlaces(row: nat, y: nat, j: nat, n: nat)
      requires Valid() && n <= |cs|
      ensures NoDuplicate(InMcu(row, y, j, n))
      ensures forall p :: p in InMcu(row, y, j, n) <==> Inside(p, row, y, j, n)
    {
      if n > 0 {
        McuPlaces(row, y, j, n - 1);
        RowsPlaces(n - 1, Top(n - 1, row, y), j * Width(n - 1), Height(n - 1));
        JoinDistinct(InMcu(row, y, j, n - 1), InRows(n - 1, Top(n - 1, row, y), j * Width(n - 1), Height(n - 1)));
      }
    }

    /** Rows within an iMCU row, and iMCU rows, follow each other without gaps. */
    lemma TopStep(i: nat, row: nat, y: nat)
      requires Valid() && i < |cs| && row < f.down && y < RowsIn(row)
      ensures Top(i, row, y + 1) == Top(i, row, y) + Height(i)
      ensures Top(i, row, y) == row * Comp(i).v + y
      ensures Top(i, row, RowsIn(row)) <= Top(i, row + 1, 0)
      ensures row < f.down - 1 ==> Top(i, row, RowsIn(row)) == Top(i, row + 1, 0)
      ensures row == f.down - 1 && |cs| == 1 ==> Top(i, row, RowsIn(row)) == Comp(i).high
    {
      assert f.CompValid(f.comps[cs[i]]);
      RemainderIs(Comp(i).high, Comp(i).v, f.down);
      assert (y + 1) * Height(i) == y * Height(i) + Height(i);
      assert (row + 1) * Comp(i).v == row * Comp(i).v + Comp(i).v;
      if |cs| == 1 {
        assert i == 0;
      } else {
        assert y == 0 && 1 * Height(i) == Comp(i).v;
      }
    }

    lemma InsideNotBefore(p: Place, row: nat, y: nat, j: nat)
      requires Valid() && Inside(p, row, y, j, |cs|)
      ensures !Before(p, row, y, j) && Before(p, row, y, j + 1)
    {
      var i :| 0 <= i < |cs| && cs[i] == p.c &&
        Top(i, row, y) <= p.row < Top(i, row, y) + Height(i) && j * Width(i) <= p.col < j * Width(i) + Width(i);
      assert (j + 1) * Width(i) == j * Width(i) + Width(i);
    }

    lemma BeforeNextMcu(p: Place, row: nat, y: nat, j: nat)
      requires Valid() && Before(p, row, y, j)
      ensures Before(p, row, y, j + 1)
    {
      var i :| 0 <= i < |cs| && cs[i] == p.c && Past(p, i, row, y, j);
      Scale(j, j + 1, Width(i));
    }

    lemma BeforeNextRow(p: Place, row: nat, y: nat, j: nat)
      requires Valid() && Before(p, row, y, j) && row < f.down && y < RowsIn(row)
      ensures Before(p, row, y + 1, 0)
    {
      var i :| 0 <= i < |cs| && cs[i] == p.c && Past(p, i, row, y, j);
      TopStep(i, row, y);
    }

    lemma BeforeNextImcu(p: Place, row: nat)
      requires Valid() && row < f.down && Before(p, row, RowsIn(row), 0)
      ensures Before(p, row + 1, 0, 0)
    {
      var i :| 0 <= i < |cs| && cs[i] == p.c && Past(p, i, row, RowsIn(row), 0);
      RowsPositive(row);
      TopStep(i, row, RowsIn(row) - 1);
    }

    lemma RowsPositive(row: nat)
      requires Valid() && row < f.down
      ensures RowsIn(row) > 0
    {
      assert f.CompValid(f.comps[cs[0]]);
    }

    /** All places of these MCUs are before this one. */
    ghost predicate AllBefore(ms: seq<seq<Place>>, row: nat, y: nat, j: nat)
      requires Valid()
    {
      forall m, b :: 0 <= m < |ms| && 0 <= b < |ms[m]| ==> Before(ms[m][b], row, y, j)
    }

    lemma AllBeforeNextRow(ms: seq<seq<Place>>, row: nat, y: nat, j: nat)
      requires Valid() && AllBefore(ms, row, y, j) && row < f.down && y < RowsIn(row)
      ensures AllBefore(ms, row, y + 1, 0)
    {
      hide Before;
      forall m, b | 0 <= m < |ms| && 0 <= b < |ms[m]|
        ensures Before(ms[m][b], row, y + 1, 0)
      {
        BeforeNextRow(ms[m][b], row, y, j);
      }
    }

    lemma AllBeforeNextImcu(ms: seq<seq<Place>>, row: nat)
      requires Valid() && row < f.down && AllBefore(ms, row, RowsIn(row), 0)
      ensures AllBefore(ms, row + 1, 0, 0)
    {
      hide Before;
      forall m, b | 0 <= m < |ms| && 0 <= b < |ms[m]|
        ensures Before(ms[m][b], row + 1, 0, 0)
      {
        BeforeNextImcu(ms[m][b], row);
      }
    }

    /** An MCU of the scan, or the end of an MCU row, an iMCU row or the scan. */
    ghost predicate Reached(row: nat, y: nat)
      requires Valid()
    {
      row <= f.down && if row < f.down then y <= RowsIn(row) else y == 0
    }

    /** No place occurs twice, and none after this MCU. */
    lemma {:induction false} PrefixDistinct(row: nat, y: nat, j: nat)
      requires Valid() && Reached(row, y) && (j > 0 ==> row < f.down && y < RowsIn(row))
      ensures Distinct(Prefix(row, y, j)) && AllBefore(Prefix(row, y, j), row, y, j)
      decreases row, y, j
    {
      hide AllBefore, Distinct, Prefix, RowsIn;
      if j > 0 {
        PrefixDistinct(row, y, j - 1);
        PrefixStep(row, y, j - 1);
        AddMcu(Prefix(row, y, j - 1), row, y, j - 1);
      } else if y > 0 {
        PrefixDistinct(row, y - 1, PerRow());
        PrefixStep(row, y - 1, 0);
        AllBeforeNextRow(Prefix(row, y, 0), row, y - 1, PerRow());
      } else if row > 0 {
        PrefixDistinct(row - 1, RowsIn(row - 1), 0);
        PrefixStep(row - 1, 0, 0);
        AllBeforeNextImcu(Prefix(row, 0, 0), row - 1);
      } else {
        NoneBefore();
      }
    }

    lemma NoneBefore()
      requires Valid()
      ensures Distinct(Prefix(0, 0, 0)) && AllBefore(Prefix(0, 0, 0), 0, 0, 0)
    {
    }

    lemma AddMcu(ms: seq<seq<Place>>, row: nat, y: nat, j: nat)
      requires Valid() && Distinct(ms) && AllBefore(ms, row, y, j)
      ensures Distinct(ms + [InMcu(row, y, j, |cs|)]) && AllBefore(ms + [InMcu(row, y, j, |cs|)], row, y, j + 1)
    {
      hide Before, Inside;
      var q := InMcu(row, y, j, |cs|);
      McuPlaces(row, y, j, |cs|);
      forall b | 0 <= b < |q|
        ensures !Before(q[b], row, y, j) && Before(q[b], row, y, j + 1)
      {
        assert q[b] in q;
        InsideNotBefore(q[b], row, y, j);
      }
      forall m, b | 0 <= m < |ms| && 0 <= b < |ms[m]|
        ensures Before(ms[m][b], row, y, j + 1)
      {
        BeforeNextMcu(ms[m][b], row, y, j);
      }
    }

    /** In the arrays of the components, which are padded for interleaved scans only. */
    ghost predicate Fits(p: Place)
      requires Valid()
    {
      && p.c in cs && p.row < f.down * f.comps[p.c].v && p.col < f.across * f.comps[p.c].h
      && (|cs| == 1 ==> Real(p))
    }

    ghost predicate Real(p: Place)
    {
      p.c < |f.comps| && p.row < f.comps[p.c].high && p.col < f.comps[p.c].wide
    }

    lemma RowsFit(i: nat, row: nat, y: nat)
      requires Valid() && i < |cs| && row < f.down && y < RowsIn(row)
      ensures Top(i, row, y) + Height(i) <= f.down * Comp(i).v
      ensures |cs| == 1 ==> Top(i, row, y) < Comp(i).high
    {
      var k := Comp(i);
      assert f.CompValid(f.comps[cs[i]]);
      TopStep(i, row, y);
      RemainderIs(k.high, k.v, f.down);
      Scale(row + 1, f.down, k.v);
      assert (row + 1) * k.v == row * k.v + k.v && (f.down - 1) * k.v == f.down * k.v - k.v;
      if row < f.down - 1 {
        Scale(row + 1, f.down - 1, k.v);
      }
    }

    lemma ColumnsFit(i: nat, j: nat)
      requires Valid() && i < |cs| && j < PerRow()
      ensures j * Width(i) + Width(i) <= f.across * Comp(i).h
      ensures |cs| == 1 ==> j * Width(i) < Comp(i).wide
    {
      assert f.CompValid(f.comps[cs[i]]);
      Scale(j + 1, PerRow(), Width(i));
      assert (j + 1) * Width(i) == j * Width(i) + Width(i);
    }

    lemma InsideFits(p: Place, row: nat, y: nat, j: nat)
      requires Valid() && Inside(p, row, y, j, |cs|) && row < f.down && y < RowsIn(row) && j < PerRow()
      ensures Fits(p)
    {
      hide Top, RowsIn, PerRow;
      var i :| 0 <= i < |cs| && cs[i] == p.c &&
        Top(i, row, y) <= p.row < Top(i, row, y) + Height(i) && j * Width(i) <= p.col < j * Width(i) + Width(i);
      RowsFit(i, row, y);
      ColumnsFit(i, j);
    }

    lemma {:induction false} PrefixFits(row: nat, y: nat, j: nat)
      requires Valid() && Reached(row, y) && (j > 0 ==> row < f.down && y < RowsIn(row) && j <= PerRow())
      ensures AllFit(Prefix(row, y, j))
      decreases row, y, j
    {
      hide Prefix, RowsIn, AllFit;
      if j > 0 {
        PrefixFits(row, y, j - 1);
        PrefixStep(row, y, j - 1);
        McuFits(row, y, j - 1);
        assert AllFit(Prefix(row, y, j)) by { AllFitSnoc(Prefix(row, y, j - 1), InMcu(row, y, j - 1, |cs|)); }
      } else if y > 0 {
        PrefixFits(row, y - 1, PerRow());
        PrefixStep(row, y - 1, 0);
      } else if row > 0 {
        PrefixFits(row - 1, RowsIn(row - 1), 0);
        PrefixStep(row - 1, 0, 0);
      } else {
        PrefixStep(0, 0, 0);
        NoneFit();
      }
    }

    ghost predicate AllFit(ms: seq<seq<Place>>)
      requires Valid()
    {
      forall m, b :: 0 <= m < |ms| && 0 <= b < |ms[m]| ==> Fits(ms[m][b])
    }

    lemma NoneFit()
      requires Valid()
      ensures AllFit([])
    {
    }

    lemma AllFitSnoc(ms: seq<seq<Place>>, q: seq<Place>)
      requires Valid() && AllFit(ms) && forall b :: 0 <= b < |q| ==> Fits(q[b])
      ensures AllFit(ms + [q])
    {
      hide Fits;
    }

    lemma McuFits(row: nat, y: nat, j: nat)
      requires Valid() && row < f.down && y < RowsIn(row) && j < PerRow()
      ensures forall b :: 0 <= b < |InMcu(row, y, j, |cs|)| ==> Fits(InMcu(row, y, j, |cs|)[b])
    {
      hide Inside, Fits, RowsIn, PerRow, InMcu;
      var q := InMcu(row, y, j, |cs|);
      McuPlaces(row, y, j, |cs|);
      forall b | 0 <= b < |q|
        ensures Fits(q[b])
      {
        assert q[b] in q;
        InsideFits(q[b], row, y, j);
      }
    }

    /** MCU_membership: for each block of an MCU the index of its component in the scan. */
    function Members(n: nat): (r: seq<nat>)
      requires Valid() && n <= |cs|
      ensures forall b :: 0 <= b < |r| ==> r[b] < n
    {
      if n == 0 then [] else Members(n - 1) + seq(Height(n - 1) * Width(n - 1), _ => n - 1)
    }

    lemma {:induction false} RowsLength(i: nat, top: nat, left: nat, n: nat)
      requires Valid() && i < |cs|
      ensures |InRows(i, top, left, n)| == n * Width(i)
    {
      if n > 0 {
        RowsLength(i, top, left, n - 1);
        assert n * Width(i) == (n - 1) * Width(i) + Width(i);
      }
    }

    lemma {:induction false} McuMembers(row: nat, y: nat, j: nat, n: nat)
      requires Valid() && n <= |cs|
      ensures |InMcu(row, y, j, n)| == |Members(n)|
      ensures forall b :: 0 <= b < |Members(n)| ==> InMcu(row, y, j, n)[b].c == cs[Members(n)[b]]
    {
      hide InRows, Width, Height, Top;
      if n > 0 {
        McuMembers(row, y, j, n - 1);
        var q := InRows(n - 1, Top(n - 1, row, y), j * Width(n - 1), Height(n - 1));
        AllOf(n - 1, Top(n - 1, row, y), j * Width(n - 1));
        JoinMembers(InMcu(row, y, j, n - 1), q, Members(n - 1), n - 1);
      }
    }

    lemma AllOf(i: nat, top: nat, left: nat)
      requires Valid() && i < |cs|
      ensures var q := InRows(i, top, left, Height(i));
              |q| == Height(i) * Width(i) && forall b :: 0 <= b < |q| ==> q[b].c == cs[i]
    {
      hide InRows, Width, Height;
      RowsLength(i, top, left, Height(i));
      RowsPlaces(i, top, left, Height(i));
      var q := InRows(i, top, left, Height(i));
      assert forall b :: 0 <= b < |q| ==> q[b] in q;
    }

    lemma JoinMembers(a: seq<Place>, q: seq<Place>, ms: seq<nat>, i: nat)
      requires i < |cs| && |a| == |ms|
      requires forall b :: 0 <= b < |ms| ==> ms[b] < |cs| && a[b].c == cs[ms[b]]
      requires forall b :: 0 <= b < |q| ==> q[b].c == cs[i]
      ensures var r := ms + seq(|q|, _ => i);
              |a + q| == |r| && forall b :: 0 <= b < |r| ==> r[b] < |cs| && (a + q)[b].c == cs[r[b]]
    {
    }

    lemma {:induction false} PrefixSizes(row: nat, y: nat, j: nat)
      requires Valid() && Reached(row, y) && (j > 0 ==> row < f.down && y < RowsIn(row) && j <= PerRow())
      ensures forall m :: 0 <= m < |Prefix(row, y, j)| ==> |Prefix(row, y, j)[m]| == |Members(|cs|)|
      decreases row, y, j
    {
      hide Prefix, RowsIn, PerRow, Members, InMcu;
      if j > 0 {
        PrefixSizes(row, y, j - 1);
        PrefixStep(row, y, j - 1);
        McuMembers(row, y, j - 1, |cs|);
      } else if y > 0 {
        PrefixSizes(row, y - 1, PerRow());
        PrefixStep(row, y - 1, 0);
      } else if row > 0 {
        PrefixSizes(row - 1, RowsIn(row - 1), 0);
        PrefixStep(row - 1, 0, 0);
      } else {
        PrefixStep(0, 0, 0);
      }
    }

    /** last_col_width and last_row_height. */
    function LastColWidth(i: nat): (n: nat)
      requires Valid() && i < |cs|
      ensures 0 < n <= Width(i)
    {
      if |cs| == 1 then 1 else Remainder(Comp(i).wide, Width(i))
    }

    function LastRowHeight(i: nat): nat
      requires Valid() && i < |cs|
    {
      Remainder(Comp(i).high, Comp(i).v)
    }

    /** The places of an MCU up to block x of row yi of component i. */
    function Within(row: nat, y: nat, j: nat, i: nat, yi: nat, x: nat): seq<Place>
      requires Valid() && i <= |cs| && (i == |cs| ==> yi == 0 && x == 0)
    {
      if i == |cs| then InMcu(row, y, j, i)
      else
        InMcu(row, y, j, i) + InRows(i, Top(i, row, y), j * Width(i), yi) + InRow(i, Top(i, row, y) + yi, j * Width(i),
          x)
    }

    lemma WithinStep(row: nat, y: nat, j: nat, i: nat, yi: nat, x: nat)
      requires Valid() && i < |cs|
      ensures Within(row, y, j, 0, 0, 0) == []
      ensures Within(row, y, j, i, yi, x + 1) == Within(row, y, j, i, yi, x)
        + [Place(cs[i], Top(i, row, y) + yi, j * Width(i) + x)]
      ensures Within(row, y, j, i, yi + 1, 0) == Within(row, y, j, i, yi, Width(i))
      ensures Within(row, y, j, i + 1, 0, 0) == Within(row, y, j, i, Height(i), 0)
    {
      var q := InRows(i, Top(i, row, y), j * Width(i), yi);
      assert InMcu(row, y, j, i) + (q + InRow(i, Top(i, row, y) + yi, j * Width(i), Width(i)))
        == InMcu(row, y, j, i) + q + InRow(i, Top(i, row, y) + yi, j * Width(i), Width(i));
    }

    /** It is a part of the whole MCU. */
    lemma WithinRoom(row: nat, y: nat, j: nat, i: nat, yi: nat, x: nat)
      requires Valid() && i < |cs| && yi < Height(i) && x < Width(i)
      ensures |Within(row, y, j, i, yi, x)| < |Members(|cs|)|
    {
      McuMembers(row, y, j, i);
      RowsLength(i, Top(i, row, y), j * Width(i), yi);
      Scale(yi + 1, Height(i), Width(i));
      assert (yi + 1) * Width(i) == yi * Width(i) + Width(i);
      assert |Members(i + 1)| == |Members(i)| + Height(i) * Width(i);
      MembersGrow(i + 1, |cs|);
    }

    ghost predicate OfScan(ps: seq<Place>)
    {
      forall k :: 0 <= k < |ps| ==> ps[k].c in cs
    }

    lemma {:induction false} MembersGrow(m: nat, n: nat)
      requires Valid() && m <= n <= |cs|
      ensures |Members(m)| <= |Members(n)|
    {
      if m < n {
        MembersGrow(m, n - 1);
      }
    }

    /** The tests for the right and bottom edges find the real blocks. */
    lemma RightEdge(i: nat, j: nat, x: nat)
      requires Valid() && i < |cs| && j < PerRow() && x < Width(i)
      ensures x < (if j < PerRow() - 1 then Width(i) else LastColWidth(i)) <==> j * Width(i) + x < Comp(i).wide
    {
      var k := Comp(i);
      assert f.CompValid(f.comps[cs[i]]);
      if |cs| > 1 {
        RemainderIs(k.wide, k.h, f.across);
        if j < PerRow() - 1 {
          Scale(j + 1, f.across - 1, k.h);
          assert (j + 1) * k.h == j * k.h + k.h;
        }
      }
    }

    lemma BottomEdge(i: nat, row: nat, y: nat, yi: nat)
      requires Valid() && i < |cs| && row < f.down && y < RowsIn(row) && yi < Height(i)
      ensures (row < f.down - 1 || y + yi < LastRowHeight(i)) <==> Top(i, row, y) + yi < Comp(i).high
      ensures Top(i, row, y) < Comp(i).high
    {
      var k := Comp(i);
      assert f.CompValid(f.comps[cs[i]]);
      TopStep(i, row, y);
      RemainderIs(k.high, k.v, f.down);
      if row < f.down - 1 {
        Scale(row + 1, f.down - 1, k.v);
        assert (row + 1) * k.v == row * k.v + k.v;
      }
    }

    /** Every block of the image is in some MCU before the first MCU after it. */
    lemma {:induction false} Covered(p: Place, row: nat, y: nat, j: nat)
      requires Valid() && Reached(row, y) && (j > 0 ==> row < f.down && y < RowsIn(row) && j <= PerRow())
      requires p.c in cs && Real(p) && Before(p, row, y, j)
      ensures Occurs(Prefix(row, y, j), p)
      decreases row, y, j
    {
      hide Occurs, Prefix, RowsIn, Inside, Before;
      if j > 0 {
        PrefixStep(row, y, j - 1);
        McuPlaces(row, y, j - 1, |cs|);
        if Before(p, row, y, j - 1) {
          Covered(p, row, y, j - 1);
        } else {
          BetweenInside(p, row, y, j - 1);
        }
        OccursSnoc(Prefix(row, y, j - 1), InMcu(row, y, j - 1, |cs|), p);
      } else if y > 0 {
        PrefixStep(row, y - 1, 0);
        WholeRow(p, row, y - 1);
        Covered(p, row, y - 1, PerRow());
      } else if row > 0 {
        PrefixStep(row - 1, 0, 0);
        WholeImcu(p, row - 1);
        Covered(p, row - 1, RowsIn(row - 1), 0);
      } else {
        NothingBefore(p);
        assert false;
      }
    }

    lemma BetweenInside(p: Place, row: nat, y: nat, j: nat)
      requires Valid() && !Before(p, row, y, j) && Before(p, row, y, j + 1)
      ensures Inside(p, row, y, j, |cs|)
    {
      var i :| 0 <= i < |cs| && cs[i] == p.c && Past(p, i, row, y, j + 1);
      assert (j + 1) * Width(i) == j * Width(i) + Width(i);
    }

    lemma WholeRow(p: Place, row: nat, y: nat)
      requires Valid() && row < f.down && y < RowsIn(row) && p.c in cs && Real(p) && Before(p, row, y + 1, 0)
      ensures Before(p, row, y, PerRow())
    {
      var i :| 0 <= i < |cs| && cs[i] == p.c && Past(p, i, row, y + 1, 0);
      assert f.CompValid(f.comps[cs[i]]);
      TopStep(i, row, y);
    }

    lemma WholeImcu(p: Place, row: nat)
      requires Valid() && row < f.down && p.c in cs && Real(p) && Before(p, row + 1, 0, 0)
      ensures Before(p, row, RowsIn(row), 0)
    {
      var i :| 0 <= i < |cs| && cs[i] == p.c && Past(p, i, row + 1, 0, 0);
      RowsPositive(row);
      TopStep(i, row, RowsIn(row) - 1);
      assert f.CompValid(f.comps[cs[i]]);
      if row == f.down - 1 && |cs| > 1 {
        assert (row + 1) * Comp(i).v == row * Comp(i).v + Comp(i).v && Top(i, row, 1) == row * Comp(i).v
          + 1 * Height(i);
      }
    }

    lemma NothingBefore(p: Place)
      requires Valid()
      ensures !Before(p, 0, 0, 0)
    {
    }
  }

  ghost predicate Occurs(ms: seq<seq<Place>>, p: Place)
  {
    exists m, b :: 0 <= m < |ms| && 0 <= b < |ms[m]| && ms[m][b] == p
  }

  lemma OccursSnoc(ms: seq<seq<Place>>, q: seq<Place>, p: Place)
    requires Occurs(ms, p) || p in q
    ensures Occurs(ms + [q], p)
  {
    if p in q {
      var b :| 0 <= b < |q| && q[b] == p;
      assert (ms + [q])[|ms|][b] == p;
    } else {
      var m, b :| 0 <= m < |ms| && 0 <= b < |ms[m]| && ms[m][b] == p;
      assert (ms + [q])[m][b] == p;
    }
  }

  /** No place occurs twice in these MCUs. */
  ghost predicate Distinct(ms: seq<seq<Place>>)
  {
    && (forall m :: 0 <= m < |ms| ==> NoDuplicate(ms[m]))
    && (forall m, b, n, d :: 0 <= m < n < |ms| && 0 <= b < |ms[m]| && 0 <= d < |ms[n]| ==> ms[m][b] != ms[n][d])
  }

  ghost predicate NoDuplicate(ps: seq<Place>)
  {
    forall a, b :: 0 <= a < b < |ps| ==> ps[a] != ps[b]
  }

  lemma JoinDistinct(a: seq<Place>, b: seq<Place>)
    requires NoDuplicate(a) && NoDuplicate(b) && forall p :: p in a ==> p !in b
    ensures NoDuplicate(a + b)
  {
    forall i, k | 0 <= i < k < |a + b|
      ensures (a + b)[i] != (a + b)[k]
    {
      assert i < |a| <= k ==> a[i] in a && b[k - |a|] in b;
    }
  }
}
