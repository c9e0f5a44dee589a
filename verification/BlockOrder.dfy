/** Which block of the image is which block of which MCU (section A.2 of ITU-T T.81). */
module BlockOrder {
  import opened JpegLib
  import opened Blocks
  import opened Arithmetic
  import opened McuLayout
  import opened McuAssembly

  // ----- within an MCU

  /** The blocks of one component in an MCU, row by row. */
  lemma {:induction false} RowsAt(lay: Layout, i: nat, top: nat, left: nat, n: nat, yi: nat, x: nat)
    requires lay.Valid() && i < |lay.cs| && yi < n && x < lay.Width(i)
    ensures yi * lay.Width(i) + x < |lay.InRows(i, top, left, n)|
    ensures lay.InRows(i, top, left, n)[yi * lay.Width(i) + x] == Place(lay.cs[i], top + yi, left + x)
  {
    var w := lay.Width(i);
    hide Layout.Width;
    lay.RowsLength(i, top, left, n - 1);
    if yi == n - 1 {
      lay.RowPlaces(i, top + n - 1, left, w);
    } else {
      RowsAt(lay, i, top, left, n - 1, yi, x);
    }
  }

  /** Behind the blocks of the components before it. */
  lemma {:induction false} McuAt(lay: Layout, row: nat, y: nat, j: nat, n: nat, i: nat, yi: nat, x: nat)
    requires lay.Valid() && i < n <= |lay.cs| && yi < lay.Height(i) && x < lay.Width(i)
    ensures var b := |lay.Members(i)| + yi * lay.Width(i) + x;
            && b < |lay.InMcu(row, y, j, n)|
            && lay.InMcu(row, y, j, n)[b] == Place(lay.cs[i], lay.Top(i, row, y) + yi, j * lay.Width(i) + x)
    decreases n
  {
    hide Layout.Width, Layout.Height, Layout.Members, Layout.InRows, Layout.Top;
    if i == n - 1 {
      lay.McuMembers(row, y, j, i);
      RowsAt(lay, i, lay.Top(i, row, y), j * lay.Width(i), lay.Height(i), yi, x);
    } else {
      McuAt(lay, row, y, j, n - 1, i, yi, x);
    }
  }

  /** How many blocks come before those of a component. */
  lemma {:induction false} BlocksBefore(lay: Layout, i: nat)
    requires lay.Valid() && i < |lay.cs|
    ensures |lay.Members(0)| == 0
    ensures |lay.Members(i + 1)| == |lay.Members(i)| + if |lay.cs| == 1 then 1 else lay.Comp(i).v * lay.Comp(i).h
  {
  }

  // ----- within a scan

  lemma {:induction false} RowAt(lay: Layout, row: nat, y: nat, n: nat, j: nat)
    requires lay.Valid() && j < n
    ensures |lay.McusInRow(row, y, n)| == n && lay.McusInRow(row, y, n)[j] == lay.InMcu(row, y, j, |lay.cs|)
  {
    hide Layout.InMcu;
    lay.RowLength(row, y, n - 1);
    if j < n - 1 {
      RowAt(lay, row, y, n - 1, j);
    }
  }

  lemma {:induction false} RowsOfMcusAt(lay: Layout, row: nat, n: nat, y: nat, j: nat)
    requires lay.Valid() && y < n && j < lay.PerRow()
    ensures |lay.McusInRows(row, n)| == n * lay.PerRow() && y * lay.PerRow() + j < n * lay.PerRow()
    ensures lay.McusInRows(row, n)[y * lay.PerRow() + j] == lay.InMcu(row, y, j, |lay.cs|)
  {
    hide Layout.InMcu, Layout.PerRow, Layout.McusInRow;
    RowsOfMcusLength(lay, row, n - 1);
    RowAt(lay, row, n - 1, lay.PerRow(), j);
    Scaled(n, lay.PerRow());
    if y < n - 1 {
      RowsOfMcusAt(lay, row, n - 1, y, j);
    }
  }

  lemma {:induction false} RowsOfMcusLength(lay: Layout, row: nat, n: nat)
    requires lay.Valid()
    ensures |lay.McusInRows(row, n)| == n * lay.PerRow()
  {
    hide Layout.PerRow, Layout.McusInRow;
    if n > 0 {
      RowsOfMcusLength(lay, row, n - 1);
      lay.RowLength(row, n - 1, lay.PerRow());
      Scaled(n, lay.PerRow());
    }
  }

  lemma Scaled(n: nat, k: nat)
    requires n > 0
    ensures n * k == (n - 1) * k + k
  {
  }

  /** Interleaved scans: MCU number row * across + j holds, for each component in turn, v rows
      of h blocks from block row row * v and block column j * h on. */
  lemma InterleavedOrder(lay: Layout, row: nat, j: nat, i: nat, yi: nat, x: nat)
    requires lay.Valid() && |lay.cs| > 1 && row < lay.f.down && j < lay.f.across && i < |lay.cs|
    requires yi < lay.Comp(i).v && x < lay.Comp(i).h
    ensures var k, m, b := lay.Comp(i), row * lay.f.across + j, |lay.Members(i)| + yi * lay.Comp(i).h + x;
            && m < |lay.Mcus()| == lay.f.down * lay.f.across && b < |lay.Mcus()[m]|
            && lay.Mcus()[m][b] == Place(lay.cs[i], row * k.v + yi, j * k.h + x)
  {
    hide Layout.InMcu, Layout.Members;
    InterleavedAt(lay, lay.f.down, row, j);
    McuAt(lay, row, 0, j, |lay.cs|, i, yi, x);
  }

  lemma {:induction false} InterleavedAt(lay: Layout, n: nat, row: nat, j: nat)
    requires lay.Valid() && |lay.cs| > 1 && row < n <= lay.f.down && j < lay.f.across
    ensures |lay.McusTo(n)| == n * lay.f.across && row * lay.f.across + j < n * lay.f.across
    ensures lay.McusTo(n)[row * lay.f.across + j] == lay.InMcu(row, 0, j, |lay.cs|)
    decreases n
  {
    hide Layout.InMcu, Layout.McusInRows;
    InterleavedLength(lay, n - 1);
    RowsOfMcusAt(lay, n - 1, 1, 0, j);
    Scaled(n, lay.f.across);
    if row < n - 1 {
      InterleavedAt(lay, n - 1, row, j);
    }
  }

  lemma {:induction false} InterleavedLength(lay: Layout, n: nat)
    requires lay.Valid() && |lay.cs| > 1 && n <= lay.f.down
    ensures |lay.McusTo(n)| == n * lay.f.across
  {
    hide Layout.McusInRows;
    if n > 0 {
      InterleavedLength(lay, n - 1);
      RowsOfMcusLength(lay, n - 1, 1);
      Scaled(n, lay.f.across);
    }
  }

  /** Scans of one component: MCU number r * wide + x is the block in row r and column x. */
  lemma SingleOrder(lay: Layout, r: nat, x: nat)
    requires lay.Valid() && |lay.cs| == 1 && r < lay.Comp(0).high && x < lay.Comp(0).wide
    ensures var m := r * lay.Comp(0).wide + x;
            m < |lay.Mcus()| == lay.Comp(0).high * lay.Comp(0).wide && lay.Mcus()[m] == [Place(lay.cs[0], r, x)]
  {
    hide Layout.McusTo;
    SingleLength(lay, lay.f.down);
    SingleAt(lay, lay.f.down, lay.PerRow(), r, x);
  }

  /** The block rows of the first n iMCU rows. */
  function RowsBefore(lay: Layout, n: nat): nat
    requires lay.Valid() && |lay.cs| == 1 && n <= lay.f.down
  {
    if n < lay.f.down then n * lay.Comp(0).v else lay.Comp(0).high
  }

  lemma RowsBeforeNext(lay: Layout, n: nat)
    requires lay.Valid() && |lay.cs| == 1 && 0 < n <= lay.f.down
    ensures RowsBefore(lay, n) == RowsBefore(lay, n - 1) + lay.RowsIn(n - 1) && RowsBefore(lay, 0) == 0
    ensures RowsBefore(lay, n - 1) == (n - 1) * lay.Comp(0).v
  {
    assert lay.f.CompValid(lay.f.comps[lay.cs[0]]);
    var v := lay.Comp(0).v;
    Scaled(n, v);
    if n == lay.f.down {
      RemainderIs(lay.Comp(0).high, v, n);
    }
  }

  lemma {:induction false} SingleLength(lay: Layout, n: nat)
    requires lay.Valid() && |lay.cs| == 1 && n <= lay.f.down
    ensures |lay.McusTo(n)| == RowsBefore(lay, n) * lay.PerRow()
  {
    hide Layout.McusInRows, Layout.RowsIn, Layout.PerRow;
    if n > 0 {
      SingleLength(lay, n - 1);
      RowsBeforeNext(lay, n);
      hide RowsBefore;
      RowsOfMcusLength(lay, n - 1, lay.RowsIn(n - 1));
      Distributed(RowsBefore(lay, n - 1), lay.RowsIn(n - 1), lay.PerRow());
    }
  }

  lemma Distributed(a: nat, b: nat, k: nat)
    ensures (a + b) * k == a * k + b * k
  {
  }

  ghost predicate OccursAt(ms: seq<seq<Place>>, m: int, mcu: seq<Place>)
  {
    0 <= m < |ms| && ms[m] == mcu
  }

  lemma {:induction false} SingleAt(lay: Layout, n: nat, w: nat, r: nat, x: nat)
    requires lay.Valid() && |lay.cs| == 1 && n <= lay.f.down && r < RowsBefore(lay, n) && x < w == lay.PerRow()
    ensures OccursAt(lay.McusTo(n), r * w + x, [Place(lay.cs[0], r, x)])
    decreases n
  {
    hide Layout.McusInRows, Layout.RowsIn, Layout.PerRow, RowsBefore;
    RowsStart(lay);
    RowsBeforeNext(lay, n);
    SingleLength(lay, n - 1);
    var before := RowsBefore(lay, n - 1);
    if r < before {
      SingleAt(lay, n - 1, w, r, x);
    } else {
      var y := r - before;
      RowsOfMcusAt(lay, n - 1, lay.RowsIn(n - 1), y, x);
      Distributed(before, y, w);
      OneBlock(lay, n - 1, y, x);
    }
  }

  lemma RowsStart(lay: Layout)
    requires lay.Valid() && |lay.cs| == 1
    ensures RowsBefore(lay, 0) == 0
  {
  }

  lemma OneBlock(lay: Layout, row: nat, y: nat, x: nat)
    requires lay.Valid() && |lay.cs| == 1
    ensures lay.InMcu(row, y, x, 1) == [Place(lay.cs[0], row * lay.Comp(0).v + y, x)]
  {
    McuAt(lay, row, y, x, 1, 0, 0, 0);
    lay.McuMembers(row, y, x, 1);
    BlocksBefore(lay, 0);
  }

  // ----- dummy blocks

  /** A block of an MCU that is not in the image costs as little as possible: it has no AC
      coefficients, and the DC coefficient of the block in front of it in the MCU, which
      belongs to the same component. */
  lemma DummyRepeats(lay: Layout, z: seq<Plane>, row: nat, j: nat, i: nat, yi: nat, x: nat)
    requires lay.Valid() && Shaped(lay.f, z) && |lay.cs| > 1 && row < lay.f.down && j < lay.f.across && i < |lay.cs|
    requires yi < lay.Comp(i).v && x < lay.Comp(i).h
    requires !lay.Real(Place(lay.cs[i], row * lay.Comp(i).v + yi, j * lay.Comp(i).h + x))
    ensures var b, mcu := |lay.Members(i)| + yi * lay.Comp(i).h + x, Fetch(lay.f, z, lay.InMcu(row, 0, j, |lay.cs|));
            && (yi > 0 || x > 0) && 0 < b < |mcu| && mcu[b] == ZeroBlock()[0 := mcu[b - 1][0]]
  {
    hide Cell, Layout.InMcu, Layout.Members;
    var k := lay.Comp(i);
    FirstIsReal(lay, i, row, j);
    McuAt(lay, row, 0, j, |lay.cs|, i, yi, x);
    DummyCell(z[lay.cs[i]], k, row, j, yi, x);
    if x > 0 {
      McuAt(lay, row, 0, j, |lay.cs|, i, yi, x - 1);
    } else {
      McuAt(lay, row, 0, j, |lay.cs|, i, yi - 1, k.h - 1);
      Scaled(yi, k.h);
    }
  }

  lemma FirstIsReal(lay: Layout, i: nat, row: nat, j: nat)
    requires lay.Valid() && i < |lay.cs| && row < lay.f.down && j < lay.f.across
    ensures row * lay.Comp(i).v < lay.Comp(i).high && j * lay.Comp(i).h < lay.Comp(i).wide
  {
    assert lay.f.CompValid(lay.f.comps[lay.cs[i]]);
    Scale(row, lay.f.down - 1, lay.Comp(i).v);
    Scale(j, lay.f.across - 1, lay.Comp(i).h);
  }

  lemma DummyCell(p: Plane, k: Component, row: nat, j: nat, yi: nat, x: nat)
    requires |p| == k.high && (forall r :: 0 <= r < |p| ==> |p[r]| == k.wide)
    requires yi < k.v && x < k.h && row * k.v < k.high && j * k.h < k.wide
    requires row * k.v + yi >= k.high || j * k.h + x >= k.wide
    ensures Cell(p, k.h, row * k.v + yi, j * k.h + x) == ZeroBlock()[0 :=
      if x > 0 then Cell(p, k.h, row * k.v + yi, j * k.h + x - 1)[0]
      else if yi > 0 then Cell(p, k.h, row * k.v + yi - 1, j * k.h + k.h - 1)[0] else 0]
  {
    hide Cell;
    var r, c := row * k.v + yi, j * k.h + x;
    QuotientIs(c, k.h, j, x);
    assert c / k.h * k.h + k.h - 1 == j * k.h + k.h - 1;
    DummyCellIs(p, k.h, r, c);
    if x > 0 && r >= |p| {
      QuotientIs(c - 1, k.h, j, x - 1);
      assert (c - 1) / k.h * k.h + k.h - 1 == j * k.h + k.h - 1;
      DummyCellIs(p, k.h, r, c - 1);
    }
  }

  lemma DummyCellIs(p: Plane, w: nat, r: nat, c: nat)
    requires w > 0 && !(r < |p| && c < |p[r]|)
    ensures Cell(p, w, r, c) == ZeroBlock()[0 :=
      if r < |p| then (if c > 0 then Cell(p, w, r, c - 1)[0] else 0)
      else if r > 0 then Cell(p, w, r - 1, c / w * w + w - 1)[0] else 0]
  {
  }
}
