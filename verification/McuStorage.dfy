/** The coefficient controller of the decoder in the multi-scan case: consume_data puts the
    blocks of every MCU in their places in the full-image arrays (jdcoefct.c). */
module McuStorage {
  import opened JpegLib
  import opened Bytes
  import opened Arithmetic
  import opened Blocks
  import opened McuLayout
  import opened McuAssembly

  /** The contents of a full-image array. */
  function Grid(a: array2<Block>): (p: Plane)
    reads a
    ensures |p| == a.Length0 && forall r :: 0 <= r < |p| ==> |p[r]| == a.Length1
    ensures forall r, x :: 0 <= r < a.Length0 && 0 <= x < a.Length1 ==> p[r][x] == a[r, x]
  {
    seq(a.Length0, r requires 0 <= r < a.Length0 reads a => seq(a.Length1,
      x requires 0 <= x < a.Length1 reads a => a[r, x]))
  }

  function Grids(arrays: seq<array2<Block>>): (z: seq<Plane>)
    reads arrays
    ensures |z| == |arrays| && forall c :: 0 <= c < |z| ==> z[c] == Grid(arrays[c])
  {
    seq(|arrays|, c requires 0 <= c < |arrays| reads arrays => Grid(arrays[c]))
  }

  /** Planes padded to whole MCUs of an interleaved scan. */
  ghost predicate Padded(f: Frame, z: seq<Plane>)
  {
    |z| == |f.comps| && forall c :: 0 <= c < |z| ==>
      |z[c]| == f.down * f.comps[c].v && forall r :: 0 <= r < |z[c]| ==> |z[c][r]| == f.across * f.comps[c].h
  }

  /** One block stored. */
  function Placed(z: seq<Plane>, p: Place, b: Block): seq<Plane>
  {
    if p.c < |z| && p.row < |z[p.c]| && p.col < |z[p.c][p.row]| then
      var row: seq<Block> := z[p.c][p.row];
      var stored: seq<Block> := row[p.col := b];
      var plane: Plane := z[p.c];
      z[p.c := plane[p.row := stored]]
    else z
  }

  function StoreMcu(z: seq<Plane>, ps: seq<Place>, bs: Mcu): seq<Plane>
    requires |ps| == |bs|
  {
    if ps == [] then z
    else
      var n := |ps| - 1;
      Placed(StoreMcu(z, ps[..n], bs[..n]), ps[n], bs[n])
  }

  function StoreAll(z: seq<Plane>, ms: seq<seq<Place>>, mcus: seq<Mcu>): seq<Plane>
    requires |ms| == |mcus| && forall m :: 0 <= m < |ms| ==> |ms[m]| == |mcus[m]|
  {
    if ms == [] then z
    else
      var n := |ms| - 1;
      StoreMcu(StoreAll(z, ms[..n], mcus[..n]), ms[n], mcus[n])
  }

  ghost predicate InPlanes(z: seq<Plane>, p: Place)
  {
    p.c < |z| && p.row < |z[p.c]| && p.col < |z[p.c][p.row]|
  }

  ghost predicate SameSize(z: seq<Plane>, y: seq<Plane>)
  {
    |z| == |y| && forall c :: 0 <= c < |z| ==> |z[c]| == |y[c]| && forall r :: 0 <= r < |z[c]| ==>
      |z[c][r]| == |y[c][r]|
  }

  function Look(z: seq<Plane>, p: Place): Block
  {
    if p.c < |z| && p.row < |z[p.c]| && p.col < |z[p.c][p.row]| then z[p.c][p.row][p.col] else ZeroBlock()
  }

  lemma Stored(z: seq<Plane>, p: Place, b: Block)
    requires InPlanes(z, p)
    ensures SameSize(z, Placed(z, p, b))
    ensures forall q :: Look(Placed(z, p, b), q) == if q == p then b else Look(z, q)
  {
  }

  lemma SameSizes(x: seq<Plane>, y: seq<Plane>, z: seq<Plane>)
    requires SameSize(x, y) && SameSize(y, z)
    ensures SameSize(x, z) && forall p :: InPlanes(x, p) <==> InPlanes(z, p)
  {
  }

  /** An MCU with distinct places is stored in them, and nowhere else. */
  lemma {:induction false} McuStored(z: seq<Plane>, ps: seq<Place>, bs: Mcu)
    requires |ps| == |bs| && NoDuplicate(ps) && forall k :: 0 <= k < |ps| ==> InPlanes(z, ps[k])
    ensures var y := StoreMcu(z, ps, bs);
            && SameSize(z, y)
            && (forall k :: 0 <= k < |ps| ==> Look(y, ps[k]) == bs[k])
            && (forall p :: p !in ps ==> Look(y, p) == Look(z, p))
  {
    hide Look, Placed, SameSize, InPlanes;
    if ps == [] {
      assert SameSize(z, z) by { Same(z); }
    } else {
      var n := |ps| - 1;
      McuStored(z, ps[..n], bs[..n]);
      var x := StoreMcu(z, ps[..n], bs[..n]);
      SameSizes(z, x, x) by { Same(x); }
      Stored(x, ps[n], bs[n]);
      SameSizes(z, x, Placed(x, ps[n], bs[n]));
      assert forall p :: p in ps[..n] ==> p in ps;
    }
  }

  lemma Same(z: seq<Plane>)
    ensures SameSize(z, z)
  {
  }

  /** All MCUs of a scan, their places being distinct. */
  lemma {:induction false} AllStored(z: seq<Plane>, ms: seq<seq<Place>>, mcus: seq<Mcu>)
    requires |ms| == |mcus| && forall m :: 0 <= m < |ms| ==> |ms[m]| == |mcus[m]|
    requires Distinct(ms) && forall m, b :: 0 <= m < |ms| && 0 <= b < |ms[m]| ==> InPlanes(z, ms[m][b])
    ensures var y := StoreAll(z, ms, mcus);
            && SameSize(z, y)
            && (forall m, b :: 0 <= m < |ms| && 0 <= b < |ms[m]| ==> Look(y, ms[m][b]) == mcus[m][b])
            && (forall p :: !Occurs(ms, p) ==> Look(y, p) == Look(z, p))
  {
    hide Look, SameSize, InPlanes, StoreMcu;
    if ms == [] {
      Same(z);
    } else {
      var n := |ms| - 1;
      AllStored(z, ms[..n], mcus[..n]);
      var x := StoreAll(z, ms[..n], mcus[..n]);
      Same(x);
      SameSizes(z, x, x);
      McuStored(x, ms[n], mcus[n]);
      SameSizes(z, x, StoreMcu(x, ms[n], mcus[n]));
      forall p | !Occurs(ms, p)
        ensures !Occurs(ms[..n], p) && p !in ms[n]
      {
        assert forall b :: 0 <= b < |ms[n]| ==> ms[n][b] != p;
      }
      forall m, b | 0 <= m < n && 0 <= b < |ms[m]|
        ensures ms[m][b] !in ms[n]
      {
        assert forall d :: 0 <= d < |ms[n]| ==> ms[m][b] != ms[n][d];
      }
    }
  }

  // ----- MCUs as they are decoded

  lemma FetchPadded(f: Frame, z: seq<Plane>, ps: seq<Place>)
    requires |z| == |f.comps| && forall k :: 0 <= k < |ps| ==> InPlanes(z, ps[k])
    ensures forall k :: 0 <= k < |ps| ==> Fetch(f, z, ps)[k] == Look(z, ps[k])
  {
  }

  lemma FitsPadded(lay: Layout, z: seq<Plane>, ms: seq<seq<Place>>)
    requires lay.Valid() && Padded(lay.f, z) && lay.AllFit(ms)
    ensures forall m, b :: 0 <= m < |ms| && 0 <= b < |ms[m]| ==> InPlanes(z, ms[m][b])
  {
    forall m, b | 0 <= m < |ms| && 0 <= b < |ms[m]|
      ensures InPlanes(z, ms[m][b])
    {
      assert lay.Fits(ms[m][b]);
    }
  }

  /** What has been stored for earlier MCUs is not seen by later ones. */
  lemma NotSeen(lay: Layout, z: seq<Plane>, ms: seq<seq<Place>>, q: seq<Place>, mcus: seq<Mcu>)
    requires lay.Valid() && Padded(lay.f, z) && Distinct(ms + [q]) && lay.AllFit(ms + [q])
    requires |ms| == |mcus| && forall m :: 0 <= m < |ms| ==> |ms[m]| == |mcus[m]|
    ensures Padded(lay.f, StoreAll(z, ms, mcus)) && Fetch(lay.f, StoreAll(z, ms, mcus), q) == Fetch(lay.f, z, q)
  {
    hide Look, InPlanes, StoreAll, Fetch;
    FitsPadded(lay, z, ms + [q]);
    var y := StoreAll(z, ms, mcus);
    assert forall m :: 0 <= m < |ms| ==> (ms + [q])[m] == ms[m];
    assert (ms + [q])[|ms|] == q;
    AllStored(z, ms, mcus);
    Same(y);
    SameSizes(z, y, y);
    FetchPadded(lay.f, z, q);
    FetchPadded(lay.f, y, q);
    forall k | 0 <= k < |q|
      ensures !Occurs(ms, q[k])
    {
      assert forall m, b :: 0 <= m < |ms| && 0 <= b < |ms[m]| ==> (ms + [q])[m][b] != (ms + [q])[|ms|][k];
    }
    assert Fetch(lay.f, y, q) == Fetch(lay.f, z, q);
  }

  class StorageController {
    const lay: Layout
    const wholeImage: seq<array2<Block>>
    var inputIMCURow: nat
    var mcuCtr: nat
    var mcuVertOffset: nat
    var mcuRowsPerIMCURow: nat
    // The entropy decoder: the blocks it makes of each MCU, the blocks it has been handed,
    // and how many MCUs it decodes before it suspends, if not negative.
    const decoded: seq<Mcu>
    var handed: seq<Mcu>
    var room: int
    ghost const start: seq<Plane>

    constructor (lay: Layout, wholeImage: seq<array2<Block>>, decoded: seq<Mcu>)
      ensures this.lay == lay && this.wholeImage == wholeImage && this.decoded == decoded && start == Grids(wholeImage)
      ensures inputIMCURow == 0 && handed == []
    {
      this.lay, this.wholeImage, this.decoded := lay, wholeImage, decoded;
      inputIMCURow, mcuCtr, mcuVertOffset, mcuRowsPerIMCURow := 0, 0, 0, 0;
      handed, room := [], -1;
      start := Grids(wholeImage);
    }

    ghost predicate Shape()
    {
      && lay.Valid() && |wholeImage| == |lay.f.comps|
      && (forall c, d :: 0 <= c < d < |wholeImage| ==> wholeImage[c] != wholeImage[d])
      && (forall c :: 0 <= c < |wholeImage| ==>
            && wholeImage[c].Length0 == lay.f.down * lay.f.comps[c].v
            && wholeImage[c].Length1 == lay.f.across * lay.f.comps[c].h)
      && |decoded| == |lay.Mcus()| && (forall m :: 0 <= m < |decoded| ==> |decoded[m]| == |lay.Members(|lay.cs|)|)
    }

    /** One block through its pointer. */
    method Write(p: Place, b: Block)
      requires Shape() && InPlanes(Grids(wholeImage), p)
      modifies wholeImage
      ensures Grids(wholeImage) == Placed(old(Grids(wholeImage)), p, b)
    {
      ghost var z := Grids(wholeImage);
      wholeImage[p.c][p.row, p.col] := b;
      ghost var y := Grids(wholeImage);
      assert forall c :: 0 <= c < |y| && c != p.c ==> y[c] == z[c];
      assert forall r :: 0 <= r < |y[p.c]| && r != p.row ==> y[p.c][r] == z[p.c][r];
      assert y[p.c][p.row] == z[p.c][p.row][p.col := b];
      assert y[p.c] == z[p.c][p.row := y[p.c][p.row]];
    }

    /** The blocks of an MCU through their pointers. */
    method WriteMcu(ps: seq<Place>, bs: Mcu)
      requires Shape() && |ps| == |bs| && forall k :: 0 <= k < |ps| ==> InPlanes(Grids(wholeImage), ps[k])
      modifies wholeImage
      ensures Grids(wholeImage) == StoreMcu(old(Grids(wholeImage)), ps, bs)
    {
      hide Placed, InPlanes, SameSize, Shape;
      ghost var z := Grids(wholeImage);
      for k := 0 to |ps|
        invariant Grids(wholeImage) == StoreMcu(z, ps[..k], bs[..k])
        invariant forall i :: 0 <= i < |ps| ==> InPlanes(Grids(wholeImage), ps[i])
      {
        assert ps[..k + 1][..k] == ps[..k] && bs[..k + 1][..k] == bs[..k];
        ghost var y := Grids(wholeImage);
        Stored(y, ps[k], bs[k]);
        Same(y);
        SameSizes(y, y, Placed(y, ps[k], bs[k]));
        Write(ps[k], bs[k]);
      }
      assert ps[..|ps|] == ps && bs[..|ps|] == bs;
    }

    /** decode_mcu: the blocks pointed to are decoded in place, or decoding suspends. */
    method DecodeMcu(ps: seq<Place>) returns (ok: bool)
      requires Shape() && |handed| < |decoded| && |ps| == |decoded[|handed|]|
      requires forall k :: 0 <= k < |ps| ==> InPlanes(Grids(wholeImage), ps[k])
      modifies wholeImage, `handed, `room
      ensures (ok <==> old(room) != 0) && (old(room) < 0 ==> room < 0) && (!ok ==> room == 0)
      ensures ok ==> handed == old(handed) + [Fetch(lay.f, old(Grids(wholeImage)), ps)]
      ensures ok ==> Grids(wholeImage) == StoreMcu(old(Grids(wholeImage)), ps, decoded[|old(handed)|])
      ensures !ok ==> handed == old(handed) && Grids(wholeImage) == old(Grids(wholeImage))
    {
      hide Shape, InPlanes, StoreMcu, Fetch;
      ok := room != 0;
      if ok {
        room := room - 1;
        var bs := decoded[|handed|];
        handed := handed + [Fetch(lay.f, Grids(wholeImage), ps)];
        WriteMcu(ps, bs);
      }
    }

    /** The list of pointers to the blocks of an MCU. */
    method Pointers(y: nat, j: nat) returns (ps: seq<Place>)
      requires Shape() && inputIMCURow < lay.f.down && y < lay.RowsIn(inputIMCURow) && j < lay.PerRow()
      ensures ps == lay.InMcu(inputIMCURow, y, j, |lay.cs|)
    {
      hide Layout.RowsIn, Layout.PerRow;
      ps := [];
      for i := 0 to |lay.cs|
        invariant ps == lay.InMcu(inputIMCURow, y, j, i)
      {
        var top := inputIMCURow * lay.Comp(i).v + y;
        lay.TopStep(i, inputIMCURow, y);
        var startCol := j * lay.Width(i);
        ghost var base := ps;
        for yindex := 0 to lay.Height(i)
          invariant ps == base + lay.InRows(i, top, startCol, yindex)
        {
          ghost var before := ps;
          for xindex := 0 to lay.Width(i)
            invariant ps == before + lay.InRow(i, top + yindex, startCol, xindex)
          {
            ps := ps + [Place(lay.cs[i], top + yindex, startCol + xindex)];
          }
          assert base + (lay.InRows(i, top, startCol, yindex) + lay.InRow(i, top + yindex, startCol, lay.Width(i)))
            == base + lay.InRows(i, top, startCol, yindex) + lay.InRow(i, top + yindex, startCol, lay.Width(i));
        }
      }
    }

    /** The MCUs before this one are stored, and were handed over as they were. */
    ghost predicate Progress(row: nat, y: nat, j: nat)
      reads `handed, wholeImage
    {
      && Shape() && Padded(lay.f, start) && row <= lay.f.down
      && var ms := lay.Prefix(row, y, j);
         && |handed| == |ms| <= |decoded| && handed == FetchAll(lay.f, start, ms)
         && (forall m :: 0 <= m < |ms| ==> |ms[m]| == |decoded[m]|)
         && Grids(wholeImage) == StoreAll(start, ms, decoded[..|ms|])
    }

    ghost predicate Valid()
      reads this, wholeImage
    {
      && Progress(inputIMCURow, mcuVertOffset, mcuCtr) && lay.Reached(inputIMCURow, mcuVertOffset)
      && (if inputIMCURow < lay.f.down then
            mcuRowsPerIMCURow == lay.RowsIn(inputIMCURow) && mcuVertOffset < mcuRowsPerIMCURow && mcuCtr < lay.PerRow()
          else mcuCtr == 0)
    }

    /** One MCU. */
    method NextMcu(y: nat, j: nat) returns (ok: bool)
      requires Progress(inputIMCURow, y, j) && inputIMCURow < lay.f.down && y < lay.RowsIn(inputIMCURow)
        && j < lay.PerRow()
      modifies wholeImage, `handed, `room
      ensures (old(room) < 0 ==> room < 0) && (!ok ==> room == 0)
      ensures Progress(inputIMCURow, y, if ok then j + 1 else j)
    {
      hide Layout.RowsIn, Layout.PerRow, Layout.Prefix, Layout.InMcu, Fetch, StoreMcu, StoreAll;
      var ps := Pointers(y, j);
      ghost var ms := lay.Prefix(inputIMCURow, y, j);
      ghost var z := Grids(wholeImage);
      Room(y, j);
      lay.PrefixStep(inputIMCURow, y, j);
      lay.PrefixDistinct(inputIMCURow, y, j + 1);
      lay.PrefixFits(inputIMCURow, y, j + 1);
      NotSeen(lay, start, ms, ps, decoded[..|ms|]);
      NextInPlanes(ms, ps);
      ok := DecodeMcu(ps);
      if ok {
        StoreSnoc(start, ms, decoded[..|ms|], ps, decoded[|ms|]);
        assert decoded[..|ms| + 1] == decoded[..|ms|] + [decoded[|ms|]];
      }
    }

    lemma NextInPlanes(ms: seq<seq<Place>>, ps: seq<Place>)
      requires Shape() && lay.AllFit(ms + [ps])
      ensures forall k :: 0 <= k < |ps| ==> InPlanes(Grids(wholeImage), ps[k])
    {
      assert Padded(lay.f, Grids(wholeImage));
      FitsPadded(lay, Grids(wholeImage), ms + [ps]);
      assert (ms + [ps])[|ms|] == ps;
    }

    /** There is another MCU, of the right size. */
    lemma Room(y: nat, j: nat)
      requires Shape() && inputIMCURow < lay.f.down && y < lay.RowsIn(inputIMCURow) && j < lay.PerRow()
      ensures |lay.Prefix(inputIMCURow, y, j)| < |decoded|
      ensures |lay.InMcu(inputIMCURow, y, j, |lay.cs|)| == |decoded[|lay.Prefix(inputIMCURow, y, j)|]|
    {
      lay.PrefixWithin(inputIMCURow, y, j);
      lay.McuMembers(inputIMCURow, y, j, |lay.cs|);
    }

    /** start_iMCU_row. */
    method StartIMCURow()
      requires Shape() && inputIMCURow <= lay.f.down
      modifies `mcuCtr, `mcuVertOffset, `mcuRowsPerIMCURow
      ensures mcuCtr == mcuVertOffset == 0 && (inputIMCURow < lay.f.down ==>
        mcuRowsPerIMCURow == lay.RowsIn(inputIMCURow) > 0)
    {
      if |lay.cs| > 1 {
        mcuRowsPerIMCURow := 1;
      } else if inputIMCURow < lay.f.down - 1 {
        mcuRowsPerIMCURow := lay.Comp(0).v;
      } else {
        mcuRowsPerIMCURow := lay.LastRowHeight(0);
      }
      mcuCtr, mcuVertOffset := 0, 0;
      if inputIMCURow < lay.f.down {
        lay.RowsPositive(inputIMCURow);
      }
    }

    /** The rest of a row of MCUs, until the decoder suspends. */
    method McuRow(y: nat) returns (done: bool)
      requires inputIMCURow < lay.f.down && Progress(inputIMCURow, y, mcuCtr) && y < lay.RowsIn(inputIMCURow)
        && mcuCtr <= lay.PerRow()
      modifies wholeImage, `handed, `room, `mcuCtr
      ensures Progress(inputIMCURow, y, mcuCtr) && (old(room) < 0 ==> room < 0)
      ensures if done then mcuCtr == lay.PerRow() else mcuCtr < lay.PerRow() && room == 0
    {
      hide Progress, Shape, Layout.RowsIn, Layout.PerRow, Layout.Valid;
      ValidLayout(inputIMCURow, y, mcuCtr);
      while mcuCtr < lay.PerRow()
        invariant Progress(inputIMCURow, y, mcuCtr) && mcuCtr <= lay.PerRow() && (old(room) < 0 ==> room < 0)
      {
        var ok := NextMcu(y, mcuCtr);
        if !ok {
          return false;
        }
        mcuCtr := mcuCtr + 1;
      }
      done := true;
    }

    lemma ValidLayout(row: nat, y: nat, j: nat)
      requires Progress(row, y, j)
      ensures Shape() && lay.Valid()
    {
    }

    lemma NextRow(row: nat, y: nat)
      requires Shape() && row < lay.f.down
      ensures Progress(row, y, lay.PerRow()) ==> Progress(row, y + 1, 0)
      ensures Progress(row, lay.RowsIn(row), 0) ==> Progress(row + 1, 0, 0)
    {
      hide StoreAll, Padded, Layout.Prefix, Layout.RowsIn, Layout.PerRow;
      lay.PrefixStep(row, y, 0);
    }

    /** consume_data: one iMCU row, until the decoder suspends. */
    method ConsumeData() returns (done: bool)
      requires Valid() && inputIMCURow < lay.f.down
      modifies wholeImage, `handed, `room, `mcuCtr, `mcuVertOffset, `mcuRowsPerIMCURow, `inputIMCURow
      ensures Valid() && (old(room) < 0 ==> room < 0)
      ensures if done then inputIMCURow == old(inputIMCURow) + 1 else inputIMCURow == old(inputIMCURow) && room == 0
    {
      hide Progress, Shape, Layout.RowsIn, Layout.PerRow, Layout.Valid;
      ValidLayout(inputIMCURow, mcuVertOffset, mcuCtr);
      var y: nat := mcuVertOffset;
      while y < mcuRowsPerIMCURow
        invariant inputIMCURow == old(inputIMCURow) && mcuRowsPerIMCURow == lay.RowsIn(inputIMCURow)
        invariant y <= mcuRowsPerIMCURow && mcuCtr <= lay.PerRow() && (y == mcuRowsPerIMCURow ==> mcuCtr == 0)
        invariant Progress(inputIMCURow, y, mcuCtr) && (old(room) < 0 ==> room < 0)
      {
        done := McuRow(y);
        if !done {
          mcuVertOffset := y;
          return;
        }
        NextRow(inputIMCURow, y);
        mcuCtr := 0;
        y := y + 1;
      }
      NextRow(inputIMCURow, 0);
      inputIMCURow := inputIMCURow + 1;
      StartIMCURow();
      done := true;
    }

    /** All iMCU rows of a scan, with any pattern of suspensions: every MCU finds its blocks
        as they were before the scan, and its decoded blocks end up in their places. */
    method ConsumeScan(pauses: seq<nat>)
      requires Progress(0, 0, 0) && inputIMCURow == 0
      modifies wholeImage, `handed, `room, `mcuCtr, `mcuVertOffset, `mcuRowsPerIMCURow, `inputIMCURow
      ensures lay.Valid() && handed == FetchAll(lay.f, start, lay.Mcus())
      ensures |lay.Mcus()| == |decoded| && (forall m :: 0 <= m < |decoded| ==> |lay.Mcus()[m]| == |decoded[m]|)
      ensures Grids(wholeImage) == StoreAll(start, lay.Mcus(), decoded)
    {
      hide Shape, Layout.RowsIn, Layout.PerRow, Layout.Valid, Progress;
      ValidLayout(0, 0, 0);
      StartIMCURow();
      var i := 0;
      while inputIMCURow < lay.f.down
        invariant Valid() && i <= |pauses|
        decreases |pauses| - i, lay.f.down - inputIMCURow
      {
        room := if i < |pauses| then pauses[i] else -1;
        var done := ConsumeData();
        if !done {
          i := i + 1;
        }
      }
      Finished();
    }

    lemma Finished()
      requires Valid() && inputIMCURow == lay.f.down
      ensures lay.Valid() && handed == FetchAll(lay.f, start, lay.Mcus())
      ensures |lay.Mcus()| == |decoded| && (forall m :: 0 <= m < |decoded| ==> |lay.Mcus()[m]| == |decoded[m]|)
      ensures Grids(wholeImage) == StoreAll(start, lay.Mcus(), decoded)
    {
      hide StoreAll, Layout.Prefix;
      lay.PrefixStep(0, 0, 0);
      assert decoded[..|decoded|] == decoded;
    }
  }

  lemma StoreSnoc(z: seq<Plane>, ms: seq<seq<Place>>, mcus: seq<Mcu>, q: seq<Place>, mcu: Mcu)
    requires |ms| == |mcus| && (forall m :: 0 <= m < |ms| ==> |ms[m]| == |mcus[m]|) && |q| == |mcu|
    ensures StoreAll(z, ms + [q], mcus + [mcu]) == StoreMcu(StoreAll(z, ms, mcus), q, mcu)
  {
    assert (ms + [q])[..|ms|] == ms && (mcus + [mcu])[..|mcus|] == mcus;
  }

  // ----- a whole scan

  lemma AtStart(coef: StorageController)
    requires coef.Shape() && coef.handed == [] && coef.start == Grids(coef.wholeImage)
    ensures coef.Progress(0, 0, 0)
  {
    coef.lay.PrefixStep(0, 0, 0);
  }

  /** Every block of a component of the scan is in some MCU. */
  lemma AllCovered(lay: Layout)
    requires lay.Valid()
    ensures forall p: Place :: p.c in lay.cs && lay.Real(p) ==> Occurs(lay.Mcus(), p)
  {
    forall p: Place | p.c in lay.cs && lay.Real(p)
      ensures Occurs(lay.Mcus(), p)
    {
      var i :| 0 <= i < |lay.cs| && lay.cs[i] == p.c;
      assert lay.f.CompValid(lay.f.comps[p.c]);
      assert lay.Past(p, i, lay.f.down, 0, 0);
      lay.Covered(p, lay.f.down, 0, 0);
      lay.PrefixStep(0, 0, 0);
    }
  }

  /** A scan decoded into full-image arrays: every MCU is handed the blocks that were in its
      places before the scan; afterwards its decoded blocks are there, and nothing else has
      changed. */
  method Consume(lay: Layout, arrays: seq<array2<Block>>, decoded: seq<Mcu>, pauses: seq<nat>)
    returns (handed: seq<Mcu>)
    requires lay.Valid() && ArraysOf(lay.f, arrays, true)
    requires |decoded| == |lay.Mcus()| && forall m :: 0 <= m < |decoded| ==> |decoded[m]| == |lay.Members(|lay.cs|)|
    modifies arrays
    ensures handed == FetchAll(lay.f, old(Grids(arrays)), lay.Mcus()) && SameSize(old(Grids(arrays)), Grids(arrays))
    ensures forall m, b :: 0 <= m < |decoded| && 0 <= b < |lay.Mcus()[m]| && b < |decoded[m]| ==>
      Look(Grids(arrays), lay.Mcus()[m][b]) == decoded[m][b]
    ensures forall p :: !Occurs(lay.Mcus(), p) ==> Look(Grids(arrays), p) == Look(old(Grids(arrays)), p)
  {
    ghost var z := Grids(arrays);
    var coef := new StorageController(lay, arrays, decoded);
    AtStart(coef);
    coef.ConsumeScan(pauses);
    handed := coef.handed;
    ScanStored(lay, z, decoded);
  }

  lemma ScanStored(lay: Layout, z: seq<Plane>, decoded: seq<Mcu>)
    requires lay.Valid() && Padded(lay.f, z)
    requires |decoded| == |lay.Mcus()| && forall m :: 0 <= m < |decoded| ==> |lay.Mcus()[m]| == |decoded[m]|
    ensures var y := StoreAll(z, lay.Mcus(), decoded);
            && SameSize(z, y)
            && (forall m, b :: 0 <= m < |decoded| && 0 <= b < |lay.Mcus()[m]| ==>
              Look(y, lay.Mcus()[m][b]) == decoded[m][b])
            && (forall p :: !Occurs(lay.Mcus(), p) ==> Look(y, p) == Look(z, p))
  {
    hide Look, SameSize, StoreAll, InPlanes;
    lay.PrefixStep(0, 0, 0);
    lay.PrefixDistinct(lay.f.down, 0, 0);
    lay.PrefixFits(lay.f.down, 0, 0);
    FitsPadded(lay, z, lay.Mcus());
    AllStored(z, lay.Mcus(), decoded);
  }

  /** Storing undoes assembling: with MCUs put together in any of the three ways, every block
      of every component of the scan is back at its own row and column. */
  method PutBack(kind: Kind, lay: Layout, z: seq<Plane>, from: seq<array2<Block>>, to: seq<array2<Block>>,
    pauses: seq<nat>)
    requires lay.Valid() && Shaped(lay.f, z) && |lay.Members(|lay.cs|)| <= C_MAX_BLOCKS_IN_MCU
    requires kind.OnePass? || ArraysOf(lay.f, from, !kind.Transcoding?)
    requires kind.LaterPass? || kind.Transcoding? ==> ImageIn(lay.f, z, from)
    requires ArraysOf(lay.f, to, true) && forall a :: a in to ==> a !in from
    modifies from, to
    ensures forall c, r, x :: 0 <= c < |z| && c in lay.cs && 0 <= r < |z[c]| && 0 <= x < |z[c][r]| ==>
      r < to[c].Length0 && x < to[c].Length1 && to[c][r, x] == z[c][r][x]
  {
    var mcus := Assemble(kind, lay, z, from, pauses);
    SameMembers(lay);
    var handed := Consume(lay, to, mcus, pauses);
    Undone(lay, z, Grids(to));
  }

  lemma SameMembers(lay: Layout)
    requires lay.Valid()
    ensures forall m :: 0 <= m < |lay.Mcus()| ==> |lay.Mcus()[m]| == |lay.Members(|lay.cs|)|
  {
    lay.PrefixSizes(lay.f.down, 0, 0);
    lay.PrefixStep(0, 0, 0);
  }

  lemma Undone(lay: Layout, z: seq<Plane>, y: seq<Plane>)
    requires lay.Valid() && Shaped(lay.f, z) && Padded(lay.f, y)
    requires forall m, b :: 0 <= m < |lay.Mcus()| && 0 <= b < |lay.Mcus()[m]| ==>
      Look(y, lay.Mcus()[m][b]) == FetchAll(lay.f, z, lay.Mcus())[m][b]
    ensures forall c, r, x :: 0 <= c < |z| && c in lay.cs && 0 <= r < |z[c]| && 0 <= x < |z[c][r]| ==>
      r < |y[c]| && x < |y[c][r]| && y[c][r][x] == z[c][r][x]
  {
    AllCovered(lay);
    forall c, r, x | 0 <= c < |z| && c in lay.cs && 0 <= r < |z[c]| && 0 <= x < |z[c][r]|
      ensures r < |y[c]| && x < |y[c][r]| && y[c][r][x] == z[c][r][x]
    {
      var p := Place(c, r, x);
      assert lay.f.CompValid(lay.f.comps[c]);
      assert lay.Real(p);
      var m, b :| 0 <= m < |lay.Mcus()| && 0 <= b < |lay.Mcus()[m]| && lay.Mcus()[m][b] == p;
      assert Look(y, p) == At(lay.f, z, p);
    }
  }
}
