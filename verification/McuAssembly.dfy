/** The coefficient controllers of the encoder: MCUs put together from DCT output in one pass
    or through padded full-image arrays (jccoefct.c), and from unpadded arrays when
    transcoding (jctrans.c). */
module McuAssembly {
  import opened JpegLib
  import opened Bytes
  import opened Arithmetic
  import opened Blocks
  import opened McuLayout

  const C_MAX_BLOCKS_IN_MCU := 10

  /** Rows of blocks of one component. */
  type Plane = seq<seq<Block>>

  function ZeroBlock(): Block
  {
    seq(DCTSIZE2, _ => 0)
  }

  /** All zeroes in the AC entries. */
  function Dummy(dc: jcoef): Block
  {
    ZeroBlock()[0 := dc]
  }

  /** The block at a place: one of the component, or a dummy block.  At the right edge it has
      the DC value of the block to the left, below the bottom edge that of the last block of
      its MCU in the row above, w being the width of an MCU. */
  function Cell(p: Plane, w: nat, row: nat, col: nat): Block
    requires w > 0
    decreases row, col
  {
    if row < |p| && col < |p[row]| then p[row][col]
    else if row < |p| then Dummy(if col > 0 then Cell(p, w, row, col - 1)[0] else 0)
    else Dummy(if row > 0 then Cell(p, w, row - 1, col / w * w + w - 1)[0] else 0)
  }

  /** The blocks of all components, of these dimensions. */
  ghost predicate Shaped(f: Frame, z: seq<Plane>)
  {
    |z| == |f.comps| && forall c :: 0 <= c < |z| ==>
      |z[c]| == f.comps[c].high && forall r :: 0 <= r < |z[c]| ==> |z[c][r]| == f.comps[c].wide
  }

  /** The blocks at these places. */
  function Fetch(f: Frame, z: seq<Plane>, ps: seq<Place>): (bs: Mcu)
    ensures |bs| == |ps| && forall k :: 0 <= k < |ps| ==> bs[k] == At(f, z, ps[k])
  {
    seq(|ps|, k requires 0 <= k < |ps| => At(f, z, ps[k]))
  }

  function At(f: Frame, z: seq<Plane>, p: Place): Block
  {
    if p.c < |z| && p.c < |f.comps| then Cell(z[p.c], f.comps[p.c].h, p.row, p.col) else ZeroBlock()
  }

  /** The MCUs at these places. */
  function FetchAll(f: Frame, z: seq<Plane>, ms: seq<seq<Place>>): (mcus: seq<Mcu>)
    ensures |mcus| == |ms| && forall m :: 0 <= m < |ms| ==> mcus[m] == Fetch(f, z, ms[m])
  {
    seq(|ms|, m requires 0 <= m < |ms| => Fetch(f, z, ms[m]))
  }

  /** compress_data of jccoefct.c without and with full-image arrays, in the latter case
      loading them or reading them again, and that of jctrans.c. */
  datatype Kind = OnePass | FirstPass | LaterPass | Transcoding

  class CoefController {
    const kind: Kind
    const lay: Layout
    // What forward_DCT finds in the input; used in the passes that read it.
    const z: seq<Plane>
    const wholeImage: seq<array2<Block>>
    const dummyBuffer: array<Block>
    const mcuBuffer: array<Block>
    var iMCURowNum: nat
    var mcuCtr: nat
    var mcuVertOffset: nat
    var mcuRowsPerIMCURow: nat
    // The entropy encoder: the MCUs it has taken, and how many it takes before it suspends,
    // if not negative.
    var emitted: seq<Mcu>
    var room: int

    /** jinit_c_coef_controller, or transencode_coef_controller. */
    constructor (kind: Kind, lay: Layout, z: seq<Plane>, wholeImage: seq<array2<Block>>)
      ensures this.kind == kind && this.lay == lay && this.z == z && this.wholeImage == wholeImage
      ensures fresh(mcuBuffer) && fresh(dummyBuffer) && mcuBuffer != dummyBuffer
      ensures mcuBuffer.Length == dummyBuffer.Length == C_MAX_BLOCKS_IN_MCU
      ensures forall b :: 0 <= b < C_MAX_BLOCKS_IN_MCU ==> dummyBuffer[b] == ZeroBlock()
      ensures iMCURowNum == 0 && emitted == []
    {
      this.kind, this.lay, this.z, this.wholeImage := kind, lay, z, wholeImage;
      mcuBuffer, dummyBuffer := new Block[C_MAX_BLOCKS_IN_MCU](_ => ZeroBlock()),
        new Block[C_MAX_BLOCKS_IN_MCU](_ => ZeroBlock());
      iMCURowNum, mcuCtr, mcuVertOffset, mcuRowsPerIMCURow := 0, 0, 0, 0;
      emitted, room := [], -1;
    }

    ghost predicate Shape()
    {
      && lay.Valid() && Shaped(lay.f, z) && |lay.Members(|lay.cs|)| <= C_MAX_BLOCKS_IN_MCU
      && mcuBuffer.Length == dummyBuffer.Length == C_MAX_BLOCKS_IN_MCU && mcuBuffer != dummyBuffer
    }

    /** The first n entries of MCU_buffer are the blocks at these places. */
    ghost predicate Built(ps: seq<Place>, n: nat)
      requires Shape()
      reads mcuBuffer
    {
      && n == |ps| <= C_MAX_BLOCKS_IN_MCU && lay.OfScan(ps)
      && forall k :: 0 <= k < n ==> ps[k].c < |z| && mcuBuffer[k] == At(lay.f, z, ps[k])
    }

    method Put(n: nat, b: Block, ghost ps: seq<Place>, ghost p: Place)
      requires Shape() && Built(ps, n) && n < C_MAX_BLOCKS_IN_MCU && p.c in lay.cs && p.c < |z| && b == At(lay.f, z, p)
      modifies mcuBuffer
      ensures Built(ps + [p], n + 1) && forall k :: 0 <= k < n ==> mcuBuffer[k] == old(mcuBuffer[k])
    {
      mcuBuffer[n] := b;
    }

    /** The places of the MCU being built, up to block x of row yi of component i. */
    ghost function Here(y: nat, j: nat, i: nat, yi: nat, x: nat): seq<Place>
      requires Shape() && i <= |lay.cs| && (i == |lay.cs| ==> yi == 0 && x == 0)
      reads `iMCURowNum
    {
      lay.Within(iMCURowNum, y, j, i, yi, x)
    }

    /** The place of block x of row yi of component i. */
    ghost function Next(y: nat, j: nat, i: nat, yi: nat, x: nat): Place
      requires Shape() && i < |lay.cs|
      reads `iMCURowNum
    {
      Place(lay.cs[i], lay.Top(i, iMCURowNum, y) + yi, j * lay.Width(i) + x)
    }

    ghost predicate InMcu(y: nat, j: nat, i: nat, yi: nat)
      reads `iMCURowNum
    {
      && Shape() && iMCURowNum < lay.f.down && y < lay.RowsIn(iMCURowNum) && j < lay.PerRow()
      && i < |lay.cs| && yi < lay.Height(i)
    }

    /** Appends the block at the next place. */
    method PutNext(y: nat, j: nat, i: nat, yi: nat, x: nat, n: nat, b: Block)
      requires InMcu(y, j, i, yi) && x < lay.Width(i) && Built(Here(y, j, i, yi, x), n) && b
        == At(lay.f, z, Next(y, j, i, yi, x))
      modifies mcuBuffer
      ensures Built(Here(y, j, i, yi, x + 1), n + 1) && forall k :: 0 <= k < n ==> mcuBuffer[k] == old(mcuBuffer[k])
    {
      hide At, Layout.Within, Layout.Members, Layout.Top;
      lay.WithinStep(iMCURowNum, y, j, i, yi, x);
      lay.WithinRoom(iMCURowNum, y, j, i, yi, x);
      Put(n, b, Here(y, j, i, yi, x), Next(y, j, i, yi, x));
    }

    /** A block of the image. */
    lemma NextReal(y: nat, j: nat, i: nat, yi: nat, x: nat)
      requires InMcu(y, j, i, yi) && x < lay.Width(i)
      requires lay.Top(i, iMCURowNum, y) + yi < lay.Comp(i).high && j * lay.Width(i) + x < lay.Comp(i).wide
      ensures At(lay.f, z, Next(y, j, i, yi, x)) == z[lay.cs[i]][lay.Top(i, iMCURowNum, y) + yi][j * lay.Width(i) + x]
    {
    }

    /** A dummy block at the right edge. */
    lemma NextRight(y: nat, j: nat, i: nat, yi: nat, x: nat)
      requires InMcu(y, j, i, yi) && x < lay.Width(i)
      requires lay.Top(i, iMCURowNum, y) + yi < lay.Comp(i).high && lay.Comp(i).wide <= j * lay.Width(i) + x
      ensures x > 0 && At(lay.f, z, Next(y, j, i, yi, x)) == Dummy(At(lay.f, z, Next(y, j, i, yi, x - 1))[0])
    {
      var k := lay.Comp(i);
      assert lay.f.CompValid(lay.f.comps[lay.cs[i]]);
      if |lay.cs| > 1 {
        Scale(j, lay.f.across - 1, k.h);
      }
    }

    /** A dummy block below the bottom edge. */
    lemma NextBelow(y: nat, j: nat, i: nat, yi: nat, x: nat)
      requires InMcu(y, j, i, yi) && x < lay.Width(i) && lay.Comp(i).high <= lay.Top(i, iMCURowNum, y) + yi
      ensures yi > 0 && At(lay.f, z, Next(y, j, i, yi, x)) == Dummy(At(lay.f, z,
        Next(y, j, i, yi - 1, lay.Width(i) - 1))[0])
    {
      var w := lay.Width(i);
      lay.BottomEdge(i, iMCURowNum, y, 0);
      QuotientIs(j * w + x, w, j, x);
    }

    /** The last block built. */
    lemma LastBuilt(y: nat, j: nat, i: nat, yi: nat, x: nat, n: nat)
      requires InMcu(y, j, i, yi) && x <= lay.Width(i) && Built(Here(y, j, i, yi, x), n)
      ensures x < lay.Width(i) ==> n < C_MAX_BLOCKS_IN_MCU
      ensures x > 0 ==> 0 < n <= mcuBuffer.Length && mcuBuffer[n - 1] == At(lay.f, z, Next(y, j, i, yi, x - 1))
      ensures x == 0 && yi > 0 ==>
        0 < n <= mcuBuffer.Length && mcuBuffer[n - 1] == At(lay.f, z, Next(y, j, i, yi - 1, lay.Width(i) - 1))
    {
      hide At, Layout.Within, Layout.Width, Layout.Members;
      if x < lay.Width(i) {
        lay.WithinRoom(iMCURowNum, y, j, i, yi, x);
      }
      if x > 0 {
        lay.WithinStep(iMCURowNum, y, j, i, yi, x - 1);
      } else if yi > 0 {
        lay.WithinStep(iMCURowNum, y, j, i, yi - 1, lay.Width(i) - 1);
      }
    }

    /** A row of blocks in the single-pass case. */
    method OnePassRow(y: nat, j: nat, i: nat, yi: nat, blkn: nat) returns (n: nat)
      requires InMcu(y, j, i, yi) && Built(Here(y, j, i, yi, 0), blkn)
      modifies mcuBuffer
      ensures Built(Here(y, j, i, yi, lay.Width(i)), n)
    {
      hide Built, Here, At, Layout.Top, Layout.LastRowHeight, Layout.LastColWidth;
      var w, row, c := lay.Width(i), lay.Top(i, iMCURowNum, y) + yi, lay.cs[i];
      lay.BottomEdge(i, iMCURowNum, y, yi);
      n := blkn;
      if iMCURowNum < lay.f.down - 1 || y + yi < lay.LastRowHeight(i) {
        var blockcnt := if j < lay.PerRow() - 1 then w else lay.LastColWidth(i);
        for x := 0 to w
          invariant Built(Here(y, j, i, yi, x), n)
        {
          lay.RightEdge(i, j, x);
          if x < blockcnt {
            NextReal(y, j, i, yi, x);
            PutNext(y, j, i, yi, x, n, z[c][row][j * w + x]);
          } else {
            NextRight(y, j, i, yi, x);
            LastBuilt(y, j, i, yi, x, n);
            PutNext(y, j, i, yi, x, n, Dummy(mcuBuffer[n - 1][0]));
          }
          n := n + 1;
        }
      } else {
        NextBelow(y, j, i, yi, 0);
        LastBuilt(y, j, i, yi, 0, n);
        for x := 0 to w
          invariant Built(Here(y, j, i, yi, x), n) && n == blkn + x
          invariant mcuBuffer[blkn - 1] == At(lay.f, z, Next(y, j, i, yi - 1, w - 1))
        {
          NextBelow(y, j, i, yi, x);
          PutNext(y, j, i, yi, x, n, Dummy(mcuBuffer[blkn - 1][0]));
          n := n + 1;
        }
      }
    }

    /** The dimensions of the full-image arrays: padded to whole MCUs, or as wide and high as
        the components when transcoding. */
    ghost predicate Arrays()
    {
      && Shape() && (!kind.OnePass? ==> |wholeImage| == |z|)
      && (forall c :: 0 <= c < |wholeImage| && c < |z| ==>
            && wholeImage[c].Length0
              == (if kind.Transcoding? then lay.f.comps[c].high else lay.f.down * lay.f.comps[c].v)
            && wholeImage[c].Length1
              == (if kind.Transcoding? then lay.f.comps[c].wide else lay.f.across * lay.f.comps[c].h))
      && (forall c, d :: 0 <= c < d < |wholeImage| ==> wholeImage[c] != wholeImage[d])
    }

    /** The arrays hold the blocks, dummy blocks included, of an iMCU row. */
    ghost predicate Loaded(row: nat)
      requires Arrays() && (kind.FirstPass? || kind.LaterPass?) && row < lay.f.down
      reads wholeImage
    {
      forall c :: 0 <= c < |z| ==> StripLoaded(c, row, lay.f.comps[c].v)
    }

    /** The first n of its block rows of component c are there. */
    ghost predicate StripLoaded(c: nat, row: nat, n: nat)
      requires Arrays() && (kind.FirstPass? || kind.LaterPass?) && row < lay.f.down && c < |z| && n <= lay.f.comps[c].v
      reads wholeImage[c]
    {
      StripFits(c, row);
      var top := row * lay.f.comps[c].v;
      assert top + n <= wholeImage[c].Length0;
      forall r, x :: top <= r < top + n && 0 <= x < wholeImage[c].Length1 ==>
        wholeImage[c][r, x] == Cell(z[c], lay.f.comps[c].h, r, x)
    }

    lemma StripFits(c: nat, row: nat)
      requires Shape() && row < lay.f.down && c < |z|
      ensures row * lay.f.comps[c].v + lay.f.comps[c].v <= lay.f.down * lay.f.comps[c].v
    {
      Scale(row + 1, lay.f.down, lay.f.comps[c].v);
      assert (row + 1) * lay.f.comps[c].v == row * lay.f.comps[c].v + lay.f.comps[c].v;
    }

    /** A row of blocks from the arrays. */
    method OutputRow(y: nat, j: nat, i: nat, yi: nat, blkn: nat) returns (n: nat)
      requires InMcu(y, j, i, yi) && Built(Here(y, j, i, yi, 0), blkn)
      requires Arrays() && (kind.FirstPass? || kind.LaterPass?) && Loaded(iMCURowNum)
      modifies mcuBuffer
      ensures Built(Here(y, j, i, yi, lay.Width(i)), n)
    {
      hide Built, Here, Cell;
      var w, row, c := lay.Width(i), lay.Top(i, iMCURowNum, y) + yi, lay.cs[i];
      lay.ColumnsFit(i, j);
      lay.RowsFit(i, iMCURowNum, y);
      lay.TopStep(i, iMCURowNum, y);
      assert StripLoaded(c, iMCURowNum, lay.f.comps[c].v);
      n := blkn;
      for x := 0 to w
        invariant Built(Here(y, j, i, yi, x), n)
      {
        PutNext(y, j, i, yi, x, n, wholeImage[c][row, j * w + x]);
        n := n + 1;
      }
    }

    /** The arrays given hold the blocks of the image, and the AC entries of the dummy blocks
        are zeroes. */
    ghost predicate Given()
      requires Arrays() && kind.Transcoding?
      reads wholeImage, dummyBuffer
    {
      && (forall c, r, x :: 0 <= c < |z| && 0 <= r < |z[c]| && 0 <= x < |z[c][r]| ==> wholeImage[c][r, x] == z[c][r][x])
      && (forall b :: 0 <= b < C_MAX_BLOCKS_IN_MCU ==> dummyBuffer[b] == Dummy(dummyBuffer[b][0]))
    }

    /** A dummy block with the DC value of the block before it. */
    method PutDummy(y: nat, j: nat, i: nat, yi: nat, x: nat, blkn: nat) returns (n: nat)
      requires InMcu(y, j, i, yi) && x < lay.Width(i) && Built(Here(y, j, i, yi, x), blkn)
      requires Arrays() && kind.Transcoding? && Given()
      requires lay.Comp(i).high <= lay.Top(i, iMCURowNum, y) + yi || lay.Comp(i).wide <= j * lay.Width(i) + x
      modifies mcuBuffer, dummyBuffer
      ensures n == blkn + 1 && Built(Here(y, j, i, yi, x + 1), n) && Given()
    {
      hide Built, Here, At, Layout.Top;
      LastBuilt(y, j, i, yi, x, blkn);
      if lay.Comp(i).high <= lay.Top(i, iMCURowNum, y) + yi {
        NextBelow(y, j, i, yi, x);
        SameBelow(y, j, i, yi, x);
      } else {
        NextRight(y, j, i, yi, x);
      }
      dummyBuffer[blkn] := dummyBuffer[blkn][0 := mcuBuffer[blkn - 1][0]];
      assert dummyBuffer[blkn] == Dummy(mcuBuffer[blkn - 1][0]);
      PutNext(y, j, i, yi, x, blkn, dummyBuffer[blkn]);
      n := blkn + 1;
    }

    /** Dummy blocks in a row have the same DC value. */
    lemma SameBelow(y: nat, j: nat, i: nat, yi: nat, x: nat)
      requires InMcu(y, j, i, yi) && x < lay.Width(i) && lay.Comp(i).high <= lay.Top(i, iMCURowNum, y) + yi
      ensures x > 0 ==> At(lay.f, z, Next(y, j, i, yi, x)) == Dummy(At(lay.f, z, Next(y, j, i, yi, x - 1))[0])
    {
      hide At;
      if x > 0 {
        NextBelow(y, j, i, yi, x);
        NextBelow(y, j, i, yi, x - 1);
      }
    }

    /** Pointers to the real blocks in a row: their number x. */
    method RealBlocks(y: nat, j: nat, i: nat, yi: nat, blkn: nat) returns (x: nat, n: nat)
      requires InMcu(y, j, i, yi) && Built(Here(y, j, i, yi, 0), blkn)
      requires Arrays() && kind.Transcoding? && Given()
      modifies mcuBuffer
      ensures x <= lay.Width(i) && Built(Here(y, j, i, yi, x), n)
      ensures x < lay.Width(i) ==>
        lay.Comp(i).high <= lay.Top(i, iMCURowNum, y) + yi || lay.Comp(i).wide <= j * lay.Width(i) + x
    {
      hide Built, Here, At, Layout.Top, Layout.LastRowHeight, Layout.LastColWidth;
      var w, row, c := lay.Width(i), lay.Top(i, iMCURowNum, y) + yi, lay.cs[i];
      lay.BottomEdge(i, iMCURowNum, y, yi);
      x, n := 0, blkn;
      if iMCURowNum < lay.f.down - 1 || y + yi < lay.LastRowHeight(i) {
        var blockcnt := if j < lay.PerRow() - 1 then w else lay.LastColWidth(i);
        while x < blockcnt
          invariant x <= w && Built(Here(y, j, i, yi, x), n)
        {
          lay.RightEdge(i, j, x);
          NextReal(y, j, i, yi, x);
          PutNext(y, j, i, yi, x, n, wholeImage[c][row, j * w + x]);
          x, n := x + 1, n + 1;
        }
        if x < w {
          lay.RightEdge(i, j, x);
        }
      }
    }

    /** A row of blocks of unpadded arrays, with dummy blocks made on the fly. */
    method TranscodeRow(y: nat, j: nat, i: nat, yi: nat, blkn: nat) returns (n: nat)
      requires InMcu(y, j, i, yi) && Built(Here(y, j, i, yi, 0), blkn)
      requires Arrays() && kind.Transcoding? && Given()
      modifies mcuBuffer, dummyBuffer
      ensures Built(Here(y, j, i, yi, lay.Width(i)), n) && Given()
    {
      hide Built, Here, At, Given, Layout.Top;
      var x;
      x, n := RealBlocks(y, j, i, yi, blkn);
      while x < lay.Width(i)
        invariant x <= lay.Width(i) && Built(Here(y, j, i, yi, x), n) && Given()
        invariant x < lay.Width(i) ==>
          lay.Comp(i).high <= lay.Top(i, iMCURowNum, y) + yi || lay.Comp(i).wide <= j * lay.Width(i) + x
      {
        n := PutDummy(y, j, i, yi, x, n);
        x := x + 1;
      }
    }

    /** What the pass reads is there. */
    ghost predicate Source()
      requires Arrays() && iMCURowNum < lay.f.down
      reads `iMCURowNum, wholeImage, dummyBuffer
    {
      match kind
      case OnePass => true
      case Transcoding => Given()
      case _ => Loaded(iMCURowNum)
    }

    /** Puts MCU j of a row of MCUs in MCU_buffer. */
    method BuildMcu(y: nat, j: nat) returns (n: nat)
      requires Arrays() && iMCURowNum < lay.f.down && y < lay.RowsIn(iMCURowNum) && j < lay.PerRow() && Source()
      modifies mcuBuffer, dummyBuffer
      ensures n <= mcuBuffer.Length && mcuBuffer[..n] == Fetch(lay.f, z, lay.InMcu(iMCURowNum, y, j, |lay.cs|))
        && Source()
    {
      hide Built, Here, Given, Loaded, Layout.Top;
      n := 0;
      EmptyMcu(y, j);
      for i := 0 to |lay.cs|
        invariant Built(Here(y, j, i, 0, 0), n) && Source()
      {
        for yi := 0 to lay.Height(i)
          invariant Built(Here(y, j, i, yi, 0), n) && Source()
        {
          if kind.OnePass? {
            n := OnePassRow(y, j, i, yi, n);
          } else if kind.Transcoding? {
            n := TranscodeRow(y, j, i, yi, n);
          } else {
            n := OutputRow(y, j, i, yi, n);
          }
          RowDone(y, j, i, yi);
        }
        ComponentDone(y, j, i);
      }
      McuDone(y, j, n);
    }

    lemma EmptyMcu(y: nat, j: nat)
      requires Shape()
      ensures Built(Here(y, j, 0, 0, 0), 0)
    {
      lay.WithinStep(iMCURowNum, y, j, 0, 0, 0);
    }

    lemma RowDone(y: nat, j: nat, i: nat, yi: nat)
      requires Shape() && i < |lay.cs|
      ensures Here(y, j, i, yi + 1, 0) == Here(y, j, i, yi, lay.Width(i))
    {
      lay.WithinStep(iMCURowNum, y, j, i, yi, 0);
    }

    lemma ComponentDone(y: nat, j: nat, i: nat)
      requires Shape() && i < |lay.cs|
      ensures Here(y, j, i + 1, 0, 0) == Here(y, j, i, lay.Height(i), 0)
    {
      lay.WithinStep(iMCURowNum, y, j, i, 0, 0);
    }

    lemma McuDone(y: nat, j: nat, n: nat)
      requires Shape() && Built(Here(y, j, |lay.cs|, 0, 0), n)
      ensures lay.OfScan(lay.InMcu(iMCURowNum, y, j, |lay.cs|)) && n <= mcuBuffer.Length
      ensures mcuBuffer[..n] == Fetch(lay.f, z, lay.InMcu(iMCURowNum, y, j, |lay.cs|))
    {
    }

    // ----- the first pass of a multi-pass case

    /** Component c in the current iMCU row, its arrays being written. */
    ghost predicate Loading(c: nat)
      reads `iMCURowNum
    {
      Arrays() && kind.FirstPass? && iMCURowNum < lay.f.down && c < |z|
    }

    ghost predicate RowIs(c: nat, r: nat, n: nat)
      requires Arrays() && kind.FirstPass? && c < |z| && r < wholeImage[c].Length0 && n <= wholeImage[c].Length1
      reads wholeImage[c]
    {
      forall x :: 0 <= x < n ==> wholeImage[c][r, x] == Cell(z[c], lay.f.comps[c].h, r, x)
    }

    /** A row of blocks of the image, and dummy blocks to its right. */
    method LoadRow(c: nat, r: nat, ndummy: nat)
      requires Loading(c) && r < lay.f.comps[c].high && r < wholeImage[c].Length0
      requires lay.f.comps[c].wide + ndummy == wholeImage[c].Length1
      modifies wholeImage[c]
      ensures RowIs(c, r, wholeImage[c].Length1)
      ensures forall q, x :: 0 <= q < wholeImage[c].Length0 && q != r && 0 <= x < wholeImage[c].Length1 ==>
        wholeImage[c][q, x] == old(wholeImage[c][q, x])
    {
      var a, wide := wholeImage[c], lay.f.comps[c].wide;
      for x := 0 to wide
        invariant RowIs(c, r, x)
        invariant forall q, x :: 0 <= q < a.Length0 && q != r && 0 <= x < a.Length1 ==> a[q, x] == old(a[q, x])
      {
        a[r, x] := z[c][r][x];
      }
      if ndummy > 0 {
        assert lay.f.CompValid(lay.f.comps[c]);
        AtLeastZero(lay.f.across - 1, lay.f.comps[c].h);
        var lastDC := a[r, wide - 1][0];
        for bi := 0 to ndummy
          invariant RowIs(c, r, wide + bi) && a[r, wide + bi - 1][0] == lastDC
          invariant forall q, x :: 0 <= q < a.Length0 && q != r && 0 <= x < a.Length1 ==> a[q, x] == old(a[q, x])
        {
          assert RowIs(c, r, wide + bi) && a[r, wide + bi - 1] == Cell(z[c], lay.f.comps[c].h, r, wide + bi - 1);
          a[r, wide + bi] := Dummy(lastDC);
        }
      }
    }

    /** A row of dummy blocks below the image. */
    method LoadBelow(c: nat, r: nat, mcusAcross: nat)
      requires Loading(c) && lay.f.comps[c].high <= r < wholeImage[c].Length0 && 0 < r
      requires wholeImage[c].Length1 == mcusAcross * lay.f.comps[c].h && RowIs(c, r - 1, wholeImage[c].Length1)
      modifies wholeImage[c]
      ensures RowIs(c, r, wholeImage[c].Length1)
      ensures forall q, x :: 0 <= q < wholeImage[c].Length0 && q != r && 0 <= x < wholeImage[c].Length1 ==>
        wholeImage[c][q, x] == old(wholeImage[c][q, x])
    {
      var a, h := wholeImage[c], lay.f.comps[c].h;
      for m := 0 to mcusAcross
        invariant m * h <= a.Length1 && RowIs(c, r, m * h)
        invariant forall q, x :: 0 <= q < a.Length0 && q != r && 0 <= x < a.Length1 ==> a[q, x] == old(a[q, x])
      {
        Scale(m + 1, mcusAcross, h);
        assert (m + 1) * h == m * h + h;
        var lastDC := a[r - 1, m * h + h - 1][0];
        for bi := 0 to h
          invariant RowIs(c, r, m * h + bi)
          invariant forall q, x :: 0 <= q < a.Length0 && q != r && 0 <= x < a.Length1 ==> a[q, x] == old(a[q, x])
        {
          QuotientIs(m * h + bi, h, m, bi);
          a[r, m * h + bi] := Dummy(lastDC);
        }
      }
    }

    /** The first block rows of the current strip: those of the image. */
    method LoadReal(c: nat, blockRows: nat, ndummy: nat)
      requires Loading(c) && blockRows <= lay.f.comps[c].v
      requires iMCURowNum * lay.f.comps[c].v + blockRows <= lay.f.comps[c].high && iMCURowNum * lay.f.comps[c].v
        + blockRows <= wholeImage[c].Length0
      requires lay.f.comps[c].wide + ndummy == wholeImage[c].Length1
      modifies wholeImage[c]
      ensures StripLoaded(c, iMCURowNum, blockRows)
      ensures forall q,
        x :: 0 <= q < iMCURowNum * lay.f.comps[c].v && q < wholeImage[c].Length0 && 0 <= x < wholeImage[c].Length1 ==>
        wholeImage[c][q, x] == old(wholeImage[c][q, x])
    {
      hide Cell;
      var top := iMCURowNum * lay.f.comps[c].v;
      for y := 0 to blockRows
        invariant StripLoaded(c, iMCURowNum, y)
        invariant forall q, x :: 0 <= q < top && 0 <= x < wholeImage[c].Length1 ==>
          wholeImage[c][q, x] == old(wholeImage[c][q, x])
      {
        LoadRow(c, top + y, ndummy);
      }
    }

    /** The others, below the image. */
    method LoadDummies(c: nat, blockRows: nat, mcusAcross: nat)
      requires Loading(c) && 0 < blockRows <= lay.f.comps[c].v && StripLoaded(c, iMCURowNum, blockRows)
      requires iMCURowNum * lay.f.comps[c].v + blockRows == lay.f.comps[c].high
      requires iMCURowNum * lay.f.comps[c].v + lay.f.comps[c].v <= wholeImage[c].Length0
      requires wholeImage[c].Length1 == mcusAcross * lay.f.comps[c].h
      modifies wholeImage[c]
      ensures StripLoaded(c, iMCURowNum, lay.f.comps[c].v)
      ensures forall q,
        x :: 0 <= q < iMCURowNum * lay.f.comps[c].v && q < wholeImage[c].Length0 && 0 <= x < wholeImage[c].Length1 ==>
        wholeImage[c][q, x] == old(wholeImage[c][q, x])
    {
      hide Cell;
      var top := iMCURowNum * lay.f.comps[c].v;
      for y := blockRows to lay.f.comps[c].v
        invariant StripLoaded(c, iMCURowNum, y)
        invariant forall q, x :: 0 <= q < top && 0 <= x < wholeImage[c].Length1 ==>
          wholeImage[c][q, x] == old(wholeImage[c][q, x])
      {
        LoadBelow(c, top + y, mcusAcross);
      }
    }

    /** Loads the current strip of component c. */
    method LoadComponent(c: nat)
      requires Loading(c)
      modifies wholeImage[c]
      ensures StripLoaded(c, iMCURowNum, lay.f.comps[c].v)
      ensures forall q,
        x :: 0 <= q < iMCURowNum * lay.f.comps[c].v && q < wholeImage[c].Length0 && 0 <= x < wholeImage[c].Length1 ==>
        wholeImage[c][q, x] == old(wholeImage[c][q, x])
    {
      hide StripLoaded;
      var k := lay.f.comps[c];
      var blockRows := if iMCURowNum < lay.f.down - 1 then k.v else Remainder(k.high, k.v);
      var ndummy := if k.wide % k.h > 0 then k.h - k.wide % k.h else 0;
      StripSize(c);
      StripWidth(c);
      LoadReal(c, blockRows, ndummy);
      if iMCURowNum == lay.f.down - 1 {
        LoadDummies(c, blockRows, (k.wide + ndummy) / k.h);
      }
    }

    lemma StripSize(c: nat)
      requires Loading(c)
      ensures var k := lay.f.comps[c];
              var blockRows := if iMCURowNum < lay.f.down - 1 then k.v else Remainder(k.high, k.v);
              && 0 < blockRows <= k.v && iMCURowNum * k.v + blockRows <= k.high
              && (iMCURowNum == lay.f.down - 1 ==> iMCURowNum * k.v + blockRows == k.high)
              && iMCURowNum * k.v + k.v <= wholeImage[c].Length0
    {
      var k := lay.f.comps[c];
      assert lay.f.CompValid(k);
      StripFits(c, iMCURowNum);
      StripRows(k.high, k.v, lay.f.down, iMCURowNum);
    }

    static lemma StripRows(high: nat, v: nat, down: nat, n: nat)
      requires v > 0 && n < down && (down - 1) * v < high <= down * v
      ensures var rows := if n < down - 1 then v else Remainder(high, v);
              0 < rows <= v && n * v + rows <= high && (n == down - 1 ==> n * v + rows == high)
    {
      RemainderIs(high, v, down);
      if n < down - 1 {
        Scale(n + 1, down - 1, v);
        assert (n + 1) * v == n * v + v;
      }
    }

    lemma StripWidth(c: nat)
      requires Loading(c)
      ensures var k := lay.f.comps[c];
              var ndummy := if k.wide % k.h > 0 then k.h - k.wide % k.h else 0;
              k.wide + ndummy == wholeImage[c].Length1 && (k.wide + ndummy) / k.h * k.h == wholeImage[c].Length1
    {
      var k := lay.f.comps[c];
      assert lay.f.CompValid(k);
      RemainderIs(k.wide, k.h, lay.f.across);
      QuotientIs(lay.f.across * k.h, k.h, lay.f.across, 0);
      assert (lay.f.across - 1) * k.h == lay.f.across * k.h - k.h;
    }

    /** The first n iMCU rows of component c are there. */
    ghost predicate Strips(c: nat, n: nat)
      requires Arrays() && (kind.FirstPass? || kind.LaterPass?) && c < |z| && n <= lay.f.down
      reads wholeImage[c]
    {
      forall r :: 0 <= r < n ==> StripLoaded(c, r, lay.f.comps[c].v)
    }

    ghost predicate AllStrips(n: nat)
      requires Arrays() && (kind.FirstPass? || kind.LaterPass?) && n <= lay.f.down
      reads wholeImage
    {
      forall c :: 0 <= c < |z| ==> Strips(c, n)
    }

    method LoadNext(c: nat)
      requires Loading(c) && Strips(c, iMCURowNum)
      modifies wholeImage[c]
      ensures Strips(c, iMCURowNum + 1)
    {
      hide Cell;
      LoadComponent(c);
      forall r | 0 <= r < iMCURowNum
        ensures StripLoaded(c, r, lay.f.comps[c].v)
      {
        Scale(r + 1, iMCURowNum, lay.f.comps[c].v);
        assert (r + 1) * lay.f.comps[c].v == r * lay.f.comps[c].v + lay.f.comps[c].v;
        StripFits(c, r);
        assert old(StripLoaded(c, r, lay.f.comps[c].v));
      }
    }

    lemma FewerStrips()
      requires Arrays() && kind.FirstPass? && iMCURowNum < lay.f.down && AllStrips(iMCURowNum + 1)
      ensures AllStrips(iMCURowNum)
    {
      hide StripLoaded;
      forall c | 0 <= c < |z|
        ensures Strips(c, iMCURowNum)
      {
        assert Strips(c, iMCURowNum + 1);
      }
    }

    /** The loops of compress_first_pass. */
    method LoadStrip()
      requires Arrays() && kind.FirstPass? && iMCURowNum < lay.f.down
      requires AllStrips(iMCURowNum)
      modifies wholeImage
      ensures AllStrips(iMCURowNum) && AllStrips(iMCURowNum + 1)
    {
      hide Strips;
      ghost var n, next := iMCURowNum, iMCURowNum + 1;
      for c := 0 to |z|
        invariant forall d :: 0 <= d < c ==> Strips(d, next)
        invariant forall d :: c <= d < |z| ==> Strips(d, n)
      {
        LoadNext(c);
        assert forall d :: 0 <= d < |z| && d != c ==> wholeImage[d] != wholeImage[c];
      }
      FewerStrips();
    }

    // ----- whole scans

    /** What the pass needs of the full-image arrays. */
    ghost predicate Ready()
      reads `iMCURowNum, wholeImage, dummyBuffer
    {
      && Arrays() && iMCURowNum <= lay.f.down
      && match kind
         case OnePass => true
         case Transcoding => Given()
         case FirstPass => AllStrips(iMCURowNum)
         case LaterPass => AllStrips(lay.f.down)
    }

    /** The MCUs taken are those before the current one. */
    ghost predicate Valid()
      reads this, wholeImage, dummyBuffer
    {
      && Ready() && lay.Reached(iMCURowNum, mcuVertOffset)
      && (if iMCURowNum < lay.f.down then
            mcuRowsPerIMCURow == lay.RowsIn(iMCURowNum) && mcuVertOffset < mcuRowsPerIMCURow && mcuCtr < lay.PerRow()
          else mcuCtr == 0)
      && emitted == FetchAll(lay.f, z, lay.Prefix(iMCURowNum, mcuVertOffset, mcuCtr))
    }

    /** start_iMCU_row. */
    method StartIMCURow()
      requires Shape() && iMCURowNum <= lay.f.down
      modifies `mcuCtr, `mcuVertOffset, `mcuRowsPerIMCURow
      ensures mcuCtr == mcuVertOffset == 0 && (iMCURowNum < lay.f.down ==>
        mcuRowsPerIMCURow == lay.RowsIn(iMCURowNum) > 0)
    {
      if |lay.cs| > 1 {
        mcuRowsPerIMCURow := 1;
      } else if iMCURowNum < lay.f.down - 1 {
        mcuRowsPerIMCURow := lay.Comp(0).v;
      } else {
        mcuRowsPerIMCURow := lay.LastRowHeight(0);
      }
      mcuCtr, mcuVertOffset := 0, 0;
      if iMCURowNum < lay.f.down {
        lay.RowsPositive(iMCURowNum);
      }
    }

    /** start_pass_coef. */
    method StartPass()
      requires Ready() && iMCURowNum == 0 && emitted == []
      modifies `mcuCtr, `mcuVertOffset, `mcuRowsPerIMCURow
      ensures Valid() && mcuCtr == mcuVertOffset == 0
    {
      hide Strips;
      StartIMCURow();
      lay.PrefixStep(0, 0, 0);
    }

    /** encode_mcu: takes an MCU, or suspends. */
    method EncodeMcu(n: nat) returns (ok: bool)
      requires n <= mcuBuffer.Length
      modifies `emitted, `room
      ensures (ok <==> old(room) != 0) && (old(room) < 0 ==> room < 0) && (!ok ==> room == 0)
      ensures emitted == if ok then old(emitted) + [mcuBuffer[..n]] else old(emitted)
    {
      ok := room != 0;
      if ok {
        emitted := emitted + [mcuBuffer[..n]];
        room := room - 1;
      }
    }

    /** The rest of a row of MCUs, until the encoder suspends. */
    method McuRow(y: nat) returns (done: bool)
      requires Arrays() && iMCURowNum < lay.f.down && y < lay.RowsIn(iMCURowNum) && mcuCtr <= lay.PerRow() && Source()
      requires emitted == FetchAll(lay.f, z, lay.Prefix(iMCURowNum, y, mcuCtr))
      modifies mcuBuffer, dummyBuffer, `emitted, `room, `mcuCtr
      ensures Source() && emitted == FetchAll(lay.f, z, lay.Prefix(iMCURowNum, y, mcuCtr))
      ensures (if done then mcuCtr == lay.PerRow() else mcuCtr < lay.PerRow() && room == 0) && (old(room) < 0 ==>
        room < 0)
    {
      hide Arrays, Source, Shape, Layout.Prefix, Layout.RowsIn, Layout.PerRow, Fetch;
      ShapeOf();
      while mcuCtr < lay.PerRow()
        invariant old(room) < 0 ==> room < 0
        invariant Source() && mcuCtr <= lay.PerRow() && emitted == FetchAll(lay.f, z, lay.Prefix(iMCURowNum, y, mcuCtr))
      {
        var n := BuildMcu(y, mcuCtr);
        var ok := EncodeMcu(n);
        if !ok {
          return false;
        }
        lay.PrefixStep(iMCURowNum, y, mcuCtr);
        mcuCtr := mcuCtr + 1;
      }
      done := true;
    }

    lemma ShapeOf()
      requires Arrays()
      ensures Shape() && lay.Valid()
    {
    }

    /** One iMCU row: done, with the counters at the next one, or suspended in it. */
    method CompressOutput() returns (done: bool)
      requires Valid() && iMCURowNum < lay.f.down && Source()
      requires kind.FirstPass? ==> AllStrips(iMCURowNum + 1)
      modifies mcuBuffer, dummyBuffer, `emitted, `room, `mcuCtr, `mcuVertOffset, `mcuRowsPerIMCURow, `iMCURowNum
      ensures Valid() && (old(room) < 0 ==> room < 0)
      ensures if done then iMCURowNum == old(iMCURowNum) + 1 else iMCURowNum == old(iMCURowNum) && room == 0
    {
      hide Arrays, Source, Shape, Layout.Prefix, Layout.RowsIn, Layout.PerRow, Fetch, AllStrips, Loaded, Given;
      ShapeOf();
      var y: nat := mcuVertOffset;
      while y < mcuRowsPerIMCURow
        invariant iMCURowNum == old(iMCURowNum) && mcuRowsPerIMCURow == lay.RowsIn(iMCURowNum)
        invariant y <= mcuRowsPerIMCURow && Source() && mcuCtr <= lay.PerRow() && (y == mcuRowsPerIMCURow ==>
          mcuCtr == 0)
        invariant emitted == FetchAll(lay.f, z, lay.Prefix(iMCURowNum, y, mcuCtr)) && (old(room) < 0 ==> room < 0)
      {
        done := McuRow(y);
        if !done {
          mcuVertOffset := y;
          assert Ready() by { SourceReady(); }
          return;
        }
        lay.PrefixStep(iMCURowNum, y, 0);
        mcuCtr := 0;
        y := y + 1;
      }
      lay.PrefixStep(iMCURowNum, 0, 0);
      assert kind.Transcoding? ==> Given() by { SourceReady(); }
      iMCURowNum := iMCURowNum + 1;
      StartIMCURow();
      done := true;
    }

    lemma SourceReady()
      requires Arrays() && iMCURowNum < lay.f.down && Source()
      ensures kind.Transcoding? ==> Given()
    {
    }

    /** compress_data: one iMCU row, loaded first in the first pass of several. */
    method CompressData() returns (done: bool)
      requires Valid() && iMCURowNum < lay.f.down
      modifies mcuBuffer, dummyBuffer, wholeImage
      modifies `emitted, `room, `mcuCtr, `mcuVertOffset, `mcuRowsPerIMCURow, `iMCURowNum
      ensures Valid() && (old(room) < 0 ==> room < 0)
      ensures if done then iMCURowNum == old(iMCURowNum) + 1 else iMCURowNum == old(iMCURowNum) && room == 0
    {
      hide Arrays, Shape, Layout.Prefix, Layout.RowsIn, Layout.PerRow, Fetch, AllStrips, Given;
      ShapeOf();
      if kind.FirstPass? {
        LoadStrip();
      }
      AllLoaded();
      done := CompressOutput();
    }

    lemma AllLoaded()
      requires Arrays() && iMCURowNum < lay.f.down
      requires kind.Transcoding? ==> Given()
      requires kind.FirstPass? ==> AllStrips(iMCURowNum + 1)
      requires kind.LaterPass? ==> AllStrips(lay.f.down)
      ensures Source()
    {
      hide StripLoaded;
      if kind.FirstPass? || kind.LaterPass? {
        forall c | 0 <= c < |z|
          ensures StripLoaded(c, iMCURowNum, lay.f.comps[c].v)
        {
          assert Strips(c, if kind.FirstPass? then iMCURowNum + 1 else lay.f.down);
        }
      }
    }

    /** All iMCU rows of a scan, with any pattern of suspensions: each number is how many MCUs
        the encoder takes before it suspends once. */
    method CompressScan(pauses: seq<nat>)
      requires Valid() && iMCURowNum == 0
      modifies mcuBuffer, dummyBuffer, wholeImage
      modifies `emitted, `room, `mcuCtr, `mcuVertOffset, `mcuRowsPerIMCURow, `iMCURowNum
      ensures Valid() && iMCURowNum == lay.f.down && emitted == FetchAll(lay.f, z, lay.Mcus())
    {
      hide Arrays, Shape, Fetch, Layout.Prefix, Layout.RowsIn, Layout.PerRow, AllStrips, Given;
      ShapeOf();
      var i := 0;
      while iMCURowNum < lay.f.down
        invariant Valid() && i <= |pauses|
        decreases |pauses| - i, lay.f.down - iMCURowNum
      {
        room := if i < |pauses| then pauses[i] else -1;
        var done := CompressData();
        if !done {
          i := i + 1;
        }
      }
      lay.PrefixStep(0, 0, 0);
    }
  }

  /** Distinct arrays of blocks with these dimensions. */
  ghost predicate ArraysOf(f: Frame, arrays: seq<array2<Block>>, padded: bool)
  {
    && |arrays| == |f.comps| && (forall c, d :: 0 <= c < d < |arrays| ==> arrays[c] != arrays[d])
    && forall c :: 0 <= c < |arrays| ==>
         && arrays[c].Length0 == (if padded then f.down * f.comps[c].v else f.comps[c].high)
         && arrays[c].Length1 == (if padded then f.across * f.comps[c].h else f.comps[c].wide)
  }

  /** They hold the blocks of the image, and the dummy blocks if there is room for them. */
  ghost predicate ImageIn(f: Frame, z: seq<Plane>, arrays: seq<array2<Block>>)
    requires |z| == |f.comps| == |arrays|
    reads arrays
  {
    forall c, r, x :: 0 <= c < |arrays| && 0 <= r < arrays[c].Length0 && 0 <= x < arrays[c].Length1 ==>
      arrays[c][r, x] == Cell(z[c], f.comps[c].h, r, x)
  }

  /** The three ways to put the MCUs of a scan together yield the same MCUs, dummy blocks
      included: in one pass; through padded arrays that are filled on the way, or were
      before; from unpadded arrays. */
  method Assemble(kind: Kind, lay: Layout, z: seq<Plane>, arrays: seq<array2<Block>>, pauses: seq<nat>)
    returns (mcus: seq<Mcu>)
    requires lay.Valid() && Shaped(lay.f, z) && |lay.Members(|lay.cs|)| <= C_MAX_BLOCKS_IN_MCU
    requires kind.OnePass? || ArraysOf(lay.f, arrays, !kind.Transcoding?)
    requires kind.LaterPass? || kind.Transcoding? ==> ImageIn(lay.f, z, arrays)
    modifies arrays
    ensures mcus == FetchAll(lay.f, z, lay.Mcus())
    ensures !kind.OnePass? ==> ImageIn(lay.f, z, arrays)
  {
    var coef := new CoefController(kind, lay, z, if kind.OnePass? then [] else arrays);
    AtStart(coef);
    coef.StartPass();
    coef.CompressScan(pauses);
    mcus := coef.emitted;
    if !kind.OnePass? {
      AtEnd(coef);
    }
  }

  lemma AtStart(coef: CoefController)
    requires coef.Shape() && coef.iMCURowNum == 0 && coef.Arrays()
    requires coef.kind.LaterPass? || coef.kind.Transcoding? ==> ImageIn(coef.lay.f, coef.z, coef.wholeImage)
    requires forall b :: 0 <= b < C_MAX_BLOCKS_IN_MCU ==> coef.dummyBuffer[b] == ZeroBlock()
    ensures coef.Ready()
  {
    if coef.kind.Transcoding? {
      assert ZeroBlock() == Dummy(0);
    } else if coef.kind.LaterPass? {
      forall c, r | 0 <= c < |coef.z| && 0 <= r < coef.lay.f.down
        ensures coef.StripLoaded(c, r, coef.lay.f.comps[c].v)
      {
        coef.StripFits(c, r);
      }
    }
  }

  lemma AtEnd(coef: CoefController)
    requires coef.Ready() && coef.iMCURowNum == coef.lay.f.down && !coef.kind.OnePass?
    ensures |coef.z| == |coef.lay.f.comps| == |coef.wholeImage| && ImageIn(coef.lay.f, coef.z, coef.wholeImage)
  {
    if !coef.kind.Transcoding? {
      AllLoaded(coef);
    }
  }

  lemma AllLoaded(coef: CoefController)
    requires coef.Arrays() && (coef.kind.FirstPass? || coef.kind.LaterPass?) && coef.AllStrips(coef.lay.f.down)
    ensures ImageIn(coef.lay.f, coef.z, coef.wholeImage)
  {
    hide Cell;
    forall c, r, x | 0 <= c < |coef.wholeImage| && 0 <= r < coef.wholeImage[c].Length0
      && 0 <= x < coef.wholeImage[c].Length1
      ensures coef.wholeImage[c][r, x] == Cell(coef.z[c], coef.lay.f.comps[c].h, r, x)
    {
      var v := coef.lay.f.comps[c].v;
      StripOf(r, v, coef.lay.f.down);
      assert coef.Strips(c, coef.lay.f.down) && coef.StripLoaded(c, r / v, v);
    }
  }

  lemma StripOf(r: nat, v: factor, n: nat)
    requires r < n * v
    ensures r / v < n
  {
    ScaleIf(n, r / v, v);
  }
}
