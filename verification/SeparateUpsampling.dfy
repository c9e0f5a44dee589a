/** Upsampling of each component on its own, then colour conversion a row at a time
    (jdsample.c), for full-size luminance and chroma at half the horizontal resolution and
    half or all of the vertical. */
module SeparateUpsampling {
  import opened Bytes
  import opened ColorConversion
  import opened Upsampling

  class SeparateUpsampler {
    const tables: ColorTables
    const width: nat
    const vSamp: nat
    // The colour conversion buffer.  Its luminance rows are those of the input.
    var yBuf: seq<array<byte>>
    const cbBuf: seq<array<byte>>
    const crBuf: seq<array<byte>>
    var nextRowOut: nat
    var rowsToGo: nat

    ghost predicate Valid()
      reads this
    {
      && 1 <= vSamp <= 2 && |cbBuf| == |crBuf| == vSamp && nextRowOut <= vSamp && Distinct()
      && (forall i :: 0 <= i < vSamp ==> cbBuf[i].Length == crBuf[i].Length == width + width % 2)
      && (nextRowOut < vSamp ==> |yBuf| == vSamp && forall i :: 0 <= i < vSamp ==> width <= yBuf[i].Length)
    }

    ghost predicate Distinct()
    {
      && (forall i, j :: 0 <= i < j < |cbBuf| ==> cbBuf[i] != cbBuf[j])
      && (forall i, j :: 0 <= i < j < |crBuf| ==> crBuf[i] != crBuf[j])
      && (forall i, j :: 0 <= i < |cbBuf| && 0 <= j < |crBuf| ==> cbBuf[i] != crBuf[j])
    }

    /** The conversion buffer proper is none of these. */
    ghost predicate Apart(others: seq<array<byte>>)
    {
      && (forall i :: 0 <= i < |cbBuf| ==> cbBuf[i] !in others)
      && (forall i :: 0 <= i < |crBuf| ==> crBuf[i] !in others)
    }

    /** Row i of the conversion buffer, converted. */
    ghost function Converted(i: nat): Row
      requires Valid() && i < vSamp && nextRowOut < vSamp
      reads this, yBuf, cbBuf, crBuf
    {
      Convert(yBuf[i][..], cbBuf[i][..], crBuf[i][..], width)
    }

    ghost function ConvertedAll(): (rows: seq<Row>)
      requires Valid() && nextRowOut < vSamp
      reads this, yBuf, cbBuf, crBuf
      ensures |rows| == vSamp && forall i :: 0 <= i < vSamp ==> rows[i] == Converted(i)
    {
      if vSamp == 2 then [Converted(0), Converted(1)] else [Converted(0)]
    }

    /** The rows of the conversion buffer from nextRowOut on are still to be returned. */
    ghost function Now(): State
      requires Valid()
      reads this, yBuf, cbBuf, crBuf
    {
      State(if nextRowOut == vSamp then [] else ConvertedAll()[nextRowOut..], rowsToGo)
    }

    constructor (tables: ColorTables, width: nat, vSamp: nat, height: nat)
      requires 1 <= vSamp <= 2
      ensures Valid() && this.tables == tables && this.width == width && this.vSamp == vSamp
      ensures fresh(cbBuf) && fresh(crBuf) && yBuf == [] && Now() == Start(height)
    {
      this.tables, this.width, this.vSamp := tables, width, vSamp;
      var cb0, cr0 := new byte[width + width % 2], new byte[width + width % 2];
      var cb1, cr1 := new byte[width + width % 2], new byte[width + width % 2];
      cbBuf, crBuf := if vSamp == 2 then [cb0, cb1] else [cb0], if vSamp == 2 then [cr0, cr1] else [cr0];
      yBuf, nextRowOut, rowsToGo := [], vSamp, height;
    }

    /** h2v1_upsample on one row. */
    method Expand(input: array<byte>, output: array<byte>)
      requires (width + 1) / 2 <= input.Length && output.Length == width + width % 2 && input != output
      modifies output
      ensures output[..width] == Box(input[..], width)
    {
      var inPtr, outPtr := 0, 0;
      while outPtr < width
        invariant outPtr == 2 * inPtr <= width + width % 2
        invariant forall x :: 0 <= x < outPtr && x < width ==> output[x] == input[x / 2]
      {
        var value := input[inPtr];
        inPtr := inPtr + 1;
        output[outPtr] := value;
        output[outPtr + 1] := value;
        outPtr := outPtr + 2;
      }
    }

    /** h2v2_upsample for two rows, h2v1_upsample for one: each row of output holds the box
        upsampled input. */
    method ExpandGroup(input: array<byte>, output: seq<array<byte>>)
      requires |output| == vSamp && 1 <= vSamp <= 2 && (vSamp == 2 ==> output[0] != output[1])
      requires (width + 1) / 2 <= input.Length && input !in output
      requires forall i :: 0 <= i < vSamp ==> output[i].Length == width + width % 2
      modifies output
      ensures forall i :: 0 <= i < vSamp ==> output[i][..width] == Box(input[..], width)
    {
      Expand(input, output[0]);
      if vSamp == 2 {
        for x := 0 to width
          invariant output[1][..x] == output[0][..x] && output[0][..width] == Box(input[..], width)
        {
          output[1][x] := output[0][x];
        }
      }
    }

    /** What sep_upsample needs: a buffer with row group k, and room for a row.  While rows
        are still to be returned, the conversion buffer may point into this input. */
    ghost predicate Ready(input: Buffers, m: nat, k: nat, output: seq<array<byte>>, outRow: nat, outAvail: nat)
      reads this, tables.crR, tables.cbB, tables.crG, tables.cbG, tables.rangeLimit
    {
      && tables.Valid() && Valid() && rowsToGo > 0 && input.Valid(width, vSamp, m) && k < m
        && outRow < outAvail <= |output|
      && Output(output, width, [tables.rangeLimit] + yBuf + cbBuf + crBuf + input.Rows())
      && Apart([tables.rangeLimit] + yBuf + input.Rows())
    }

    /** Fills the empty conversion buffer. */
    method FillBuffer(input: Buffers, ghost m: nat, k: nat)
      requires Valid() && Apart(input.Rows()) && input.Valid(width, vSamp, m) && k < m
      modifies `yBuf, `nextRowOut, cbBuf, crBuf
      ensures Valid() && nextRowOut == 0 && yBuf == input.Luma(vSamp, k)
      ensures ConvertedAll() == GroupRows(old(input.Contents(width, vSamp, m, k)), width)
    {
      hide Convert, Box;
      ghost var g := input.Contents(width, vSamp, m, k);
      FillChroma(input, m, k);
      yBuf := input.Luma(vSamp, k);
      nextRowOut := 0;
      forall i | 0 <= i < vSamp
        ensures Converted(i) == GroupRows(g, width)[i]
      {
        assert yBuf[i] in input.Rows();
        ConvertTrims(yBuf[i][..], cbBuf[i][..], crBuf[i][..], width);
      }
    }

    method FillChroma(input: Buffers, ghost m: nat, k: nat)
      requires Valid() && Apart(input.Rows()) && input.Valid(width, vSamp, m) && k < m
      modifies cbBuf, crBuf
      ensures Valid()
      ensures forall i :: 0 <= i < vSamp ==>
        cbBuf[i][..width] == Box(input.cb[k][..], width) && crBuf[i][..width] == Box(input.cr[k][..], width)
    {
      hide Box;
      assert input.cb[k] in input.Rows() && input.cr[k] in input.Rows();
      ExpandGroup(input.cb[k], cbBuf);
      ExpandGroup(input.cr[k], crBuf);
    }

    /** These rows are what the buffer is converted to from nextRowOut on. */
    ghost predicate Holds(rest: seq<Row>)
      reads this, yBuf, cbBuf, crBuf
    {
      Valid() && nextRowOut < vSamp && rest == ConvertedAll()[nextRowOut..]
    }

    /** Converts row i of them. */
    method ConvertRow(out: array<byte>, i: nat, ghost rest: seq<Row>)
      requires tables.Valid() && Holds(rest) && i < |rest| && out.Length == 3 * width
      requires out !in [tables.rangeLimit] + yBuf + cbBuf + crBuf
      modifies out
      ensures tables.Valid() && Holds(rest) && out[..] == rest[i]
    {
      hide Convert;
      var n := nextRowOut + i;
      assert rest[i] == Converted(n);
      tables.YccRgbConvert(yBuf[n], cbBuf[n], crBuf[n], out, width);
    }

    /** Converts num rows. */
    method ConvertRows(output: seq<array<byte>>, outRow: nat, num: nat, ghost rest: seq<Row>)
      requires tables.Valid() && Holds(rest) && num <= |rest| && outRow + num <= |output|
      requires Output(output, width, [tables.rangeLimit] + yBuf + cbBuf + crBuf)
      modifies output
      ensures tables.Valid() && Holds(rest) && Returned(output, outRow, rest[..num])
    {
      hide Holds, ColorTables.Valid;
      for i := 0 to num
        invariant tables.Valid() && Holds(rest) && Returned(output, outRow, rest[..i])
      {
        ConvertRow(output[outRow + i], i, rest);
      }
    }

    /** The first part of sep_upsample: the rows to convert from are those still to be
        returned, or those of row group k. */
    method Refill(input: Buffers, ghost m: nat, k: nat) returns (ghost rest: seq<Row>)
      requires Valid() && Apart(input.Rows()) && input.Valid(width, vSamp, m) && k < m
      modifies `yBuf, `nextRowOut, cbBuf, crBuf
      ensures Holds(rest) && |rest| == vSamp - nextRowOut
      ensures yBuf == old(yBuf) || forall a :: a in yBuf ==> a in input.Rows()
      ensures rest == if old(Now()).pending == [] then GroupRows(old(input.Contents(width, vSamp, m, k)), width)
                      else old(Now()).pending
    {
      hide GroupRows, ConvertedAll;
      if nextRowOut >= vSamp {
        FillBuffer(input, m, k);
        assert forall i :: 0 <= i < vSamp ==> yBuf[i] in input.Rows();
      }
      rest := ConvertedAll()[nextRowOut..];
    }

    /** The second part: as many of them as there is room for. */
    method Emit(output: seq<array<byte>>, outRow: nat, outAvail: nat, ghost rest: seq<Row>) returns (num: nat)
      requires tables.Valid() && Holds(rest) && |rest| == vSamp - nextRowOut && outRow <= outAvail <= |output|
      requires Output(output, width, [tables.rangeLimit] + yBuf + cbBuf + crBuf)
      modifies `nextRowOut, `rowsToGo, output
      ensures tables.Valid() && Valid() && num == Least(|rest|, Least(old(rowsToGo), outAvail - outRow))
      ensures Now() == State(rest[num..], old(rowsToGo) - num) && Returned(output, outRow, rest[..num])
    {
      hide ConvertedAll, ColorTables.Valid;
      num := Least(Least(vSamp - nextRowOut, rowsToGo), outAvail - outRow);
      ConvertRows(output, outRow, num, rest);
      ghost var rows := ConvertedAll();
      rowsToGo, nextRowOut := rowsToGo - num, nextRowOut + num;
      assert nextRowOut < vSamp ==> rows == ConvertedAll();
    }

    /** sep_upsample. */
    method Upsample(input: Buffers, ghost m: nat, k: nat, output: seq<array<byte>>, outRow: nat, outAvail: nat)
      returns (k': nat, outRow': nat)
      requires Ready(input, m, k, output, outRow, outAvail)
      modifies `yBuf, `nextRowOut, `rowsToGo, cbBuf, crBuf, output
      ensures tables.Valid() && Valid() && (yBuf == old(yBuf) || forall a :: a in yBuf ==> a in input.Rows())
      ensures var (t, rows, done) := Step(old(Now()), old(input.Contents(width, vSamp, m, k)), width,
        outAvail - outRow);
              && Now() == t && Returned(output, outRow, rows) && outRow' == outRow + |rows| && k'
                == if done then k + 1 else k
    {
      hide GroupRows, ConvertedAll, ColorTables.Valid, Buffers.Valid, Buffers.Contents, Holds;
      assert forall i :: 0 <= i < |output| ==> output[i] !in [tables.rangeLimit] + yBuf + cbBuf + crBuf + input.Rows();
      ghost var rest := Refill(input, m, k);
      var num := Emit(output, outRow, outAvail, rest);
      outRow' := outRow + num;
      k' := if nextRowOut >= vSamp then k + 1 else k;
    }
  }

  /** Only the first w samples of each row matter. */
  lemma ConvertTrims(y: Row, cb: Row, cr: Row, w: nat)
    requires w <= |y| && w <= |cb| && w <= |cr|
    ensures Convert(y, cb, cr, w) == Convert(y, cb[..w], cr[..w], w)
  {
  }
}
