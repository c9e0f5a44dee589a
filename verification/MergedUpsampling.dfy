/** Upsampling and colour conversion in one pass (jdmerge.c), for chroma at half the
    horizontal resolution and half or all of the vertical. */
module MergedUpsampling {
  import opened Bytes
  import opened ColorConversion
  import opened Upsampling

  /** What one row is to become. */
  ghost function Merge(y: Row, cb: Row, cr: Row, w: nat): Row
    requires w <= |y| && (w + 1) / 2 <= |cb| && (w + 1) / 2 <= |cr|
  {
    Convert(y, Box(cb, w), Box(cr, w), w)
  }

  /** The pixels of the first n columns. */
  ghost predicate Merged(out: Row, y: Row, cb: Row, cr: Row, w: nat, n: nat)
    requires n <= w <= |y| && (w + 1) / 2 <= |cb| && (w + 1) / 2 <= |cr| && |out| == 3 * w
  {
    forall i :: 0 <= i < 3 * n ==> out[i] == Channel(y[i / 3], cb[i / 3 / 2], cr[i / 3 / 2], i % 3)
  }

  lemma MergedNone(out: Row, y: Row, cb: Row, cr: Row, w: nat)
    requires w <= |y| && (w + 1) / 2 <= |cb| && (w + 1) / 2 <= |cr| && |out| == 3 * w
    ensures Merged(out, y, cb, cr, w, 0)
  {
  }

  lemma MergedAll(out: Row, y: Row, cb: Row, cr: Row, w: nat)
    requires w <= |y| && (w + 1) / 2 <= |cb| && (w + 1) / 2 <= |cr| && |out| == 3 * w && Merged(out, y, cb, cr, w, w)
    ensures out == Merge(y, cb, cr, w)
  {
  }

  class MergedUpsampler {
    const tables: ColorTables
    const width: nat
    const vSamp: nat
    const spareRow: array<byte>
    var spareFull: bool
    var rowsToGo: nat
    /** Rows of the image not yet returned: rowsToGo, where that is kept up to date. */
    ghost var left: nat

    ghost predicate Valid()
      reads this, spareRow, tables.crR, tables.cbB, tables.crG, tables.cbG, tables.rangeLimit
    {
      && tables.Valid() && 1 <= vSamp <= 2 && (spareFull ==> vSamp == 2) && (vSamp == 2 ==> rowsToGo == left)
      && spareRow.Length == 3 * width && spareRow != tables.rangeLimit
    }

    /** The spare row is the one row still to be returned. */
    ghost function Now(): State
      reads this, spareRow
    {
      State(if spareFull then [spareRow[..]] else [], left)
    }

    constructor (tables: ColorTables, width: nat, vSamp: nat, height: nat)
      requires tables.Valid() && 1 <= vSamp <= 2
      ensures Valid() && this.tables == tables && this.width == width && this.vSamp == vSamp
      ensures fresh(spareRow) && Now() == Start(height)
    {
      this.tables, this.width, this.vSamp := tables, width, vSamp;
      spareRow := new byte[3 * width];
      spareFull, rowsToGo, left := false, height, height;
    }

    /** Two pixels at columns x and x + 1, or one, that share their chroma samples. */
    method Pair(y: array<byte>, cb: array<byte>, cr: array<byte>, out: array<byte>, x: nat, n: nat, b: byte, r: byte,
                cred: int, cgreen: int, cblue: int)
      requires tables.Valid() && x % 2 == 0 && 1 <= n <= 2 && x + n <= width <= y.Length && out.Length == 3 * width
      requires (width + 1) / 2 <= cb.Length && (width + 1) / 2 <= cr.Length
      requires out !in {tables.rangeLimit, y, cb, cr} && b == cb[x / 2] && r == cr[x / 2]
      requires cred == CrR(r) && cgreen == Green(b, r) && cblue == CbB(b)
      requires Merged(out[..], y[..], cb[..], cr[..], width, x)
      modifies out
      ensures tables.Valid() && Merged(out[..], y[..], cb[..], cr[..], width, x + n)
    {
      hide Channel, CrR, CbB, Green;
      tables.Put(out, x, y[x], b, r, cred, cgreen, cblue);
      if n == 2 {
        tables.Put(out, x + 1, y[x + 1], b, r, cred, cgreen, cblue);
      }
    }

    /** The chroma part of the calculation. */
    method Chroma(b: byte, r: byte) returns (cred: int, cgreen: int, cblue: int)
      requires tables.Valid()
      ensures cred == CrR(r) && cgreen == Green(b, r) && cblue == CbB(b)
    {
      cred, cgreen, cblue := tables.crR[r], (tables.cbG[b] + tables.crG[r]) / 0x10000, tables.cbB[b];
    }

    method H2v1Merged(y: array<byte>, cb: array<byte>, cr: array<byte>, out: array<byte>)
      requires tables.Valid() && width <= y.Length && (width + 1) / 2 <= cb.Length && (width + 1) / 2 <= cr.Length
      requires out.Length == 3 * width && out !in {tables.rangeLimit, y, cb, cr}
      modifies out
      ensures out[..] == Merge(y[..], cb[..], cr[..], width)
    {
      hide Merged, Merge, ColorTables.Valid, CrR, CbB, Green;
      MergedNone(out[..], y[..], cb[..], cr[..], width);
      for col := 0 to width / 2
        invariant tables.Valid() && Merged(out[..], y[..], cb[..], cr[..], width, 2 * col)
      {
        var b, r := cb[col], cr[col];
        var cred, cgreen, cblue := Chroma(b, r);
        Pair(y, cb, cr, out, 2 * col, 2, b, r, cred, cgreen, cblue);
      }
      if width % 2 == 1 {
        var b, r := cb[width / 2], cr[width / 2];
        var cred, cgreen, cblue := Chroma(b, r);
        Pair(y, cb, cr, out, width - 1, 1, b, r, cred, cgreen, cblue);
      }
      MergedAll(out[..], y[..], cb[..], cr[..], width);
    }

    method H2v2Merged(y0: array<byte>, y1: array<byte>, cb: array<byte>, cr: array<byte>, out0: array<byte>,
      out1: array<byte>)
      requires tables.Valid() && width <= y0.Length && width <= y1.Length
      requires (width + 1) / 2 <= cb.Length && (width + 1) / 2 <= cr.Length
      requires out0.Length == out1.Length == 3 * width && out0 != out1
      requires out0 !in {tables.rangeLimit, y0, y1, cb, cr} && out1 !in {tables.rangeLimit, y0, y1, cb, cr}
      modifies out0, out1
      ensures out0[..] == Merge(y0[..], cb[..], cr[..], width)
      ensures out1[..] == Merge(y1[..], cb[..], cr[..], width)
    {
      hide Merged, Merge, ColorTables.Valid, CrR, CbB, Green;
      MergedNone(out0[..], y0[..], cb[..], cr[..], width);
      MergedNone(out1[..], y1[..], cb[..], cr[..], width);
      for col := 0 to width / 2
        invariant tables.Valid() && Merged(out0[..], y0[..], cb[..], cr[..], width, 2 * col)
        invariant Merged(out1[..], y1[..], cb[..], cr[..], width, 2 * col)
      {
        var b, r := cb[col], cr[col];
        var cred, cgreen, cblue := Chroma(b, r);
        Pair(y0, cb, cr, out0, 2 * col, 2, b, r, cred, cgreen, cblue);
        Pair(y1, cb, cr, out1, 2 * col, 2, b, r, cred, cgreen, cblue);
      }
      if width % 2 == 1 {
        var b, r := cb[width / 2], cr[width / 2];
        var cred, cgreen, cblue := Chroma(b, r);
        Pair(y0, cb, cr, out0, width - 1, 1, b, r, cred, cgreen, cblue);
        Pair(y1, cb, cr, out1, width - 1, 1, b, r, cred, cgreen, cblue);
      }
      MergedAll(out0[..], y0[..], cb[..], cr[..], width);
      MergedAll(out1[..], y1[..], cb[..], cr[..], width);
    }

    /** One row group to one or two rows: out1 is used for two rows of luminance. */
    method UpMethod(input: Buffers, ghost m: nat, k: nat, out0: array<byte>, out1: array<byte>)
      requires tables.Valid() && input.Valid(width, vSamp, m) && k < m
      requires Output(if vSamp == 2 then [out0, out1] else [out0], width, [tables.rangeLimit] + input.Rows())
      modifies out0, if vSamp == 2 then {out1} else {}
      ensures var rows := GroupRows(old(input.Contents(width, vSamp, m, k)), width);
              out0[..] == rows[0] && (vSamp == 2 ==> out1[..] == rows[1])
    {
      ghost var g := input.Contents(width, vSamp, m, k);
      var y := input.Luma(vSamp, k);
      assert y[0] in input.Rows() && input.cb[k] in input.Rows() && input.cr[k] in input.Rows();
      if vSamp == 2 {
        assert [out0, out1][0] == out0 && [out0, out1][1] == out1 && y[1] in input.Rows();
        H2v2Merged(y[0], y[1], input.cb[k], input.cr[k], out0, out1);
      } else {
        assert [out0][0] == out0;
        H2v1Merged(y[0], input.cb[k], input.cr[k], out0);
      }
    }

    /** What the control routines need: a buffer with row group k, and room for a row. */
    ghost predicate Ready(input: Buffers, m: nat, k: nat, output: seq<array<byte>>, outRow: nat, outAvail: nat)
      reads this, spareRow, tables.crR, tables.cbB, tables.crG, tables.cbG, tables.rangeLimit
    {
      && Valid() && left > 0 && input.Valid(width, vSamp, m) && k < m && outRow < outAvail <= |output|
      && Output(output, width, [tables.rangeLimit, spareRow] + input.Rows()) && spareRow !in input.Rows()
    }

    /** merged_1v_upsample. */
    method Upsample1v(input: Buffers, ghost m: nat, k: nat, output: seq<array<byte>>, outRow: nat, outAvail: nat)
      returns (k': nat, outRow': nat)
      requires Ready(input, m, k, output, outRow, outAvail) && vSamp == 1
      modifies `left, output
      ensures Valid()
      ensures var (t, rows, done) := Step(old(Now()), old(input.Contents(width, vSamp, m, k)), width,
        outAvail - outRow);
              && Now() == t && Returned(output, outRow, rows) && outRow' == outRow + |rows| && k'
                == if done then k + 1 else k
    {
      hide GroupRows;
      assert [output[outRow]][0] == output[outRow];
      assert forall i :: 0 <= i < |output| ==> output[i] !in input.Rows() && output[i] !in [tables.rangeLimit];
      UpMethod(input, m, k, output[outRow], spareRow);
      outRow', left, k' := outRow + 1, left - 1, k + 1;
    }

    /** One row group into the output buffer, its second row into the spare one if need be. */
    method Fresh2v(input: Buffers, ghost m: nat, k: nat, output: seq<array<byte>>, outRow: nat, outAvail: nat)
      returns (num: nat)
      requires Ready(input, m, k, output, outRow, outAvail) && vSamp == 2 && !spareFull
      modifies `spareFull, spareRow, output
      ensures tables.Valid() && num == Least(2, Least(rowsToGo, outAvail - outRow)) && (spareFull <==> num == 1)
      ensures var rows := GroupRows(old(input.Contents(width, vSamp, m, k)), width);
              && output[outRow][..] == rows[0] && (if num == 2 then output[outRow + 1] else spareRow)[..] == rows[1]
    {
      hide GroupRows;
      assert forall i :: 0 <= i < |output| ==> output[i] !in input.Rows() && output[i] !in [tables.rangeLimit];
      assert forall i :: 0 <= i < |output| ==> output[i] !in [tables.rangeLimit, spareRow];
      num := Least(Least(2, rowsToGo), outAvail - outRow);
      if num > 1 {
        UpMethod(input, m, k, output[outRow], output[outRow + 1]);
      } else {
        spareFull := true;
        UpMethod(input, m, k, output[outRow], spareRow);
      }
    }

    /** The saved row into the output buffer. */
    method Spare2v(ghost input: Buffers, ghost m: nat, ghost k: nat, output: seq<array<byte>>, outRow: nat,
      ghost outAvail: nat)
      requires Ready(input, m, k, output, outRow, outAvail) && spareFull
      modifies `spareFull, output
      ensures tables.Valid() && !spareFull && output[outRow][..] == spareRow[..] == old(spareRow[..])
    {
      assert forall i :: 0 <= i < |output| ==> output[i] !in [tables.rangeLimit, spareRow];
      CopyRow(spareRow, output[outRow]);
      spareFull := false;
    }

    /** The spare row if there is one, else the next row group. */
    method Rows2v(input: Buffers, ghost m: nat, k: nat, output: seq<array<byte>>, outRow: nat, outAvail: nat,
      ghost rows: seq<Row>)
      returns (num: nat)
      requires Ready(input, m, k, output, outRow, outAvail) && vSamp == 2
      requires rows == if spareFull then [spareRow[..]] else GroupRows(input.Contents(width, vSamp, m, k), width)
      modifies `spareFull, spareRow, output
      ensures tables.Valid() && num == Least(|rows|, Least(rowsToGo, outAvail - outRow))
      ensures Returned(output, outRow, rows[..num]) && rows[num..] == if spareFull then [spareRow[..]] else []
    {
      hide GroupRows, ColorTables.Valid, Buffers.Valid, Buffers.Contents;
      if spareFull {
        Spare2v(input, m, k, output, outRow, outAvail);
        num := 1;
      } else {
        num := Fresh2v(input, m, k, output, outRow, outAvail);
      }
    }

    /** merged_2v_upsample. */
    method Upsample2v(input: Buffers, ghost m: nat, k: nat, output: seq<array<byte>>, outRow: nat, outAvail: nat)
      returns (k': nat, outRow': nat)
      requires Ready(input, m, k, output, outRow, outAvail) && vSamp == 2
      modifies `spareFull, `rowsToGo, `left, spareRow, output
      ensures Valid()
      ensures var (t, rows, done) := Step(old(Now()), old(input.Contents(width, vSamp, m, k)), width,
        outAvail - outRow);
              && Now() == t && Returned(output, outRow, rows) && outRow' == outRow + |rows| && k'
                == if done then k + 1 else k
    {
      hide GroupRows, ColorTables.Valid, Buffers.Valid, Buffers.Contents, Output;
      ghost var rows := if spareFull then [spareRow[..]] else GroupRows(input.Contents(width, vSamp, m, k), width);
      var num := Rows2v(input, m, k, output, outRow, outAvail, rows);
      outRow', rowsToGo, left := outRow + num, rowsToGo - num, left - num;
      k' := if spareFull then k else k + 1;
    }
  }

  method CopyRow(from: array<byte>, to: array<byte>)
    requires from != to && from.Length == to.Length
    modifies to
    ensures to[..] == from[..]
  {
    for i := 0 to from.Length
      invariant to[..i] == from[..i]
    {
      to[i] := from[i];
    }
  }
}
