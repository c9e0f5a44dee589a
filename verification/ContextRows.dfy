/** The main buffer controller of the decoder where upsampling needs context rows
    (jdmainct.c): two lists of pointers into one workspace, the "funny" lists, show every
    row group between its neighbours in the image. */
module ContextRows {
  import opened Bytes
  import opened ColorConversion
  import opened Arithmetic
  import opened McuLayout
  import opened Upsampling

  /** The workspace of one component, m + 2 row groups of g rows, and its two lists.  Row r
      of a list is at index r + g: there is a row group at negative offsets. */
  class ContextBuffer {
    const g: nat
    const m: nat
    // Rows of an iMCU row, g * m, and downsampled_height.
    const mcuRows: nat
    const height: nat
    // What decompress_data delivers: whole iMCU rows, padding rows included.
    const image: seq<Row>
    const work: array<Row>
    const list0: array<nat>
    const list1: array<nat>

    ghost predicate Shape()
    {
      && g > 0 && 2 * g <= mcuRows && 0 < height <= |image|
      && work.Length == mcuRows + 2 * g && list0.Length == list1.Length == mcuRows + 4 * g && list0 != list1
    }

    function List(w: nat): array<nat>
    {
      if w == 0 then list0 else list1
    }

    /** Row of the workspace for row r of a list. */
    function Physical(w: nat, r: nat): nat
      requires 2 * g <= mcuRows
    {
      if w == 0 || r < mcuRows - 2 * g then r else if r < mcuRows then r + 2 * g else r - 2 * g
    }

    /** The middle parts of the lists. */
    ghost predicate Core()
      requires Shape()
      reads list0, list1
    {
      && (forall i :: g <= i < mcuRows + 3 * g ==> list0[i] == Physical(0, i - g))
      && (forall i :: g <= i < mcuRows + 3 * g ==> list1[i] == Physical(1, i - g))
    }

    /** Above the first row group, row 0 again. */
    ghost predicate TopRepeated()
      requires Shape()
      reads list0
    {
      forall i :: 0 <= i < g ==> list0[i] == 0
    }

    /** Around both ends, the row groups of the other end. */
    ghost predicate Wrapped(w: nat)
      requires Shape()
      reads list0, list1
    {
      && (forall i :: 0 <= i < g ==> List(w)[i] == Physical(w, i + mcuRows + g))
      && (forall i :: mcuRows + 3 * g <= i < mcuRows + 4 * g ==> List(w)[i] == Physical(w, i - mcuRows - 3 * g))
    }

    /** The rows from left on repeat the row before. */
    ghost predicate BottomRepeated(w: nat, left: int)
      requires Shape()
      reads list0, list1
    {
      && 0 < left <= mcuRows
      && (forall i :: g <= i < left + g ==> List(w)[i] == Physical(w, i - g))
      && (forall i :: left + g <= i < left + 3 * g ==> List(w)[i] == Physical(w, left - 1))
    }

    /** The list shows the iMCU row that starts at this row of the image. */
    ghost predicate Body(w: nat, base: nat)
      requires Shape()
      reads work
    {
      base + mcuRows <= |image| && forall r :: 0 <= r < mcuRows ==> work[Physical(w, r)] == image[base + r]
    }

    /** Behind it are the last two row groups of the iMCU row before. */
    ghost predicate Tail(w: nat, base: nat)
      requires Shape()
      reads work
    {
      2 * g <= base <= |image| && forall r :: mcuRows <= r < mcuRows + 2 * g ==>
        work[Physical(w, r)] == image[base - 2 * g + (r - mcuRows)]
    }

    /** jinit_d_main_controller. */
    constructor (g: nat, m: nat, height: nat, image: seq<Row>)
      requires g > 0 && m >= 2 && 0 < height <= |image|
      ensures Shape() && mcuRows == g * m && this.g == g && this.m == m && this.height == height && this.image == image
      ensures fresh(work) && fresh(list0) && fresh(list1)
    {
      this.g, this.m, this.mcuRows, this.height, this.image := g, m, g * m, height, image;
      work := new Row[g * m + 2 * g](_ => []);
      list0, list1 := new nat[g * m + 4 * g](_ => 0), new nat[g * m + 4 * g](_ => 0);
      Scale(2, m, g);
    }

    /** make_funny_pointers: the workspace as it is, the last four row groups of the second
        list swapped, and the first row again above it in the first list. */
    method MakeFunnyPointers()
      requires Shape()
      modifies list0, list1
      ensures Core() && TopRepeated()
    {
      for i := 0 to mcuRows + 2 * g
        invariant forall k :: g <= k < g + i ==> list0[k] == k - g && list1[k] == k - g
      {
        list0[g + i] := i;
        list1[g + i] := i;
      }
      SwapGroups();
      for i := 0 to g
        invariant forall k :: 0 <= k < i ==> list0[k] == 0
        invariant forall k :: g <= k < mcuRows + 3 * g ==> list0[k] == k - g && list1[k] == Physical(1, k - g)
      {
        list0[i] := list0[g];
      }
    }

    method SwapGroups()
      requires Shape() && forall k :: g <= k < mcuRows + 3 * g ==> list1[k] == k - g
      modifies list1
      ensures forall k :: g <= k < mcuRows + 3 * g ==> list1[k] == Physical(1, k - g)
    {
      for i := 0 to 2 * g
        invariant forall k :: g <= k < mcuRows - g ==> list1[k] == k - g
        invariant forall k :: mcuRows - g <= k < mcuRows - g + i ==> list1[k] == k + g
        invariant forall k :: mcuRows + g <= k < mcuRows + g + i ==> list1[k] == k - 3 * g
      {
        list1[mcuRows - g + i] := mcuRows + i;
        list1[mcuRows + g + i] := mcuRows - 2 * g + i;
      }
    }

    /** set_wraparound_pointers. */
    method SetWraparoundPointers()
      requires Shape()
      modifies list0, list1
      ensures old(Core()) ==> Core() && Wrapped(0) && Wrapped(1)
    {
      Wrap(0);
      Wrap(1);
    }

    method Wrap(w: nat)
      requires Shape() && w <= 1
      modifies List(w)
      ensures forall i :: g <= i < mcuRows + 3 * g ==> List(w)[i] == old(List(w)[i])
      ensures (forall i :: g <= i < mcuRows + 3 * g ==> old(List(w)[i]) == Physical(w, i - g)) ==> Wrapped(w)
    {
      hide Physical;
      var list := List(w);
      ghost var was := list[..];
      for i := 0 to g
        invariant forall k :: g <= k < mcuRows + 3 * g ==> list[k] == was[k]
        invariant forall k :: 0 <= k < i ==> list[k] == was[k + mcuRows + 2 * g]
        invariant forall k :: mcuRows + 3 * g <= k < mcuRows + 3 * g + i ==> list[k] == was[k - mcuRows - 2 * g]
      {
        list[i] := list[mcuRows + 2 * g + i];
        list[mcuRows + 3 * g + i] := list[g + i];
      }
    }

    /** The second part of set_bottom_pointers: the last of the rows left, again and again. */
    method SetBottomPointers(w: nat, left: nat)
      requires Shape() && w <= 1 && Core() && 0 < left <= mcuRows
      modifies List(w)
      ensures BottomRepeated(w, left)
      ensures forall i :: 0 <= i < g || left + 3 * g <= i < List(w).Length ==> List(w)[i] == old(List(w)[i])
    {
      for i := 0 to 2 * g
        invariant forall k :: g <= k < left + g ==> List(w)[k] == Physical(w, k - g)
        invariant forall k :: left + g <= k < left + g + i ==> List(w)[k] == Physical(w, left - 1)
        invariant forall k :: 0 <= k < g || left + 3 * g <= k < List(w).Length ==> List(w)[k] == old(List(w)[k])
      {
        List(w)[g + left + i] := List(w)[g + left - 1];
      }
    }

    /** decompress_data: an iMCU row through the pointers of a list. */
    method Load(w: nat, base: nat)
      requires Shape() && w <= 1 && Core() && base + mcuRows <= |image|
      modifies work
      ensures Body(w, base) && (base >= 2 * g && old(Tail(w, base)) ==> Tail(w, base))
    {
      for r := 0 to mcuRows
        invariant forall k :: 0 <= k < r ==> work[Physical(w, k)] == image[base + k]
        invariant forall k :: mcuRows <= k < mcuRows + 2 * g ==> work[Physical(w, k)] == old(work[Physical(w, k)])
      {
        work[List(w)[g + r]] := image[base + r];
      }
    }

    /** Seen through the other list, the end of an iMCU row comes behind the next. */
    lemma OtherList(w: nat, w': nat, base: nat)
      requires Shape() && w <= 1 && w' == 1 - w && base + mcuRows <= |image| && Body(w, base)
      ensures Tail(w', base + mcuRows)
    {
      forall r | mcuRows <= r < mcuRows + 2 * g
        ensures work[Physical(w', r)] == image[base + mcuRows - 2 * g + (r - mcuRows)]
      {
        assert Physical(w', r) == Physical(w, r - 2 * g);
      }
    }

    // ----- what the postprocessor sees

    ghost predicate Points(w: nat, s: nat)
      requires Shape()
      reads list0, list1
    {
      s + 3 * g <= mcuRows + 4 * g && forall i :: s <= i < s + 3 * g ==> List(w)[i] < work.Length
    }

    /** The row group that starts at row s of a list, with the row groups above and below. */
    ghost function View(w: nat, s: nat): (v: seq<Row>)
      requires Shape() && Points(w, s)
      reads list0, list1, work
      ensures |v| == 3 * g
    {
      seq(3 * g, d requires Shape() && Points(w, s) && 0 <= d < 3 * g reads list0, list1, work => work[List(w)[s + d]])
    }

    /** The row of the image for row d of a view of the row group that starts at row t: above
        the image its first row, and below it its last one if `cut`. */
    function Source(t: nat, d: nat, cut: bool): nat
      requires Shape()
    {
      if t + d < g then 0 else if cut && t + d - g >= height then height - 1 else t + d - g
    }

    ghost predicate Shows(v: seq<Row>, t: nat, cut: bool)
      requires Shape()
    {
      |v| == 3 * g && forall d :: 0 <= d < 3 * g ==> Source(t, d, cut) < |image| && v[d] == image[Source(t, d, cut)]
    }

    /** Above the iMCU row: the first row again, or the row group before. */
    ghost predicate Above(w: nat, base: nat)
      requires Shape()
      reads list0, list1, work
    {
      if base == 0 then w == 0 && TopRepeated() else Tail(w, base) && Wrapped(w)
    }

    /** Row r above or in an iMCU row, through the list. */
    lemma Behind(w: nat, base: nat, i: nat)
      requires Shape() && w <= 1 && base + mcuRows <= |image| && Above(w, base) && Body(w, base) && i < g
      requires base == 0 ==> List(w)[g] == Physical(w, 0)
      ensures List(w)[i] < work.Length && work[List(w)[i]] == image[if base == 0 then 0 else base + i - g]
    {
      if base == 0 {
        assert Physical(w, 0) == 0;
      } else {
        assert work[Physical(w, i + mcuRows + g)] == image[base - 2 * g + (i + mcuRows + g - mcuRows)];
      }
    }

    /** A row group that is not the last of its iMCU row. */
    lemma ViewMiddle(w: nat, base: nat, s: nat)
      requires Shape() && w <= 1 && base + mcuRows <= |image| && Core() && Body(w, base) && Above(w, base) && s
        + 2 * g <= mcuRows
      ensures Points(w, s) && Shows(View(w, s), base + s, false)
    {
      forall i | s <= i < s + 3 * g
        ensures List(w)[i] < work.Length && work[List(w)[i]] == image[Source(base + s, i - s, false)]
      {
        if i < g {
          Behind(w, base, i);
        } else {
          assert work[Physical(w, i - g)] == image[base + (i - g)];
        }
      }
    }

    /** The last row group of the iMCU row before, saved behind this one. */
    lemma ViewPostponed(w: nat, base: nat)
      requires Shape() && w <= 1 && base + mcuRows <= |image| && Core() && Body(w, base) && 2 * g <= base
        && Tail(w, base) && Wrapped(w)
      ensures Points(w, mcuRows + g) && Shows(View(w, mcuRows + g), base - g, false)
    {
      forall i | mcuRows + g <= i < mcuRows + 4 * g
        ensures List(w)[i] < work.Length && work[List(w)[i]] == image[Source(base - g, i - (mcuRows + g), false)]
      {
        if i < mcuRows + 3 * g {
          assert work[Physical(w, i - g)] == image[base - 2 * g + (i - g - mcuRows)];
        } else {
          assert work[Physical(w, i - mcuRows - 3 * g)] == image[base + (i - mcuRows - 3 * g)];
        }
      }
    }

    /** A row group of the last iMCU row. */
    lemma ViewBottom(w: nat, base: nat, s: nat)
      requires Shape() && w <= 1 && base + mcuRows <= |image| && Body(w, base) && Above(w, base)
      requires base < height <= base + mcuRows && BottomRepeated(w, height - base) && base + s < height
      ensures Points(w, s) && Shows(View(w, s), base + s, true)
    {
      forall i | s <= i < s + 3 * g
        ensures List(w)[i] < work.Length && work[List(w)[i]] == image[Source(base + s, i - s, true)]
      {
        if i < g {
          Behind(w, base, i);
        } else if i - g < height - base {
          assert work[Physical(w, i - g)] == image[base + (i - g)];
        } else {
          assert work[Physical(w, height - base - 1)] == image[base + (height - base - 1)];
        }
      }
    }
  }

  lemma GroupRow(n: nat, m: nat, k: nat, g: nat)
    ensures (n * m + k) * g == n * (g * m) + k * g
  {
    assert n * m * g == n * (g * m);
  }

  lemma RowCount(groups: nat, v: nat, height: nat, q: nat, done: nat, left: nat)
    requires groups > 0 && done < v && (groups - 1) * v < height <= groups * v && height == q * v + done + left
    ensures left > 0 ==> q < groups
    ensures done == 0 && q < groups ==> left > 0
    ensures left == 0 ==> q + (if done > 0 then 1 else 0) == groups
  {
    ScaleIf(groups, q, v);
    ScaleIf(q, groups - 1, v);
    ScaleIf(q + 1, groups - 1, v);
    assert (q + 1) * v == q * v + v && (groups - 1) * v == groups * v - v;
    ScaleIf(groups + 1, q, v);
    assert (groups + 1) * v == groups * v + v;
  }

  datatype ContextState = PrepareForIMCU | ProcessIMCU | PostponedRow

  class ContextMain {
    const m: nat
    const comps: seq<ContextBuffer>
    const totalIMCURows: nat
    // Row groups that hold rows of the image, and output rows of each.
    const groups: nat
    const vSamp: nat
    const outputHeight: nat
    var bufferFull: bool
    var rowgroupCtr: nat
    var whichptr: nat
    var contextState: ContextState
    var rowgroupsAvail: nat
    var iMCURowCtr: nat
    // The postprocessor: rows returned of the current row group, rows left in the image, and
    // room for rows in the output buffer.
    var rowsDone: nat
    var rowsToGo: nat
    var room: nat
    // What it has seen of each component when it first used each row group.
    ghost var log: seq<seq<seq<Row>>>

    /** The components cover the same row groups: height is rounded up to the same number. */
    ghost predicate Geometry()
    {
      && comps != [] && m >= 2 && vSamp > 0 && totalIMCURows > 0
      && (totalIMCURows - 1) * m < groups <= totalIMCURows * m
      && (forall c :: 0 <= c < |comps| ==> CompFits(comps[c]))
      && Separate()
    }

    ghost predicate CompFits(b: ContextBuffer)
    {
      && b.Shape() && b.m == m && b.mcuRows == b.g * m && |b.image| == totalIMCURows * b.mcuRows
      && DivRoundUp(b.height, b.g) == groups
    }

    ghost predicate Separate()
    {
      forall c, d :: 0 <= c < d < |comps| ==>
        && comps[c].work != comps[d].work && comps[c].list0 != comps[d].list0 && comps[c].list1 != comps[d].list1
        && comps[c].list0 != comps[d].list1 && comps[c].list1 != comps[d].list0
    }

    ghost function Arrays(): set<object>
    {
      (set c | 0 <= c < |comps| :: comps[c].work as object) + (set c | 0 <= c < |comps| :: comps[c].list0 as object)
      + (set c | 0 <= c < |comps| :: comps[c].list1 as object)
    }

    /** Where the image ends in a component. */
    lemma Extent(b: ContextBuffer)
      requires Geometry() && CompFits(b)
      ensures (totalIMCURows - 1) * b.mcuRows < b.height <= totalIMCURows * b.mcuRows
      ensures totalIMCURows * b.mcuRows == (totalIMCURows - 1) * b.mcuRows + b.mcuRows
    {
      RoundUpIs(b.height, b.g, groups);
      Scale((totalIMCURows - 1) * m, groups - 1, b.g);
      Scale(groups, totalIMCURows * m, b.g);
      GroupRow(totalIMCURows - 1, m, 0, b.g);
      GroupRow(totalIMCURows, m, 0, b.g);
    }

    lemma Base(b: ContextBuffer, n: nat)
      requires Geometry() && CompFits(b) && n < totalIMCURows
      ensures n * b.mcuRows + b.mcuRows <= |b.image| && (n > 0 ==> b.mcuRows <= n * b.mcuRows)
      ensures n < totalIMCURows - 1 ==> n * b.mcuRows + b.mcuRows < b.height
      ensures (n + 1) * b.mcuRows == n * b.mcuRows + b.mcuRows
    {
      Extent(b);
      Scale(n + 1, totalIMCURows, b.mcuRows);
      assert (n + 1) * b.mcuRows == n * b.mcuRows + b.mcuRows;
      ScaleIf(1, n, b.mcuRows);
      ScaleIf(n + 1, totalIMCURows - 1, b.mcuRows);
    }

    /** The row groups of the last iMCU row are those that hold rows left. */
    lemma LastGroups(b: ContextBuffer, k: nat)
      requires Geometry() && CompFits(b)
      ensures var left := b.height - (totalIMCURows - 1) * b.mcuRows;
              && left == Remainder(b.height, b.mcuRows) && (left - 1) / b.g + 1 == groups - (totalIMCURows - 1) * m
              && (k < groups - (totalIMCURows - 1) * m ==> (totalIMCURows - 1) * b.mcuRows + k * b.g < b.height)
    {
      Extent(b);
      var n := totalIMCURows - 1;
      var left, q := b.height - n * b.mcuRows, groups - n * m;
      RemainderIs(b.height, b.mcuRows, totalIMCURows);
      RoundUpIs(b.height, b.g, groups);
      GroupRow(n, m, q, b.g);
      GroupRow(n, m, q - 1, b.g);
      RoundUpIs(left, b.g, q);
      assert (left + b.g - 1) / b.g == (left - 1) / b.g + 1 by { OneMore(left - 1, b.g); }
      ScaleIf(k, q - 1, b.g);
    }

    lemma OneMore(x: nat, g: nat)
      requires g > 0
      ensures (x + g) / g == x / g + 1
    {
      assert (x / g + 1) * g == x / g * g + g;
      QuotientIs(x + g, g, x / g + 1, x % g);
    }

    // ----- the states between calls

    /** Row groups consumed. */
    ghost function Current(): int
      reads `bufferFull, `iMCURowCtr, `contextState, `rowgroupCtr
    {
      if !bufferFull then
        if iMCURowCtr == 0 then 0 else if iMCURowCtr < totalIMCURows then iMCURowCtr * m - 1 else groups
      else match contextState
        case PrepareForIMCU => (iMCURowCtr - 1) * m
        case ProcessIMCU => (iMCURowCtr - 1) * m + rowgroupCtr
        case PostponedRow => (iMCURowCtr - 1) * m - 1
    }

    /** What a component's buffer holds while iMCU row n is in it. */
    ghost predicate Holds(b: ContextBuffer, n: int, bottom: bool)
      requires b.Shape() && totalIMCURows > 0
      reads `whichptr, b.work, b.list0, b.list1
    {
      && n >= 0 && b.Body(whichptr, n * b.mcuRows) && b.Above(whichptr, n * b.mcuRows)
      && if bottom then b.BottomRepeated(whichptr, b.height - n * b.mcuRows)
         else b.Core() && (n > 0 ==> b.Wrapped(0) && b.Wrapped(1))
    }

    /** The counters. */
    ghost predicate Counts()
      reads `bufferFull, `iMCURowCtr, `contextState, `rowgroupCtr, `rowgroupsAvail, `whichptr, `rowsDone
    {
      && Geometry() && whichptr <= 1 && iMCURowCtr <= totalIMCURows && rowsDone < vSamp
      && if !bufferFull then
           && rowsDone == 0
           && if iMCURowCtr == 0 then contextState.PrepareForIMCU? && whichptr == 0
              else contextState.PostponedRow? && rowgroupCtr == m + 1 && rowgroupsAvail == m + 2
         else
           && iMCURowCtr > 0
           && match contextState
              case PrepareForIMCU => rowsDone == 0
              case PostponedRow => iMCURowCtr > 1 && rowgroupCtr == m + 1 && rowgroupsAvail == m + 2
              case ProcessIMCU => rowgroupCtr < rowgroupsAvail == Available()
    }

    /** Row groups of an iMCU row to process before the next is loaded. */
    ghost function Available(): int
      reads `iMCURowCtr
    {
      if iMCURowCtr == totalIMCURows then groups - (totalIMCURows - 1) * m else m - 1
    }

    /** The row groups seen so far are the first ones of the image, each with its context. */
    ghost predicate LogOk()
      requires Geometry()
      reads `log
    {
      forall q :: 0 <= q < |log| ==> Seen(q, log[q])
    }

    ghost predicate Seen(q: nat, views: seq<seq<Row>>)
      requires Geometry()
    {
      |views| == |comps| && forall c :: 0 <= c < |comps| ==>
        CompFits(comps[c]) && comps[c].Shows(views[c], q * comps[c].g, q >= (totalIMCURows - 1) * m)
    }

    /** What the postprocessor finds at a row group: all components with their context. */
    ghost predicate Visible(k: nat, q: nat)
      requires Geometry()
      reads `whichptr, set c | 0 <= c < |comps| :: comps[c].work, set c | 0 <= c < |comps| :: comps[c].list0,
            set c | 0 <= c < |comps| :: comps[c].list1
    {
      forall c :: 0 <= c < |comps| ==>
        && CompFits(comps[c]) && comps[c].Points(whichptr, k * comps[c].g)
        && comps[c].Shows(comps[c].View(whichptr, k * comps[c].g), q * comps[c].g, q >= (totalIMCURows - 1) * m)
    }

    lemma Views(k: nat, q: nat) returns (v: seq<seq<Row>>)
      requires Geometry() && Visible(k, q)
      ensures Seen(q, v)
    {
      hide ContextBuffer.Shows, ContextBuffer.View;
      v := [];
      for c := 0 to |comps|
        invariant |v| == c
        invariant forall d :: 0 <= d < c ==>
          CompFits(comps[d]) && comps[d].Shows(v[d], q * comps[d].g, q >= (totalIMCURows - 1) * m)
      {
        v := v + [comps[c].View(whichptr, k * comps[c].g)];
      }
    }

    /** post_process_data: rows from the current row group q, as many as there is room for. */
    method PostProcess(ghost q: nat)
      requires Geometry() && rowsDone < vSamp && room > 0 && rowsToGo > 0 && Visible(rowgroupCtr, q)
      requires LogOk() && |log| == q + if rowsDone > 0 then 1 else 0
      modifies `rowsDone, `rowsToGo, `room, `rowgroupCtr, `log
      ensures rowsDone < vSamp && LogOk()
      ensures rowgroupCtr == old(rowgroupCtr) + if rowsDone == 0 then 1 else 0
      ensures |log| == q + 1
      ensures (rowgroupCtr - old(rowgroupCtr)) * vSamp + rowsDone == old(rowsDone) + (old(rowsToGo) - rowsToGo)
      ensures rowsToGo < old(rowsToGo) && (rowsDone > 0 ==> room == 0 || rowsToGo == 0)
    {
      if rowsDone == 0 {
        ghost var views := Views(rowgroupCtr, q);
        log := log + [views];
      }
      var num := Least(Least(vSamp - rowsDone, rowsToGo), room);
      rowsDone, rowsToGo, room := rowsDone + num, rowsToGo - num, room - num;
      if rowsDone == vSamp {
        rowsDone, rowgroupCtr := 0, rowgroupCtr + 1;
      }
    }

    // ----- the components together

    ghost predicate AllHold(n: int, bottom: bool)
      requires Geometry()
      reads `whichptr, set c | 0 <= c < |comps| :: comps[c].work, set c | 0 <= c < |comps| :: comps[c].list0,
            set c | 0 <= c < |comps| :: comps[c].list1
    {
      forall c :: 0 <= c < |comps| ==> CompFits(comps[c]) && Holds(comps[c], n, bottom)
    }

    lemma ShownPostponed(b: ContextBuffer, n: nat)
      requires Geometry() && CompFits(b) && whichptr <= 1 && 0 < n < totalIMCURows && Holds(b, n, false) && n * m >= 1
      ensures b.Points(whichptr, (m + 1) * b.g) && b.Shows(b.View(whichptr, (m + 1) * b.g), (n * m - 1) * b.g, false)
    {
      Base(b, n);
      b.ViewPostponed(whichptr, n * b.mcuRows);
      GroupRow(n, m, 0, b.g);
      assert (m + 1) * b.g == b.mcuRows + b.g;
      assert (n * m - 1) * b.g == n * m * b.g - b.g;
    }

    /** A postponed row group: the last of the iMCU row before. */
    lemma VisiblePostponed(n: nat)
      requires Geometry() && whichptr <= 1 && 0 < n < totalIMCURows && AllHold(n, false)
      ensures n * m >= 1 && n * m - 1 < (totalIMCURows - 1) * m && Visible(m + 1, n * m - 1)
    {
      hide Holds, ContextBuffer.Shows, ContextBuffer.Points, ContextBuffer.View;
      Scale(1, n, m);
      Scale(n, totalIMCURows - 1, m);
      forall c | 0 <= c < |comps|
        ensures CompFits(comps[c]) && comps[c].Points(whichptr, (m + 1) * comps[c].g)
        ensures comps[c].Shows(comps[c].View(whichptr, (m + 1) * comps[c].g), (n * m - 1) * comps[c].g, false)
      {
        ShownPostponed(comps[c], n);
      }
    }

    lemma ShownMiddle(b: ContextBuffer, n: nat, k: nat)
      requires Geometry() && CompFits(b) && whichptr <= 1 && n < totalIMCURows && Holds(b, n, false) && k < m - 1
      ensures b.Points(whichptr, k * b.g) && b.Shows(b.View(whichptr, k * b.g), (n * m + k) * b.g, false)
    {
      Base(b, n);
      GroupRow(n, m, k, b.g);
      Scale(k + 2, m, b.g);
      assert (k + 2) * b.g == k * b.g + 2 * b.g;
      b.ViewMiddle(whichptr, n * b.mcuRows, k * b.g);
    }

    lemma ShownBottom(b: ContextBuffer, n: nat, k: nat)
      requires Geometry() && CompFits(b) && whichptr <= 1 && n == totalIMCURows - 1 && Holds(b, n, true)
      requires k < groups - (totalIMCURows - 1) * m
      ensures b.Points(whichptr, k * b.g) && b.Shows(b.View(whichptr, k * b.g), (n * m + k) * b.g, true)
    {
      Base(b, n);
      GroupRow(n, m, k, b.g);
      Extent(b);
      LastGroups(b, k);
      b.ViewBottom(whichptr, n * b.mcuRows, k * b.g);
    }

    /** A row group of the iMCU row in the buffer, not its last but in the last iMCU row. */
    lemma VisibleNow(n: nat, k: nat)
      requires Geometry() && whichptr <= 1 && n < totalIMCURows && AllHold(n, n == totalIMCURows - 1)
      requires k < if n == totalIMCURows - 1 then groups - (totalIMCURows - 1) * m else m - 1
      ensures Visible(k, n * m + k)
    {
      hide Holds, ContextBuffer.Shows, ContextBuffer.Points, ContextBuffer.View;
      BandOf(n, k);
      forall c | 0 <= c < |comps|
        ensures CompFits(comps[c]) && comps[c].Points(whichptr, k * comps[c].g)
        ensures comps[c].Shows(comps[c].View(whichptr, k * comps[c].g), (n * m + k) * comps[c].g, n
          == totalIMCURows - 1)
      {
        if n == totalIMCURows - 1 {
          ShownBottom(comps[c], n, k);
        } else {
          ShownMiddle(comps[c], n, k);
        }
      }
    }

    lemma BandOf(n: nat, k: nat)
      requires Geometry() && n < totalIMCURows && (n < totalIMCURows - 1 ==> k < m)
      ensures n * m + k >= (totalIMCURows - 1) * m <==> n == totalIMCURows - 1
    {
      if n < totalIMCURows - 1 {
        Scale(n + 1, totalIMCURows - 1, m);
        assert (n + 1) * m == n * m + m;
      }
    }

    /** Between iMCU rows: the wraparound pointers, and the end of the row before behind. */
    ghost predicate Waits(b: ContextBuffer, w: nat, n: nat)
      requires b.Shape()
      reads b.work, b.list0, b.list1
    {
      b.Core() && if n == 0 then w == 0 && b.TopRepeated() else b.Wrapped(0) && b.Wrapped(1) && b.Tail(w, n * b.mcuRows)
    }

    ghost predicate AllWait(w: nat, n: nat)
      requires Geometry()
      reads set c | 0 <= c < |comps| :: comps[c].work, set c | 0 <= c < |comps| :: comps[c].list0,
            set c | 0 <= c < |comps| :: comps[c].list1
    {
      forall c :: 0 <= c < |comps| ==> CompFits(comps[c]) && Waits(comps[c], w, n)
    }

    method MakeAll()
      requires Geometry() && whichptr == 0
      modifies set c | 0 <= c < |comps| :: comps[c].list0, set c | 0 <= c < |comps| :: comps[c].list1
      ensures AllWait(0, 0)
    {
      for c := 0 to |comps|
        invariant forall d :: 0 <= d < c ==> Waits(comps[d], 0, 0)
      {
        comps[c].MakeFunnyPointers();
      }
    }

    /** decompress_data: the planes of iMCU row n. */
    method LoadAll(n: nat)
      requires Geometry() && whichptr <= 1 && n < totalIMCURows && AllWait(whichptr, n)
      modifies set c | 0 <= c < |comps| :: comps[c].work
      ensures AllHold(n, false)
    {
      hide Holds, Waits, CompFits, ContextBuffer.Shape;
      Fitting();
      ghost var w := whichptr;
      for c := 0 to |comps|
        invariant forall d :: 0 <= d < c ==> Holds(comps[d], n, false)
        invariant forall d :: c <= d < |comps| ==> Waits(comps[d], w, n)
      {
        LoadOne(comps[c], n);
      }
    }

    method LoadOne(b: ContextBuffer, n: nat)
      requires Geometry() && CompFits(b) && whichptr <= 1 && n < totalIMCURows && Waits(b, whichptr, n)
      modifies b.work
      ensures Holds(b, n, false)
    {
      Base(b, n);
      b.Load(whichptr, n * b.mcuRows);
    }

    /** set_bottom_pointers: also sets the number of row groups that hold rows of the image. */
    method SetBottomAll()
      requires Geometry() && whichptr <= 1 && AllHold(totalIMCURows - 1, false)
      modifies `rowgroupsAvail, set c | 0 <= c < |comps| :: comps[c].list0, set c | 0 <= c < |comps| :: comps[c].list1
      ensures rowgroupsAvail == groups - (totalIMCURows - 1) * m && AllHold(totalIMCURows - 1, true)
    {
      hide Holds, Waits, CompFits, ContextBuffer.Shape;
      Fitting();
      ghost var n := totalIMCURows - 1;
      for c := 0 to |comps|
        invariant c > 0 ==> rowgroupsAvail == groups - (totalIMCURows - 1) * m
        invariant forall d :: 0 <= d < c ==> Holds(comps[d], n, true)
        invariant forall d :: c <= d < |comps| ==> Holds(comps[d], n, false)
      {
        var avail := BottomOne(comps[c]);
        if c == 0 {
          rowgroupsAvail := avail;
        }
      }
    }

    lemma Fitting()
      requires Geometry()
      ensures forall c :: 0 <= c < |comps| ==> CompFits(comps[c]) && comps[c].Shape()
    {
    }

    method BottomOne(b: ContextBuffer) returns (avail: nat)
      requires Geometry() && CompFits(b) && whichptr <= 1 && Holds(b, totalIMCURows - 1, false)
      modifies b.list0, b.list1
      ensures Holds(b, totalIMCURows - 1, true) && avail == groups - (totalIMCURows - 1) * m
    {
      LastGroups(b, 0);
      Extent(b);
      var left := if b.height % b.mcuRows == 0 then b.mcuRows else b.height % b.mcuRows;
      b.SetBottomPointers(whichptr, left);
      avail := (left - 1) / b.g + 1;
    }

    /** After the first iMCU row set_wraparound_pointers, and then the other list; after the
        last one nothing is left to be shown. */
    method SwitchAll(n: nat, ghost last: bool)
      requires Geometry() && whichptr <= 1 && last == (n == totalIMCURows - 1) && n < totalIMCURows && AllHold(n, last)
      modifies `whichptr, set c | 0 <= c < |comps| :: comps[c].list0, set c | 0 <= c < |comps| :: comps[c].list1
      ensures whichptr == 1 - old(whichptr) && (!last ==> AllWait(whichptr, n + 1))
    {
      hide Holds, Waits, CompFits, ContextBuffer.Shape;
      Fitting();
      ghost var w := whichptr;
      ghost var w', next := 1 - w, n + 1;
      for c := 0 to |comps|
        invariant whichptr == w
        invariant forall d :: 0 <= d < c && !last ==> Waits(comps[d], w', next)
        invariant forall d :: c <= d < |comps| ==> Holds(comps[d], n, last)
      {
        SwitchOne(comps[c], n, w', last);
      }
      assert !last ==> AllWait(w', next);
      whichptr := 1 - whichptr;
    }

    method SwitchOne(b: ContextBuffer, n: nat, ghost w': nat, ghost last: bool)
      requires Geometry() && CompFits(b) && whichptr <= 1 && n < totalIMCURows && Holds(b, n, last) && w'
        == 1 - whichptr
      modifies b.list0, b.list1
      ensures !last ==> Waits(b, w', n + 1)
    {
      Base(b, n);
      b.OtherList(whichptr, w', n * b.mcuRows);
      if n == 0 {
        b.SetWraparoundPointers();
      }
    }

    /** Rows returned are those of the first q row groups and rowsDone of the next; the row
        groups used are in the log. */
    ghost predicate Accounts(q: int)
      requires Geometry()
      reads `rowsDone, `rowsToGo, `log
    {
      && q >= 0 && rowsDone < vSamp && (groups - 1) * vSamp < outputHeight <= groups * vSamp
      && rowsToGo <= outputHeight && outputHeight - rowsToGo == q * vSamp + rowsDone
      && LogOk() && |log| == q + if rowsDone > 0 then 1 else 0
    }

    ghost predicate Valid()
      reads this, set c | 0 <= c < |comps| :: comps[c].work, set c | 0 <= c < |comps| :: comps[c].list0,
            set c | 0 <= c < |comps| :: comps[c].list1
    {
      && Counts() && Accounts(Current())
      && if !bufferFull then iMCURowCtr < totalIMCURows ==> AllWait(whichptr, iMCURowCtr)
         else AllHold(iMCURowCtr - 1, contextState.ProcessIMCU? && iMCURowCtr == totalIMCURows)
    }

    /** There are rows left exactly before the end of the last row group. */
    lemma RowsLeft(q: int)
      requires Geometry() && Accounts(q)
      ensures rowsToGo > 0 ==> q < groups
      ensures rowsDone == 0 && q < groups ==> rowsToGo > 0
      ensures rowsToGo == 0 ==> |log| == groups
    {
      RowCount(groups, vSamp, outputHeight, q, rowsDone, rowsToGo);
    }

    /** One call of the postprocessor at row group q. */
    method Feed(ghost q: nat)
      requires Geometry() && Accounts(q) && room > 0 && rowsToGo > 0 && Visible(rowgroupCtr, q)
      modifies `rowsDone, `rowsToGo, `room, `rowgroupCtr, `log
      ensures rowsToGo < old(rowsToGo)
      ensures if rowsDone == 0 then rowgroupCtr == old(rowgroupCtr) + 1 && Accounts(q + 1)
              else rowgroupCtr == old(rowgroupCtr) && Accounts(q) && (room == 0 || rowsToGo == 0)
    {
      assert (q + 1) * vSamp == q * vSamp + vSamp;
      PostProcess(q);
    }

    // ----- process_data_context_main

    /** Reads an iMCU row if the buffer is empty. */
    method Fill()
      requires Valid() && rowsToGo > 0
      modifies `bufferFull, `iMCURowCtr, set c | 0 <= c < |comps| :: comps[c].work
      ensures Valid() && bufferFull
    {
      hide Holds, Waits, CompFits, LogOk;
      RowsLeft(Current());
      if !bufferFull {
        LoadAll(iMCURowCtr);
        bufferFull := true;
        iMCURowCtr := iMCURowCtr + 1;
      }
    }

    /** The postponed row group: whether to go on with the iMCU row in the buffer. */
    method Postponed() returns (on: bool)
      requires Valid() && bufferFull && contextState.PostponedRow? && room > 0 && rowsToGo > 0
      modifies `contextState, `rowsDone, `rowsToGo, `room, `rowgroupCtr, `log
      ensures Valid() && rowsToGo < old(rowsToGo)
      ensures on ==> contextState.PrepareForIMCU? && room > 0 && rowsToGo > 0
    {
      hide Holds, CompFits, LogOk;
      VisiblePostponed(iMCURowCtr - 1);
      Feed((iMCURowCtr - 1) * m - 1);
      if rowgroupCtr < rowgroupsAvail {
        return false;
      }
      contextState := PrepareForIMCU;
      RowsLeft((iMCURowCtr - 1) * m);
      Scale(iMCURowCtr - 1, totalIMCURows - 1, m);
      on := room > 0;
    }

    /** Prepares for the row groups of the iMCU row in the buffer. */
    method Prepare()
      requires Valid() && bufferFull && contextState.PrepareForIMCU?
      modifies `rowgroupCtr, `rowgroupsAvail, `contextState
      modifies set c | 0 <= c < |comps| :: comps[c].list0, set c | 0 <= c < |comps| :: comps[c].list1
      ensures Valid() && contextState.ProcessIMCU?
    {
      hide Holds, CompFits, LogOk;
      rowgroupCtr := 0;
      rowgroupsAvail := m - 1;
      if iMCURowCtr == totalIMCURows {
        SetBottomAll();
      }
      contextState := ProcessIMCU;
    }

    /** A row group of the iMCU row in the buffer, and the change to the next iMCU row after
        the last but one, or the last in the image. */
    method Process()
      requires Valid() && bufferFull && contextState.ProcessIMCU? && room > 0 && rowsToGo > 0
      modifies `rowsDone, `rowsToGo, `room, `rowgroupCtr, `log, `contextState, `bufferFull, `whichptr, `rowgroupsAvail
      modifies set c | 0 <= c < |comps| :: comps[c].list0, set c | 0 <= c < |comps| :: comps[c].list1
      ensures Valid() && rowsToGo < old(rowsToGo)
    {
      hide Holds, Waits, CompFits, LogOk;
      VisibleNow(iMCURowCtr - 1, rowgroupCtr);
      Feed((iMCURowCtr - 1) * m + rowgroupCtr);
      if rowgroupCtr < rowgroupsAvail {
        return;
      }
      Next();
    }

    /** Prepares to load the next iMCU row through the other list. */
    method Next()
      requires Geometry() && whichptr <= 1 && 0 < iMCURowCtr <= totalIMCURows && rowsDone == 0
      requires AllHold(iMCURowCtr - 1, iMCURowCtr == totalIMCURows) && Accounts((iMCURowCtr - 1) * m + Available())
      modifies `rowgroupCtr, `contextState, `bufferFull, `whichptr, `rowgroupsAvail
      modifies set c | 0 <= c < |comps| :: comps[c].list0, set c | 0 <= c < |comps| :: comps[c].list1
      ensures Valid()
    {
      hide Holds, Waits, CompFits, LogOk, Geometry;
      SwitchAll(iMCURowCtr - 1, iMCURowCtr == totalIMCURows);
      bufferFull := false;
      rowgroupCtr := m + 1;
      rowgroupsAvail := m + 2;
      contextState := PostponedRow;
      NextRow();
    }

    lemma NextRow()
      requires Geometry() && !bufferFull && 0 < iMCURowCtr <= totalIMCURows
      ensures (iMCURowCtr - 1) * m + Available() == Current()
    {
      assert iMCURowCtr * m == (iMCURowCtr - 1) * m + m;
    }

    /** process_data_context_main: one call with room for rows of output. */
    method ProcessData(outRows: nat)
      requires Valid() && rowsToGo > 0 && outRows > 0
      modifies this, set c | 0 <= c < |comps| :: comps[c].work
      modifies set c | 0 <= c < |comps| :: comps[c].list0, set c | 0 <= c < |comps| :: comps[c].list1
      ensures Valid() && rowsToGo < old(rowsToGo)
    {
      hide AllHold, AllWait, Accounts, Counts, Geometry;
      room := outRows;
      Fill();
      if contextState.PostponedRow? {
        var on := Postponed();
        if !on {
          return;
        }
      }
      if contextState.PrepareForIMCU? {
        Prepare();
      }
      Process();
    }

    /** jinit_d_main_controller and start_pass_main, for components with their workspaces. */
    constructor (m: nat, comps: seq<ContextBuffer>, totalIMCURows: nat, groups: nat, vSamp: nat, outputHeight: nat)
      ensures this.m == m && this.comps == comps && this.totalIMCURows == totalIMCURows && this.groups == groups
      ensures this.vSamp == vSamp && this.outputHeight == outputHeight
      ensures !bufferFull && contextState == PrepareForIMCU && whichptr == 0 && iMCURowCtr == 0
      ensures rowsDone == 0 && rowsToGo == outputHeight && log == []
    {
      this.m, this.comps, this.totalIMCURows, this.groups := m, comps, totalIMCURows, groups;
      this.vSamp, this.outputHeight := vSamp, outputHeight;
      bufferFull, rowgroupCtr, whichptr, contextState, rowgroupsAvail, iMCURowCtr := false, 0, 0, PrepareForIMCU, 0, 0;
      rowsDone, rowsToGo, room, log := 0, outputHeight, 0, [];
    }
  }

  /** The output of an image, with any chopping of the output buffer: row groups are used
      once each and in order, every one between its neighbours. */
  method ReadAll(main: ContextMain, requests: seq<nat>)
    requires main.Geometry() && (main.groups - 1) * main.vSamp < main.outputHeight <= main.groups * main.vSamp
    requires !main.bufferFull && main.contextState == PrepareForIMCU && main.whichptr == 0 && main.iMCURowCtr == 0
    requires main.rowsDone == 0 && main.rowsToGo == main.outputHeight && main.log == []
    requires forall i :: 0 <= i < |requests| ==> requests[i] > 0
    modifies main, set c | 0 <= c < |main.comps| :: main.comps[c].work
    modifies set c | 0 <= c < |main.comps| :: main.comps[c].list0, set c | 0 <= c < |main.comps| :: main.comps[c].list1
    ensures main.LogOk() && |main.log| <= main.groups
    ensures |requests| >= main.outputHeight ==> |main.log| == main.groups
  {
    hide ContextMain.AllHold, ContextMain.AllWait, ContextMain.Geometry;
    main.MakeAll();
    Begin(main);
    var i := 0;
    while i < |requests| && main.rowsToGo > 0
      invariant i <= |requests| && main.Valid() && main.rowsToGo + i <= main.outputHeight
    {
      main.ProcessData(requests[i]);
      i := i + 1;
    }
    End(main);
  }

  lemma Begin(main: ContextMain)
    requires main.Geometry() && (main.groups - 1) * main.vSamp < main.outputHeight <= main.groups * main.vSamp
    requires !main.bufferFull && main.contextState == PrepareForIMCU && main.whichptr == 0 && main.iMCURowCtr == 0
    requires main.rowsDone == 0 && main.rowsToGo == main.outputHeight && main.log == [] && main.AllWait(0, 0)
    ensures main.Valid()
  {
    hide ContextMain.Waits;
  }

  lemma End(main: ContextMain)
    requires main.Valid()
    ensures main.Geometry() && main.LogOk() && |main.log| <= main.groups
    ensures main.rowsToGo == 0 ==> |main.log| == main.groups
  {
    hide ContextMain.AllHold, ContextMain.AllWait, ContextMain.LogOk;
    main.RowsLeft(main.Current());
  }

  /** Row d of the row group at row t with its context, ideally: the image ends in copies of
      its first and last rows. */
  function Ideal(b: ContextBuffer, t: nat, d: nat): nat
    requires b.Shape()
  {
    if t + d < b.g then 0 else if t + d - b.g >= b.height then b.height - 1 else t + d - b.g
  }

  /** That is the row of the image nearest to where context is wanted. */
  lemma IdealIsNearest(b: ContextBuffer, t: nat, d: nat, i: nat)
    requires b.Shape() && i < b.height
    ensures var want := t + d - b.g;
            Ideal(b, t, d) < b.height && Distance(Ideal(b, t, d), want) <= Distance(i, want)
  {
  }

  /** In every row group seen, the rows just above and just below it are its neighbours in
      the image, or the first and the last row again at the ends of the image, and its own
      rows are its own; so is all the context of one row group above. */
  lemma Neighbours(main: ContextMain, q: nat, c: nat)
    requires main.Geometry() && main.LogOk() && q < |main.log| <= main.groups && c < |main.comps|
    ensures var b := main.comps[c];
            && main.CompFits(b) && |main.log[q]| == |main.comps| && |main.log[q][c]| == 3 * b.g
            && forall d :: 0 <= d <= 2 * b.g ==>
                 Ideal(b, q * b.g, d) < |b.image| && main.log[q][c][d] == b.image[Ideal(b, q * b.g, d)]
  {
    assert main.Seen(q, main.log[q]);
    Inside(main, q, c);
  }

  lemma Inside(main: ContextMain, q: nat, c: nat)
    requires main.Geometry() && q < main.groups && c < |main.comps|
    ensures main.CompFits(main.comps[c]) && q * main.comps[c].g < main.comps[c].height
    ensures q < (main.totalIMCURows - 1) * main.m ==> q * main.comps[c].g + main.comps[c].g < main.comps[c].height
  {
    var b, n := main.comps[c], main.totalIMCURows - 1;
    assert main.CompFits(b);
    main.Extent(b);
    RoundUpIs(b.height, b.g, main.groups);
    Scale(q, main.groups - 1, b.g);
    GroupRow(n, main.m, 0, b.g);
    ScaleIf(q + 1, n * main.m, b.g);
    assert (q + 1) * b.g == q * b.g + b.g;
  }

  /** Below it a whole row group of context is right exactly if the row group is in the last
      iMCU row, or no padding row is shown: the pointers are set for the bottom of the image
      only after the postponed row group has been used. */
  lemma WholeContext(b: ContextBuffer, t: nat, cut: bool)
    requires b.Shape() && t < b.height && (!cut ==> t + b.g < b.height)
    ensures (forall d :: 0 <= d < 3 * b.g ==> b.Source(t, d, cut) == Ideal(b, t, d)) <==> cut || t + 2 * b.g <= b.height
  {
    if !cut && t + 2 * b.g > b.height {
      assert b.Source(t, 3 * b.g - 1, cut) != Ideal(b, t, 3 * b.g - 1);
    }
  }

  /** It is not if the last iMCU row holds fewer rows than a row group. */
  lemma PaddingShown(main: ContextMain, c: nat)
    requires main.Geometry() && c < |main.comps| && main.totalIMCURows > 1
    ensures main.CompFits(main.comps[c])
    ensures var b, n := main.comps[c], main.totalIMCURows - 1;
            b.height - n * b.mcuRows < b.g ==>
              var t := (n * main.m - 1) * b.g;
              n * main.m >= 1 && b.Source(t, 3 * b.g - 1, false) != Ideal(b, t, 3 * b.g - 1)
  {
    var b, n := main.comps[c], main.totalIMCURows - 1;
    assert main.CompFits(b);
    main.Extent(b);
    Scale(1, n, main.m);
    GroupRow(n, main.m, 0, b.g);
    assert (n * main.m - 1) * b.g == n * main.m * b.g - b.g;
  }
}
