/** Upsampling as jdmaster.c and jdmainct.c see it: row groups go in, rows of the image come
    out, as many at a time as the application asks for. */
module Upsampling {
  import opened Bytes
  import opened ColorConversion

  type Row = seq<byte>

  /** A row group with chroma at half the horizontal resolution: one or two rows of
      luminance, one of each chroma component. */
  datatype Group = Group(y: seq<Row>, cb: Row, cr: Row)
  {
    /** Wide enough for w pixels, with v rows of luminance. */
    ghost predicate Valid(w: nat, v: nat)
    {
      |y| == v && (forall k :: 0 <= k < v ==> w <= |y[k]|) && (w + 1) / 2 <= |cb| && (w + 1) / 2 <= |cr|
    }
  }

  /** Box filter: every sample is used for two columns. */
  function Box(row: Row, w: nat): (r: Row)
    requires (w + 1) / 2 <= |row|
    ensures |r| == w && forall x :: 0 <= x < w ==> r[x] == row[x / 2]
  {
    seq(w, x requires 0 <= x < w => row[x / 2])
  }

  /** The rows of the image from one row group: box upsampling, then colour conversion. */
  function GroupRows(g: Group, w: nat): (rows: seq<Row>)
    requires g.Valid(w, |g.y|)
    ensures |rows| == |g.y|
    ensures forall k :: 0 <= k < |rows| ==> rows[k] == Convert(g.y[k], Box(g.cb, w), Box(g.cr, w), w)
  {
    seq(|g.y|, k requires 0 <= k < |g.y| => Convert(g.y[k], Box(g.cb, w), Box(g.cr, w), w))
  }

  ghost predicate Wide(groups: seq<Group>, w: nat)
  {
    forall i :: 0 <= i < |groups| ==> groups[i].Valid(w, |groups[i].y|)
  }

  ghost predicate AllValid(groups: seq<Group>, w: nat, v: nat)
  {
    forall i :: 0 <= i < |groups| ==> groups[i].Valid(w, v)
  }

  function Image(groups: seq<Group>, w: nat): seq<Row>
    requires Wide(groups, w)
  {
    if groups == [] then [] else GroupRows(groups[0], w) + Image(groups[1..], w)
  }

  /** Row k of row group g is row v * g + k of the image. */
  lemma {:induction false} ImageAt(groups: seq<Group>, w: nat, v: nat, g: nat, k: nat)
    requires AllValid(groups, w, v) && g < |groups| && k < v
    ensures v * g + k < |Image(groups, w)| && Image(groups, w)[v * g + k] == GroupRows(groups[g], w)[k]
    decreases g
  {
    if g > 0 {
      ImageAt(groups[1..], w, v, g - 1, k);
      assert v * g == v + v * (g - 1);
    }
  }

  lemma {:induction false} ImageLength(groups: seq<Group>, w: nat, v: nat)
    requires AllValid(groups, w, v)
    ensures |Image(groups, w)| == v * |groups|
  {
    if groups != [] {
      ImageLength(groups[1..], w, v);
      assert v * |groups| == v + v * |groups[1..]|;
    }
  }

  /** Pixel x of row k of row group g, in full: red, green and blue from the luminance sample
      there and from the chroma samples of the pair of columns it is in. */
  lemma PixelOf(groups: seq<Group>, w: nat, v: nat, g: nat, k: nat, x: nat, s: nat)
    requires AllValid(groups, w, v) && g < |groups| && k < v && x < w && (x == 2 * s || x == 2 * s + 1)
    ensures v * g + k < |Image(groups, w)| && |Image(groups, w)[v * g + k]| == 3 * w
    ensures PixelIs(Image(groups, w)[v * g + k], x, groups[g].y[k][x], groups[g].cb[s], groups[g].cr[s])
  {
    hide Image, PixelIs, Convert;
    ImageAt(groups, w, v, g, k);
    var p := groups[g];
    PixelsAreRgb(p.y[k], Box(p.cb, w), Box(p.cr, w), w, x);
  }

  // ----- row groups in buffers

  /** The buffer between the coefficient controller and the upsampler: for each row group
      one or two rows of luminance and one of each chroma component. */
  datatype Buffers = Buffers(y: seq<array<byte>>, cb: seq<array<byte>>, cr: seq<array<byte>>)
  {
    function Rows(): seq<array<byte>>
    {
      y + cb + cr
    }

    /** m row groups, wide enough for w pixels. */
    ghost predicate Valid(w: nat, v: nat, m: nat)
    {
      && |cb| == |cr| == m && 1 <= v <= 2 && |y| == (if v == 2 then 2 * m else m)
      && (forall i :: 0 <= i < |y| ==> w <= y[i].Length)
      && (forall i :: 0 <= i < m ==> (w + 1) / 2 <= cb[i].Length && (w + 1) / 2 <= cr[i].Length)
    }

    /** The luminance rows of row group k. */
    function Luma(v: nat, k: nat): (r: seq<array<byte>>)
      requires 1 <= v <= 2 && (if v == 2 then 2 * k + 2 else k + 1) <= |y|
      ensures |r| == v && forall i :: 0 <= i < v ==> r[i] in y
    {
      if v == 2 then [y[2 * k], y[2 * k + 1]] else [y[k]]
    }

    ghost function Contents(w: nat, v: nat, m: nat, k: nat): (g: Group)
      requires Valid(w, v, m) && k < m
      reads Rows()
      ensures g.Valid(w, v)
      ensures forall i :: 0 <= i < v ==> g.y[i] == Luma(v, k)[i][..]
      ensures g.cb == cb[k][..] && g.cr == cr[k][..]
    {
      assert cb[k] in Rows() && cr[k] in Rows();
      if v == 2 then
        assert y[2 * k] in Rows() && y[2 * k + 1] in Rows();
        Group([y[2 * k][..], y[2 * k + 1][..]], cb[k][..], cr[k][..])
      else
        assert y[k] in Rows();
        Group([y[k][..]], cb[k][..], cr[k][..])
    }
  }

  /** The application's rows of output: distinct, not among these others, w pixels each. */
  ghost predicate Output(out: seq<array<byte>>, w: nat, others: seq<array<byte>>)
  {
    && (forall i, j :: 0 <= i < j < |out| ==> out[i] != out[j])
    && (forall i :: 0 <= i < |out| ==> out[i] !in others && out[i].Length == 3 * w)
  }

  // ----- the control routines

  /** An upsampler between calls: rows of the current row group not yet returned, and rows
      left in the image. */
  datatype State = State(pending: seq<Row>, togo: nat)

  function Start(height: nat): State
  {
    State([], height)
  }

  function Least(a: nat, b: nat): nat
  {
    if a < b then a else b
  }

  /** One call with the current row group g and room for avail rows: the state after it,
      the rows returned, and whether the row group is consumed. */
  function Step(s: State, g: Group, w: nat, avail: nat): (r: (State, seq<Row>, bool))
    requires g.Valid(w, |g.y|)
    ensures r.2 <==> r.0.pending == []
  {
    var rows := if s.pending == [] then GroupRows(g, w) else s.pending;
    var n := Least(|rows|, Least(s.togo, avail));
    (State(rows[n..], s.togo - n), rows[..n], n == |rows|)
  }

  /** What a call returns is in the output buffer from this row on. */
  ghost predicate Returned(out: seq<array<byte>>, from: nat, rows: seq<Row>)
    reads out
  {
    from + |rows| <= |out| && forall i :: 0 <= i < |rows| ==> out[from + i][..] == rows[i]
  }

  /** Scanline requests, one call each, until the image is complete; groups are the row
      groups from the current one on. */
  function Serve(s: State, groups: seq<Group>, w: nat, requests: seq<nat>): (rows: seq<Row>)
    requires Wide(groups, w)
    decreases |requests|
  {
    if requests == [] || s.togo == 0 || groups == [] then []
    else
      var (t, rows, done) := Step(s, groups[0], w, requests[0]);
      rows + Serve(t, if done then groups[1..] else groups, w, requests[1..])
  }

  /** What is still to be returned, dummy rows below the image included. */
  function Rest(s: State, groups: seq<Group>, w: nat): seq<Row>
    requires Wide(groups, w)
  {
    if s.pending == [] || groups == [] then Image(groups, w) else s.pending + Image(groups[1..], w)
  }

  /** Nothing is lost, repeated or put out of order by a call. */
  lemma StepKeeps(s: State, groups: seq<Group>, w: nat, avail: nat)
    requires Wide(groups, w)
    requires groups != []
    ensures var (t, rows, done) := Step(s, groups[0], w, avail);
            rows + Rest(t, if done then groups[1..] else groups, w) == Rest(s, groups, w)
  {
    var all := if s.pending == [] then GroupRows(groups[0], w) else s.pending;
    var (t, rows, done) := Step(s, groups[0], w, avail);
    var later := Image(groups[1..], w);
    assert all + later == Rest(s, groups, w);
    if done {
      assert rows == all;
    } else {
      assert rows + (all[|rows|..] + later) == all + later;
    }
  }

  /** The rows returned are the next rows of the image; all of them when there are enough
      requests and none is empty. */
  lemma {:induction false} ServeKeeps(s: State, groups: seq<Group>, w: nat, v: nat, requests: seq<nat>)
    requires v > 0 && AllValid(groups, w, v) && s.togo <= |Rest(s, groups, w)|
    ensures var rows := Serve(s, groups, w, requests);
            && |rows| <= s.togo && rows == Rest(s, groups, w)[..|rows|]
            && ((forall i :: 0 <= i < |requests| ==> requests[i] > 0) && |requests| >= s.togo ==> |rows| == s.togo)
    decreases |requests|
  {
    hide GroupRows;
    if requests != [] && s.togo > 0 && groups != [] {
      StepKeeps(s, groups, w, requests[0]);
      var (t, rows, done) := Step(s, groups[0], w, requests[0]);
      var later := if done then groups[1..] else groups;
      ServeKeeps(t, later, w, v, requests[1..]);
      assert Rest(s, groups, w) == rows + Rest(t, later, w);
    }
  }
}
