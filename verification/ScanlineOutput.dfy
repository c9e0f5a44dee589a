/** Reading scanlines when no context rows are needed (jdapistd.c, jdmainct.c): one iMCU row
    at a time in the main buffer, merged or separate upsampling (jdmaster.c) behind it. */
module ScanlineOutput {
  import opened Bytes
  import opened Arithmetic
  import opened ColorConversion
  import opened Upsampling
  import opened MergedUpsampling
  import opened SeparateUpsampling

  /** Row groups with rows of these widths. */
  ghost predicate Sized(groups: seq<Group>, v: nat, yw: nat, cw: nat)
  {
    forall i :: 0 <= i < |groups| ==>
      && |groups[i].y| == v && (forall k :: 0 <= k < v ==> |groups[i].y[k]| == yw)
      && |groups[i].cb| == |groups[i].cr| == cw
  }

  /** The rows are distinct and have these widths. */
  ghost predicate Fits(b: Buffers, v: nat, m: nat, yw: nat, cw: nat)
  {
    && |b.cb| == |b.cr| == m && 1 <= v <= 2 && |b.y| == (if v == 2 then 2 * m else m)
    && (forall i :: 0 <= i < |b.y| ==> b.y[i].Length == yw)
    && (forall i :: 0 <= i < m ==> b.cb[i].Length == b.cr[i].Length == cw)
    && AllDistinct(b.Rows())
  }

  ghost predicate AllDistinct(rows: seq<array<byte>>)
  {
    forall i, j :: 0 <= i < j < |rows| ==> rows[i] != rows[j]
  }

  method NewRows(n: nat, width: nat) returns (rows: seq<array<byte>>)
    ensures |rows| == n && fresh(rows) && AllDistinct(rows) && forall i :: 0 <= i < n ==> rows[i].Length == width
  {
    rows := [];
    for i := 0 to n
      invariant |rows| == i && fresh(rows) && AllDistinct(rows) && forall j :: 0 <= j < i ==> rows[j].Length == width
    {
      var row := new byte[width];
      rows := rows + [row];
    }
  }

  method FillRows(rows: seq<array<byte>>, contents: seq<Row>)
    requires |rows| == |contents| && AllDistinct(rows)
    requires forall i :: 0 <= i < |rows| ==> rows[i].Length == |contents[i]|
    modifies rows
    ensures forall i :: 0 <= i < |rows| ==> rows[i][..] == contents[i]
  {
    for i := 0 to |rows|
      invariant forall j :: 0 <= j < i ==> rows[j][..] == contents[j]
    {
      var c := contents[i];
      forall x | 0 <= x < rows[i].Length {
        rows[i][x] := c[x];
      }
    }
  }

  function LumaOf(groups: seq<Group>, v: nat): (rows: seq<Row>)
    requires 1 <= v <= 2 && forall i :: 0 <= i < |groups| ==> |groups[i].y| == v
    ensures |rows| == if v == 2 then 2 * |groups| else |groups|
  {
    if v == 2 then
      seq(2 * |groups|, i requires 0 <= i < 2 * |groups| => groups[i / 2].y[i % 2])
    else
      seq(|groups|, i requires 0 <= i < |groups| => groups[i].y[0])
  }

  /** decompress_data: an iMCU row overwrites the buffer. */
  method Load(b: Buffers, groups: seq<Group>, w: nat, v: nat, m: nat, yw: nat, cw: nat)
    requires Fits(b, v, m, yw, cw) && b.Valid(w, v, m) && |groups| == m && Sized(groups, v, yw, cw)
    modifies b.y, b.cb, b.cr
    ensures forall k :: 0 <= k < m ==> b.Contents(w, v, m, k) == groups[k]
  {
    Parts(b);
    FillRows(b.y, LumaOf(groups, v));
    FillRows(b.cb, seq(m, k requires 0 <= k < m => groups[k].cb));
    FillRows(b.cr, seq(m, k requires 0 <= k < m => groups[k].cr));
    forall k | 0 <= k < m
      ensures b.Contents(w, v, m, k) == groups[k]
    {
      Loaded(b, groups, w, v, m, k);
    }
  }

  lemma Loaded(b: Buffers, groups: seq<Group>, w: nat, v: nat, m: nat, k: nat)
    requires b.Valid(w, v, m) && |groups| == m && k < m && |groups[k].y| == v && forall i :: 0 <= i < m ==>
      |groups[i].y| == v
    requires forall i :: 0 <= i < |b.y| ==> b.y[i][..] == LumaOf(groups, v)[i]
    requires b.cb[k][..] == groups[k].cb && b.cr[k][..] == groups[k].cr
    ensures b.Contents(w, v, m, k) == groups[k]
  {
    var g := b.Contents(w, v, m, k);
    if v == 2 {
      assert g.y[0] == LumaOf(groups, v)[2 * k] && g.y[1] == LumaOf(groups, v)[2 * k + 1];
    } else {
      assert g.y[0] == LumaOf(groups, v)[k];
    }
    assert g.y == groups[k].y;
  }

  lemma Parts(b: Buffers)
    requires AllDistinct(b.Rows())
    ensures AllDistinct(b.y) && AllDistinct(b.cb) && AllDistinct(b.cr)
    ensures forall i, j :: 0 <= i < |b.y| && 0 <= j < |b.cb| ==> b.y[i] != b.cb[j]
    ensures forall i, j :: 0 <= i < |b.y| && 0 <= j < |b.cr| ==> b.y[i] != b.cr[j]
    ensures forall i, j :: 0 <= i < |b.cb| && 0 <= j < |b.cr| ==> b.cb[i] != b.cr[j]
  {
    var r, n, m := b.Rows(), |b.y|, |b.cb|;
    assert forall i :: 0 <= i < n ==> b.y[i] == r[i];
    assert forall i :: 0 <= i < m ==> b.cb[i] == r[n + i];
    assert forall i :: 0 <= i < |b.cr| ==> b.cr[i] == r[n + m + i];
  }

  /** The upsampler of a decompressor, as use_merged_upsample selects it, with the main
      buffer it reads. */
  class Upsampler {
    const merged: bool
    const fast: MergedUpsampler
    const simple: SeparateUpsampler
    const buffer: Buffers
    const m: nat

    ghost predicate Valid()
      reads this, fast, simple, fast.spareRow
      reads fast.tables.crR, fast.tables.cbB, fast.tables.crG, fast.tables.cbG, fast.tables.rangeLimit
    {
      && fast.Valid() && simple.Valid() && fast.tables == simple.tables && fast.width == simple.width && fast.vSamp
        == simple.vSamp
      && buffer.Valid(fast.width, fast.vSamp, m) && Separate()
      && forall i :: 0 <= i < |simple.yBuf| ==> simple.yBuf[i] in buffer.Rows()
    }

    /** No row is used for two things. */
    ghost predicate Separate()
    {
      && fast.spareRow !in buffer.Rows() && fast.tables.rangeLimit !in buffer.Rows()
      && simple.Apart([fast.tables.rangeLimit]) && simple.Apart(buffer.Rows())
    }

    /** Rows that belong to the upsamplers. */
    ghost function Own(): seq<array<byte>>
    {
      [fast.tables.rangeLimit, fast.spareRow] + simple.cbBuf + simple.crBuf
    }

    ghost function Now(): State
      requires Valid()
      reads this, fast, simple, fast.spareRow, simple.yBuf, simple.cbBuf, simple.crBuf
      reads fast.tables.crR, fast.tables.cbB, fast.tables.crG, fast.tables.cbG, fast.tables.rangeLimit
    {
      if merged then fast.Now() else simple.Now()
    }

    constructor (merged: bool, fast: MergedUpsampler, simple: SeparateUpsampler, buffer: Buffers, m: nat)
      ensures this.merged == merged && this.fast == fast && this.simple == simple && this.buffer == buffer && this.m
        == m
    {
      this.merged, this.fast, this.simple, this.buffer, this.m := merged, fast, simple, buffer, m;
    }

    lemma BufferValid()
      requires Valid()
      ensures buffer.Valid(fast.width, fast.vSamp, m)
    {
    }

    ghost predicate Ready(k: nat, output: seq<array<byte>>)
      reads this, fast, simple, fast.spareRow, simple.yBuf, simple.cbBuf, simple.crBuf
      reads fast.tables.crR, fast.tables.cbB, fast.tables.crG, fast.tables.cbG, fast.tables.rangeLimit
    {
      Valid() && Now().togo > 0 && k < m && output != [] && Output(output, fast.width, Own() + buffer.Rows())
    }

    /** The parts of the distinctness of all rows that each upsampler needs. */
    lemma Apartness(output: seq<array<byte>>)
      requires Valid() && Output(output, fast.width, Own() + buffer.Rows())
      ensures fast.spareRow !in buffer.Rows() && Output(output, fast.width, [fast.tables.rangeLimit, fast.spareRow]
        + buffer.Rows())
      ensures simple.Apart([simple.tables.rangeLimit] + simple.yBuf + buffer.Rows())
      ensures Output(output, simple.width, [simple.tables.rangeLimit] + simple.yBuf + simple.cbBuf + simple.crBuf
        + buffer.Rows())
    {
      assert forall a :: a in simple.yBuf ==> a in buffer.Rows();
      assert forall a :: a in [fast.tables.rangeLimit, fast.spareRow] + buffer.Rows() ==> a in Own() + buffer.Rows();
      assert forall a :: a in [simple.tables.rangeLimit] + simple.yBuf + simple.cbBuf + simple.crBuf + buffer.Rows() ==>
        a in Own() + buffer.Rows();
    }

    /** upsample: the same, whichever routine it is. */
    method Upsample(k: nat, output: seq<array<byte>>) returns (k': nat, n: nat)
      requires Ready(k, output)
      modifies fast`spareFull, fast`rowsToGo, fast`left, fast.spareRow
      modifies simple`yBuf, simple`nextRowOut, simple`rowsToGo, simple.cbBuf, simple.crBuf, output
      ensures Valid() && forall a :: a in buffer.Rows() ==> a[..] == old(a[..])
      ensures var (t, rows, done) := Step(old(Now()), old(buffer.Contents(fast.width, fast.vSamp, m, k)), fast.width,
        |output|);
              Now() == t && Returned(output, 0, rows) && n == |rows| && k' == if done then k + 1 else k
    {
      hide GroupRows, Valid, Now, Buffers.Contents, Output, MergedUpsampler.Ready, SeparateUpsampler.Ready;
      ReadyEither(k, output);
      if merged {
        k', n := UpsampleMerged(k, output);
      } else {
        k', n := UpsampleSeparate(k, output);
      }
    }

    lemma ReadyEither(k: nat, output: seq<array<byte>>)
      requires Ready(k, output)
      ensures merged ==> fast.Ready(buffer, m, k, output, 0, |output|)
      ensures !merged ==> simple.Ready(buffer, m, k, output, 0, |output|)
    {
      hide ColorTables.Valid, Buffers.Valid;
      Apartness(output);
    }

    method UpsampleSeparate(k: nat, output: seq<array<byte>>) returns (k': nat, n: nat)
      requires !merged && Ready(k, output) && simple.Ready(buffer, m, k, output, 0, |output|)
      modifies simple`yBuf, simple`nextRowOut, simple`rowsToGo, simple.cbBuf, simple.crBuf, output
      ensures Valid() && forall a :: a in buffer.Rows() ==> a[..] == old(a[..])
      ensures var (t, rows, done) := Step(old(Now()), old(buffer.Contents(fast.width, fast.vSamp, m, k)), fast.width,
        |output|);
              Now() == t && Returned(output, 0, rows) && n == |rows| && k' == if done then k + 1 else k
    {
      hide Step, Returned, ColorTables.Valid, Buffers.Valid, Buffers.Contents, SeparateUpsampler.Now;
      assert forall i :: 0 <= i < |output| ==> output[i] !in Own() + buffer.Rows();
      k', n := simple.Upsample(buffer, m, k, output, 0, |output|);
    }

    method UpsampleMerged(k: nat, output: seq<array<byte>>) returns (k': nat, n: nat)
      requires merged && Ready(k, output) && fast.Ready(buffer, m, k, output, 0, |output|)
      modifies fast`spareFull, fast`rowsToGo, fast`left, fast.spareRow, output
      ensures Valid() && forall a :: a in buffer.Rows() ==> a[..] == old(a[..])
      ensures var (t, rows, done) := Step(old(Now()), old(buffer.Contents(fast.width, fast.vSamp, m, k)), fast.width,
        |output|);
              Now() == t && Returned(output, 0, rows) && n == |rows| && k' == if done then k + 1 else k
    {
      hide GroupRows, ColorTables.Valid, Buffers.Valid, Buffers.Contents, Convert, SeparateUpsampler.ConvertedAll;
      assert forall i :: 0 <= i < |output| ==> output[i] !in Own() + buffer.Rows();
      if fast.vSamp == 2 {
        k', n := fast.Upsample2v(buffer, m, k, output, 0, |output|);
      } else {
        k', n := fast.Upsample1v(buffer, m, k, output, 0, |output|);
      }
    }
  }

  method NewBuffers(v: nat, m: nat, yw: nat, cw: nat) returns (b: Buffers)
    requires 1 <= v <= 2
    ensures Fits(b, v, m, yw, cw) && fresh(b.y) && fresh(b.cb) && fresh(b.cr)
  {
    var y := NewRows(if v == 2 then 2 * m else m, yw);
    var cb := NewRows(m, cw);
    var cr := NewRows(m, cw);
    b := Buffers(y, cb, cr);
  }

  /** The upsamplers and the main buffer. */
  method NewUpsampler(merged: bool, w: nat, v: nat, m: nat, yw: nat, cw: nat, height: nat) returns (u: Upsampler)
    requires 1 <= v <= 2 && w <= yw && (w + 1) / 2 <= cw
    ensures u.Valid() && u.Now() == Start(height) && u.m == m && u.fast.width == w && u.fast.vSamp == v
    ensures Fits(u.buffer, v, m, yw, cw)
    ensures fresh(u.fast) && fresh(u.simple) && fresh(u.fast.spareRow) && fresh(u.simple.cbBuf) && fresh(u.simple.crBuf)
    ensures fresh(u.buffer.y) && fresh(u.buffer.cb) && fresh(u.buffer.cr)
  {
    hide ColorTables.Valid, AllDistinct;
    var tables := new ColorTables();
    var b := NewBuffers(v, m, yw, cw);
    var f := new MergedUpsampler(tables, w, v, height);
    var s := new SeparateUpsampler(tables, w, v, height);
    u := new Upsampler(merged, f, s, b, m);
  }

  twostate lemma BufferKept(u: Upsampler)
    requires old(u.Valid())
    requires forall a :: a in u.buffer.Rows() ==> a[..] == old(a[..])
    ensures forall j :: 0 <= j < u.m ==>
      u.buffer.Contents(u.fast.width, u.fast.vSamp, u.m, j) == old(u.buffer.Contents(u.fast.width, u.fast.vSamp, u.m,
        j))
  {
    forall j | 0 <= j < u.m
      ensures u.buffer.Contents(u.fast.width, u.fast.vSamp, u.m, j)
        == old(u.buffer.Contents(u.fast.width, u.fast.vSamp, u.m, j))
    {
      var b := u.buffer;
      assert b.cb[j] in b.Rows() && b.cr[j] in b.Rows();
      assert forall a :: a in b.Luma(u.fast.vSamp, j) ==> a in b.Rows();
    }
  }

  method Take(output: seq<array<byte>>, count: nat, ghost r: seq<Row>) returns (rows: seq<Row>)
    requires Returned(output, 0, r) && |r| == count
    ensures rows == r
  {
    rows := [];
    for i := 0 to count
      invariant |rows| == i && forall j :: 0 <= j < i ==> rows[j] == output[j][..]
    {
      rows := rows + [output[i][..]];
    }
    assert forall j :: 0 <= j < count ==> r[j] == output[0 + j][..];
  }

  /** One request for n scanlines while row group k is current. */
  method Request(u: Upsampler, k: nat, n: nat) returns (k': nat, rows: seq<Row>)
    requires u.Valid() && u.Now().togo > 0 && k < u.m && n > 0
    modifies u.fast`spareFull, u.fast`rowsToGo, u.fast`left, u.fast.spareRow
    modifies u.simple`yBuf, u.simple`nextRowOut, u.simple`rowsToGo, u.simple.cbBuf, u.simple.crBuf
    ensures u.Valid()
    ensures var (t, r, done) := Step(old(u.Now()), old(u.buffer.Contents(u.fast.width, u.fast.vSamp, u.m, k)),
      u.fast.width, n);
            u.Now() == t && rows == r && k' == if done then k + 1 else k
    ensures forall j :: 0 <= j < u.m ==>
      u.buffer.Contents(u.fast.width, u.fast.vSamp, u.m, j) == old(u.buffer.Contents(u.fast.width, u.fast.vSamp, u.m,
        j))
  {
    hide Step, Upsampler.Valid, Upsampler.Now, Buffers.Contents;
    var output := NewRows(n, 3 * u.fast.width);
    var count;
    u.BufferValid();
    ghost var step := Step(u.Now(), u.buffer.Contents(u.fast.width, u.fast.vSamp, u.m, k), u.fast.width, n);
    k', count := u.Upsample(k, output);
    BufferKept(u);
    rows := Take(output, count, step.1);
  }

  /** The main buffer holds these row groups, or is empty and nothing is pending. */
  ghost predicate Holding(u: Upsampler, full: bool, k: nat, window: seq<Group>)
    requires u.Valid()
    reads u, u.fast, u.simple, u.fast.spareRow, u.simple.yBuf, u.simple.cbBuf, u.simple.crBuf, u.buffer.Rows()
    reads u.fast.tables.crR, u.fast.tables.cbB, u.fast.tables.crG, u.fast.tables.cbG, u.fast.tables.rangeLimit
  {
    if full then
      && k < u.m == |window|
      && forall j :: 0 <= j < u.m ==> u.buffer.Contents(u.fast.width, u.fast.vSamp, u.m, j) == window[j]
    else k == 0 && u.Now().pending == []
  }

  /** process_data_simple_main: an iMCU row is loaded if the buffer is empty, and the buffer
      is empty again when its row groups are consumed. */
  method ProcessData(u: Upsampler, full: bool, k: nat, window: seq<Group>, yw: nat, cw: nat, n: nat)
    returns (full': bool, k': nat, rows: seq<Row>)
    requires u.Valid() && u.Now().togo > 0 && n > 0 && 0 < u.m == |window| && Holding(u, full, k, window)
    requires Fits(u.buffer, u.fast.vSamp, u.m, yw, cw) && Sized(window, u.fast.vSamp, yw, cw)
    modifies u.fast`spareFull, u.fast`rowsToGo, u.fast`left, u.fast.spareRow
    modifies u.simple`yBuf, u.simple`nextRowOut, u.simple`rowsToGo, u.simple.cbBuf, u.simple.crBuf
    modifies u.buffer.y, u.buffer.cb, u.buffer.cr
    ensures u.Valid() && window[k].Valid(u.fast.width, u.fast.vSamp)
    ensures var (t, r, done) := Step(old(u.Now()), window[k], u.fast.width, n);
            && u.Now() == t && rows == r && (if full' then k' else u.m) == (if done then k + 1 else k)
              && Holding(u, full', k', window)
  {
    hide GroupRows, Upsampler.Valid, Upsampler.Now, Buffers.Contents, Fits, Sized;
    if !full {
      LoadNext(u, window, yw, cw);
    }
    u.BufferValid();
    k', rows := Request(u, k, n);
    full' := k' < u.m;
    if !full' {
      k' := 0;
    }
  }

  /** With nothing pending, overwriting the main buffer is harmless. */
  method LoadNext(u: Upsampler, window: seq<Group>, yw: nat, cw: nat)
    requires u.Valid() && u.Now().pending == [] && |window| == u.m
    requires Fits(u.buffer, u.fast.vSamp, u.m, yw, cw) && Sized(window, u.fast.vSamp, yw, cw)
    modifies u.buffer.y, u.buffer.cb, u.buffer.cr
    ensures u.Valid() && u.Now() == old(u.Now())
    ensures Holding(u, true, 0, window) || u.m == 0
  {
    hide GroupRows, Buffers.Contents, Convert, ColorTables.Valid;
    Load(u.buffer, window, u.fast.width, u.fast.vSamp, u.m, yw, cw);
  }

  /** The rows returned so far and those to come from the rest of the row groups and the
      rest of the requests make up all rows. */
  ghost predicate Progress(image: seq<Row>, s: State, rest: seq<Group>, w: nat, requests: seq<nat>, height: nat,
    all: seq<Row>)
    requires Wide(rest, w)
  {
    && image + Serve(s, rest, w, requests) == all
    && s.togo == height - |image| <= |Rest(s, rest, w)|
  }

  lemma Progresses(image: seq<Row>, s: State, rest: seq<Group>, w: nat, requests: seq<nat>, height: nat, all: seq<Row>)
    requires Wide(rest, w)
    requires Progress(image, s, rest, w, requests, height, all) && requests != [] && s.togo > 0 && rest != []
    ensures var (t, rows, done) := Step(s, rest[0], w, requests[0]);
            Wide(rest[1..], w)
              && Progress(image + rows, t, if done then rest[1..] else rest, w, requests[1..], height, all)
  {
    hide GroupRows, Image;
    StepKeeps(s, rest, w, requests[0]);
    var (t, rows, done) := Step(s, rest[0], w, requests[0]);
    var rest' := if done then rest[1..] else rest;
    assert image + (rows + Serve(t, rest', w, requests[1..])) == image + rows + Serve(t, rest', w, requests[1..]);
  }

  lemma Finished(image: seq<Row>, s: State, rest: seq<Group>, w: nat, requests: seq<nat>, height: nat, all: seq<Row>)
    requires Wide(rest, w)
    requires Progress(image, s, rest, w, requests, height, all)
    ensures requests == [] || |image| == height ==> image == all
    ensures |image| + s.togo == height
    ensures |image| < height && s.pending == [] ==> rest != []
  {
    hide GroupRows;
  }

  /** Only whole iMCU rows come from the coefficient controller. */
  ghost predicate Multiple(n: nat, m: nat)
    requires m > 0
  {
    n % m == 0
  }

  lemma MultipleZero(m: nat)
    requires m > 0
    ensures Multiple(0, m)
  {
  }

  lemma NextMultiple(n: nat, total: nat, m: nat)
    requires m > 0 && Multiple(n, m) && Multiple(total, m) && n < total
    ensures n + m <= total && Multiple(n + m, m)
  {
    RoomForOne(n, total, m);
    SumOfMultiples(n, m, m);
  }

  /** The application's calls of jpeg_read_scanlines, each with room for so many rows: with
      either upsampler they return the rows of the image in order, the same number for
      either, and all of them after enough calls. */
  method ReadScanlines(merged: bool, groups: seq<Group>, w: nat, v: nat, m: nat, yw: nat, cw: nat, height: nat,
    requests: seq<nat>)
    returns (image: seq<Row>)
    requires 1 <= v <= 2 && w <= yw && (w + 1) / 2 <= cw && Sized(groups, v, yw, cw) && m > 0 && Multiple(|groups|, m)
    requires height <= v * |groups| && forall i :: 0 <= i < |requests| ==> requests[i] > 0
    ensures Wide(groups, w) && image == Serve(Start(height), groups, w, requests)
    ensures |image| <= height <= |Image(groups, w)| && image == Image(groups, w)[..|image|]
    ensures |requests| >= height ==> |image| == height
  {
    hide GroupRows, Image, Buffers.Contents, Upsampler.Valid, Upsampler.Now, Fits, Progress, Serve, Rest, Group.Valid,
      Step, Wide, AllValid, Multiple, Buffers.Valid;
    ghost var all := FromStart(groups, w, v, yw, cw, height, requests);
    var u := NewUpsampler(merged, w, v, m, yw, cw, height);
    var full, k: nat, base: nat := false, 0, 0;
    MultipleZero(m);
    image := [];
    assert groups[0..] == groups && requests[0..] == requests;
    for i := 0 to |requests|
      invariant u.Valid() && Fits(u.buffer, v, m, yw, cw) && base + k <= |groups| && Multiple(base, m)
      invariant full ==> k < m && base + m <= |groups| && Holding(u, true, k, groups[base..base + m])
      invariant !full ==> Holding(u, false, k, [])
      invariant Wide(groups[base + k..], w) && Progress(image, u.Now(), groups[base + k..], w, requests[i..], height,
        all)
    {
      ghost var rest := groups[base + k..];
      Finished(image, u.Now(), rest, w, requests[i..], height, all);
      if |image| >= height {
        return;
      }
      assert full ==> |rest| > 0;
      Progresses(image, u.Now(), rest, w, requests[i..], height, all);
      NextMultiple(base, |groups|, m);
      var window := groups[base..base + m];
      var rows;
      full, k, rows := ProcessData(u, full, k, window, yw, cw, requests[i]);
      image := image + rows;
      if !full {
        base := base + m;
      }
      assert groups[base + k..] == rest || groups[base + k..] == rest[1..];
    }
    Finished(image, u.Now(), groups[base + k..], w, requests[|requests|..], height, all);
  }

  lemma FromStart(groups: seq<Group>, w: nat, v: nat, yw: nat, cw: nat, height: nat, requests: seq<nat>)
    returns (all: seq<Row>)
    requires v > 0 && w <= yw && (w + 1) / 2 <= cw && Sized(groups, v, yw, cw) && height <= v * |groups|
    ensures Wide(groups, w) && all == Serve(Start(height), groups, w, requests)
    ensures Progress([], Start(height), groups, w, requests, height, all)
    ensures |all| <= height <= |Image(groups, w)| && all == Image(groups, w)[..|all|]
    ensures |requests| >= height && (forall i :: 0 <= i < |requests| ==> requests[i] > 0) ==> |all| == height
  {
    hide GroupRows;
    ImageLength(groups, w, v);
    ServeKeeps(Start(height), groups, w, v, requests);
    all := Serve(Start(height), groups, w, requests);
    assert [] + all == all;
  }
}
