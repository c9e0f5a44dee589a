/** The data source and its markers: entropy-coded bytes up to a marker, and finding and
    resynchronising at restart markers (jdmarker.c, jdatasrc.c). */
module Markers {
  import opened Bytes

  /** The data source.  Past its end the standard source managers supply a fake EOI
      marker, 0xFF 0xD9, as often as they are asked (jdatasrc.c). */
  function ByteAt(src: seq<byte>, pos: nat): byte
  {
    if pos < |src| then src[pos]
    else if (pos - |src|) % 2 == 0 then 0xFF else 0xD9
  }

  function Remaining(src: seq<byte>, pos: nat): nat
  {
    if pos < |src| then |src| - pos + 2
    else if (pos - |src|) % 2 == 0 then 2 else 1
  }

  /** `do data = get_byte(); while (data == 0xFF)`: the byte read and the next position. */
  function SkipOnes(src: seq<byte>, pos: nat): (byte, nat)
    decreases Remaining(src, pos)
  {
    if ByteAt(src, pos) == 0xFF then SkipOnes(src, pos + 1) else (ByteAt(src, pos), pos + 1)
  }

  /** Where the input is: the next position and the marker hit, or 0. */
  datatype Input = Input(pos: nat, marker: byte)

  /** The next data byte: stuffed zeros are dropped; at a marker, and ever after, zeros
      are supplied. */
  function NextData(src: seq<byte>, i: Input): (byte, Input)
  {
    if i.marker != 0 then (0, i)
    else if ByteAt(src, i.pos) != 0xFF then (ByteAt(src, i.pos), Input(i.pos + 1, 0))
    else
      var (data, pos) := SkipOnes(src, i.pos + 1);
      if data == 0 then (0xFF, Input(pos, 0)) else (0, Input(pos, data))
  }

  const M_SOF0 := 0xC0

  const M_RST0 := 0xD0

  const M_RST7 := 0xD7

  const M_EOI := 0xD9

  /** next_marker: the marker found, the position after it, and the bytes skipped. */
  datatype Found = Found(marker: byte, pos: nat, discarded: nat)

  /** A bound on the bytes in front of the next marker. */
  function ToMarker(src: seq<byte>, pos: nat): nat
  {
    if pos < |src| then |src| - pos + 2 else if (pos - |src|) % 2 == 0 then 1 else 2
  }

  function NextMarker(src: seq<byte>, pos: nat, discarded: nat): (r: Found)
    ensures r.marker != 0 && r.marker != 0xFF && pos < r.pos && discarded <= r.discarded
    ensures r.pos > |src| ==> r.marker == M_EOI
    decreases ToMarker(src, pos)
  {
    if ByteAt(src, pos) != 0xFF then NextMarker(src, pos + 1, discarded + 1)
    else
      SkipOnesAhead(src, pos + 1);
      var (c, p) := SkipOnes(src, pos + 1);
      if c != 0 then Found(c, p, discarded) else NextMarker(src, p, discarded + 2)
  }

  /** Progress of the fill-byte loop; past the end of the source it stops at the fake EOI. */
  lemma {:induction false} SkipOnesAhead(src: seq<byte>, pos: nat)
    ensures var (c, p) := SkipOnes(src, pos);
            c != 0xFF && pos < p && (p > |src| ==> c == M_EOI)
    decreases Remaining(src, pos)
  {
    if ByteAt(src, pos) == 0xFF {
      SkipOnesAhead(src, pos + 1);
    }
  }

  /** In the data, next_marker finds the first marker: the first byte 0xFF that neither a
      stuffed zero nor another 0xFF follows, and the code behind it. */
  lemma {:induction false} FirstMarker(src: seq<byte>, pos: nat, n: nat)
    ensures var f := NextMarker(src, pos, n);
            f.pos <= |src| ==>
              && pos <= f.pos - 2 && src[f.pos - 2] == 0xFF && src[f.pos - 1] == f.marker
              && forall j :: pos <= j < f.pos - 2 && src[j] == 0xFF ==> src[j + 1] == 0 || src[j + 1] == 0xFF
    decreases ToMarker(src, pos)
  {
    if ByteAt(src, pos) != 0xFF {
      FirstMarker(src, pos + 1, n + 1);
    } else {
      SkipOnesAhead(src, pos + 1);
      OnesSkipped(src, pos + 1);
      var (c, p) := SkipOnes(src, pos + 1);
      if c == 0 {
        FirstMarker(src, p, n + 2);
      }
    }
  }

  lemma {:induction false} OnesSkipped(src: seq<byte>, pos: nat)
    ensures var (c, p) := SkipOnes(src, pos);
            && pos < p
            && (p <= |src| ==> src[p - 1] == c && forall j :: pos <= j < p - 1 ==> src[j] == 0xFF)
    decreases Remaining(src, pos)
  {
    if ByteAt(src, pos) == 0xFF {
      OnesSkipped(src, pos + 1);
    }
  }

  /** The default resynchronisation: discard the marker, skip forward, or leave it. */
  function Resync(src: seq<byte>, i: Input, desired: nat): (r: Input)
    requires i.marker != 0 && desired < 8
    decreases if i.marker == M_EOI then 0 else if i.pos <= |src| then |src| - i.pos + 2 else 1
  {
    var m := i.marker;
    if m < M_SOF0 || m == M_RST0 + (desired + 7) % 8 || m == M_RST0 + (desired + 6) % 8 then
      var f := NextMarker(src, i.pos, 0);
      Resync(src, Input(f.pos, f.marker), desired)
    else if m < M_RST0 || m > M_RST7 || m == M_RST0 + (desired + 1) % 8 || m == M_RST0 + (desired + 2) % 8 then i
    else Input(i.pos, 0)
  }

  /** read_restart_marker: the input after it, how many bytes had to be skipped, and
      whether it was the marker expected, so that nothing had to be resynchronised. */
  function ReadRestart(src: seq<byte>, i: Input, next: nat, discarded: nat): (Input, nat, bool)
    requires next < 8
  {
    var f := if i.marker != 0 then Found(i.marker, i.pos, 0) else NextMarker(src, i.pos, discarded);
    if f.marker == M_RST0 + next then (Input(f.pos, 0), f.discarded, true)
    else (Resync(src, Input(f.pos, f.marker), next), f.discarded, false)
  }

  // ----- the methods that read

  /** `do c = get_byte(); while (c == 0xFF)`. */
  method SkipFill(src: seq<byte>, pos0: nat) returns (c: byte, pos: nat)
    ensures (c, pos) == SkipOnes(src, pos0)
  {
    c, pos := GetByte(src, pos0);
    while c == 0xFF
      invariant pos > 0 && c == ByteAt(src, pos - 1)
      invariant SkipOnes(src, pos - 1) == SkipOnes(src, pos0)
      decreases Remaining(src, pos - 1)
    {
      c, pos := GetByte(src, pos);
    }
  }

  /** get_byte with the standard source managers. */
  method GetByte(src: seq<byte>, pos0: nat) returns (data: byte, pos: nat)
    ensures data == ByteAt(src, pos0) && pos == pos0 + 1
  {
    if pos0 < |src| {
      data := src[pos0];
    } else if (pos0 - |src|) % 2 == 0 {
      data := 0xFF;
    } else {
      data := 0xD9;
    }
    pos := pos0 + 1;
  }

  /** The next data byte, or the marker in front of which the data end. */
  method FetchData(src: seq<byte>, i: Input) returns (data: byte, j: Input)
    ensures (data, j) == NextData(src, i)
  {
    var pos;
    if i.marker != 0 {
      return 0, i;
    }
    data, pos := GetByte(src, i.pos);
    if data == 0xFF {
      data, pos := SkipFill(src, pos);
      if data == 0 {
        data := 0xFF;
      } else {
        return 0, Input(pos, data);
      }
    }
    j := Input(pos, 0);
  }

  /** next_marker: the marker, the position behind it, and the bytes skipped on the way,
      counted from `discarded`. */
  method FindMarker(src: seq<byte>, pos0: nat, discarded: nat) returns (f: Found)
    ensures f == NextMarker(src, pos0, discarded)
  {
    var c: byte, pos := 0, pos0;
    var skipped := discarded;
    while true
      invariant NextMarker(src, pos, skipped) == NextMarker(src, pos0, discarded)
      decreases ToMarker(src, pos)
    {
      ghost var before := pos;
      c, pos := GetByte(src, pos);
      while c != 0xFF
        invariant 0 < pos && c == ByteAt(src, pos - 1)
        invariant NextMarker(src, pos - 1, skipped) == NextMarker(src, pos0, discarded)
        invariant ToMarker(src, pos - 1) <= ToMarker(src, before)
        decreases ToMarker(src, pos - 1)
      {
        skipped := skipped + 1;
        c, pos := GetByte(src, pos);
      }
      SkipOnesAhead(src, pos);
      c, pos := SkipFill(src, pos);
      if c != 0 {
        return Found(c, pos, skipped);
      }
      skipped := skipped + 2;
    }
  }

  /** jpeg_resync_to_restart, the default way out of a wrong marker. */
  method ResyncToRestart(src: seq<byte>, i: Input, desired: nat) returns (j: Input)
    requires i.marker != 0 && desired < 8
    ensures j == Resync(src, i, desired)
  {
    j := i;
    while true
      invariant j.marker != 0 && Resync(src, j, desired) == Resync(src, i, desired)
      decreases if j.marker == M_EOI then 0 else if j.pos <= |src| then |src| - j.pos + 2 else 1
    {
      var action := 1;
      if j.marker < M_SOF0 {
        action := 2;        // invalid marker
      } else if j.marker < M_RST0 || j.marker > M_RST7 {
        action := 3;        // valid non-restart marker
      } else if j.marker == M_RST0 + (desired + 1) % 8 || j.marker == M_RST0 + (desired + 2) % 8 {
        action := 3;        // one of the next two expected restarts
      } else if j.marker == M_RST0 + (desired + 7) % 8 || j.marker == M_RST0 + (desired + 6) % 8 {
        action := 2;        // a prior restart, so advance
      }
      if action == 1 {
        return Input(j.pos, 0);
      } else if action == 2 {
        var f := FindMarker(src, j.pos, 0);
        j := Input(f.pos, f.marker);
      } else {
        return;
      }
    }
  }

  /** read_restart_marker: the input behind the marker, the bytes skipped in front of it, and
      whether it was the one expected. */
  method ReadRestartMarker(src: seq<byte>, i: Input, next: nat, discarded: nat)
    returns (j: Input, skipped: nat, expected: bool)
    requires next < 8
    ensures (j, skipped, expected) == ReadRestart(src, i, next, discarded)
  {
    j, skipped := i, 0;
    if i.marker == 0 {
      var f := FindMarker(src, i.pos, discarded);
      j, skipped := Input(f.pos, f.marker), f.discarded;
    }
    expected := j.marker == M_RST0 + next;
    if expected {
      j := Input(j.pos, 0);
    } else {
      j := ResyncToRestart(src, j, next);
    }
  }
}
