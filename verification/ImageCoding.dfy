/** Whole images through a progressive script: every scan is put together, entropy coded,
    decoded and stored (jcmaster.c and the coefficient and entropy controllers of both
    sides). */
module ImageCoding {
  import opened JpegLib
  import opened Bytes
  import opened Blocks
  import opened Markers
  import opened Scripts
  import opened SuccessiveApproximation
  import opened McuLayout
  import opened McuAssembly
  import opened McuStorage
  import Segments
  import CodeTable
  import HuffmanScan
  import HuffmanScans
  import McuCoding
  import ScanCoding
  import Restarts
  import ArithScans

  /** What the decoder's planes y, padded or not, hold after the scans `past` of the image z:
      every DC coefficient without the low bits of its last Al, every AC coefficient rounded
      towards zero to a multiple of them, and 0 for what has not been sent. */
  ghost predicate ImageKnown(order: seq<nat>, z: seq<Plane>, past: seq<ScanInfo>, y: seq<Plane>)
    requires ValidOrder(order)
  {
    forall c, r, x :: 0 <= c < |z| && 0 <= r < |z[c]| && 0 <= x < |z[c][r]| ==>
      BlockKnown(order, z, past, y, Place(c, r, x))
  }

  ghost predicate BlockKnown(order: seq<nat>, z: seq<Plane>, past: seq<ScanInfo>, y: seq<Plane>, p: Place)
    requires ValidOrder(order)
  {
    Known(Zigzag(order, Look(z, p)), past, p.c, Zigzag(order, Look(y, p)))
  }

  /** The components of a scan. */
  function LayoutOf(f: Frame, s: ScanInfo): Layout
    requires IndexesOk(|f.comps|, s)
  {
    Layout(f, seq(|s.comps|, i requires 0 <= i < |s.comps| => s.comps[i] as nat))
  }

  lemma LayoutValid(f: Frame, past: seq<ScanInfo>, s: ScanInfo)
    requires f.Valid() && Judge(|f.comps|, true, past, s) == Accepted
    ensures IndexesOk(|f.comps|, s) && LayoutOf(f, s).Valid() && ParamsOk(s)
    ensures forall c :: c in LayoutOf(f, s).cs <==> c in s.comps
    ensures s.ss > 0 ==> |LayoutOf(f, s).cs| == 1
  {
    var lay := LayoutOf(f, s);
    forall i, j | 0 <= i < j < |lay.cs|
      ensures lay.cs[i] != lay.cs[j]
    {
      Ascending(s, i, j);
    }
    forall c | c in s.comps
      ensures c in lay.cs
    {
      var i :| 0 <= i < |s.comps| && s.comps[i] == c;
      assert lay.cs[i] == c;
    }
  }

  lemma {:induction false} Ascending(s: ScanInfo, i: nat, j: nat)
    requires i < j < |s.comps| && forall ci :: 0 < ci < |s.comps| ==> s.comps[ci - 1] < s.comps[ci]
    ensures s.comps[i] < s.comps[j]
  {
    if i + 1 < j {
      Ascending(s, i, j - 1);
    }
  }

  /** The MCUs the encoder puts together for a scan, and those the decoder finds. */
  ghost function ScanMcus(f: Frame, s: ScanInfo, z: seq<Plane>): seq<Mcu>
    requires IndexesOk(|f.comps|, s) && LayoutOf(f, s).Valid()
  {
    FetchAll(f, z, LayoutOf(f, s).Mcus())
  }

  /** A real block is found as it is. */
  lemma AtReal(lay: Layout, z: seq<Plane>, y: seq<Plane>, p: Place)
    requires lay.Valid() && Shaped(lay.f, z) && Padded(lay.f, y) && p.c < |z| && lay.Real(p)
    ensures At(lay.f, z, p) == Look(z, p) && At(lay.f, y, p) == Look(y, p) && InPlanes(y, p)
  {
    assert lay.f.CompValid(lay.f.comps[p.c]);
  }

  /** Every scan of a valid script finds what it refines. */
  lemma ScanFinds(order: seq<nat>, f: Frame, past: seq<ScanInfo>, s: ScanInfo, z: seq<Plane>, y: seq<Plane>)
    requires ValidOrder(order) && f.Valid() && Shaped(f, z) && Padded(f, y)
    requires Judge(|f.comps|, true, past, s) == Accepted && ImageKnown(order, z, past, y)
    ensures IndexesOk(|f.comps|, s) && LayoutOf(f, s).Valid() && ParamsOk(s)
    ensures AllReady(PassOf(s), ZigzagAll(order, ScanMcus(f, s, z)), ZigzagAll(order, ScanMcus(f, s, y)))
  {
    hide Known, Zigzag, Look, At, Layout.Mcus, ComponentOk, Layout.Prefix;
    LayoutValid(f, past, s);
    var lay := LayoutOf(f, s);
    var ms := lay.Mcus();
    lay.PrefixStep(0, 0, 0);
    lay.PrefixFits(f.down, 0, 0);
    forall m, b | 0 <= m < |ms| && 0 <= b < |ms[m]|
      ensures PassOf(s).Ready(Zigzag(order, At(f, z, ms[m][b])), Zigzag(order, At(f, y, ms[m][b])))
    {
      assert lay.Fits(ms[m][b]);
      if s.ss > 0 {
        PlaceFinds(order, lay, past, s, z, y, ms[m][b]);
      }
    }
    ReadyAll(order, PassOf(s), ScanMcus(f, s, z), ScanMcus(f, s, y));
  }

  lemma ReadyAll(order: seq<nat>, p: Pass, a: seq<Mcu>, b: seq<Mcu>)
    requires ValidOrder(order) && |a| == |b| && forall m :: 0 <= m < |a| ==> |a[m]| == |b[m]|
    requires forall m, k :: 0 <= m < |a| && 0 <= k < |a[m]| ==> p.Ready(Zigzag(order, a[m][k]), Zigzag(order, b[m][k]))
    ensures AllReady(p, ZigzagAll(order, a), ZigzagAll(order, b))
  {
    hide Zigzag, Pass.Ready;
  }

  lemma PlaceFinds(order: seq<nat>, lay: Layout, past: seq<ScanInfo>, s: ScanInfo, z: seq<Plane>, y: seq<Plane>,
    p: Place)
    requires ValidOrder(order) && lay.Valid() && Shaped(lay.f, z) && Padded(lay.f, y) && ImageKnown(order, z, past, y)
    requires ParamsOk(s) && p.c in s.comps && ProgressionOk(past, s) && p.c < |z| && lay.Real(p)
    ensures PassOf(s).Ready(Zigzag(order, At(lay.f, z, p)), Zigzag(order, At(lay.f, y, p)))
  {
    hide Known, Pass.Ready, Zigzag, ComponentOk;
    AtReal(lay, z, y, p);
    assert BlockKnown(order, z, past, y, p);
    var ci :| 0 <= ci < |s.comps| && s.comps[ci] == p.c;
    assert ComponentOk(past, s, s.comps[ci]);
    ScanKnown(past, s, p.c, Zigzag(order, Look(z, p)), Zigzag(order, Look(y, p)));
  }

  /** The blocks r decoded for a scan are in their places of y', and the rest of y' is as in
      y. */
  ghost predicate StoredIn(ms: seq<seq<Place>>, r: seq<Mcu>, y: seq<Plane>, y': seq<Plane>)
  {
    && |r| == |ms| && (forall m :: 0 <= m < |ms| ==> |r[m]| == |ms[m]|)
    && (forall m, b :: 0 <= m < |ms| && 0 <= b < |ms[m]| ==> Look(y', ms[m][b]) == r[m][b])
    && (forall p :: !Occurs(ms, p) ==> Look(y', p) == Look(y, p))
  }

  lemma RefinedAt(order: seq<nat>, p: Pass, a: seq<Mcu>, b: seq<Mcu>, r: seq<Mcu>, m: nat, k: nat)
    requires ValidOrder(order) && AllRefined(p, ZigzagAll(order, a), ZigzagAll(order, b), ZigzagAll(order, r))
    requires m < |a| && k < |a[m]|
    ensures |a| == |b| == |r| && |a[m]| == |b[m]| == |r[m]|
    ensures p.Refined(Zigzag(order, a[m][k]), Zigzag(order, b[m][k]), Zigzag(order, r[m][k]))
  {
    hide Zigzag, Pass.Refined;
    assert McuRefined(p, ZigzagAll(order, a)[m], ZigzagAll(order, b)[m], ZigzagAll(order, r)[m]);
    assert ZigzagAll(order, a)[m] == Zigzags(order, a[m]);
  }

  /** And leaves it one scan further. */
  lemma ScanLeaves(order: seq<nat>, f: Frame, past: seq<ScanInfo>, s: ScanInfo, z: seq<Plane>, y: seq<Plane>,
    r: seq<Mcu>, y': seq<Plane>)
    requires ValidOrder(order) && f.Valid() && Shaped(f, z) && Padded(f, y)
    requires Judge(|f.comps|, true, past, s) == Accepted && ImageKnown(order, z, past, y)
    requires IndexesOk(|f.comps|, s) && LayoutOf(f, s).Valid() && ParamsOk(s)
    requires AllRefined(PassOf(s), ZigzagAll(order, ScanMcus(f, s, z)), ZigzagAll(order, ScanMcus(f, s, y)),
      ZigzagAll(order, r))
    requires StoredIn(LayoutOf(f, s).Mcus(), r, y, y')
    ensures ImageKnown(order, z, past + [s], y')
  {
    hide Known, Zigzag, Look, At, Layout.Mcus, ComponentOk, Layout.Prefix, AllRefined, BlockKnown;
    LayoutValid(f, past, s);
    forall c, q, x | 0 <= c < |z| && 0 <= q < |z[c]| && 0 <= x < |z[c][q]|
      ensures BlockKnown(order, z, past + [s], y', Place(c, q, x))
    {
      var p := Place(c, q, x);
      assert BlockKnown(order, z, past, y, p);
      if c in s.comps {
        PlaceLeaves(order, f, past, s, z, y, r, y', p);
      } else {
        PlaceStays(order, f, past, s, z, y, r, y', p);
      }
    }
  }

  lemma PlaceLeaves(order: seq<nat>, f: Frame, past: seq<ScanInfo>, s: ScanInfo, z: seq<Plane>, y: seq<Plane>,
    r: seq<Mcu>,
                    y': seq<Plane>, p: Place)
    requires ValidOrder(order) && f.Valid() && Shaped(f, z) && Padded(f, y)
    requires IndexesOk(|f.comps|, s) && LayoutOf(f, s).Valid() && ParamsOk(s) && ProgressionOk(past, s)
    requires AllRefined(PassOf(s), ZigzagAll(order, ScanMcus(f, s, z)), ZigzagAll(order, ScanMcus(f, s, y)),
      ZigzagAll(order, r))
    requires StoredIn(LayoutOf(f, s).Mcus(), r, y, y')
    requires p.c < |z| && p.row < |z[p.c]| && p.col < |z[p.c][p.row]| && p.c in s.comps && p.c in LayoutOf(f, s).cs
    requires BlockKnown(order, z, past, y, p)
    ensures BlockKnown(order, z, past + [s], y', p)
  {
    hide Known, Zigzag, Look, At, Layout.Mcus, ComponentOk, AllRefined, Pass.Refined, Pass.Ready;
    var lay := LayoutOf(f, s);
    var ms := lay.Mcus();
    assert lay.Real(p);
    AllCovered(lay);
    var m, b :| 0 <= m < |ms| && 0 <= b < |ms[m]| && ms[m][b] == p;
    RefinedAt(order, PassOf(s), ScanMcus(f, s, z), ScanMcus(f, s, y), r, m, b);
    AtReal(lay, z, y, p);
    var ci :| 0 <= ci < |s.comps| && s.comps[ci] == p.c;
    assert ComponentOk(past, s, s.comps[ci]);
    ScanKnown(past, s, p.c, Zigzag(order, Look(z, p)), Zigzag(order, Look(y, p)));
  }

  lemma PlaceStays(order: seq<nat>, f: Frame, past: seq<ScanInfo>, s: ScanInfo, z: seq<Plane>, y: seq<Plane>,
    r: seq<Mcu>,
                   y': seq<Plane>, p: Place)
    requires ValidOrder(order) && f.Valid() && IndexesOk(|f.comps|, s) && LayoutOf(f, s).Valid()
    requires StoredIn(LayoutOf(f, s).Mcus(), r, y, y')
    requires p.c !in s.comps && (forall c :: c in LayoutOf(f, s).cs <==>
      c in s.comps) && BlockKnown(order, z, past, y, p)
    ensures BlockKnown(order, z, past + [s], y', p)
  {
    hide Known, Zigzag, Look, Layout.Mcus;
    var lay := LayoutOf(f, s);
    lay.PrefixStep(0, 0, 0);
    lay.PrefixFits(f.down, 0, 0);
    assert !Occurs(lay.Mcus(), p) by {
      forall m, b | 0 <= m < |lay.Mcus()| && 0 <= b < |lay.Mcus()[m]|
        ensures lay.Mcus()[m][b] != p
      {
        assert lay.Fits(lay.Mcus()[m][b]);
      }
    }
    NotSent(past, s, p.c, Zigzag(order, Look(z, p)), Zigzag(order, Look(y, p)));
  }

  // ----- entropy coding

  /** The entropy coder of an image: Huffman tables, or conditioning parameters, and for each
      component the numbers of its tables. */
  datatype Coder =
    | Huffman(dcTbl: seq<nat>, acTbl: seq<nat>, dc: seq<CodeTable.HuffTable>, ac: seq<CodeTable.HuffTable>)
    | Arithmetic(dcTbl: seq<nat>, acTbl: seq<nat>, dcL: seq<nat>, dcU: seq<nat>, acK: seq<nat>)
  {
    ghost predicate Valid(n: nat)
    {
      && |dcTbl| == |acTbl| == n
      && (forall c :: 0 <= c < n ==> dcTbl[c] < Tables() && acTbl[c] < Tables())
      && if Huffman? then |dc| == |ac| == NUM_HUFF_TBLS else |dcL| == |dcU| == |acK| == NUM_ARITH_TBLS
    }

    function Tables(): nat
    {
      if Huffman? then NUM_HUFF_TBLS else NUM_ARITH_TBLS
    }
  }

  /** The tables of the components of a scan. */
  function Chosen(tbls: seq<nat>, cs: seq<nat>): (r: seq<nat>)
    requires forall i :: 0 <= i < |cs| ==> cs[i] < |tbls|
    ensures |r| == |cs| && forall i :: 0 <= i < |cs| ==> r[i] == tbls[cs[i]]
  {
    seq(|cs|, i requires 0 <= i < |cs| => tbls[cs[i]])
  }

  function HuffmanScanOf(coder: Coder, lay: Layout, s: ScanInfo): (sc: HuffmanScan.HScan)
    requires coder.Huffman? && lay.Valid() && coder.Valid(|lay.f.comps|) && ParamsOk(s) && (s.ss > 0 ==> |lay.cs| == 1)
    ensures sc.Valid() && sc.Full() && sc.pass == PassOf(s) && |sc.membership| == |lay.Members(|lay.cs|)|
  {
    var members := lay.Members(|lay.cs|);
    OneMember(lay);
    PassValid(s);
    HuffmanScan.HScan(PassOf(s), members, Chosen(coder.dcTbl, lay.cs), Chosen(coder.acTbl, lay.cs),
      seq(|members|, _ => DCTSIZE2))
  }

  function ArithmeticScanOf(coder: Coder, lay: Layout, s: ScanInfo): (sc: McuCoding.Scan)
    requires coder.Arithmetic? && lay.Valid() && coder.Valid(|lay.f.comps|) && ParamsOk(s) && (s.ss > 0 ==>
      |lay.cs| == 1)
    ensures sc.Valid() && sc.Pass() == PassOf(s) && |sc.membership| == |lay.Members(|lay.cs|)|
  {
    OneMember(lay);
    PassValid(s);
    McuCoding.Scan(ModeOf(s), s.ss, s.se, s.al, DCTSIZE2 - 1, lay.Members(|lay.cs|),
                   Chosen(coder.dcTbl, lay.cs), Chosen(coder.acTbl, lay.cs), coder.dcL, coder.dcU, coder.acK)
  }

  lemma PassValid(s: ScanInfo)
    requires ParamsOk(s)
    ensures PassOf(s).Valid()
    ensures PassOf(s).mode.AcFirstPass? || PassOf(s).mode.AcRefinePass? ==> s.ss > 0
  {
  }

  lemma OneMember(lay: Layout)
    requires lay.Valid()
    ensures |lay.cs| == 1 ==> |lay.Members(|lay.cs|)| == 1
  {
    assert lay.Members(0) == [];
  }

  /** MCUs of the size of the layout. */
  ghost predicate SizedFor(lay: Layout, mcus: seq<Mcu>)
    requires lay.Valid()
  {
    forall m :: 0 <= m < |mcus| ==> |mcus[m]| == |lay.Members(|lay.cs|)|
  }

  lemma ZigzagSized(order: seq<nat>, lay: Layout, mcus: seq<Mcu>)
    requires ValidOrder(order) && lay.Valid() && SizedFor(lay, mcus)
    ensures SizedFor(lay, ZigzagAll(order, mcus))
  {
  }

  /** The coder can code these MCUs (in zigzag order): MCUs are not too large; for Huffman
      coding the tables are usable, no coefficient is too large and no code missing; for
      arithmetic coding all DC differences are in the range of the decoder. */
  ghost predicate Goes(coder: Coder, lay: Layout, s: ScanInfo, ri: nat, zs: seq<Mcu>)
    requires lay.Valid() && coder.Valid(|lay.f.comps|) && ParamsOk(s) && (s.ss > 0 ==>
      |lay.cs| == 1) && SizedFor(lay, zs)
  {
    if coder.Huffman? then HuffmanScans.Encodable(HuffmanScanOf(coder, lay, s), ri, coder.dc, coder.ac, zs)
    else ArithScans.BadIntervals(ArithmeticScanOf(coder, lay, s), ri, zs) == 0
  }

  /** One scan through the entropy coder and decoder. */
  method CodeScan(order: seq<nat>, coder: Coder, lay: Layout, s: ScanInfo, ri: nat, mcus: seq<Mcu>, mk: byte,
    ys: seq<Mcu>)
    returns (ok: bool, r: seq<Mcu>)
    requires ValidOrder(order) && lay.Valid() && coder.Valid(|lay.f.comps|) && ParamsOk(s) && (s.ss > 0 ==>
      |lay.cs| == 1)
    requires SizedFor(lay, mcus) && SizedFor(lay, ys) && Segments.IsMarker(mk)
    requires AllReady(PassOf(s), ZigzagAll(order, mcus), ZigzagAll(order, ys))
    ensures SizedFor(lay, ZigzagAll(order, mcus)) && ok == Goes(coder, lay, s, ri, ZigzagAll(order, mcus))
    ensures ok ==> AllRefined(PassOf(s), ZigzagAll(order, mcus), ZigzagAll(order, ys), ZigzagAll(order, r))
  {
    hide AllReady, AllRefined, Zigzags, Layout.Members, HuffmanScans.Encodable, ArithScans.BadIntervals;
    ZigzagSized(order, lay, mcus);
    if coder.Huffman? {
      var dec;
      ok, r, dec := HuffmanScans.RoundTrip(order, HuffmanScanOf(coder, lay, s), ri, coder.dc, coder.ac, mcus, mk, ys);
    } else {
      var warnings;
      r, warnings := ArithScans.RoundTrip(order, ArithmeticScanOf(coder, lay, s), ri, mcus, mk, ys);
      ok := warnings == 0;
    }
  }

  // ----- whole images

  lemma McusSized(f: Frame, s: ScanInfo, z: seq<Plane>)
    requires IndexesOk(|f.comps|, s) && LayoutOf(f, s).Valid()
    ensures SizedFor(LayoutOf(f, s), ScanMcus(f, s, z))
  {
    SameMembers(LayoutOf(f, s));
  }

  /** Scan i of the script can be coded. */
  ghost predicate ScanGoes(order: seq<nat>, f: Frame, z: seq<Plane>, script: seq<ScanInfo>, coder: Coder, ri: nat,
    i: nat)
    requires ValidOrder(order) && f.Valid() && coder.Valid(|f.comps|) && Orderly(|f.comps|, script) && i < |script|
  {
    LayoutValid(f, script[..i], script[i]);
    var lay := LayoutOf(f, script[i]);
    McusSized(f, script[i], z);
    ZigzagSized(order, lay, ScanMcus(f, script[i], z));
    && |lay.Members(|lay.cs|)| <= C_MAX_BLOCKS_IN_MCU
    && Goes(coder, lay, script[i], ri, ZigzagAll(order, ScanMcus(f, script[i], z)))
  }

  /** The arrays of the encoder are not those of the decoder. */
  ghost predicate Apart(from: seq<array2<Block>>, to: seq<array2<Block>>)
  {
    forall i, j :: 0 <= i < |from| && 0 <= j < |to| ==> from[i] != to[j]
  }

  /** The MCUs of a scan, through full-image arrays; the decoder's arrays are others. */
  method AssembleOne(lay: Layout, z: seq<Plane>, first: bool, from: seq<array2<Block>>, ghost to: seq<array2<Block>>,
    pauses: seq<nat>)
    returns (mcus: seq<Mcu>)
    requires lay.Valid() && Shaped(lay.f, z) && |lay.Members(|lay.cs|)| <= C_MAX_BLOCKS_IN_MCU
    requires ArraysOf(lay.f, from, true) && (!first ==> ImageIn(lay.f, z, from)) && Apart(from, to)
    modifies from
    ensures mcus == FetchAll(lay.f, z, lay.Mcus()) && ImageIn(lay.f, z, from) && Grids(to) == old(Grids(to))
  {
    hide ImageIn, ArraysOf, Shaped;
    assert forall a :: a in to ==> a !in from;
    mcus := Assemble(if first then FirstPass else LaterPass, lay, z, from, pauses);
  }

  /** One scan of an image: put together, coded, decoded over what is known so far, and
      stored. */
  method CodeOne(order: seq<nat>, f: Frame, z: seq<Plane>, script: seq<ScanInfo>, i: nat, coder: Coder, ri: nat,
    mk: byte,
                 from: seq<array2<Block>>, to: seq<array2<Block>>, pauses: seq<nat>) returns (ok: bool)
    requires ValidOrder(order) && f.Valid() && Shaped(f, z) && coder.Valid(|f.comps|) && Segments.IsMarker(mk)
    requires Orderly(|f.comps|, script) && i < |script|
    requires ArraysOf(f, from, true) && ArraysOf(f, to, true) && Apart(from, to)
    requires (i > 0 ==> ImageIn(f, z, from)) && ImageKnown(order, z, script[..i], Grids(to))
    modifies from, to
    ensures ok == ScanGoes(order, f, z, script, coder, ri, i)
    ensures ok ==> ImageIn(f, z, from) && ImageKnown(order, z, script[..i + 1], Grids(to))
  {
    hide Known, Layout.Members, Layout.Mcus, AllReady, AllRefined, Goes, Look, At, ImageKnown, Zigzags, PassOf, ImageIn,
      Shaped, Judge;
    var s := script[i];
    ghost var past, y := script[..i], Grids(to);
    LayoutValid(f, past, s);
    var lay := LayoutOf(f, s);
    ok := |lay.Members(|lay.cs|)| <= C_MAX_BLOCKS_IN_MCU;
    if !ok {
      return;
    }
    var mcus := AssembleOne(lay, z, i == 0, from, to, pauses);
    var ys := FetchAll(f, Grids(to), lay.Mcus());
    McusSized(f, s, z);
    McusSized(f, s, y);
    ScanFinds(order, f, past, s, z, y);
    var r;
    ok, r := CodeScan(order, coder, lay, s, ri, mcus, mk, ys);
    if !ok {
      return;
    }
    assert forall a :: a in from ==> a !in to;
    StoreOne(order, f, z, past, s, to, mcus, ys, r, pauses);
    assert script[..i + 1] == past + [s];
  }

  /** Storing the decoded blocks of a scan. */
  method StoreOne(order: seq<nat>, f: Frame, ghost z: seq<Plane>, ghost past: seq<ScanInfo>, s: ScanInfo,
    to: seq<array2<Block>>,
                  ghost mcus: seq<Mcu>, ghost ys: seq<Mcu>, r: seq<Mcu>, pauses: seq<nat>)
    requires ValidOrder(order) && f.Valid() && Shaped(f, z) && ArraysOf(f, to, true)
    requires Judge(|f.comps|, true, past, s) == Accepted && IndexesOk(|f.comps|, s) && LayoutOf(f, s).Valid()
      && ParamsOk(s)
    requires mcus == ScanMcus(f, s, z) && ys == ScanMcus(f, s, Grids(to)) && ImageKnown(order, z, past, Grids(to))
    requires AllRefined(PassOf(s), ZigzagAll(order, mcus), ZigzagAll(order, ys), ZigzagAll(order, r))
    modifies to
    ensures ImageKnown(order, z, past + [s], Grids(to))
  {
    hide Known, Layout.Members, Layout.Mcus, AllRefined, Look, At, ImageKnown, Judge, Zigzags, PassOf;
    ghost var y := Grids(to);
    var lay := LayoutOf(f, s);
    RefinedSizes(order, s, mcus, ys, r);
    SameMembers(lay);
    var handed := Consume(lay, to, r, pauses);
    ScanLeaves(order, f, past, s, z, y, r, Grids(to));
  }

  lemma RefinedSizes(order: seq<nat>, s: ScanInfo, a: seq<Mcu>, b: seq<Mcu>, r: seq<Mcu>)
    requires ValidOrder(order) && ParamsOk(s) && AllRefined(PassOf(s), ZigzagAll(order, a), ZigzagAll(order, b),
      ZigzagAll(order, r))
    ensures |a| == |r| && forall m :: 0 <= m < |a| ==> |a[m]| == |r[m]|
  {
    hide Pass.Refined;
    forall m | 0 <= m < |a|
      ensures |a[m]| == |r[m]|
    {
      assert McuRefined(PassOf(s), ZigzagAll(order, a)[m], ZigzagAll(order, b)[m], ZigzagAll(order, r)[m]);
    }
  }

  lemma NothingKnown(order: seq<nat>, f: Frame, z: seq<Plane>, y: seq<Plane>)
    requires ValidOrder(order) && f.Valid() && Shaped(f, z) && Padded(f, y)
    requires forall c, r, x :: 0 <= c < |y| && 0 <= r < |y[c]| && 0 <= x < |y[c][r]| ==> y[c][r][x] == ZeroBlock()
    ensures ImageKnown(order, z, [], y)
  {
    forall c, r, x | 0 <= c < |z| && 0 <= r < |z[c]| && 0 <= x < |z[c][r]|
      ensures BlockKnown(order, z, [], y, Place(c, r, x))
    {
      assert f.CompValid(f.comps[c]);
      assert y[c][r][x] == ZeroBlock();
    }
  }

  /** A whole image through any valid script: exactly if every scan can be coded, the decoder
      holds after each scan what is known by then, starting from zeroed arrays, whatever
      the sampling factors, the restart interval and the suspensions. */
  method CodeImage(order: seq<nat>, f: Frame, z: seq<Plane>, script: seq<ScanInfo>, coder: Coder, ri: nat, mk: byte,
                   from: seq<array2<Block>>, to: seq<array2<Block>>, pauses: seq<nat>)
                     returns (ok: bool, ghost ys: seq<seq<Plane>>)
    requires ValidOrder(order) && f.Valid() && Shaped(f, z) && coder.Valid(|f.comps|) && Segments.IsMarker(mk)
    requires Orderly(|f.comps|, script)
    requires ArraysOf(f, from, true) && ArraysOf(f, to, true) && Apart(from, to)
    requires forall c, r, x :: 0 <= c < |to| && 0 <= r < to[c].Length0 && 0 <= x < to[c].Length1 ==>
      to[c][r, x] == ZeroBlock()
    modifies from, to
    ensures ok <==> forall i :: 0 <= i < |script| ==> ScanGoes(order, f, z, script, coder, ri, i)
    ensures ok ==> |ys| == |script| + 1 && ys[|script|] == Grids(to)
    ensures ok ==> forall i :: 0 <= i <= |script| ==> ImageKnown(order, z, script[..i], ys[i])
  {
    hide ScanGoes, ImageKnown, Orderly, ImageIn, Coder.Valid, ZeroBlock;
    ys := [Grids(to)];
    NothingKnown(order, f, z, ys[0]);
    assert script[..0] == [];
    for i := 0 to |script|
      invariant |ys| == i + 1 && ys[i] == Grids(to) && (i > 0 ==> ImageIn(f, z, from))
      invariant forall j :: 0 <= j < i ==> ScanGoes(order, f, z, script, coder, ri, j)
      invariant forall j :: 0 <= j <= i ==> ImageKnown(order, z, script[..j], ys[j])
    {
      ok := CodeOne(order, f, z, script, i, coder, ri, mk, from, to, pauses);
      if !ok {
        return;
      }
      ys := ys + [Grids(to)];
    }
    ok := true;
  }

  /** Where every bit of every coefficient has been sent, the image is rebuilt. */
  lemma CompleteExact(order: seq<nat>, z: seq<Plane>, script: seq<ScanInfo>, y: seq<Plane>, c: nat, r: nat, x: nat)
    requires ValidOrder(order) && ImageKnown(order, z, script, y) && c < |z| && r < |z[c]| && x < |z[c][r]|
    requires forall k :: 0 <= k < DCTSIZE2 ==> LastAl(script, c, k) == 0
    ensures Look(y, Place(c, r, x)) == z[c][r][x]
  {
    var p := Place(c, r, x);
    assert BlockKnown(order, z, script, y, p);
    CompleteKnown(Zigzag(order, Look(z, p)), script, c, Zigzag(order, Look(y, p)));
    ZigzagSame(order, Look(y, p), Look(z, p));
  }

  /** The recommended script rebuilds the whole image. */
  lemma SimpleScriptExact(order: seq<nat>, ycc: bool, z: seq<Plane>, y: seq<Plane>)
    requires ValidOrder(order) && 0 < |z| <= MAX_COMPONENTS && ImageKnown(order, z, SimpleScript(|z|, ycc), y)
    ensures forall c, r, x :: 0 <= c < |z| && 0 <= r < |z[c]| && 0 <= x < |z[c][r]| ==>
      Look(y, Place(c, r, x)) == z[c][r][x]
  {
    hide SimpleScript, Look, ImageKnown, Outcome;
    SimpleScriptComplete(|z|, ycc);
    forall c, r, x | 0 <= c < |z| && 0 <= r < |z[c]| && 0 <= x < |z[c][r]|
      ensures Look(y, Place(c, r, x)) == z[c][r][x]
    {
      CompleteExact(order, z, SimpleScript(|z|, ycc), y, c, r, x);
    }
  }

  // ----- natural order

  function Upto(n: nat): (s: set<nat>)
    ensures |s| == n && forall i :: i in s <==> 0 <= i < n
  {
    if n == 0 then {} else Upto(n - 1) + {n - 1}
  }

  /** The positions the first n entries reach. */
  function Reached(order: seq<nat>, n: nat): set<nat>
    requires n <= |order|
  {
    if n == 0 then {} else Reached(order, n - 1) + {order[n - 1]}
  }

  lemma {:induction false} ReachedBy(order: seq<nat>, n: nat, v: nat)
    requires n <= |order| && v in Reached(order, n)
    ensures exists k :: 0 <= k < n && order[k] == v
  {
    if order[n - 1] != v {
      ReachedBy(order, n - 1, v);
    }
  }

  lemma {:induction false} ReachedCount(order: seq<nat>, n: nat)
    requires n <= |order| && forall j, k :: 0 <= j < k < |order| ==> order[j] != order[k]
    ensures |Reached(order, n)| == n
  {
    if n > 0 {
      ReachedCount(order, n - 1);
      if order[n - 1] in Reached(order, n - 1) {
        ReachedBy(order, n - 1, order[n - 1]);
      }
    }
  }

  /** natural_order reaches every position. */
  lemma OrderOnto(order: seq<nat>, v: nat)
    requires ValidOrder(order) && v < DCTSIZE2
    ensures v in order
  {
    hide Reached, Upto;
    var n := |order|;
    var s := Reached(order, n);
    ReachedCount(order, n);
    forall w | w in s
      ensures w in Upto(n) && w in order
    {
      ReachedBy(order, n, w);
    }
    SmallerSet(s + {v}, Upto(n));
    assert |s + {v}| == |s| + if v in s then 0 else 1;
  }

  lemma {:induction false} SmallerSet(a: set<nat>, b: set<nat>)
    requires a <= b
    ensures |a| <= |b|
  {
    if a != {} {
      var x :| x in a;
      SmallerSet(a - {x}, b - {x});
    }
  }

  lemma ZigzagSame(order: seq<nat>, a: Block, b: Block)
    requires ValidOrder(order) && Zigzag(order, a) == Zigzag(order, b)
    ensures a == b
  {
    forall v | 0 <= v < DCTSIZE2
      ensures a[v] == b[v]
    {
      OrderOnto(order, v);
      var k :| 0 <= k < DCTSIZE2 && order[k] == v;
      assert Zigzag(order, a)[k] == Zigzag(order, b)[k];
    }
  }
}
