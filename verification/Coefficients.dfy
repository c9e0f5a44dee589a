/** AC coefficients of one block as decisions: first pass (also used for sequential
    scans) and successive approximation refinement, with their decoding.  Coefficients
    are indexed in zigzag order; natural_order is applied by the objects. */
module Coefficients {
  import opened JpegLib
  import opened Arithmetic
  import opened Blocks
  import opened Bytes
  import opened Markers
  import opened ProbabilityTable
  import opened IntervalCoder
  import opened ArithDecoding
  import opened Magnitudes

  /** The statistics areas of one AC table: its area starts at b, kx is the conditioning
      bound Kx. */
  datatype AcTable = AcTable(b: nat, kx: nat)
  {
    ghost predicate Valid() { b + AC_STAT_BINS <= ALL_BINS }

    function Bin(k: nat, i: nat): bin
      requires Valid() && 1 <= k < DCTSIZE2 && i <= 2
    {
      b + 3 * (k - 1) + i
    }

    function HighBin(k: nat): nat
      requires Valid()
      ensures HighBin(k) + 28 <= ALL_BINS
    {
      b + if k <= kx then 189 else 217
    }
  }

  /** The transformed coefficients t from position k, ke being the last nonzero one: EOB
      decision, zero run, sign, magnitude, and so on (figure F.5). */
  function AcFirst(ac: AcTable, t: seq<int>, k: nat, ke: nat, se: nat): seq<Decision>
    requires ac.Valid() && 1 <= k && ke <= se < DCTSIZE2 && se < |t| && k <= se + 1
    requires ke >= k ==> t[ke] != 0
    requires forall j :: k <= j <= ke ==> Abs(t[j]) <= 0x8000
    decreases ke + 1 - k, 1
  {
    if k > ke then
      if k <= se then [Decision(ac.Bin(k, 0), 1)] else []
    else
      [Decision(ac.Bin(k, 0), 0)] + AcRun(ac, t, k, ke, se)
  }

  /** Inside a block, where some coefficient is still to come. */
  function AcRun(ac: AcTable, t: seq<int>, k: nat, ke: nat, se: nat): seq<Decision>
    requires ac.Valid() && 1 <= k <= ke <= se < DCTSIZE2 && se < |t|
    requires t[ke] != 0
    requires forall j :: k <= j <= ke ==> Abs(t[j]) <= 0x8000
    decreases ke + 1 - k, 0
  {
    if t[k] == 0 then
      [Decision(ac.Bin(k, 1), 0)] + AcRun(ac, t, k + 1, ke, se)
    else
      [Decision(ac.Bin(k, 1), 1)] + ([Decision(FIXED_BIN, SignBit(t[k]))]
      + (AcMagnitude(ac.Bin(k, 2), ac.HighBin(k), Abs(t[k])) + AcFirst(ac, t, k + 1, ke, se)))
  }

  /** Refinement (figure G.10): a correction decision for coefficients already nonzero, a
      sign for those that become so; no EOB decision up to kex. */
  function AcRefine(ac: AcTable, t: seq<int>, k: nat, kex: nat, ke: nat, se: nat): seq<Decision>
    requires ac.Valid() && 1 <= k && ke <= se < DCTSIZE2 && se < |t| && k <= se + 1
    requires ke >= k ==> t[ke] != 0
    decreases ke + 1 - k, 1
  {
    if k > ke then
      if k <= se then [Decision(ac.Bin(k, 0), 1)] else []
    else
      (if k > kex then [Decision(ac.Bin(k, 0), 0)] else []) + AcRefineRun(ac, t, k, kex, ke, se)
  }

  function AcRefineRun(ac: AcTable, t: seq<int>, k: nat, kex: nat, ke: nat, se: nat): seq<Decision>
    requires ac.Valid() && 1 <= k <= ke <= se < DCTSIZE2 && se < |t|
    requires t[ke] != 0
    decreases ke + 1 - k, 0
  {
    if t[k] == 0 then
      [Decision(ac.Bin(k, 1), 0)] + AcRefineRun(ac, t, k + 1, kex, ke, se)
    else if Abs(t[k]) / 2 != 0 then
      [Decision(ac.Bin(k, 2), Abs(t[k]) % 2)] + AcRefine(ac, t, k + 1, kex, ke, se)
    else
      [Decision(ac.Bin(k, 1), 1)] + ([Decision(FIXED_BIN, SignBit(t[k]))] + AcRefine(ac, t, k + 1, kex, ke, se))
  }

  // ----- decoding

  /** The rest of a block in a first pass: state, coefficients, and whether no spectral or
      magnitude overflow was met. */
  function DecodeFirst(src: seq<byte>, d: Dec, ac: AcTable, z: seq<jcoef>, k: nat, se: nat,
    al: nat): (r: (Dec, seq<jcoef>, bool))
    requires DecOk(d) && ac.Valid() && 1 <= k <= se + 1 && se < DCTSIZE2 && se < |z|
    ensures DecOk(r.0) && |r.1| == |z|
    decreases se + 1 - k, 1
  {
    if k > se then (d, z, true)
    else
      var (eob, d1) := Decode(src, d, ac.Bin(k, 0));
      if eob == 1 then (d1, z, true) else DecodeRun(src, d1, ac, z, k, se, al)
  }

  function DecodeRun(src: seq<byte>, d: Dec, ac: AcTable, z: seq<jcoef>, k: nat, se: nat,
    al: nat): (r: (Dec, seq<jcoef>, bool))
    requires DecOk(d) && ac.Valid() && 1 <= k <= se < DCTSIZE2 && se < |z|
    ensures DecOk(r.0) && |r.1| == |z|
    decreases se + 1 - k, 0
  {
    var (nonzero, d1) := Decode(src, d, ac.Bin(k, 1));
    if nonzero == 0 then
      if k + 1 > se then (d1, z, false) else DecodeRun(src, d1, ac, z, k + 1, se, al)
    else
      var (sign, d2) := Decode(src, d1, FIXED_BIN);
      var (d3, v, ok) := DecodeAcMagnitude(src, d2, ac.Bin(k, 2), ac.HighBin(k));
      if !ok then (d3, z, false)
      else
        DecodeFirst(src, d3, ac, z[k := Jcoef(Signed(sign, v) * Pow2(al))], k + 1, se, al)
  }

  function DecodeRefine(src: seq<byte>, d: Dec, ac: AcTable, z: seq<jcoef>, k: nat, kex: nat, se: nat,
    al: nat): (r: (Dec, seq<jcoef>, bool))
    requires DecOk(d) && ac.Valid() && 1 <= k <= se + 1 && se < DCTSIZE2 && se < |z|
    ensures DecOk(r.0) && |r.1| == |z|
    decreases se + 1 - k, 1
  {
    if k > se then (d, z, true)
    else if k > kex then
      var (eob, d1) := Decode(src, d, ac.Bin(k, 0));
      if eob == 1 then (d1, z, true) else DecodeRefineRun(src, d1, ac, z, k, kex, se, al)
    else DecodeRefineRun(src, d, ac, z, k, kex, se, al)
  }

  function DecodeRefineRun(src: seq<byte>, d: Dec, ac: AcTable, z: seq<jcoef>, k: nat, kex: nat, se: nat,
    al: nat): (r: (Dec, seq<jcoef>, bool))
    requires DecOk(d) && ac.Valid() && 1 <= k <= se < DCTSIZE2 && se < |z|
    ensures DecOk(r.0) && |r.1| == |z|
    decreases se + 1 - k, 0
  {
    if z[k] != 0 then
      var (more, d1) := Decode(src, d, ac.Bin(k, 2));
      DecodeRefine(src, d1, ac, if more == 1 then z[k := Enlarge(z[k], al)] else z, k + 1, kex, se, al)
    else
      var (nonzero, d1) := Decode(src, d, ac.Bin(k, 1));
      if nonzero == 1 then
        var (sign, d2) := Decode(src, d1, FIXED_BIN);
        DecodeRefine(src, d2, ac, z[k := Jcoef(Signed(sign, Pow2(al)))], k + 1, kex, se, al)
      else if k + 1 > se then (d1, z, false)
      else DecodeRefineRun(src, d1, ac, z, k + 1, kex, se, al)
  }

  // ----- decoding undoes coding

  lemma {:induction false} FirstDecodes(src: seq<byte>, d: Dec, ac: AcTable, t: seq<int>, z: seq<jcoef>,
                                        k: nat, ke: nat, se: nat, al: nat)
    requires DecOk(d) && ac.Valid() && 1 <= k <= se + 1 && ke <= se < DCTSIZE2 && se < |t| == |z|
    requires ke >= k ==> t[ke] != 0
    requires forall j :: k <= j <= se ==> Abs(t[j]) <= 0x8000 && z[j] == 0
    requires forall j :: ke < j <= se ==> t[j] == 0
    requires Follows(src, d, AcFirst(ac, t, k, ke, se))
    ensures var (e, z', ok) := DecodeFirst(src, d, ac, z, k, se, al);
            && ok && e == After(src, d, AcFirst(ac, t, k, ke, se))
            && (forall j :: k <= j <= se ==> z'[j] == Jcoef(t[j] * Pow2(al)))
            && (forall j :: 0 <= j < |z| && !(k <= j <= se) ==> z'[j] == z[j])
    decreases ke + 1 - k, 1
  {
    hide Decode, Follows, After, AcRun, DecodeRun;
    if k > ke {
      if k <= se {
        FollowsOne(src, d, Decision(ac.Bin(k, 0), 1));
      } else {
        FollowsNone(src, d);
      }
    } else {
      FollowsCons(src, d, Decision(ac.Bin(k, 0), 0), AcRun(ac, t, k, ke, se));
      RunDecodes(src, Decode(src, d, ac.Bin(k, 0)).1, ac, t, z, k, ke, se, al);
    }
  }

  lemma {:induction false} RunDecodes(src: seq<byte>, d: Dec, ac: AcTable, t: seq<int>, z: seq<jcoef>,
                                      k: nat, ke: nat, se: nat, al: nat)
    requires DecOk(d) && ac.Valid() && 1 <= k <= ke <= se < DCTSIZE2 && se < |t| == |z|
    requires t[ke] != 0
    requires forall j :: k <= j <= se ==> Abs(t[j]) <= 0x8000 && z[j] == 0
    requires forall j :: ke < j <= se ==> t[j] == 0
    requires Follows(src, d, AcRun(ac, t, k, ke, se))
    ensures var (e, z', ok) := DecodeRun(src, d, ac, z, k, se, al);
            && ok && e == After(src, d, AcRun(ac, t, k, ke, se))
            && (forall j :: k <= j <= se ==> z'[j] == Jcoef(t[j] * Pow2(al)))
            && (forall j :: 0 <= j < |z| && !(k <= j <= se) ==> z'[j] == z[j])
    decreases ke + 1 - k, 0
  {
    hide Decode, Follows, After, AcFirst, DecodeFirst, AcMagnitude, DecodeAcMagnitude;
    if t[k] == 0 {
      FollowsCons(src, d, Decision(ac.Bin(k, 1), 0), AcRun(ac, t, k + 1, ke, se));
      RunDecodes(src, Decode(src, d, ac.Bin(k, 1)).1, ac, t, z, k + 1, ke, se, al);
    } else {
      var mag, rest := AcMagnitude(ac.Bin(k, 2), ac.HighBin(k), Abs(t[k])), AcFirst(ac, t, k + 1, ke, se);
      FollowsCons(src, d, Decision(ac.Bin(k, 1), 1), [Decision(FIXED_BIN, SignBit(t[k]))] + (mag + rest));
      var d1 := Decode(src, d, ac.Bin(k, 1)).1;
      FollowsCons(src, d1, Decision(FIXED_BIN, SignBit(t[k])), mag + rest);
      var d2 := Decode(src, d1, FIXED_BIN).1;
      FollowsConcat(src, d2, mag, rest);
      AcMagnitudeDecodes(src, d2, ac.Bin(k, 2), ac.HighBin(k), Abs(t[k]));
      FirstDecodes(src, After(src, d2, mag), ac, t, z[k := Jcoef(t[k] * Pow2(al))], k + 1, ke, se, al);
    }
  }

  lemma {:induction false} RefineDecodes(src: seq<byte>, d: Dec, ac: AcTable, t: seq<int>, z: seq<jcoef>,
                                         k: nat, kex: nat, ke: nat, se: nat, al: nat)
    requires DecOk(d) && ac.Valid() && 1 <= k <= se + 1 && ke <= se < DCTSIZE2 && se < |t| == |z|
    requires ke >= k ==> t[ke] != 0
    requires kex <= ke || kex < k
    requires forall j :: k <= j <= se ==> Refinable(t[j], z[j], al)
    requires forall j :: ke < j <= se ==> t[j] == 0
    requires Follows(src, d, AcRefine(ac, t, k, kex, ke, se))
    ensures var (e, z', ok) := DecodeRefine(src, d, ac, z, k, kex, se, al);
            && ok && e == After(src, d, AcRefine(ac, t, k, kex, ke, se))
            && (forall j :: k <= j <= se ==> z'[j] == t[j] * Pow2(al))
            && (forall j :: 0 <= j < |z| && !(k <= j <= se) ==> z'[j] == z[j])
    decreases ke + 1 - k, 1
  {
    hide Decode, Follows, After, AcRefineRun, DecodeRefineRun, Transform;
    if k > ke {
      if k <= se {
        FollowsOne(src, d, Decision(ac.Bin(k, 0), 1));
      } else {
        FollowsNone(src, d);
      }
      forall j | k <= j <= se
        ensures z[j] == t[j] * Pow2(al)
      {
        RefineOne(t[j], z[j], al);
      }
    } else if k > kex {
      FollowsCons(src, d, Decision(ac.Bin(k, 0), 0), AcRefineRun(ac, t, k, kex, ke, se));
      RefineRunDecodes(src, Decode(src, d, ac.Bin(k, 0)).1, ac, t, z, k, kex, ke, se, al);
    } else {
      assert AcRefine(ac, t, k, kex, ke, se) == AcRefineRun(ac, t, k, kex, ke, se);
      RefineRunDecodes(src, d, ac, t, z, k, kex, ke, se, al);
    }
  }

  lemma {:induction false} RefineRunDecodes(src: seq<byte>, d: Dec, ac: AcTable, t: seq<int>, z: seq<jcoef>,
                                            k: nat, kex: nat, ke: nat, se: nat, al: nat)
    requires DecOk(d) && ac.Valid() && 1 <= k <= ke <= se < DCTSIZE2 && se < |t| == |z|
    requires t[ke] != 0
    requires kex <= ke || kex < k
    requires forall j :: k <= j <= se ==> Refinable(t[j], z[j], al)
    requires forall j :: ke < j <= se ==> t[j] == 0
    requires Follows(src, d, AcRefineRun(ac, t, k, kex, ke, se))
    ensures var (e, z', ok) := DecodeRefineRun(src, d, ac, z, k, kex, se, al);
            && ok && e == After(src, d, AcRefineRun(ac, t, k, kex, ke, se))
            && (forall j :: k <= j <= se ==> z'[j] == t[j] * Pow2(al))
            && (forall j :: 0 <= j < |z| && !(k <= j <= se) ==> z'[j] == z[j])
    decreases ke + 1 - k, 0
  {
    hide Decode, Follows, After, AcRefine, DecodeRefine, Transform, Refinable;
    RefineOne(t[k], z[k], al);
    RefinableFits(t[k], z[k], al);
    if t[k] == 0 {
      FollowsCons(src, d, Decision(ac.Bin(k, 1), 0), AcRefineRun(ac, t, k + 1, kex, ke, se));
      RefineRunDecodes(src, Decode(src, d, ac.Bin(k, 1)).1, ac, t, z, k + 1, kex, ke, se, al);
    } else if Abs(t[k]) / 2 != 0 {
      var rest := AcRefine(ac, t, k + 1, kex, ke, se);
      FollowsCons(src, d, Decision(ac.Bin(k, 2), Abs(t[k]) % 2), rest);
      RefineDecodes(src, Decode(src, d, ac.Bin(k, 2)).1, ac, t,
                    if Abs(t[k]) % 2 == 1 then z[k := Enlarge(z[k], al)] else z, k + 1, kex, ke, se, al);
    } else {
      var rest := AcRefine(ac, t, k + 1, kex, ke, se);
      FollowsCons(src, d, Decision(ac.Bin(k, 1), 1), [Decision(FIXED_BIN, SignBit(t[k]))] + rest);
      var d1 := Decode(src, d, ac.Bin(k, 1)).1;
      FollowsCons(src, d1, Decision(FIXED_BIN, SignBit(t[k])), rest);
      RefineDecodes(src, Decode(src, d1, FIXED_BIN).1, ac, t, z[k := t[k] * Pow2(al)], k + 1, kex, ke, se, al);
    }
  }

  /** Below the first position, the exact value of kex does not matter. */
  lemma {:induction false} KexBelow(ac: AcTable, t: seq<int>, k: nat, kex: nat, kex': nat, ke: nat, se: nat)
    requires ac.Valid() && 1 <= k && ke <= se < DCTSIZE2 && se < |t| && k <= se + 1
    requires ke >= k ==> t[ke] != 0
    requires kex < k && kex' < k
    ensures AcRefine(ac, t, k, kex, ke, se) == AcRefine(ac, t, k, kex', ke, se)
    ensures k <= ke ==> AcRefineRun(ac, t, k, kex, ke, se) == AcRefineRun(ac, t, k, kex', ke, se)
    decreases ke + 1 - k
  {
    if k <= ke {
      KexBelow(ac, t, k + 1, kex, kex', ke, se);
    }
  }
}
