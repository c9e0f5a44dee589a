/** Scan scripts: validate_script and reduce_script (jcmaster.c), the recommended script
    (jcparam.c), and the checks of the decoder at the start of every scan (start_pass in
    jdarith.c and jdhuff.c). */
module Scripts {
  import opened JpegLib
  const MAX_AH_AL := 10

  /** jpeg_scan_info: the indexes of the components in the scan (component_index up to
      comps_in_scan), and its progression parameters. */
  datatype ScanInfo = ScanInfo(comps: seq<int>, ss: int, se: int, ah: int, al: int)

  predicate Covers(s: ScanInfo, c: int, k: int)
  {
    c in s.comps && s.ss <= k <= s.se
  }

  /** The Al of the last scan that sent coefficient k of component c, or -1. */
  function LastAl(past: seq<ScanInfo>, c: int, k: int): int
  {
    if past == [] then -1
    else
      var s := past[|past| - 1];
      if Covers(s, c, k) then s.al else LastAl(past[..|past| - 1], c, k)
  }

  lemma LastAlSnoc(past: seq<ScanInfo>, s: ScanInfo, c: int, k: int)
    ensures LastAl(past + [s], c, k) == if Covers(s, c, k) then s.al else LastAl(past, c, k)
  {
    assert (past + [s])[..|past|] == past;
  }

  // ----- what a valid script is

  predicate IndexesOk(n: nat, s: ScanInfo)
  {
    && (forall ci :: 0 <= ci < |s.comps| ==> 0 <= s.comps[ci] < n)
    && (forall ci :: 0 < ci < |s.comps| ==> s.comps[ci - 1] < s.comps[ci])
  }

  predicate ParamsOk(s: ScanInfo)
  {
    && 0 <= s.ss <= s.se < DCTSIZE2 && 0 <= s.ah <= MAX_AH_AL && 0 <= s.al <= MAX_AH_AL
    && (if s.ss == 0 then s.se == 0 else |s.comps| == 1)
  }

  /** A coefficient is first sent with Ah = 0, and then one bit more at a time. */
  predicate StepOk(last: int, ah: int, al: int)
  {
    if last < 0 then ah == 0 else ah == last && al == ah - 1
  }

  /** Component c of a scan: DC data was sent before, and every coefficient is in order. */
  ghost predicate ComponentOk(past: seq<ScanInfo>, s: ScanInfo, c: int)
  {
    && (s.ss != 0 ==> LastAl(past, c, 0) >= 0)
    && (forall k :: s.ss <= k <= s.se ==> StepOk(LastAl(past, c, k), s.ah, s.al))
  }

  ghost predicate ProgressionOk(past: seq<ScanInfo>, s: ScanInfo)
  {
    ParamsOk(s) && forall ci :: 0 <= ci < |s.comps| ==> ComponentOk(past, s, s.comps[ci])
  }

  predicate Sent(past: seq<ScanInfo>, c: int)
  {
    exists j :: 0 <= j < |past| && c in past[j].comps
  }

  predicate Progressive(script: seq<ScanInfo>)
    requires script != []
  {
    script[0].ss != 0 || script[0].se != DCTSIZE2 - 1
  }

  datatype Verdict =
    | Accepted | ComponentCount(n: int) | BadScanScript(scan: int) | BadProgScript(scan: int) | MissingData

  /** The verdict on one scan after the scans before it. */
  ghost function Judge(n: nat, progressive: bool, past: seq<ScanInfo>, s: ScanInfo): Verdict
  {
    if |s.comps| <= 0 || |s.comps| > MAX_COMPS_IN_SCAN then ComponentCount(|s.comps|)
    else if !IndexesOk(n, s) then BadScanScript(|past| + 1)
    else if progressive then
      if ProgressionOk(past, s) then Accepted else BadProgScript(|past| + 1)
    else if s.ss != 0 || s.se != DCTSIZE2 - 1 || s.ah != 0 || s.al != 0 then BadProgScript(|past| + 1)
    else if exists ci :: 0 <= ci < |s.comps| && Sent(past, s.comps[ci]) then BadScanScript(|past| + 1)
    else Accepted
  }

  /** The verdict on a script whose first i scans are accepted. */
  ghost function Outcome(n: nat, script: seq<ScanInfo>, i: nat): Verdict
    requires script != [] && i <= |script|
    decreases |script| - i
  {
    if i < |script| then
      var v := Judge(n, Progressive(script), script[..i], script[i]);
      if v == Accepted then Outcome(n, script, i + 1) else v
    else if forall c :: 0 <= c < n ==>
      (if Progressive(script) then LastAl(script, c, 0) >= 0 else Sent(script, c)) then Accepted
    else MissingData
  }

  /** A valid progressive script. */
  ghost predicate ProgressiveScript(n: nat, script: seq<ScanInfo>)
  {
    && Orderly(n, script)
    && forall c :: 0 <= c < n ==> LastAl(script, c, 0) >= 0
  }

  ghost predicate Orderly(n: nat, script: seq<ScanInfo>)
  {
    forall i :: 0 <= i < |script| ==> Judge(n, true, script[..i], script[i]) == Accepted
  }

  lemma {:induction false} OutcomeProgressive(n: nat, script: seq<ScanInfo>, i: nat)
    requires script != [] && i <= |script| && Progressive(script)
    requires forall j :: 0 <= j < i ==> Judge(n, true, script[..j], script[j]) == Accepted
    ensures Outcome(n, script, i) == Accepted <==> ProgressiveScript(n, script)
    decreases |script| - i
  {
    if i < |script| {
      if Judge(n, true, script[..i], script[i]) == Accepted {
        OutcomeProgressive(n, script, i + 1);
      }
    }
  }

  // ----- validate_script

  /** The inner loops of the progressive check for one component of a scan. */
  method CheckCoefs(lastBitpos: array2<int>, c: nat, s: ScanInfo) returns (ok: bool)
    requires c < lastBitpos.Length0 && lastBitpos.Length1 == DCTSIZE2 && ParamsOk(s)
    modifies lastBitpos
    ensures ok <==>
      && (s.ss != 0 ==> old(lastBitpos[c, 0]) >= 0)
      && (forall k :: s.ss <= k <= s.se ==> StepOk(old(lastBitpos[c, k]), s.ah, s.al))
    ensures ok ==> forall d, k :: 0 <= d < lastBitpos.Length0 && 0 <= k < DCTSIZE2 ==>
      lastBitpos[d, k] == if d == c && s.ss <= k <= s.se then s.al else old(lastBitpos[d, k])
  {
    if s.ss != 0 && lastBitpos[c, 0] < 0 {
      return false;  // AC without prior DC scan
    }
    for coefi := s.ss to s.se + 1
      invariant forall k :: s.ss <= k < coefi ==> StepOk(old(lastBitpos[c, k]), s.ah, s.al)
      invariant forall d, k :: 0 <= d < lastBitpos.Length0 && 0 <= k < DCTSIZE2 ==>
        lastBitpos[d, k] == if d == c && s.ss <= k < coefi then s.al else old(lastBitpos[d, k])
    {
      if lastBitpos[c, coefi] < 0 {
        if s.ah != 0 {
          return false;
        }
      } else {
        if s.ah != lastBitpos[c, coefi] || s.al != s.ah - 1 {
          return false;
        }
      }
      lastBitpos[c, coefi] := s.al;
    }
    return true;
  }

  ghost predicate Tracks(n: nat, lastBitpos: array2<int>, past: seq<ScanInfo>)
    reads lastBitpos
  {
    && n <= lastBitpos.Length0 && lastBitpos.Length1 == DCTSIZE2
    && forall c, k :: 0 <= c < n && 0 <= k < DCTSIZE2 ==> lastBitpos[c, k] == LastAl(past, c, k)
  }

  /** The progressive part of the check of one scan. */
  method CheckProgression(n: nat, lastBitpos: array2<int>, s: ScanInfo, ghost past: seq<ScanInfo>) returns (ok: bool)
    requires Tracks(n, lastBitpos, past) && IndexesOk(n, s)
    modifies lastBitpos
    ensures ok <==> ProgressionOk(past, s)
    ensures ok ==> Tracks(n, lastBitpos, past + [s])
  {
    if s.ss < 0 || s.ss >= DCTSIZE2 || s.se < s.ss || s.se >= DCTSIZE2
       || s.ah < 0 || s.ah > MAX_AH_AL || s.al < 0 || s.al > MAX_AH_AL {
      return false;
    }
    if s.ss == 0 {
      if s.se != 0 {
        return false;
      }
    } else if |s.comps| != 1 {
      return false;
    }
    for ci := 0 to |s.comps|
      invariant forall j :: 0 <= j < ci ==> ComponentOk(past, s, s.comps[j])
      invariant forall c, k :: 0 <= c < n && 0 <= k < DCTSIZE2 ==>
        lastBitpos[c, k] == if c in s.comps[..ci] && s.ss <= k <= s.se then s.al else LastAl(past, c, k)
    {
      Increasing(n, s, ci);
      ok := CheckCoefs(lastBitpos, s.comps[ci], s);
      if !ok {
        assert !ComponentOk(past, s, s.comps[ci]);
        return false;
      }
      assert s.comps[..ci + 1] == s.comps[..ci] + [s.comps[ci]];
    }
    assert s.comps[..|s.comps|] == s.comps;
    forall c, k | 0 <= c < n && 0 <= k < DCTSIZE2
      ensures lastBitpos[c, k] == LastAl(past + [s], c, k)
    {
      LastAlSnoc(past, s, c, k);
    }
    return true;
  }

  lemma Increasing(n: nat, s: ScanInfo, ci: nat)
    requires IndexesOk(n, s) && ci < |s.comps|
    ensures s.comps[ci] !in s.comps[..ci]
  {
    for j := ci downto 0
      invariant forall i :: j <= i < ci ==> s.comps[i] < s.comps[ci]
      invariant j < ci ==> s.comps[j] < s.comps[ci]
    {
    }
  }

  /** The sequential part: all coefficients in one scan, each component once. */
  method CheckSequential(n: nat, componentSent: array<bool>, s: ScanInfo, scanno: int, ghost past: seq<ScanInfo>)
    returns (v: Verdict)
    requires n <= componentSent.Length && 0 < |s.comps| <= MAX_COMPS_IN_SCAN && IndexesOk(n, s) && scanno == |past| + 1
    requires forall c :: 0 <= c < n ==> componentSent[c] == Sent(past, c)
    modifies componentSent
    ensures v == Judge(n, false, past, s)
    ensures v == Accepted ==> forall c :: 0 <= c < n ==> componentSent[c] == Sent(past + [s], c)
  {
    if s.ss != 0 || s.se != DCTSIZE2 - 1 || s.ah != 0 || s.al != 0 {
      return BadProgScript(scanno);
    }
    for ci := 0 to |s.comps|
      invariant forall j :: 0 <= j < ci ==> !Sent(past, s.comps[j])
      invariant forall c :: 0 <= c < n ==> componentSent[c] == (Sent(past, c) || c in s.comps[..ci])
    {
      var thisi := s.comps[ci];
      Increasing(n, s, ci);
      if componentSent[thisi] {
        return BadScanScript(scanno);
      }
      componentSent[thisi] := true;
      assert s.comps[..ci + 1] == s.comps[..ci] + [thisi];
    }
    assert s.comps[..|s.comps|] == s.comps;
    forall c | 0 <= c < n
      ensures Sent(past + [s], c) == (Sent(past, c) || c in s.comps)
    {
      SentSnoc(past, s, c);
    }
    return Accepted;
  }

  lemma SentSnoc(past: seq<ScanInfo>, s: ScanInfo, c: int)
    ensures Sent(past + [s], c) == (Sent(past, c) || c in s.comps)
  {
    var q := past + [s];
    if Sent(past, c) {
      var j :| 0 <= j < |past| && c in past[j].comps;
      assert c in q[j].comps;
    }
    if c in s.comps {
      assert c in q[|past|].comps;
    }
  }

  /** validate_script: the verdict on the script, and whether it is progressive. */
  method ValidateScript(n: nat, script: seq<ScanInfo>) returns (v: Verdict, progressive: bool)
    requires n <= MAX_COMPONENTS
    ensures v == if script == [] then BadScanScript(0) else Outcome(n, script, 0)
    ensures script != [] ==> progressive == Progressive(script)
  {
    if |script| <= 0 {
      return BadScanScript(0), false;
    }
    var lastBitpos := new int[MAX_COMPONENTS, DCTSIZE2]((c, k) => -1);
    var componentSent := new bool[MAX_COMPONENTS](c => false);
    progressive := script[0].ss != 0 || script[0].se != DCTSIZE2 - 1;
    for i := 0 to |script|
      invariant if progressive then Tracks(n, lastBitpos, script[..i])
                else forall c :: 0 <= c < n ==> componentSent[c] == Sent(script[..i], c)
      invariant Outcome(n, script, 0) == Outcome(n, script, i)
    {
      v := CheckScan(n, lastBitpos, componentSent, progressive, script[i], i + 1, script[..i]);
      if v != Accepted {
        return;
      }
      assert script[..i + 1] == script[..i] + [script[i]];
    }
    assert script[..|script|] == script;
    for ci := 0 to n
      invariant forall c :: 0 <= c < ci ==> if progressive then LastAl(script, c, 0) >= 0 else Sent(script, c)
    {
      if (progressive && lastBitpos[ci, 0] < 0) || (!progressive && !componentSent[ci]) {
        return MissingData, progressive;
      }
    }
    return Accepted, progressive;
  }

  method CheckScan(n: nat, lastBitpos: array2<int>, componentSent: array<bool>, progressive: bool, s: ScanInfo,
    scanno: int,
                   ghost past: seq<ScanInfo>) returns (v: Verdict)
    requires n <= componentSent.Length && scanno == |past| + 1
    requires if progressive then Tracks(n, lastBitpos, past) else forall c :: 0 <= c < n ==>
      componentSent[c] == Sent(past, c)
    modifies lastBitpos, componentSent
    ensures v == Judge(n, progressive, past, s)
    ensures v == Accepted ==>
      if progressive then Tracks(n, lastBitpos, past + [s])
      else forall c :: 0 <= c < n ==> componentSent[c] == Sent(past + [s], c)
  {
    var ncomps := |s.comps|;
    if ncomps <= 0 || ncomps > MAX_COMPS_IN_SCAN {
      return ComponentCount(ncomps);
    }
    for ci := 0 to ncomps
      invariant forall j :: 0 <= j < ci ==> 0 <= s.comps[j] < n
      invariant forall j :: 0 < j < ci ==> s.comps[j - 1] < s.comps[j]
    {
      var thisi := s.comps[ci];
      if thisi < 0 || thisi >= n || (ci > 0 && thisi <= s.comps[ci - 1]) {
        return BadScanScript(scanno);
      }
    }
    if progressive {
      var ok := CheckProgression(n, lastBitpos, s, past);
      return if ok then Accepted else BadProgScript(scanno);
    } else {
      v := CheckSequential(n, componentSent, s, scanno, past);
    }
  }

  // ----- reduce_script

  /** The scans that remain when blocks end at coefficient limSe. */
  function Reduced(script: seq<ScanInfo>, limSe: nat): seq<ScanInfo>
  {
    if script == [] then []
    else
      var s, rest := script[|script| - 1], Reduced(script[..|script| - 1], limSe);
      if s.ss > limSe then rest else rest + [s.(se := if s.se > limSe then limSe else s.se)]
  }

  method ReduceScript(scanInfo: array<ScanInfo>, numScans: nat, limSe: nat) returns (idxout: nat)
    requires numScans <= scanInfo.Length
    modifies scanInfo
    ensures idxout <= numScans && scanInfo[..idxout] == Reduced(old(scanInfo[..numScans]), limSe)
  {
    hide Reduced;
    ghost var script := scanInfo[..numScans];
    idxout := 0;
    assert Reduced(script[..0], limSe) == [] by { NoneReduced(limSe); }
    for idxin := 0 to numScans
      invariant idxout <= idxin && scanInfo[idxin..numScans] == script[idxin..]
      invariant scanInfo[..idxout] == Reduced(script[..idxin], limSe)
    {
      ghost var kept := scanInfo[..idxout];
      assert scanInfo[idxin] == script[idxin] by { assert scanInfo[idxin..numScans][0] == script[idxin..][0]; }
      ReducedSnoc(script, idxin, limSe);
      if idxin != idxout {
        scanInfo[idxout] := scanInfo[idxin];
      }
      assert scanInfo[idxin + 1..numScans] == script[idxin + 1..];
      if scanInfo[idxout].ss > limSe {
        assert scanInfo[..idxout] == kept;
        continue;
      }
      if scanInfo[idxout].se > limSe {
        scanInfo[idxout] := scanInfo[idxout].(se := limSe);
      }
      assert scanInfo[..idxout + 1] == kept + [scanInfo[idxout]];
      idxout := idxout + 1;
    }
    assert script[..numScans] == script;
  }

  lemma NoneReduced(limSe: nat)
    ensures Reduced([], limSe) == []
  {
  }

  lemma ReducedSnoc(script: seq<ScanInfo>, i: nat, limSe: nat)
    requires i < |script|
    ensures var s, rest := script[i], Reduced(script[..i], limSe);
            Reduced(script[..i + 1], limSe)
              == if s.ss > limSe then rest else rest + [s.(se := if s.se > limSe then limSe else s.se)]
  {
    assert script[..i + 1][..i] == script[..i];
  }

  // ----- the decoder

  /** The fatal errors of start_pass in progressive mode; the parameters come from unsigned
      bytes. */
  predicate BadProgression(limSe: nat, s: ScanInfo)
  {
    || (if s.ss == 0 then s.se != 0 else s.se < s.ss || s.se > limSe || |s.comps| != 1)
    || (s.ah != 0 && s.ah - 1 != s.al)
    || s.al > 13
  }

  function Expected(last: int): int
  {
    if last < 0 then 0 else last
  }

  /** No warning about a bogus progression, for component c and for the scan. */
  ghost predicate ExpectsOne(past: seq<ScanInfo>, s: ScanInfo, c: int)
  {
    && (s.ss != 0 ==> LastAl(past, c, 0) >= 0)
    && (forall k :: s.ss <= k <= s.se ==> s.ah == Expected(LastAl(past, c, k)))
  }

  ghost predicate Expects(past: seq<ScanInfo>, s: ScanInfo)
  {
    forall ci :: 0 <= ci < |s.comps| ==> ExpectsOne(past, s, s.comps[ci])
  }

  /** The check of progressive scan parameters in start_pass: whether they are fatally bad,
      else the number of warnings; coef_bits is brought up to date. */
  method StartScan(n: nat, coefBits: array2<int>, limSe: nat, s: ScanInfo, ghost past: seq<ScanInfo>)
    returns (bad: bool, warnings: nat)
    requires Tracks(n, coefBits, past) && limSe < DCTSIZE2
    requires 0 <= s.ss && 0 <= s.se && 0 <= s.ah && 0 <= s.al
    requires forall ci :: 0 <= ci < |s.comps| ==> 0 <= s.comps[ci] < n
    modifies coefBits
    ensures bad == BadProgression(limSe, s)
    ensures !bad ==> Tracks(n, coefBits, past + [s])
    ensures !bad && IndexesOk(n, s) ==> (warnings == 0 <==> Expects(past, s))
  {
    warnings := 0;
    if s.ss == 0 {
      if s.se != 0 {
        return true, 0;
      }
    } else {
      if s.se < s.ss || s.se > limSe {
        return true, 0;
      }
      if |s.comps| != 1 {
        return true, 0;
      }
    }
    if s.ah != 0 && s.ah - 1 != s.al {
      return true, 0;
    }
    if s.al > 13 {
      return true, 0;
    }
    for ci := 0 to |s.comps|
      invariant forall c, k :: 0 <= c < n && 0 <= k < DCTSIZE2 ==>
        coefBits[c, k] == if c in s.comps[..ci] && s.ss <= k <= s.se then s.al else LastAl(past, c, k)
      invariant IndexesOk(n, s) ==> (warnings == 0 <==> forall j :: 0 <= j < ci ==> ExpectsOne(past, s, s.comps[j]))
    {
      if IndexesOk(n, s) {
        Increasing(n, s, ci);
      }
      var w := UpdateStatus(coefBits, s.comps[ci], s);
      warnings := warnings + w;
      assert s.comps[..ci + 1] == s.comps[..ci] + [s.comps[ci]];
    }
    assert s.comps[..|s.comps|] == s.comps;
    forall c, k | 0 <= c < n && 0 <= k < DCTSIZE2
      ensures coefBits[c, k] == LastAl(past + [s], c, k)
    {
      LastAlSnoc(past, s, c, k);
    }
    bad := false;
  }

  /** The status of one component, with the number of inconsistencies. */
  method UpdateStatus(coefBits: array2<int>, c: nat, s: ScanInfo) returns (warnings: nat)
    requires c < coefBits.Length0 && coefBits.Length1 == DCTSIZE2 && 0 <= s.ss <= s.se < DCTSIZE2
    modifies coefBits
    ensures warnings == 0 <==>
      && (s.ss != 0 ==> old(coefBits[c, 0]) >= 0)
      && (forall k :: s.ss <= k <= s.se ==> s.ah == Expected(old(coefBits[c, k])))
    ensures forall d, k :: 0 <= d < coefBits.Length0 && 0 <= k < DCTSIZE2 ==>
      coefBits[d, k] == if d == c && s.ss <= k <= s.se then s.al else old(coefBits[d, k])
  {
    warnings := 0;
    if s.ss != 0 && coefBits[c, 0] < 0 {
      warnings := warnings + 1;
    }
    for coefi := s.ss to s.se + 1
      invariant warnings == 0 <==>
        && (s.ss != 0 ==> old(coefBits[c, 0]) >= 0)
        && (forall k :: s.ss <= k < coefi ==> s.ah == Expected(old(coefBits[c, k])))
      invariant forall d, k :: 0 <= d < coefBits.Length0 && 0 <= k < DCTSIZE2 ==>
        coefBits[d, k] == if d == c && s.ss <= k < coefi then s.al else old(coefBits[d, k])
    {
      var expected := if coefBits[c, coefi] < 0 then 0 else coefBits[c, coefi];
      if s.ah != expected {
        warnings := warnings + 1;
      }
      coefBits[c, coefi] := s.al;
    }
  }

  // ----- what the compressor accepts, the decompressor accepts

  lemma OrderlySnoc(n: nat, script: seq<ScanInfo>, s: ScanInfo)
    ensures Orderly(n, script + [s]) <==> Orderly(n, script) && Judge(n, true, script, s) == Accepted
  {
    var q := script + [s];
    assert q[..|script|] == script && q[|script|] == s;
    assert forall i :: 0 <= i < |script| ==> q[..i] == script[..i] && q[i] == script[i];
  }

  /** Reduction keeps what is known of the coefficients that remain. */
  lemma {:induction false} ReducedLastAl(script: seq<ScanInfo>, limSe: nat, c: int, k: int)
    ensures LastAl(Reduced(script, limSe), c, k) == if k <= limSe then LastAl(script, c, k) else -1
  {
    if script != [] {
      var s, rest := script[|script| - 1], script[..|script| - 1];
      ReducedLastAl(rest, limSe, c, k);
      LastAlSnoc(Reduced(rest, limSe), s.(se := if s.se > limSe then limSe else s.se), c, k);
    }
  }

  ghost predicate Plays(n: nat, limSe: nat, script: seq<ScanInfo>)
  {
    forall i :: 0 <= i < |script| ==>
      && IndexesOk(n, script[i]) && 0 < |script[i].comps| <= MAX_COMPS_IN_SCAN
      && 0 <= script[i].ss <= script[i].se <= limSe && 0 <= script[i].ah && 0 <= script[i].al
      && !BadProgression(limSe, script[i]) && Expects(script[..i], script[i])
  }

  /** A valid progressive script, reduced to any block size, is replayed by the decoder
      without an error or a warning. */
  lemma {:induction false} AcceptedPlays(n: nat, script: seq<ScanInfo>, limSe: nat)
    requires Orderly(n, script) && limSe < DCTSIZE2
    ensures Plays(n, limSe, Reduced(script, limSe))
  {
    if script != [] {
      var s, rest := script[|script| - 1], script[..|script| - 1];
      assert script == rest + [s];
      OrderlySnoc(n, rest, s);
      AcceptedPlays(n, rest, limSe);
      if s.ss <= limSe {
        var r := Reduced(rest, limSe);
        var t := s.(se := if s.se > limSe then limSe else s.se);
        forall ci | 0 <= ci < |t.comps|
          ensures ExpectsOne(r, t, t.comps[ci])
        {
          assert ComponentOk(rest, s, s.comps[ci]);
          ReducedLastAl(rest, limSe, t.comps[ci], 0);
          forall k | t.ss <= k <= t.se
            ensures t.ah == Expected(LastAl(r, t.comps[ci], k))
          {
            ReducedLastAl(rest, limSe, t.comps[ci], k);
          }
        }
        var q := r + [t];
        assert q[..|r|] == r && q[|r|] == t;
        assert forall i :: 0 <= i < |r| ==> q[..i] == r[..i] && q[i] == r[i];
        if t.ah != 0 {
          assert ComponentOk(rest, s, s.comps[0]);
          assert StepOk(LastAl(rest, s.comps[0], s.ss), s.ah, s.al);
        }
      }
    }
  }

  /** A decoder replaying the scans of a script: whether some scan was bad, and all its
      warnings. */
  method Replay(n: nat, limSe: nat, script: seq<ScanInfo>) returns (bad: bool, warnings: nat)
    requires limSe < DCTSIZE2 && n <= MAX_COMPONENTS
    requires forall i :: 0 <= i < |script| ==> IndexesOk(n, script[i])
    requires forall i :: 0 <= i < |script| ==>
      0 <= script[i].ss && 0 <= script[i].se && 0 <= script[i].ah && 0 <= script[i].al
    ensures (!bad && warnings == 0) <==>
      forall i :: 0 <= i < |script| ==> !BadProgression(limSe, script[i]) && Expects(script[..i], script[i])
  {
    var coefBits := new int[MAX_COMPONENTS, DCTSIZE2]((c, k) => -1);
    bad, warnings := false, 0;
    for i := 0 to |script|
      invariant !bad && Tracks(n, coefBits, script[..i])
      invariant warnings == 0 <==> forall j :: 0 <= j < i ==> Expects(script[..j], script[j])
      invariant forall j :: 0 <= j < i ==> !BadProgression(limSe, script[j])
    {
      var w;
      bad, w := StartScan(n, coefBits, limSe, script[i], script[..i]);
      if bad {
        return;
      }
      assert script[..i + 1] == script[..i] + [script[i]];
      warnings := warnings + w;
    }
  }

  // ----- jpeg_simple_progression

  /** One scan for each of the first n components. */
  function ScansFor(n: nat, ss: int, se: int, ah: int, al: int): (r: seq<ScanInfo>)
    ensures |r| == n && forall c :: 0 <= c < n ==> r[c] == ScanInfo([c], ss, se, ah, al)
  {
    seq(n, c => ScanInfo([c], ss, se, ah, al))
  }

  function Indexes(n: nat): (r: seq<int>)
    ensures |r| == n && forall c :: 0 <= c < n ==> r[c] == c
    ensures forall c :: c in r <==> 0 <= c < n
  {
    if n == 0 then [] else Indexes(n - 1) + [n - 1]
  }

  /** DC scans: one interleaved, or one for each component. */
  function DcScans(n: nat, ah: int, al: int): seq<ScanInfo>
  {
    if n <= MAX_COMPS_IN_SCAN then [ScanInfo(Indexes(n), 0, 0, ah, al)] else ScansFor(n, 0, 0, ah, al)
  }

  function SimpleScript(n: nat, ycc: bool): seq<ScanInfo>
  {
    if n == 3 && ycc then
      DcScans(n, 0, 1)
      + [ScanInfo([0], 1, 5, 0, 2), ScanInfo([2], 1, 63, 0, 1), ScanInfo([1], 1, 63, 0, 1),
         ScanInfo([0], 6, 63, 0, 2), ScanInfo([0], 1, 63, 2, 1)]
      + DcScans(n, 1, 0)
      + [ScanInfo([2], 1, 63, 1, 0), ScanInfo([1], 1, 63, 1, 0), ScanInfo([0], 1, 63, 1, 0)]
    else
      DcScans(n, 0, 1) + ScansFor(n, 1, 5, 0, 2) + ScansFor(n, 6, 63, 0, 2)
      + ScansFor(n, 1, 63, 2, 1) + DcScans(n, 1, 0) + ScansFor(n, 1, 63, 1, 0)
  }

  method FillAScan(space: array<ScanInfo>, scanptr: nat, ci: int, ss: int, se: int, ah: int, al: int)
    returns (next: nat)
    requires scanptr < space.Length
    modifies space
    ensures next == scanptr + 1 && space[..next] == old(space[..scanptr]) + [ScanInfo([ci], ss, se, ah, al)]
  {
    space[scanptr] := ScanInfo([ci], ss, se, ah, al);
    next := scanptr + 1;
  }

  method FillScans(space: array<ScanInfo>, scanptr: nat, ncomps: nat, ss: int, se: int, ah: int, al: int)
    returns (next: nat)
    requires scanptr + ncomps <= space.Length
    modifies space
    ensures next == scanptr + ncomps && space[..next] == old(space[..scanptr]) + ScansFor(ncomps, ss, se, ah, al)
  {
    next := scanptr;
    for ci := 0 to ncomps
      invariant next == scanptr + ci && space[..next] == old(space[..scanptr]) + ScansFor(ci, ss, se, ah, al)
    {
      space[next] := ScanInfo([ci], ss, se, ah, al);
      next := next + 1;
      assert ScansFor(ci + 1, ss, se, ah, al) == ScansFor(ci, ss, se, ah, al) + [ScanInfo([ci], ss, se, ah, al)];
    }
  }

  method FillDcScans(space: array<ScanInfo>, scanptr: nat, ncomps: nat, ah: int, al: int) returns (next: nat)
    requires scanptr + |DcScans(ncomps, ah, al)| <= space.Length
    modifies space
    ensures next == scanptr + |DcScans(ncomps, ah, al)| && space[..next] == old(space[..scanptr])
      + DcScans(ncomps, ah, al)
  {
    if ncomps <= MAX_COMPS_IN_SCAN {
      space[scanptr] := ScanInfo(Indexes(ncomps), 0, 0, ah, al);
      next := scanptr + 1;
    } else {
      next := FillScans(space, scanptr, ncomps, 0, 0, ah, al);
    }
  }

  /** jpeg_simple_progression: the space figured beforehand is exactly filled. */
  method SimpleProgression(ncomps: nat, ycc: bool) returns (space: array<ScanInfo>)
    ensures fresh(space) && space[..] == SimpleScript(ncomps, ycc)
  {
    var nscans := if ncomps == 3 && ycc then 10
                  else if ncomps > MAX_COMPS_IN_SCAN then 6 * ncomps
                  else 2 + 4 * ncomps;
    space := new ScanInfo[nscans](i => ScanInfo([], 0, 0, 0, 0));
    if ncomps == 3 && ycc {
      FillYcc(space);
    } else {
      FillAllPurpose(space, ncomps);
    }
  }

  method FillYcc(space: array<ScanInfo>)
    requires space.Length == 10
    modifies space
    ensures space[..] == SimpleScript(3, true)
  {
    hide DcScans;
    var scanptr := FillDcScans(space, 0, 3, 0, 1) by { DcScanCount(3, 0, 1); }
    ghost var dc0, dc1 := DcScans(3, 0, 1), DcScans(3, 1, 0);
    DcScanCount(3, 0, 1);
    DcScanCount(3, 1, 0);
    scanptr := FillAScan(space, scanptr, 0, 1, 5, 0, 2);
    scanptr := FillAScan(space, scanptr, 2, 1, 63, 0, 1);
    scanptr := FillAScan(space, scanptr, 1, 1, 63, 0, 1);
    scanptr := FillAScan(space, scanptr, 0, 6, 63, 0, 2);
    scanptr := FillAScan(space, scanptr, 0, 1, 63, 2, 1);
    ghost var first := space[..scanptr];
    assert first == dc0 + [ScanInfo([0], 1, 5, 0, 2), ScanInfo([2], 1, 63, 0, 1), ScanInfo([1], 1, 63, 0, 1),
                           ScanInfo([0], 6, 63, 0, 2), ScanInfo([0], 1, 63, 2, 1)];
    scanptr := FillDcScans(space, scanptr, 3, 1, 0);
    scanptr := FillAScan(space, scanptr, 2, 1, 63, 1, 0);
    scanptr := FillAScan(space, scanptr, 1, 1, 63, 1, 0);
    scanptr := FillAScan(space, scanptr, 0, 1, 63, 1, 0);
    assert space[..scanptr] == first + dc1 + [ScanInfo([2], 1, 63, 1, 0), ScanInfo([1], 1, 63, 1, 0),
      ScanInfo([0], 1, 63, 1, 0)];
    assert space[..scanptr] == space[..];
  }

  lemma DcScanCount(n: nat, ah: int, al: int)
    ensures |DcScans(n, ah, al)| == if n <= MAX_COMPS_IN_SCAN then 1 else n
  {
  }

  method FillAllPurpose(space: array<ScanInfo>, ncomps: nat)
    requires space.Length == if ncomps > MAX_COMPS_IN_SCAN then 6 * ncomps else 2 + 4 * ncomps
    modifies space
    ensures space[..] == SimpleScript(ncomps, false)
  {
    hide DcScans, ScansFor;
    ghost var dc0, dc1, a := DcScans(ncomps, 0, 1), DcScans(ncomps, 1, 0), ScansFor(ncomps, 1, 5, 0, 2);
    ghost var b, c, d := ScansFor(ncomps, 6, 63, 0, 2), ScansFor(ncomps, 1, 63, 2, 1), ScansFor(ncomps, 1, 63, 1, 0);
    DcScanCount(ncomps, 0, 1);
    DcScanCount(ncomps, 1, 0);
    var scanptr := FillDcScans(space, 0, ncomps, 0, 1);
    assert space[..scanptr] == dc0;
    scanptr := FillScans(space, scanptr, ncomps, 1, 5, 0, 2);
    scanptr := FillScans(space, scanptr, ncomps, 6, 63, 0, 2);
    assert space[..scanptr] == dc0 + a + b;
    scanptr := FillScans(space, scanptr, ncomps, 1, 63, 2, 1);
    scanptr := FillDcScans(space, scanptr, ncomps, 1, 0);
    assert space[..scanptr] == dc0 + a + b + c + dc1;
    scanptr := FillScans(space, scanptr, ncomps, 1, 63, 1, 0);
    assert space[..scanptr] == dc0 + a + b + c + dc1 + d;
    assert space[..scanptr] == space[..];
  }

  /** One more scan of a single component. */
  lemma AddScan(n: nat, past: seq<ScanInfo>, s: ScanInfo)
    requires Orderly(n, past) && IndexesOk(n, s) && 0 < |s.comps| <= MAX_COMPS_IN_SCAN
    requires ProgressionOk(past, s)
    ensures Orderly(n, past + [s])
    ensures forall c, k :: LastAl(past + [s], c, k) == if Covers(s, c, k) then s.al else LastAl(past, c, k)
  {
    OrderlySnoc(n, past, s);
    forall c, k
      ensures LastAl(past + [s], c, k) == if Covers(s, c, k) then s.al else LastAl(past, c, k)
    {
      LastAlSnoc(past, s, c, k);
    }
  }

  /** A scan for each component, where all are in the same state. */
  lemma {:induction false} AddScans(n: nat, m: nat, past: seq<ScanInfo>, ss: int, se: int, ah: int, al: int)
    requires m <= n && Orderly(n, past) && ParamsOk(ScanInfo([0], ss, se, ah, al))
    requires forall c :: 0 <= c < m ==> ComponentOk(past, ScanInfo([c], ss, se, ah, al), c)
    ensures var q := past + ScansFor(m, ss, se, ah, al);
            Orderly(n, q)
            && forall c, k :: LastAl(q, c, k) == if 0 <= c < m && ss <= k <= se then al else LastAl(past, c, k)
  {
    hide Orderly, LastAl, ComponentOk, ProgressionOk;
    if m == 0 {
      assert past + ScansFor(m, ss, se, ah, al) == past;
    } else {
      var s := ScanInfo([m - 1], ss, se, ah, al);
      AddScans(n, m - 1, past, ss, se, ah, al);
      var q := past + ScansFor(m - 1, ss, se, ah, al);
      assert ComponentOk(past, s, m - 1);
      SameComponent(past, q, s, m - 1);
      OneComponent(n, q, s, m - 1);
      AddScan(n, q, s);
      assert past + ScansFor(m, ss, se, ah, al) == q + [s];
    }
  }

  lemma SameComponent(past: seq<ScanInfo>, q: seq<ScanInfo>, s: ScanInfo, c: int)
    requires ComponentOk(past, s, c) && forall k :: LastAl(q, c, k) == LastAl(past, c, k)
    ensures ComponentOk(q, s, c)
  {
    hide LastAl;
  }

  lemma OneComponent(n: nat, q: seq<ScanInfo>, s: ScanInfo, c: int)
    requires s.comps == [c] && 0 <= c < n && ParamsOk(s.(comps := [0])) && ComponentOk(q, s, c)
    ensures ProgressionOk(q, s) && IndexesOk(n, s)
  {
    hide ComponentOk;
  }

  lemma AddDcScans(n: nat, past: seq<ScanInfo>, ah: int, al: int)
    requires 0 < n && Orderly(n, past) && ParamsOk(ScanInfo([0], 0, 0, ah, al))
    requires forall c :: 0 <= c < n ==> StepOk(LastAl(past, c, 0), ah, al)
    ensures var q := past + DcScans(n, ah, al);
            Orderly(n, q)
            && forall c, k :: LastAl(q, c, k) == if 0 <= c < n && k == 0 then al else LastAl(past, c, k)
  {
    if n <= MAX_COMPS_IN_SCAN {
      AddScan(n, past, ScanInfo(Indexes(n), 0, 0, ah, al));
    } else {
      AddScans(n, n, past, 0, 0, ah, al);
    }
  }

  /** The recommended scripts are valid for every number of components and send every bit
      of every coefficient. */
  lemma SimpleScriptComplete(n: nat, ycc: bool)
    requires 0 < n <= MAX_COMPONENTS
    ensures var script := SimpleScript(n, ycc);
            && ProgressiveScript(n, script) && Progressive(script) && Outcome(n, script, 0) == Accepted
            && forall c, k :: 0 <= c < n && 0 <= k < DCTSIZE2 ==> LastAl(script, c, k) == 0
  {
    var script := SimpleScript(n, ycc);
    assert [] + DcScans(n, 0, 1) == DcScans(n, 0, 1);
    AddDcScans(n, [], 0, 1);
    var p := DcScans(n, 0, 1);
    if n == 3 && ycc {
      YccScript(n, p);
    } else {
      AllPurposeScript(n, p);
    }
    OutcomeProgressive(n, script, 0);
  }

  ghost predicate AfterDc(n: nat, p: seq<ScanInfo>)
  {
    Orderly(n, p) && forall c, k :: LastAl(p, c, k) == if 0 <= c < n && k == 0 then 1 else -1
  }

  ghost predicate Complete(n: nat, p: seq<ScanInfo>)
  {
    Orderly(n, p) && forall c, k :: 0 <= c < n && 0 <= k < DCTSIZE2 ==> LastAl(p, c, k) == 0
  }

  lemma AllPurposeScript(n: nat, p: seq<ScanInfo>)
    requires 0 < n && AfterDc(n, p)
    ensures Complete(n, p + ScansFor(n, 1, 5, 0, 2) + ScansFor(n, 6, 63, 0, 2)
                        + ScansFor(n, 1, 63, 2, 1) + DcScans(n, 1, 0) + ScansFor(n, 1, 63, 1, 0))
  {
    hide Orderly;
    AddScans(n, n, p, 1, 5, 0, 2);
    var p1 := p + ScansFor(n, 1, 5, 0, 2);
    AddScans(n, n, p1, 6, 63, 0, 2);
    var p2 := p1 + ScansFor(n, 6, 63, 0, 2);
    AddScans(n, n, p2, 1, 63, 2, 1);
    var p3 := p2 + ScansFor(n, 1, 63, 2, 1);
    AddDcScans(n, p3, 1, 0);
    var p4 := p3 + DcScans(n, 1, 0);
    AddScans(n, n, p4, 1, 63, 1, 0);
  }

  lemma YccScript(n: nat, p: seq<ScanInfo>)
    requires n == 3 && AfterDc(n, p)
    ensures Complete(n, p + [ScanInfo([0], 1, 5, 0, 2), ScanInfo([2], 1, 63, 0, 1), ScanInfo([1], 1, 63, 0, 1),
                             ScanInfo([0], 6, 63, 0, 2), ScanInfo([0], 1, 63, 2, 1)]
                        + DcScans(n, 1, 0)
                        + [ScanInfo([2], 1, 63, 1, 0), ScanInfo([1], 1, 63, 1, 0), ScanInfo([0], 1, 63, 1, 0)])
  {
    hide Orderly, LastAl;
    var first := [ScanInfo([0], 1, 5, 0, 2), ScanInfo([2], 1, 63, 0, 1), ScanInfo([1], 1, 63, 0, 1),
                  ScanInfo([0], 6, 63, 0, 2), ScanInfo([0], 1, 63, 2, 1)];
    YccFirst(n, p);
    AddDcScans(n, p + first, 1, 0);
    YccLast(n, p + first + DcScans(n, 1, 0));
  }

  lemma YccFirst(n: nat, p: seq<ScanInfo>)
    requires n == 3 && AfterDc(n, p)
    ensures var q := p + [ScanInfo([0], 1, 5, 0, 2), ScanInfo([2], 1, 63, 0, 1), ScanInfo([1], 1, 63, 0, 1),
                          ScanInfo([0], 6, 63, 0, 2), ScanInfo([0], 1, 63, 2, 1)];
            && Orderly(n, q)
            && forall c, k :: LastAl(q, c, k) == if 0 <= c < n && 0 <= k < DCTSIZE2 then 1 else -1
  {
    hide Orderly, LastAl;
    var s1, s2, s3, s4, s5 := ScanInfo([0], 1, 5, 0, 2), ScanInfo([2], 1, 63, 0, 1), ScanInfo([1], 1, 63, 0, 1),
      ScanInfo([0], 6, 63, 0, 2), ScanInfo([0], 1, 63, 2, 1);
    var p1 := p + [s1];
    AddScan(n, p, s1);
    var p2 := p1 + [s2];
    AddScan(n, p1, s2);
    var p3 := p2 + [s3];
    AddScan(n, p2, s3);
    YccMiddle(n, p3, s4, s5);
    assert p3 + [s4, s5] == p + [s1, s2, s3, s4, s5];
  }

  lemma YccMiddle(n: nat, p: seq<ScanInfo>, s4: ScanInfo, s5: ScanInfo)
    requires n == 3 && Orderly(n, p) && s4 == ScanInfo([0], 6, 63, 0, 2) && s5 == ScanInfo([0], 1, 63, 2, 1)
    requires forall c, k :: LastAl(p, c, k) == if 0 <= c < n && 0 <= k < DCTSIZE2 then if c == 0 && 1 <= k <= 5 then 2
                                                                                      else if c == 0 && k >= 6 then -1
                                                                                      else 1
                                               else -1
    ensures Orderly(n, p + [s4, s5])
    ensures forall c, k :: LastAl(p + [s4, s5], c, k) == if 0 <= c < n && 0 <= k < DCTSIZE2 then 1 else -1
  {
    hide Orderly, LastAl;
    AddScan(n, p, s4);
    AddScan(n, p + [s4], s5);
    assert p + [s4] + [s5] == p + [s4, s5];
  }

  lemma YccLast(n: nat, p: seq<ScanInfo>)
    requires n == 3 && Orderly(n, p)
    requires forall c, k :: LastAl(p, c, k) == if 0 <= c < n && 0 <= k < DCTSIZE2 then if k == 0 then 0 else 1 else -1
    ensures Complete(n, p + [ScanInfo([2], 1, 63, 1, 0), ScanInfo([1], 1, 63, 1, 0), ScanInfo([0], 1, 63, 1, 0)])
  {
    hide Orderly, LastAl;
    var s1, s2, s3 := ScanInfo([2], 1, 63, 1, 0), ScanInfo([1], 1, 63, 1, 0), ScanInfo([0], 1, 63, 1, 0);
    AddScan(n, p, s1);
    AddScan(n, p + [s1], s2);
    AddScan(n, p + [s1] + [s2], s3);
    assert p + [s1] + [s2] + [s3] == p + [s1, s2, s3];
  }
}
