/** What validate_script accepts, said without going through the script scan by scan. */
module ScriptVerdicts {
  import opened JpegLib
  import opened Scripts

  /** No scan from i on is refused after those before it. */
  ghost predicate JudgedFrom(n: nat, script: seq<ScanInfo>, i: nat)
    requires script != []
  {
    forall j :: i <= j < |script| ==> Judge(n, Progressive(script), script[..j], script[j]) == Accepted
  }

  /** At least the DC data of every component are sent. */
  ghost predicate NoneMissing(n: nat, script: seq<ScanInfo>)
    requires script != []
  {
    forall c :: 0 <= c < n ==> if Progressive(script) then LastAl(script, c, 0) >= 0 else Sent(script, c)
  }

  /** A script is accepted if every scan is, after those before it, and no data are missing. */
  lemma {:induction false} AcceptedIs(n: nat, script: seq<ScanInfo>, i: nat)
    requires script != [] && i <= |script|
    ensures Outcome(n, script, i) == Accepted <==> JudgedFrom(n, script, i) && NoneMissing(n, script)
    decreases |script| - i
  {
    hide Judge, Progressive, LastAl, Sent;
    if i < |script| {
      AcceptedIs(n, script, i + 1);
      assert JudgedFrom(n, script, i) <==>
        Judge(n, Progressive(script), script[..i], script[i]) == Accepted && JudgedFrom(n, script, i + 1);
    }
  }

  /** Any other verdict names the first scan refused, counted from 1, with what is wrong with
      it: its number of components, their indexes, or its progression parameters. */
  lemma {:induction false} RefusedAt(n: nat, script: seq<ScanInfo>, i: nat) returns (j: nat)
    requires script != [] && i <= |script| && !JudgedFrom(n, script, i)
    ensures i <= j < |script|
    ensures forall k :: i <= k < j ==> Judge(n, Progressive(script), script[..k], script[k]) == Accepted
    ensures var s := script[j];
            match Outcome(n, script, i)
            case ComponentCount(m) => m == |s.comps| && !(1 <= m <= 4)
            case BadScanScript(k) => k == j + 1 && (!Ascending(n, s) || (!Progressive(script) && Repeats(script, j)))
            case BadProgScript(k) => k == j + 1 && WellFormed(n, s)
            case _ => false
    decreases |script| - i
  {
    hide Progressive, ProgressionOk;
    if Judge(n, Progressive(script), script[..i], script[i]) == Accepted {
      j := RefusedAt(n, script, i + 1);
    } else {
      j := i;
      if exists ci :: 0 <= ci < |script[i].comps| && Sent(script[..i], script[i].comps[ci]) {
        var ci :| 0 <= ci < |script[i].comps| && Sent(script[..i], script[i].comps[ci]);
        var k :| 0 <= k < i && script[i].comps[ci] in script[..i][k].comps;
        assert script[k].comps == script[..i][k].comps;
      }
    }
  }

  // ----- sequential scripts

  /** Components of the image, in ascending order. */
  predicate Ascending(n: nat, s: ScanInfo)
  {
    && (forall ci :: 0 <= ci < |s.comps| ==> 0 <= s.comps[ci] < n)
    && (forall ci :: 0 < ci < |s.comps| ==> s.comps[ci - 1] < s.comps[ci])
  }

  predicate WellFormed(n: nat, s: ScanInfo)
  {
    1 <= |s.comps| <= 4 && Ascending(n, s)
  }

  /** Some component of scan j is in a scan before it. */
  predicate Repeats(script: seq<ScanInfo>, j: nat)
    requires j < |script|
  {
    exists k, ci :: 0 <= k < j && 0 <= ci < |script[j].comps| && script[j].comps[ci] in script[k].comps
  }

  /** All coefficients, in full. */
  predicate FullScan(n: nat, s: ScanInfo)
  {
    WellFormed(n, s) && s.ss == 0 && s.se == 63 && s.ah == 0 && s.al == 0
  }

  /** Component c is in scan i and in no other. */
  predicate OnlyIn(script: seq<ScanInfo>, c: int, i: nat)
    requires i < |script|
  {
    c in script[i].comps && forall j :: 0 <= j < |script| && j != i ==> c !in script[j].comps
  }

  predicate InOneScan(script: seq<ScanInfo>, c: int)
  {
    exists i :: 0 <= i < |script| && OnlyIn(script, c, i)
  }

  /** A sequential script is accepted if and only if every scan sends all coefficients in full
      and every component is in exactly one scan. */
  lemma SequentialAccepted(n: nat, script: seq<ScanInfo>)
    requires script != [] && !Progressive(script)
    ensures Outcome(n, script, 0) == Accepted <==>
      && (forall i :: 0 <= i < |script| ==> FullScan(n, script[i]))
      && (forall c :: 0 <= c < n ==> InOneScan(script, c))
  {
    hide Progressive, FullScan, Judge, OnlyIn, Outcome;
    AcceptedIs(n, script, 0);
    if Outcome(n, script, 0) == Accepted {
      forall c | 0 <= c < n
        ensures InOneScan(script, c)
      {
        assert NoneMissing(n, script) && Sent(script, c);
        var i :| 0 <= i < |script| && c in script[i].comps;
        SentOnce(n, script, c, i);
      }
      forall i | 0 <= i < |script|
        ensures FullScan(n, script[i])
      {
        JudgeSequential(n, script, i);
      }
    }
    if (forall i :: 0 <= i < |script| ==> FullScan(n, script[i]))
       && forall c :: 0 <= c < n ==> InOneScan(script, c) {
      AllOnce(n, script);
    }
  }

  lemma JudgeSequential(n: nat, script: seq<ScanInfo>, j: nat)
    requires j < |script|
    ensures Judge(n, false, script[..j], script[j]) == Accepted <==> FullScan(n, script[j]) && !Repeats(script, j)
  {
    var past, s := script[..j], script[j];
    if ci :| 0 <= ci < |s.comps| && Sent(past, s.comps[ci]) {
      var k :| 0 <= k < j && s.comps[ci] in past[k].comps;
      assert past[k] == script[k];
    }
    if Repeats(script, j) {
      var k, ci :| 0 <= k < j && 0 <= ci < |s.comps| && s.comps[ci] in script[k].comps;
      assert past[k] == script[k];
      assert Sent(past, s.comps[ci]);
    }
  }

  lemma SentOnce(n: nat, script: seq<ScanInfo>, c: int, i: nat)
    requires script != [] && !Progressive(script) && JudgedFrom(n, script, 0)
    requires i < |script| && c in script[i].comps
    ensures OnlyIn(script, c, i)
  {
    hide Progressive, FullScan, Judge;
    forall j | 0 <= j < |script| && j != i
      ensures c !in script[j].comps
    {
      var b := if i < j then j else i;
      JudgeSequential(n, script, b);
      assert !Repeats(script, b);
    }
  }

  lemma AllOnce(n: nat, script: seq<ScanInfo>)
    requires script != [] && !Progressive(script)
    requires forall i :: 0 <= i < |script| ==> FullScan(n, script[i])
    requires forall c :: 0 <= c < n ==> InOneScan(script, c)
    ensures JudgedFrom(n, script, 0) && NoneMissing(n, script)
  {
    hide Progressive, Judge;
    forall j | 0 <= j < |script|
      ensures Judge(n, false, script[..j], script[j]) == Accepted
    {
      JudgeSequential(n, script, j);
      assert FullScan(n, script[j]);
      forall k, ci | 0 <= k < j && 0 <= ci < |script[j].comps|
        ensures script[j].comps[ci] !in script[k].comps
      {
        assert InOneScan(script, script[j].comps[ci]);
      }
    }
    forall c | 0 <= c < n
      ensures Sent(script, c)
    {
      assert InOneScan(script, c);
    }
  }

  // ----- progressive scripts

  /** A scan that fits in what was sent before: no coefficient of it is complete, and its bit
      positions are at most 10. */
  ghost predicate Fresh(past: seq<ScanInfo>, s: ScanInfo)
  {
    && s.ah <= 10 && s.al <= 10
    && forall ci, k :: 0 <= ci < |s.comps| && s.ss <= k <= s.se ==> LastAl(past, s.comps[ci], k) != 0
  }

  ghost predicate AllFresh(script: seq<ScanInfo>)
  {
    forall i :: 0 <= i < |script| ==> Fresh(script[..i], script[i])
  }

  /** One scan for the decoder: no fatal error and no warning. */
  ghost predicate ScanPlays(n: nat, past: seq<ScanInfo>, s: ScanInfo)
  {
    && IndexesOk(n, s) && 0 < |s.comps| <= MAX_COMPS_IN_SCAN && 0 <= s.ss <= s.se <= 63
    && 0 <= s.ah && 0 <= s.al && !BadProgression(63, s) && Expects(past, s)
  }

  lemma OrderlyScan(n: nat, past: seq<ScanInfo>, s: ScanInfo)
    ensures Judge(n, true, past, s) == Accepted <==> ScanPlays(n, past, s) && Fresh(past, s)
  {
    hide LastAl, IndexesOk;
    if Judge(n, true, past, s) == Accepted {
      forall ci | 0 <= ci < |s.comps|
        ensures ExpectsOne(past, s, s.comps[ci])
        ensures forall k :: s.ss <= k <= s.se ==> LastAl(past, s.comps[ci], k) != 0
      {
        assert ComponentOk(past, s, s.comps[ci]);
      }
      assert ComponentOk(past, s, s.comps[0]) && StepOk(LastAl(past, s.comps[0], s.ss), s.ah, s.al);
    }
    if ScanPlays(n, past, s) && Fresh(past, s) {
      forall ci | 0 <= ci < |s.comps|
        ensures ComponentOk(past, s, s.comps[ci])
      {
        assert ExpectsOne(past, s, s.comps[ci]);
      }
    }
  }

  /** What validate_script asks of a list of scans, and what the decoder's own check asks,
      differ in two points only: a decoder plays the scans without error or warning if they
      are in order; and conversely they are, if also no bit position exceeds 10 and nothing
      complete is sent again. */
  lemma OrderlyExactly(n: nat, script: seq<ScanInfo>)
    ensures Orderly(n, script) <==> Plays(n, 63, script) && AllFresh(script)
  {
    hide Judge, Fresh, Expects, BadProgression, IndexesOk;
    forall i | 0 <= i < |script|
      ensures Judge(n, true, script[..i], script[i]) == Accepted <==>
        ScanPlays(n, script[..i], script[i]) && Fresh(script[..i], script[i])
    {
      OrderlyScan(n, script[..i], script[i]);
    }
    assert Plays(n, 63, script) <==> forall i :: 0 <= i < |script| ==> ScanPlays(n, script[..i], script[i]);
  }

  ghost predicate DcSent(n: nat, script: seq<ScanInfo>)
  {
    forall c :: 0 <= c < n ==> LastAl(script, c, 0) >= 0
  }

  /** Accepted progressive scripts, in terms of the decoder. */
  lemma ProgressiveAccepted(n: nat, script: seq<ScanInfo>)
    requires script != [] && Progressive(script)
    ensures Outcome(n, script, 0) == Accepted <==> Plays(n, 63, script) && AllFresh(script) && DcSent(n, script)
  {
    hide Plays, AllFresh, Judge;
    OutcomeProgressive(n, script, 0);
    OrderlyExactly(n, script);
  }

  // ----- the recommended scripts

  /** The script for YCbCr images as the documentation lists it (wizard.txt). */
  function DocumentedScript(): seq<ScanInfo>
  {
    [ScanInfo([0, 1, 2], 0, 0, 0, 1),
     ScanInfo([0], 1, 5, 0, 2),
     ScanInfo([2], 1, 63, 0, 1), ScanInfo([1], 1, 63, 0, 1),
     ScanInfo([0], 6, 63, 0, 2),
     ScanInfo([0], 1, 63, 2, 1),
     ScanInfo([0, 1, 2], 0, 0, 1, 0),
     ScanInfo([2], 1, 63, 1, 0), ScanInfo([1], 1, 63, 1, 0),
     ScanInfo([0], 1, 63, 1, 0)]
  }

  lemma SimpleIsDocumented()
    ensures SimpleScript(3, true) == DocumentedScript()
  {
    assert Indexes(3) == [0, 1, 2];
  }

  /** A scan as one of its components sees it. */
  datatype Step = Step(ss: int, se: int, ah: int, al: int)

  /** The scans of component c, in order. */
  function StepsOf(script: seq<ScanInfo>, c: int): seq<Step>
  {
    if script == [] then []
    else
      var s := script[0];
      (if c in s.comps then [Step(s.ss, s.se, s.ah, s.al)] else []) + StepsOf(script[1..], c)
  }

  lemma {:induction false} StepsJoin(a: seq<ScanInfo>, b: seq<ScanInfo>, c: int)
    ensures StepsOf(a + b, c) == StepsOf(a, c) + StepsOf(b, c)
  {
    if a == [] {
      assert a + b == b;
    } else {
      StepsJoin(a[1..], b, c);
      assert (a + b)[1..] == a[1..] + b;
    }
  }

  lemma {:induction false} StepsOfEach(script: seq<ScanInfo>, first: int, c: int, ss: int, se: int, ah: int, al: int)
    requires forall i :: 0 <= i < |script| ==> script[i] == ScanInfo([first + i], ss, se, ah, al)
    ensures StepsOf(script, c) == if first <= c < first + |script| then [Step(ss, se, ah, al)] else []
  {
    if script != [] {
      StepsOfEach(script[1..], first + 1, c, ss, se, ah, al);
    }
  }

  lemma StepsOfDc(n: nat, c: nat, ah: int, al: int)
    requires c < n
    ensures StepsOf(DcScans(n, ah, al), c) == [Step(0, 0, ah, al)]
  {
    if n > MAX_COMPS_IN_SCAN {
      StepsOfEach(ScansFor(n, 0, 0, ah, al), 0, c, 0, 0, ah, al);
    } else {
      assert DcScans(n, ah, al)[1..] == [];
    }
  }

  /** In the script for other images every component is sent in six steps: DC without the
      lowest bit, then AC without the lowest two in two bands, then bit by bit. */
  lemma SimpleSteps(n: nat, c: nat)
    requires c < n
    ensures StepsOf(SimpleScript(n, false), c) ==
      [Step(0, 0, 0, 1), Step(1, 5, 0, 2), Step(6, 63, 0, 2), Step(1, 63, 2, 1), Step(0, 0, 1, 0), Step(1, 63, 1, 0)]
  {
    hide DcScans, StepsOf;
    var dc0, dc1 := DcScans(n, 0, 1), DcScans(n, 1, 0);
    var low, high := ScansFor(n, 1, 5, 0, 2), ScansFor(n, 6, 63, 0, 2);
    var next, last := ScansFor(n, 1, 63, 2, 1), ScansFor(n, 1, 63, 1, 0);
    StepsOfDc(n, c, 0, 1);
    StepsOfDc(n, c, 1, 0);
    StepsOfEach(low, 0, c, 1, 5, 0, 2);
    StepsOfEach(high, 0, c, 6, 63, 0, 2);
    StepsOfEach(next, 0, c, 1, 63, 2, 1);
    StepsOfEach(last, 0, c, 1, 63, 1, 0);
    StepsJoin(dc0, low, c);
    StepsJoin(dc0 + low, high, c);
    StepsJoin(dc0 + low + high, next, c);
    StepsJoin(dc0 + low + high + next, dc1, c);
    StepsJoin(dc0 + low + high + next + dc1, last, c);
  }
}
