/** Huffman tables: code lengths, canonical codes and their place on the unit interval
    (ITU-T T.81, Annex C), as jpeg_make_c_derived_tbl and jpeg_make_d_derived_tbl build
    them. */
module CodeTable {
  import opened Bytes
  import opened Arithmetic
  import opened Sums

  const MAX_LENGTH := 16
  const MAX_SYMBOLS := 256

  /** JHUFF_TBL: the number of codes of each length 1..16, and the symbols in order of
      increasing code length. */
  datatype Table = Table(bits: seq<byte>, huffval: seq<byte>)

  type HuffTable = t: Table | |t.bits| == MAX_LENGTH + 1 && |t.huffval| == MAX_SYMBOLS
    witness Table(seq(MAX_LENGTH + 1, _ => 0), seq(MAX_SYMBOLS, _ => 0))

  /** The code lengths up to l, in order. */
  function SizesTo(t: HuffTable, l: nat): (s: seq<nat>)
    requires l <= MAX_LENGTH
    ensures forall p :: 0 <= p < |s| ==> 1 <= s[p] <= l
    ensures forall p, q :: 0 <= p <= q < |s| ==> s[p] <= s[q]
  {
    if l == 0 then [] else SizesTo(t, l - 1) + seq(t.bits[l], _ => l)
  }

  function Sizes(t: HuffTable): seq<nat>
  {
    SizesTo(t, MAX_LENGTH)
  }

  /** The number of codes up to length l. */
  function Offset(t: HuffTable, l: nat): nat
    requires l <= MAX_LENGTH
  {
    |SizesTo(t, l)|
  }

  lemma {:induction false} SizesPrefix(t: HuffTable, l: nat, m: nat)
    requires l <= m <= MAX_LENGTH
    ensures SizesTo(t, l) <= SizesTo(t, m)
    decreases m
  {
    if l < m {
      SizesPrefix(t, l, m - 1);
    }
  }

  /** The codes of length l are those numbered from the offset of l - 1 to that of l. */
  lemma SizeAt(t: HuffTable, l: nat, p: nat)
    requires 1 <= l <= MAX_LENGTH && p < |Sizes(t)|
    ensures Offset(t, l) == Offset(t, l - 1) + t.bits[l] && Offset(t, l) <= |Sizes(t)|
    ensures Sizes(t)[p] == l <==> Offset(t, l - 1) <= p < Offset(t, l)
    ensures Sizes(t)[p] <= l <==> p < Offset(t, l)
  {
    SizesPrefix(t, l - 1, MAX_LENGTH);
    SizesPrefix(t, l, MAX_LENGTH);
    if p < Offset(t, l) {
      assert Sizes(t)[p] == SizesTo(t, l)[p];
    } else {
      LongerAfter(t, l, MAX_LENGTH, p);
    }
  }

  lemma {:induction false} LongerAfter(t: HuffTable, l: nat, m: nat, p: nat)
    requires l <= m <= MAX_LENGTH && Offset(t, l) <= p < Offset(t, m)
    ensures SizesTo(t, m)[p] > l
    decreases m
  {
    SizesPrefix(t, l, m);
    if l < m && p < Offset(t, m - 1) {
      LongerAfter(t, l, m - 1, p);
    }
  }

  /** Where the codes from the first to the one before p end on the unit interval, in units
      of 2^-16. */
  function Area(s: seq<nat>, p: nat): nat
    requires p <= |s| && forall q :: 0 <= q < |s| ==> s[q] <= MAX_LENGTH
  {
    if p == 0 then 0 else Area(s, p - 1) + Pow2(MAX_LENGTH - s[p - 1])
  }

  function Total(t: HuffTable): nat
  {
    Area(Sizes(t), |Sizes(t)|)
  }

  lemma {:induction false} AreaGrows(s: seq<nat>, p: nat, q: nat)
    requires p <= q <= |s| && forall i :: 0 <= i < |s| ==> s[i] <= MAX_LENGTH
    ensures Area(s, p) <= Area(s, q) && (p < q ==> Area(s, p) < Area(s, q))
    decreases q
  {
    if p < q {
      AreaGrows(s, p, q - 1);
    }
  }

  /** The area before a code is a multiple of the share of any code at least as long as
      all before it. */
  lemma {:induction false} AreaDivides(s: seq<nat>, p: nat, l: nat)
    requires p <= |s| && l <= MAX_LENGTH && forall i :: 0 <= i < |s| ==> s[i] <= MAX_LENGTH
    requires forall i :: 0 <= i < p ==> s[i] <= l
    ensures Area(s, p) % Pow2(MAX_LENGTH - l) == 0
  {
    hide Pow2, Shl;
    if p > 0 {
      AreaDivides(s, p - 1, l);
      Pow2Divides(MAX_LENGTH - l, MAX_LENGTH - s[p - 1]);
      SumOfMultiples(Area(s, p - 1), Pow2(MAX_LENGTH - s[p - 1]), Pow2(MAX_LENGTH - l));
    }
  }

  /** The code numbered p. */
  function Code(s: seq<nat>, p: nat): nat
    requires p < |s| && forall q :: 0 <= q < |s| ==> s[q] <= MAX_LENGTH
  {
    Quotient(Area(s, p), Pow2(MAX_LENGTH - s[p]))
  }

  /** What both jpeg_make routines require of the counts: at most 256 codes, which leave
      room on the unit interval, so that none is all ones. */
  predicate CountsOk(t: HuffTable)
  {
    |Sizes(t)| <= MAX_SYMBOLS && Total(t) < Pow2(MAX_LENGTH)
  }

  /** What jpeg_make_c_derived_tbl requires of the symbols. */
  predicate SymbolsOk(t: HuffTable, isDC: bool)
    requires |Sizes(t)| <= MAX_SYMBOLS
  {
    && (forall p :: 0 <= p < |Sizes(t)| ==> t.huffval[p] <= if isDC then 15 else 255)
    && (forall p, q :: 0 <= p < q < |Sizes(t)| ==> t.huffval[p] != t.huffval[q])
  }

  // ----- figures C.1 and C.2

  method HuffSizes(t: HuffTable) returns (ok: bool, huffsize: array<nat>, lastp: nat)
    ensures fresh(huffsize) && huffsize.Length == MAX_SYMBOLS + 1
    ensures ok <==> |Sizes(t)| <= MAX_SYMBOLS
    ensures ok ==> lastp == |Sizes(t)| && huffsize[..lastp] == Sizes(t) && huffsize[lastp] == 0
  {
    huffsize := new nat[MAX_SYMBOLS + 1];
    lastp := 0;
    for l := 1 to MAX_LENGTH + 1
      invariant lastp <= MAX_SYMBOLS && lastp == Offset(t, l - 1) && huffsize[..lastp] == SizesTo(t, l - 1)
    {
      var i := t.bits[l];
      if lastp + i > MAX_SYMBOLS {
        SizesPrefix(t, l, MAX_LENGTH);
        return false, huffsize, lastp;
      }
      while i > 0
        invariant 0 <= i <= t.bits[l] && lastp == Offset(t, l - 1) + (t.bits[l] - i)
        invariant huffsize[..lastp] == SizesTo(t, l - 1) + seq(t.bits[l] - i, _ => l)
      {
        i := i - 1;
        huffsize[lastp] := l;
        lastp := lastp + 1;
      }
    }
    huffsize[lastp] := 0;
    ok := true;
  }

  /** The code lengths in s, followed by a 0. */
  ghost predicate SizeList(huffsize: array<nat>, s: seq<nat>)
    reads huffsize
  {
    && huffsize.Length == MAX_SYMBOLS + 1 && |s| <= MAX_SYMBOLS
    && huffsize[..|s|] == s && huffsize[|s|] == 0
    && (forall p :: 0 <= p < |s| ==> 1 <= s[p] <= MAX_LENGTH)
    && (forall p :: 0 < p < |s| ==> s[p - 1] <= s[p])
  }

  lemma NextCode(s: seq<nat>, p: nat, code: nat)
    requires p < |s| && forall q :: 0 <= q < |s| ==> s[q] <= MAX_LENGTH
    requires Shl(code, MAX_LENGTH - s[p]) == Area(s, p)
    ensures Code(s, p) == code && Shl(code + 1, MAX_LENGTH - s[p]) == Area(s, p + 1)
  {
    ShlTimes(code, MAX_LENGTH - s[p]);
    QuotientIs(Area(s, p), Pow2(MAX_LENGTH - s[p]), code, 0);
    ShlAdd(code, 1, MAX_LENGTH - s[p]);
  }

  lemma CodeFits(code: nat, si: nat)
    requires 1 <= si <= MAX_LENGTH
    ensures code < Pow2(si) <==> Shl(code, MAX_LENGTH - si) < Pow2(MAX_LENGTH)
    ensures si < MAX_LENGTH ==> Shl(code * 2, MAX_LENGTH - (si + 1)) == Shl(code, MAX_LENGTH - si)
  {
    ShlOrder(code, Pow2(si), MAX_LENGTH - si);
    ShlShl(1, si, MAX_LENGTH - si);
    if si < MAX_LENGTH {
      ShlShl(code, 1, MAX_LENGTH - si - 1);
      assert Shl(code, 1) == code * 2;
    }
  }

  /** The codes of length si, from the one numbered p0 and with value code0 on. */
  method CodesOfSize(huffsize: array<nat>, ghost s: seq<nat>, huffcode: array<nat>, code0: nat, si: nat, p0: nat)
    returns (code: nat, p: nat)
    requires SizeList(huffsize, s) && huffcode.Length == MAX_SYMBOLS + 1 && huffcode != huffsize
    requires p0 <= |s| && 1 <= si <= MAX_LENGTH && Shl(code0, MAX_LENGTH - si) == Area(s, p0)
    requires p0 < |s| ==> si <= s[p0]
    requires forall q :: 0 <= q < p0 ==> s[q] < si && huffcode[q] == Code(s, q)
    modifies huffcode
    ensures p0 <= p <= |s| && Shl(code, MAX_LENGTH - si) == Area(s, p)
    ensures forall q :: 0 <= q < p ==> s[q] <= si && huffcode[q] == Code(s, q)
    ensures p < |s| ==> s[p] > si
  {
    hide Shl, Area, Code;
    code, p := code0, p0;
    while huffsize[p] == si
      invariant p0 <= p <= |s| && Shl(code, MAX_LENGTH - si) == Area(s, p)
      invariant forall q :: 0 <= q < p ==> s[q] <= si && huffcode[q] == Code(s, q)
      invariant p < |s| ==> si <= s[p] == huffsize[p]
      decreases |s| - p
    {
      huffcode[p] := code;
      NextCode(s, p, code);
      code := code + 1;
      p := p + 1;
      assert p < |s| ==> huffsize[..|s|][p] == s[p];
    }
  }

  lemma NoCodes(s: seq<nat>)
    requires forall q :: 0 <= q < |s| ==> s[q] <= MAX_LENGTH
    ensures Area(s, 0) == 0 < Pow2(MAX_LENGTH)
    ensures s != [] ==> Shl(0, MAX_LENGTH - s[0]) == 0
  {
    if s != [] {
      ShlTimes(0, MAX_LENGTH - s[0]);
    }
  }

  method HuffCodes(huffsize: array<nat>, ghost s: seq<nat>) returns (ok: bool, huffcode: array<nat>)
    requires SizeList(huffsize, s)
    ensures fresh(huffcode) && huffcode.Length == MAX_SYMBOLS + 1
    ensures ok <==> Area(s, |s|) < Pow2(MAX_LENGTH)
    ensures ok ==> forall q :: 0 <= q < |s| ==> huffcode[q] == Code(s, q)
  {
    hide Shl, Area, Code, Pow2;
    huffcode := new nat[MAX_SYMBOLS + 1];
    var code: nat, si: nat, p: nat := 0, huffsize[0], 0;
    NoCodes(s);
    assert s != [] ==> huffsize[..|s|][0] == s[0];
    while huffsize[p] != 0
      invariant p <= |s| && Area(s, p) < Pow2(MAX_LENGTH)
      invariant p < |s| ==> huffsize[p] == s[p] && 1 <= si <= s[p] && Shl(code, MAX_LENGTH - si) == Area(s, p)
      invariant forall q :: 0 <= q < p ==> s[q] < si && huffcode[q] == Code(s, q)
      decreases MAX_LENGTH + 1 - si
    {
      code, p := CodesOfSize(huffsize, s, huffcode, code, si, p);
      CodeFits(code, si);
      if code >= Pow2(si) {
        AreaGrows(s, p, |s|);
        return false, huffcode;
      }
      if p < |s| {
        assert huffsize[..|s|][p] == s[p];
      }
      code := code * 2;
      si := si + 1;
    }
    return true, huffcode;
  }

  // ----- figure C.3: the encoder's table

  /** Code and code length by symbol; length 0 for symbols without a code. */
  datatype CTable = CTable(ehufco: seq<nat>, ehufsi: seq<nat>)

  ghost predicate Encodes(c: CTable, t: HuffTable)
    requires |Sizes(t)| <= MAX_SYMBOLS
  {
    && |c.ehufco| == |c.ehufsi| == MAX_SYMBOLS
    && (forall p :: 0 <= p < |Sizes(t)| ==>
      c.ehufco[t.huffval[p]] == Code(Sizes(t), p) && c.ehufsi[t.huffval[p]] == Sizes(t)[p])
    && (forall v :: 0 <= v < MAX_SYMBOLS && v !in t.huffval[..|Sizes(t)|] ==> c.ehufsi[v] == 0)
  }

  /** jpeg_make_c_derived_tbl. */
  method MakeCDerived(t: HuffTable, isDC: bool) returns (ok: bool, c: CTable)
    ensures ok <==> CountsOk(t) && SymbolsOk(t, isDC)
    ensures ok ==> Encodes(c, t)
  {
    hide Area, Code, SizesTo;
    c := CTable([], []);
    var huffsize, huffcode, lastp;
    ok, huffsize, lastp := HuffSizes(t);
    if !ok {
      return;
    }
    ok, huffcode := HuffCodes(huffsize, Sizes(t));
    if !ok {
      return;
    }
    forall p | 0 <= p < lastp
      ensures huffsize[p] == Sizes(t)[p] > 0
    {
      assert huffsize[..lastp][p] == Sizes(t)[p];
    }
    ok, c := ByValue(t.huffval, huffsize, huffcode, lastp, if isDC then 15 else 255);
  }

  /** Code and size indexed by symbol value; fails on symbols out of range or repeated. */
  method ByValue(huffval: seq<byte>, huffsize: array<nat>, huffcode: array<nat>, lastp: nat, maxsymbol: nat)
    returns (ok: bool, c: CTable)
    requires lastp <= |huffval| == MAX_SYMBOLS && huffsize.Length == huffcode.Length == MAX_SYMBOLS + 1
    requires forall p :: 0 <= p < lastp ==> huffsize[p] > 0
    ensures ok <==> (forall p :: 0 <= p < lastp ==> huffval[p] <= maxsymbol)
                    && (forall p, q :: 0 <= p < q < lastp ==> huffval[p] != huffval[q])
    ensures ok ==> |c.ehufco| == |c.ehufsi| == MAX_SYMBOLS
    ensures ok ==> forall p :: 0 <= p < lastp ==>
      c.ehufco[huffval[p]] == huffcode[p] && c.ehufsi[huffval[p]] == huffsize[p]
    ensures ok ==> forall v :: 0 <= v < MAX_SYMBOLS && v !in huffval[..lastp] ==> c.ehufsi[v] == 0
  {
    c := CTable([], []);
    var ehufco := new nat[MAX_SYMBOLS](i => 0);
    var ehufsi := new nat[MAX_SYMBOLS](i => 0);
    for p := 0 to lastp
      invariant forall q :: 0 <= q < p ==> huffval[q] <= maxsymbol
      invariant forall q, r :: 0 <= q < r < p ==> huffval[q] != huffval[r]
      invariant forall q :: 0 <= q < p ==> ehufco[huffval[q]] == huffcode[q] && ehufsi[huffval[q]] == huffsize[q]
      invariant forall v :: 0 <= v < MAX_SYMBOLS && v !in huffval[..p] ==> ehufsi[v] == 0
    {
      var i := huffval[p];
      assert huffval[..p + 1] == huffval[..p] + [i];
      if i > maxsymbol || ehufsi[i] != 0 {
        ok := false;
        return;
      }
      ehufco[i] := huffcode[p];
      ehufsi[i] := huffsize[p];
    }
    ok, c := true, CTable(ehufco[..], ehufsi[..]);
  }
}
