/** The probability estimation state machine shared by the arithmetic encoder and
    decoder (jaricom.c; Table D.3 of ITU-T T.81). */
module ProbabilityTable {
  import opened Bytes

  const STATES := 114

  /** One line of the table: estimate, next state after an LPS and after an MPS, and
      whether an LPS also exchanges the sense of the MPS. */
  datatype Line = Line(qe: nat, nextLps: nat, nextMps: nat, switchMps: nat)

  /** What the coders rely on: an estimate is positive and below one half of the
      normalised interval, and no transition leaves the table. */
  predicate LineOk(r: Line)
  {
    && 1 <= r.qe < 0x8000
    && r.nextLps < STATES
    && r.nextMps < STATES
    && r.switchMps <= 1
  }

  /** The table of jaricom.c in slices of sixteen lines; the last line is the fixed
      estimate of 0.5. */
  function Lines0(i: nat): (r: Line)
    requires i < 16
    ensures LineOk(r)
  {
    match i
    case 0 => Line(0x5a1d, 1, 1, 1)
    case 1 => Line(0x2586, 14, 2, 0)
    case 2 => Line(0x1114, 16, 3, 0)
    case 3 => Line(0x080b, 18, 4, 0)
    case 4 => Line(0x03d8, 20, 5, 0)
    case 5 => Line(0x01da, 23, 6, 0)
    case 6 => Line(0x00e5, 25, 7, 0)
    case 7 => Line(0x006f, 28, 8, 0)
    case 8 => Line(0x0036, 30, 9, 0)
    case 9 => Line(0x001a, 33, 10, 0)
    case 10 => Line(0x000d, 35, 11, 0)
    case 11 => Line(0x0006, 9, 12, 0)
    case 12 => Line(0x0003, 10, 13, 0)
    case 13 => Line(0x0001, 12, 13, 0)
    case 14 => Line(0x5a7f, 15, 15, 1)
    case _ => Line(0x3f25, 36, 16, 0)
  }

  function Lines16(i: nat): (r: Line)
    requires i < 16
    ensures LineOk(r)
  {
    match i
    case 0 => Line(0x2cf2, 38, 17, 0)
    case 1 => Line(0x207c, 39, 18, 0)
    case 2 => Line(0x17b9, 40, 19, 0)
    case 3 => Line(0x1182, 42, 20, 0)
    case 4 => Line(0x0cef, 43, 21, 0)
    case 5 => Line(0x09a1, 45, 22, 0)
    case 6 => Line(0x072f, 46, 23, 0)
    case 7 => Line(0x055c, 48, 24, 0)
    case 8 => Line(0x0406, 49, 25, 0)
    case 9 => Line(0x0303, 51, 26, 0)
    case 10 => Line(0x0240, 52, 27, 0)
    case 11 => Line(0x01b1, 54, 28, 0)
    case 12 => Line(0x0144, 56, 29, 0)
    case 13 => Line(0x00f5, 57, 30, 0)
    case 14 => Line(0x00b7, 59, 31, 0)
    case _ => Line(0x008a, 60, 32, 0)
  }

  function Lines32(i: nat): (r: Line)
    requires i < 16
    ensures LineOk(r)
  {
    match i
    case 0 => Line(0x0068, 62, 33, 0)
    case 1 => Line(0x004e, 63, 34, 0)
    case 2 => Line(0x003b, 32, 35, 0)
    case 3 => Line(0x002c, 33, 9, 0)
    case 4 => Line(0x5ae1, 37, 37, 1)
    case 5 => Line(0x484c, 64, 38, 0)
    case 6 => Line(0x3a0d, 65, 39, 0)
    case 7 => Line(0x2ef1, 67, 40, 0)
    case 8 => Line(0x261f, 68, 41, 0)
    case 9 => Line(0x1f33, 69, 42, 0)
    case 10 => Line(0x19a8, 70, 43, 0)
    case 11 => Line(0x1518, 72, 44, 0)
    case 12 => Line(0x1177, 73, 45, 0)
    case 13 => Line(0x0e74, 74, 46, 0)
    case 14 => Line(0x0bfb, 75, 47, 0)
    case _ => Line(0x09f8, 77, 48, 0)
  }

  function Lines48(i: nat): (r: Line)
    requires i < 16
    ensures LineOk(r)
  {
    match i
    case 0 => Line(0x0861, 78, 49, 0)
    case 1 => Line(0x0706, 79, 50, 0)
    case 2 => Line(0x05cd, 48, 51, 0)
    case 3 => Line(0x04de, 50, 52, 0)
    case 4 => Line(0x040f, 50, 53, 0)
    case 5 => Line(0x0363, 51, 54, 0)
    case 6 => Line(0x02d4, 52, 55, 0)
    case 7 => Line(0x025c, 53, 56, 0)
    case 8 => Line(0x01f8, 54, 57, 0)
    case 9 => Line(0x01a4, 55, 58, 0)
    case 10 => Line(0x0160, 56, 59, 0)
    case 11 => Line(0x0125, 57, 60, 0)
    case 12 => Line(0x00f6, 58, 61, 0)
    case 13 => Line(0x00cb, 59, 62, 0)
    case 14 => Line(0x00ab, 61, 63, 0)
    case _ => Line(0x008f, 61, 32, 0)
  }

  function Lines64(i: nat): (r: Line)
    requires i < 16
    ensures LineOk(r)
  {
    match i
    case 0 => Line(0x5b12, 65, 65, 1)
    case 1 => Line(0x4d04, 80, 66, 0)
    case 2 => Line(0x412c, 81, 67, 0)
    case 3 => Line(0x37d8, 82, 68, 0)
    case 4 => Line(0x2fe8, 83, 69, 0)
    case 5 => Line(0x293c, 84, 70, 0)
    case 6 => Line(0x2379, 86, 71, 0)
    case 7 => Line(0x1edf, 87, 72, 0)
    case 8 => Line(0x1aa9, 87, 73, 0)
    case 9 => Line(0x174e, 72, 74, 0)
    case 10 => Line(0x1424, 72, 75, 0)
    case 11 => Line(0x119c, 74, 76, 0)
    case 12 => Line(0x0f6b, 74, 77, 0)
    case 13 => Line(0x0d51, 75, 78, 0)
    case 14 => Line(0x0bb6, 77, 79, 0)
    case _ => Line(0x0a40, 77, 48, 0)
  }

  function Lines80(i: nat): (r: Line)
    requires i < 16
    ensures LineOk(r)
  {
    match i
    case 0 => Line(0x5832, 80, 81, 1)
    case 1 => Line(0x4d1c, 88, 82, 0)
    case 2 => Line(0x438e, 89, 83, 0)
    case 3 => Line(0x3bdd, 90, 84, 0)
    case 4 => Line(0x34ee, 91, 85, 0)
    case 5 => Line(0x2eae, 92, 86, 0)
    case 6 => Line(0x299a, 93, 87, 0)
    case 7 => Line(0x2516, 86, 71, 0)
    case 8 => Line(0x5570, 88, 89, 1)
    case 9 => Line(0x4ca9, 95, 90, 0)
    case 10 => Line(0x44d9, 96, 91, 0)
    case 11 => Line(0x3e22, 97, 92, 0)
    case 12 => Line(0x3824, 99, 93, 0)
    case 13 => Line(0x32b4, 99, 94, 0)
    case 14 => Line(0x2e17, 93, 86, 0)
    case _ => Line(0x56a8, 95, 96, 1)
  }

  function Lines96(i: nat): (r: Line)
    requires i < 16
    ensures LineOk(r)
  {
    match i
    case 0 => Line(0x4f46, 101, 97, 0)
    case 1 => Line(0x47e5, 102, 98, 0)
    case 2 => Line(0x41cf, 103, 99, 0)
    case 3 => Line(0x3c3d, 104, 100, 0)
    case 4 => Line(0x375e, 99, 93, 0)
    case 5 => Line(0x5231, 105, 102, 0)
    case 6 => Line(0x4c0f, 106, 103, 0)
    case 7 => Line(0x4639, 107, 104, 0)
    case 8 => Line(0x415e, 103, 99, 0)
    case 9 => Line(0x5627, 105, 106, 1)
    case 10 => Line(0x50e7, 108, 107, 0)
    case 11 => Line(0x4b85, 109, 103, 0)
    case 12 => Line(0x5597, 110, 109, 0)
    case 13 => Line(0x504f, 111, 107, 0)
    case 14 => Line(0x5a10, 110, 111, 1)
    case _ => Line(0x5522, 112, 109, 0)
  }

  function Lines112(i: nat): (r: Line)
    requires i < 2
    ensures LineOk(r)
  {
    match i
    case 0 => Line(0x59eb, 112, 111, 1)
    case _ => Line(0x5a1d, 113, 113, 0)
  }

  function AriTab(i: nat): (r: Line)
    requires i < STATES
    ensures LineOk(r)
  {
    match i / 16
    case 0 => Lines0(i % 16)
    case 1 => Lines16(i % 16)
    case 2 => Lines32(i % 16)
    case 3 => Lines48(i % 16)
    case 4 => Lines64(i % 16)
    case 5 => Lines80(i % 16)
    case 6 => Lines96(i % 16)
    case _ => Lines112(i % 16)
  }

  /** The line reached after walking `steps` lines down from line k.  The coders look
      lines up this way so that their proofs use only what LineOk promises. */
  function Walk(k: nat, steps: nat): (r: Line)
    requires k + steps < STATES
    ensures LineOk(r)
    decreases steps
  {
    if steps == 0 then AriTab(k) else Walk(k + 1, steps - 1)
  }

  lemma {:induction false} WalkIsLookup(k: nat, steps: nat)
    requires k + steps < STATES
    ensures Walk(k, steps) == AriTab(k + steps)
    decreases steps
  {
    if steps > 0 {
      WalkIsLookup(k + 1, steps - 1);
    }
  }

  /** The contents of a statistics bin: the sense of the more probable symbol and the
      state index. */
  datatype Stat = Stat(mps: bit, index: nat)

  type stat = s: Stat | s.index < STATES witness Stat(0, 0)

  function LineOf(s: stat): (r: Line)
    ensures LineOk(r)
  {
    Walk(0, s.index)
  }

  function AfterLps(s: stat): stat
  {
    Stat(if LineOf(s).switchMps == 1 then 1 - s.mps else s.mps, LineOf(s).nextLps)
  }

  function AfterMps(s: stat): stat
  {
    Stat(s.mps, LineOf(s).nextMps)
  }

  /** The packed form of a line: estimate above bit 16, next state after an MPS in bits
      8..15, switch flag in bit 7, next state after an LPS in bits 0..6. */
  function V(r: Line): nat
  {
    r.qe * 0x10000 + r.nextMps * 0x100 + r.switchMps * 0x80 + r.nextLps
  }

  /** The one-byte form of a bin: the sense in bit 7, the index in bits 0..6. */
  function Packed(s: stat): nat
  {
    s.mps * 128 + s.index
  }

  /** `(sv & 0x80) ^ n` */
  function Xor80(sv: nat, n: nat): nat
  {
    (sv / 128 + n / 128) % 2 * 128 + n % 128
  }

  /** Working on the packed forms as both coders do, `nl = qe & 0xFF; qe >>= 8;
      nm = qe & 0xFF; qe >>= 8` and then `(sv & 0x80) ^ nl` or `(sv & 0x80) ^ nm`, is
      working on the unpacked ones. */
  lemma PackedSteps(s: stat)
    ensures Packed(s) < 256 && Packed(s) % 128 == s.index && Packed(s) / 128 == s.mps
    ensures var v := V(LineOf(s));
            && v / 0x100 / 0x100 == LineOf(s).qe
            && Xor80(Packed(s), v % 0x100) == Packed(AfterLps(s))
            && Xor80(Packed(s), v / 0x100 % 0x100) == Packed(AfterMps(s))
  {
    hide LineOf, V, Xor80;
    assert Packed(s) == s.mps * 128 + s.index;
    UnpackLine(LineOf(s), Packed(s));
  }

  lemma UnpackLine(r: Line, sv: nat)
    requires LineOk(r) && sv < 256
    ensures V(r) / 0x100 / 0x100 == r.qe
    ensures Xor80(sv, V(r) % 0x100) == (sv / 128 + r.switchMps) % 2 * 128 + r.nextLps
    ensures Xor80(sv, V(r) / 0x100 % 0x100) == sv / 128 * 128 + r.nextMps
  {
    assert V(r) == (r.qe * 0x100 + r.nextMps) * 0x100 + (r.switchMps * 0x80 + r.nextLps);
    assert V(r) / 0x100 == r.qe * 0x100 + r.nextMps;
  }
}
