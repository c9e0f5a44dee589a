/** The Huffman entropy decoder of jdhuff.c: MCUs in all coding modes, with restarts. */
module HuffmanEntropyDecoding {
  import opened JpegLib
  import opened Bytes
  import opened Blocks
  import opened Markers
  import opened BitStreams
  import opened BitReading
  import opened CodeTable
  import opened HuffmanDecoding
  import opened HuffmanItems
  import opened HuffmanBlocks
  import opened HuffmanFirst
  import opened HuffmanRefine
  import opened HuffmanScan
  import opened HuffmanSegments
  import opened HuffmanRestarts

  /** A derived table for the symbols of a scan; those of DC tables are at most 15. */
  ghost predicate DerivedFrom(d: DTable, t: HuffTable, isDC: bool)
  {
    Derived(d) && d.pub == t && Decodable(t, isDC)
  }

  lemma DcSymbol(t: HuffTable, d: seq<bit>, at: nat)
    requires Decodable(t, true)
    ensures DecodeSym(t, d, at).0 <= 15
  {
    hide Peek, CountsOk;
    assert CountsOk(t);
    var w := Peek(d, at, MAX_LENGTH);
    if w < Total(t) {
      FindBound(t, w);
    }
  }

  lemma FindBound(t: HuffTable, w: nat)
    requires w < Total(t)
    ensures Find(Sizes(t), w) < |Sizes(t)|
  {
  }

  class HuffDecoder {
    const reader: BitReader
    const order: seq<nat>
    var sc: HScan
    var dcDerived: seq<DTable>
    var acDerived: seq<DTable>
    var lastDcVal: seq<int>
    var eobrun: nat
    var restartInterval: nat
    var restartsToGo: int
    var nextRestartNum: nat     // kept by the marker reader
    var extraneous: nat         // bytes reported as skipped in front of restart markers
    var resyncs: nat            // restarts at which some other marker was found

    // The tables, where the current segment starts, and whether all has been well.
    ghost var ts: Tables
    ghost var start: Input
    ghost var clean: bool

    constructor (order: seq<nat>, src: seq<byte>)
      requires ValidOrder(order)
      ensures fresh(reader) && reader.Valid() && reader.src == src && reader.pos == 0 && reader.unreadMarker == 0
        && this.order == order
      ensures extraneous == 0 && resyncs == 0
    {
      reader := new BitReader(src);
      this.order := order;
      dcDerived, acDerived, lastDcVal, eobrun := [], [], NO_PREDS, 0;
      restartInterval, restartsToGo, nextRestartNum, extraneous, resyncs := 0, 0, 0, 0, 0;
      start, clean := Input(0, 0), true;
    }

    ghost predicate TablesReady()
      reads `sc, `dcDerived, `acDerived, `ts
    {
      && ts.Valid() && |dcDerived| == |acDerived| == NUM_HUFF_TBLS
      && forall i :: 0 <= i < NUM_HUFF_TBLS ==>
           (sc.UsesDc(i) ==> DerivedFrom(dcDerived[i], ts.dc[i], true)) && (sc.UsesAc(i) ==>
             DerivedFrom(acDerived[i], ts.ac[i], false))
    }

    ghost predicate Ready()
      reads `sc, `dcDerived, `acDerived, `ts, `lastDcVal, reader
    {
      reader.Valid() && ValidOrder(order) && sc.Valid() && |lastDcVal| == MAX_COMPS_IN_SCAN && TablesReady()
    }

    ghost function State(): DecState
      requires |lastDcVal| == MAX_COMPS_IN_SCAN
      reads `lastDcVal, `eobrun, reader
    {
      DecState(reader.at, lastDcVal, eobrun)
    }

    /** The reader has moved on in its segment. */
    twostate predicate Moved()
      reads reader
    {
      reader.at >= old(reader.at) && reader.Advanced(reader.at - old(reader.at))
    }

    /** The DC difference. */
    method DecodeDiff(d: DTable) returns (s: int)
      requires reader.Valid() && DerivedFrom(d, d.pub, true)
      modifies reader
      ensures Moved() && (s, reader.at) == DecodeDcDiff(d.pub, reader.data, old(reader.at))
    {
      hide BitReader.Valid, DecodeSym, Peek, Extend, Derived, Decodable;
      DcSymbol(d.pub, reader.data, reader.at);
      DerivedNow(d);
      s := reader.HuffDecode(d);
      if s != 0 {
        var r := reader.GetBits(s);
        s := Extend(r, s);
      }
    }

    lemma DerivedNow(d: DTable)
      requires Derived(d)
      ensures CountsOk(d.pub)
    {
    }

    /** The DC coefficient of a sequential block; its value is dropped if none are wanted. */
    method DecodeDc(ci: nat, limit: nat, block: array<jcoef>)
      requires Ready() && ci < |sc.dcTbl| && sc.pass.mode.Sequential? && block.Length == DCTSIZE2
      modifies reader, block, `lastDcVal
      ensures Ready() && Moved()
      ensures var (diff, at1) := DecodeDcDiff(ts.dc[sc.dcTbl[ci]], reader.data, old(reader.at));
              var dc := old(lastDcVal)[ci] + diff;
              && reader.at == at1 && lastDcVal == (if limit > 0 then old(lastDcVal)[ci := dc] else old(lastDcVal))
              && Zigzag(order, block[..])
                == if limit > 0 then old(Zigzag(order, block[..]))[0 := Jcoef(dc)] else old(Zigzag(order, block[..]))
    {
      hide BitReader.Valid, DecodeDcDiff, Jcoef, DerivedFrom;
      DcTable(ci);
      var s := DecodeDiff(dcDerived[sc.dcTbl[ci]]);
      if limit > 0 {
        s := s + lastDcVal[ci];
        lastDcVal := lastDcVal[ci := s];
        Store(order, block, 0, Jcoef(s));
      }
    }

    lemma DcTable(ci: nat)
      requires sc.Valid() && TablesReady() && ci < |sc.dcTbl| && sc.pass.CodesDc()
      ensures var d := dcDerived[sc.dcTbl[ci]];
              DerivedFrom(d, d.pub, true) && d.pub == ts.dc[sc.dcTbl[ci]]
    {
      assert sc.UsesDc(sc.dcTbl[ci]);
    }

    lemma AcTable(ci: nat)
      requires sc.Valid() && TablesReady() && ci < |sc.acTbl| && sc.pass.CodesAc()
      ensures var d := acDerived[sc.acTbl[ci]];
              Derived(d) && CountsOk(d.pub) && d.pub == ts.ac[sc.acTbl[ci]]
    {
      assert sc.UsesAc(sc.acTbl[ci]);
    }

    /** The wanted AC coefficients of a sequential block: false at its end, with all there
        are, or the position reached. */
    method DecodeWanted(d: DTable, limit: nat, block: array<jcoef>) returns (more: bool, k: nat)
      requires reader.Valid() && Derived(d) && CountsOk(d.pub) && ValidOrder(order) && block.Length == DCTSIZE2
        && limit <= sc.pass.limSe + 1 && sc.pass.limSe < DCTSIZE2
      modifies reader, block
      ensures Moved()
      ensures var goal := DecodeAc(d.pub, reader.data, old(reader.at), old(Zigzag(order, block[..])), 1, limit,
        sc.pass.limSe);
              if more then
                k >= limit && k >= 1 && DecodeAc(d.pub, reader.data, reader.at, Zigzag(order, block[..]), k, limit,
                  sc.pass.limSe) == goal
              else goal == (Zigzag(order, block[..]), reader.at)
    {
      hide BitReader.Valid, DecodeSym, Peek, Extend, Derived, CountsOk, Jcoef;
      ghost var data, at0, z0, se := reader.data, reader.at, Zigzag(order, block[..]), sc.pass.limSe;
      NotMoved();
      k, more := 1, true;
      while k < limit
        invariant k >= 1 && Moved() && reader.data == data && more
        invariant DecodeAc(d.pub, data, reader.at, Zigzag(order, block[..]), k, limit, se)
          == DecodeAc(d.pub, data, at0, z0, 1, limit, se)
        decreases limit - k
      {
        ghost var z, at := Zigzag(order, block[..]), reader.at;
        AcStep(d.pub, data, at, z, k, limit, se);
        var sym := reader.HuffDecode(d);
        var r, s := sym / 16, sym % 16;
        if s != 0 {
          k := k + r;
          var bits := reader.GetBits(s);
          var v := Extend(bits, s);
          Store(order, block, Slot(k, sc.pass.limSe), Jcoef(v));
        } else {
          if r != 15 {
            more := false;
            return;
          }
          k := k + 15;
        }
        k := k + 1;
      }
    }

    twostate lemma NotMoved()
      requires reader.Valid() && unchanged(reader)
      ensures Moved()
    {
      hide BitReader.Valid;
      reader.Unused();
    }

    /** The others, whose values are discarded. */
    method DecodeUnwanted(d: DTable, limit: nat, k0: nat, block: array<jcoef>)
      requires reader.Valid() && Derived(d) && CountsOk(d.pub) && ValidOrder(order) && block.Length == DCTSIZE2
        && k0 >= limit && sc.pass.limSe < DCTSIZE2
      modifies reader
      ensures Moved()
      ensures (Zigzag(order, block[..]), reader.at) == DecodeAc(d.pub, reader.data, old(reader.at),
        Zigzag(order, block[..]), k0, limit, sc.pass.limSe)
    {
      hide BitReader.Valid, DecodeSym, Peek, Extend, Derived, CountsOk, Jcoef;
      ghost var data, at0, z, se := reader.data, reader.at, Zigzag(order, block[..]), sc.pass.limSe;
      NotMoved();
      var k := k0;
      while k <= sc.pass.limSe
        invariant k >= k0 && Moved() && reader.data == data
        invariant DecodeAc(d.pub, data, reader.at, z, k, limit, se) == DecodeAc(d.pub, data, at0, z, k0, limit, se)
        decreases sc.pass.limSe + 1 - k
      {
        ghost var at := reader.at;
        AcStep(d.pub, data, at, z, k, limit, se);
        var sym := reader.HuffDecode(d);
        var r, s := sym / 16, sym % 16;
        if s != 0 {
          k := k + r;
          var _ := reader.GetBits(s);
        } else {
          if r != 15 {
            return;
          }
          k := k + 15;
        }
        k := k + 1;
      }
    }

    /** A sequential block. */
    method DecodeSequential(blkn: nat, block: array<jcoef>)
      requires Ready() && blkn < |sc.membership| && sc.pass.mode.Sequential? && block.Length == DCTSIZE2
      modifies reader, block, `lastDcVal
      ensures Ready() && Moved()
      ensures (State(), Zigzag(order, block[..])) == DecodeBlock(sc, ts, reader.data, old(State()), blkn,
        old(Zigzag(order, block[..])))
    {
      hide BitReader.Valid, HuffDecoder.TablesReady, DecodeDcDiff, DecodeAc, Jcoef, Zigzag, ValidOrder;
      var ci, limit := sc.membership[blkn], sc.coefLimit[blkn];
      DecodeDc(ci, limit, block);
      DecodeAcPart(ci, limit, block);
    }

    /** Its AC coefficients. */
    method DecodeAcPart(ci: nat, limit: nat, block: array<jcoef>)
      requires Ready() && ci < |sc.acTbl| && sc.pass.mode.Sequential? && block.Length == DCTSIZE2
        && limit <= sc.pass.limSe + 1
      modifies reader, block
      ensures Ready() && Moved()
      ensures (Zigzag(order, block[..]), reader.at) == DecodeAc(ts.ac[sc.acTbl[ci]], reader.data, old(reader.at),
        old(Zigzag(order, block[..])), 1, limit, sc.pass.limSe)
    {
      hide BitReader.Valid, DecodeAc, DerivedFrom, CountsOk, HScan.UsesDc, HScan.UsesAc;
      if sc.pass.limSe == 0 {
        NotMoved();
        AcEnd(ts.ac[sc.acTbl[ci]], reader.data, reader.at, Zigzag(order, block[..]), 1, limit, 0);
        return;
      }
      AcTable(ci);
      var d := acDerived[sc.acTbl[ci]];
      var more, k := DecodeWanted(d, limit, block);
      if more {
        DecodeUnwanted(d, limit, k, block);
      }
    }

    /** A block of the first DC pass. */
    method DecodeDcFirst(blkn: nat, block: array<jcoef>)
      requires Ready() && blkn < |sc.membership| && sc.pass.mode.DcFirst? && block.Length == DCTSIZE2
      modifies reader, block, `lastDcVal
      ensures Ready() && Moved()
      ensures (State(), Zigzag(order, block[..])) == DecodeBlock(sc, ts, reader.data, old(State()), blkn,
        old(Zigzag(order, block[..])))
    {
      hide BitReader.Valid, DecodeDcDiff, Jcoef, Derived, DerivedFrom, Pow2, CountsOk, HScan.UsesDc, HScan.UsesAc;
      var ci := sc.membership[blkn];
      DcTable(ci);
      var s := DecodeDiff(dcDerived[sc.dcTbl[ci]]);
      s := s + lastDcVal[ci];
      lastDcVal := lastDcVal[ci := s];
      Store(order, block, 0, Jcoef(s * Pow2(sc.pass.al)));
    }

    /** A block of a DC refinement pass. */
    method DecodeDcRefine(blkn: nat, block: array<jcoef>)
      requires Ready() && blkn < |sc.membership| && sc.pass.mode.DcRefine? && block.Length == DCTSIZE2
      modifies reader, block
      ensures Ready() && Moved()
      ensures (State(), Zigzag(order, block[..])) == DecodeBlock(sc, ts, reader.data, old(State()), blkn,
        old(Zigzag(order, block[..])))
    {
      hide BitReader.Valid, Derived, DerivedFrom, SetBit, Pow2, Peek, CountsOk, HScan.UsesDc, HScan.UsesAc;
      var bit := reader.GetBits(1);
      if bit != 0 {
        BitIsOne(reader.data, old(reader.at));
        assert block[order[0]] == Zigzag(order, block[..])[0];
        Store(order, block, 0, SetBit(block[0], sc.pass.al));
      }
    }

    lemma BitIsOne(d: seq<bit>, at: nat)
      ensures Peek(d, at, 1) <= 1
    {
      PeekBound(d, at, 1);
      assert Pow2(1) == 2;
    }

    /** A block of the first AC pass. */
    method DecodeAcFirst(block: array<jcoef>)
      requires Ready() && sc.pass.mode.AcFirstPass? && block.Length == DCTSIZE2 && |sc.membership| == 1
      modifies reader, block, `eobrun
      ensures Ready() && Moved()
      ensures (State(), Zigzag(order, block[..])) == DecodeBlock(sc, ts, reader.data, old(State()), 0,
        old(Zigzag(order, block[..])))
    {
      hide BitReader.Valid, DecodeCoefs, Jcoef, Derived, CountsOk, Pow2, HScan.UsesDc, HScan.UsesAc;
      if eobrun > 0 {
        NotMoved();
        eobrun := eobrun - 1;
      } else {
        AcTable(0);
        DecodeBand(acDerived[sc.acTbl[0]], block);
      }
    }

    method DecodeBand(d: DTable, block: array<jcoef>)
      requires reader.Valid() && Derived(d) && CountsOk(d.pub) && ValidOrder(order) && block.Length == DCTSIZE2
        && sc.pass.se < DCTSIZE2 && eobrun == 0
      modifies reader, block, `eobrun
      ensures Moved()
      ensures (Zigzag(order, block[..]), reader.at, eobrun)
        == DecodeCoefs(d.pub, reader.data, old(reader.at), old(Zigzag(order, block[..])), sc.pass.ss, sc.pass.se,
          sc.pass.al)
    {
      hide BitReader.Valid, DecodeSym, Peek, Extend, Derived, CountsOk, Jcoef, Pow2;
      ghost var data, at0, z0, se, al := reader.data, reader.at, Zigzag(order, block[..]), sc.pass.se, sc.pass.al;
      NotMoved();
      var k := sc.pass.ss;
      while k <= sc.pass.se
        invariant Moved() && reader.data == data && eobrun == 0
        invariant DecodeCoefs(d.pub, data, reader.at, Zigzag(order, block[..]), k, se, al)
          == DecodeCoefs(d.pub, data, at0, z0, sc.pass.ss, se, al)
        decreases sc.pass.se + 1 - k
      {
        CoefStep(d.pub, data, reader.at, Zigzag(order, block[..]), k, se, al);
        var sym := reader.HuffDecode(d);
        var r, s := sym / 16, sym % 16;
        if s != 0 {
          k := k + r;
          var bits := reader.GetBits(s);
          var v := Extend(bits, s);
          Store(order, block, Slot(k, DCTSIZE2 - 1), Jcoef(v * Pow2(sc.pass.al)));
        } else if r == 15 {
          k := k + 15;
        } else {
          ReadRun(r);
          eobrun := eobrun - 1;
          return;
        }
        k := k + 1;
      }
    }

    lemma CoefStep(t: HuffTable, d: seq<bit>, at: nat, y: Block, k: nat, se: nat, al: nat)
      requires CountsOk(t) && se < DCTSIZE2 && k <= se
      ensures var (sym, at1) := DecodeSym(t, d, at);
              var r, s := sym / 16, sym % 16;
              DecodeCoefs(t, d, at, y, k, se, al) ==
              if s != 0 then
                DecodeCoefs(t, d, at1 + s,
                  y[Slot(k + r, DCTSIZE2 - 1) := Jcoef(Extend(Peek(d, at1, s), s) * Pow2(al))], k + r + 1, se, al)
              else if r == 15 then DecodeCoefs(t, d, at1, y, k + 16, se, al)
              else (y, DecodeEob(d, at1, r).1, DecodeEob(d, at1, r).0 - 1)
    {
      hide DecodeSym, Peek, Extend, Jcoef, CountsOk, Pow2;
    }

    /** The length of an end-of-band run: 2^r plus r appended bits. */
    method ReadRun(r: nat)
      requires reader.Valid() && r < 15
      modifies reader, `eobrun
      ensures Moved() && (eobrun, reader.at) == DecodeEob(reader.data, old(reader.at), r) && eobrun > 0
    {
      hide BitReader.Valid, Peek, Pow2;
      NotMoved();
      eobrun := Pow2(r);
      if r > 0 {
        var bits := reader.GetBits(r);
        eobrun := eobrun + bits;
      }
    }

    /** One correction bit for a nonzero coefficient. */
    method CorrectAt(k: nat, block: array<jcoef>)
      requires reader.Valid() && ValidOrder(order) && block.Length == DCTSIZE2 && k < DCTSIZE2
      modifies reader, block
      ensures Moved() && reader.at == old(reader.at) + 1
      ensures var y := old(Zigzag(order, block[..]));
              Zigzag(order, block[..]) == y[k := Corrected(y[k], Peek(reader.data, old(reader.at), 1), sc.pass.al)]
    {
      hide BitReader.Valid, Peek, Pow2, Enlarge, Shift;
      ghost var y := Zigzag(order, block[..]);
      var x := block[order[k]];
      assert x == y[k];
      BitIsOne(reader.data, reader.at);
      var bit := reader.GetBits(1);
      if bit != 0 {
        if Shift(x, sc.pass.al) % 2 == 0 {
          Store(order, block, k, Enlarge(x, sc.pass.al));
        }
      }
      assert y[k := y[k]] == y;
    }

    /** Over already-nonzero coefficients and r still-zero ones. */
    method AdvanceOver(k0: nat, r0: nat, block: array<jcoef>) returns (k: nat)
      requires reader.Valid() && ValidOrder(order) && block.Length == DCTSIZE2 && k0 <= sc.pass.se < DCTSIZE2
      modifies reader, block
      ensures Moved() && k0 <= k <= sc.pass.se + 1
      ensures (Zigzag(order, block[..]), k, reader.at)
        == Advance(reader.data, old(reader.at), old(Zigzag(order, block[..])), k0, r0, sc.pass.se, sc.pass.al)
    {
      hide BitReader.Valid, Peek, Corrected;
      ghost var data, at0, z0, se, al := reader.data, reader.at, Zigzag(order, block[..]), sc.pass.se, sc.pass.al;
      NotMoved();
      k := k0;
      var r := r0;
      while true
        invariant Moved() && reader.data == data && k0 <= k <= sc.pass.se
        invariant Advance(data, reader.at, Zigzag(order, block[..]), k, r, se, al)
          == Advance(data, at0, z0, k0, r0, se, al)
        decreases sc.pass.se - k
      {
        assert block[order[k]] == Zigzag(order, block[..])[k];
        if block[order[k]] != 0 {
          CorrectAt(k, block);
        } else {
          if r == 0 {
            return;         // reached target zero coefficient
          }
          r := r - 1;
        }
        k := k + 1;
        if k > sc.pass.se {
          return;
        }
      }
    }

    /** Correction bits for the rest of a block. */
    method CorrectRest(k0: nat, block: array<jcoef>)
      requires reader.Valid() && ValidOrder(order) && block.Length == DCTSIZE2 && sc.pass.se < DCTSIZE2
      modifies reader, block
      ensures Moved()
      ensures (Zigzag(order, block[..]), reader.at) == Corrections(reader.data, old(reader.at),
        old(Zigzag(order, block[..])), k0, sc.pass.se, sc.pass.al)
    {
      hide BitReader.Valid, Peek, Corrected;
      ghost var data, at0, z0, se, al := reader.data, reader.at, Zigzag(order, block[..]), sc.pass.se, sc.pass.al;
      NotMoved();
      var k := k0;
      while k <= sc.pass.se
        invariant Moved() && reader.data == data
        invariant Corrections(data, reader.at, Zigzag(order, block[..]), k, se, al)
          == Corrections(data, at0, z0, k0, se, al)
        decreases sc.pass.se + 1 - k
      {
        assert block[order[k]] == Zigzag(order, block[..])[k];
        if block[order[k]] != 0 {
          CorrectAt(k, block);
        }
        k := k + 1;
      }
    }

    /** A block of an AC refinement pass. */
    method DecodeAcRefine(block: array<jcoef>)
      requires Ready() && sc.pass.mode.AcRefinePass? && block.Length == DCTSIZE2 && |sc.membership| == 1
      modifies reader, block, `eobrun
      ensures Ready() && Moved()
      ensures (State(), Zigzag(order, block[..])) == DecodeBlock(sc, ts, reader.data, old(State()), 0,
        old(Zigzag(order, block[..])))
    {
      hide BitReader.Valid, DecodeRefCoefs, Corrections, Derived, CountsOk, Pow2, HScan.UsesDc, HScan.UsesAc;
      AcTable(0);
      if eobrun == 0 {
        DecodeRefined(acDerived[sc.acTbl[0]], block);
      } else {
        CorrectRest(sc.pass.ss, block);
        eobrun := eobrun - 1;
      }
    }

    /** Such a block in front of which no run is pending. */
    method DecodeRefined(d: DTable, block: array<jcoef>)
      requires reader.Valid() && Derived(d) && CountsOk(d.pub) && ValidOrder(order) && block.Length == DCTSIZE2
        && sc.pass.se < DCTSIZE2 && eobrun == 0
      modifies reader, block, `eobrun
      ensures Moved()
      ensures (Zigzag(order, block[..]), reader.at, eobrun)
        == DecodeRefCoefs(d.pub, reader.data, old(reader.at), old(Zigzag(order, block[..])), sc.pass.ss, sc.pass.se,
          sc.pass.al)
    {
      hide BitReader.Valid, DecodeSym, Peek, Derived, CountsOk, Pow2, Advance, Corrections, NewValue;
      ghost var data, at0, z0, se, al := reader.data, reader.at, Zigzag(order, block[..]), sc.pass.se, sc.pass.al;
      NotMoved();
      var k := sc.pass.ss;
      while k <= sc.pass.se
        invariant Moved() && reader.data == data && eobrun == 0
        invariant DecodeRefCoefs(d.pub, data, reader.at, Zigzag(order, block[..]), k, se, al)
          == DecodeRefCoefs(d.pub, data, at0, z0, sc.pass.ss, se, al)
        decreases sc.pass.se + 1 - k
      {
        RefStep(d.pub, data, reader.at, Zigzag(order, block[..]), k, se, al);
        var sym := reader.HuffDecode(d);
        var r, s := sym / 16, sym % 16;
        var v: jcoef := 0;
        if s != 0 {
          v := ReadNew();
        } else if r != 15 {
          ReadRun(r);
          CorrectRest(k, block);
          eobrun := eobrun - 1;
          return;
        }
        k := AdvanceOver(k, r, block);
        if s != 0 {
          Store(order, block, Slot(k, DCTSIZE2 - 1), v);
        }
        k := k + 1;
      }
    }

    /** The sign of a newly nonzero coefficient. */
    method ReadNew() returns (v: jcoef)
      requires reader.Valid()
      modifies reader
      ensures Moved() && reader.at == old(reader.at) + 1 && v
        == NewValue(Peek(reader.data, old(reader.at), 1), sc.pass.al)
    {
      hide BitReader.Valid, Peek, Pow2, Jcoef;
      BitIsOne(reader.data, reader.at);
      var bit := reader.GetBits(1);
      v := Jcoef(if bit != 0 then Pow2(sc.pass.al) else -(Pow2(sc.pass.al) as int));
    }

    lemma RefStep(t: HuffTable, d: seq<bit>, at: nat, y: Block, k: nat, se: nat, al: nat)
      requires CountsOk(t) && se < DCTSIZE2 && k <= se
      ensures var (sym, at1) := DecodeSym(t, d, at);
              var r, s := sym / 16, sym % 16;
              var (run, at2) := DecodeEob(d, at1, r);
              var (y1, k1, at3) := Advance(d, if s != 0 then at1 + 1 else at1, y, k, r, se, al);
              DecodeRefCoefs(t, d, at, y, k, se, al) ==
              if s == 0 && r != 15 then
                (Corrections(d, at2, y, k, se, al).0, Corrections(d, at2, y, k, se, al).1, run - 1)
              else DecodeRefCoefs(t, d, at3, if s != 0 then y1[Slot(k1, DCTSIZE2 - 1) := NewValue(Peek(d, at1, 1), al)]
                else y1, k1 + 1, se, al)
    {
      hide DecodeSym, Peek, CountsOk, Pow2, Advance, Corrections, NewValue;
    }

    /** One block, by the coding mode of the scan. */
    method DecodeOneBlock(blkn: nat, block: array<jcoef>)
      requires Ready() && blkn < |sc.membership| && block.Length == DCTSIZE2
      modifies reader, block, `lastDcVal, `eobrun
      ensures Ready() && Moved()
      ensures (State(), Zigzag(order, block[..])) == DecodeBlock(sc, ts, reader.data, old(State()), blkn,
        old(Zigzag(order, block[..])))
    {
      hide BitReader.Valid, DecodeBlock, HuffDecoder.TablesReady;
      match sc.pass.mode
      case Sequential => DecodeSequential(blkn, block);
      case DcFirst => DecodeDcFirst(blkn, block);
      case DcRefine => DecodeDcRefine(blkn, block);
      case AcFirstPass => DecodeAcFirst(block);
      case AcRefinePass => DecodeAcRefine(block);
    }

    /** The blocks of an MCU. */
    method DecodeBlocks(mcu: seq<array<jcoef>>)
      requires Ready() && BlockArrays(mcu) && |mcu| == |sc.membership|
      modifies reader, mcu, `lastDcVal, `eobrun
      ensures Ready() && Moved()
      ensures (State(), Contents(order, mcu)) == DecodeMcu(sc, ts, reader.data, old(State()), old(Contents(order, mcu)),
        0)
    {
      hide BitReader.Valid, DecodeBlock, DerivedFrom, CountsOk, HScan.UsesDc, HScan.UsesAc, Zigzag;
      ghost var data, goal := reader.data, DecodeMcu(sc, ts, reader.data, State(), Contents(order, mcu), 0);
      NotMoved();
      for blkn := 0 to |mcu|
        invariant Ready() && Moved() && reader.data == data
        invariant DecodeMcu(sc, ts, data, State(), Contents(order, mcu), blkn) == goal
      {
        ghost var z := Contents(order, mcu);
        DecodeOneBlock(blkn, mcu[blkn]);
        assert Contents(order, mcu) == z[blkn := Zigzag(order, mcu[blkn][..])];
      }
    }

    /** Between MCUs, by value. */
    ghost function Now(): Scanning
      requires |lastDcVal| == MAX_COMPS_IN_SCAN
      reads this, reader
    {
      Scanning(start, State(), reader.insufficientData, restartsToGo, nextRestartNum, clean)
    }

    /** As long as all is well, no byte has been skipped and no marker but those expected
        has been found. */
    ghost predicate Valid()
      reads this, reader
    {
      && Ready() && nextRestartNum < 8
      && reader.data == ByteBits(Rest(reader.src, start)) && reader.final == End(reader.src, start)
      && (clean ==> extraneous == 0 && resyncs == 0)
    }

    /** What is left in the bit buffer counts as skipped, then the marker is read. */
    method ReadMarker() returns (input: Input, expected: bool)
      requires Valid()
      modifies `nextRestartNum, `extraneous, `resyncs
      ensures var r := ReadRestart(reader.src, End(reader.src, start), old(nextRestartNum), 0);
              input == r.0 && expected == r.2
      ensures nextRestartNum == (old(nextRestartNum) + 1) % 8
      ensures clean && expected && old(Now()).UsedUp(reader.src) ==> extraneous == 0 && resyncs == 0
    {
      hide BitReader.Valid, ReadRestart, Rest, End, ByteBits, HuffDecoder.Ready, Scanning.UsedUp;
      LeftOver();
      RestartIsEnd(reader.src, Input(reader.pos, reader.unreadMarker), nextRestartNum, reader.bitsLeft / 8);
      EndAgain(reader.src, start);
      var skipped;
      input, skipped, expected := ReadRestartMarker(reader.src, Input(reader.pos, reader.unreadMarker), nextRestartNum,
        reader.bitsLeft / 8);
      extraneous := extraneous + skipped;
      if !expected {
        resyncs := resyncs + 1;
      }
      nextRestartNum := (nextRestartNum + 1) % 8;
    }

    /** process_restart. */
    method Restart()
      requires Valid()
      modifies reader, `lastDcVal, `eobrun, `restartsToGo, `nextRestartNum, `extraneous, `resyncs, `start, `clean
      ensures Valid() && reader.src == old(reader.src)
      ensures Now() == ProcessRestart(reader.src, sc, restartInterval, old(Now()))
    {
      hide BitReader.Valid, ReadRestart, Rest, End, ByteBits, HuffDecoder.TablesReady, HScan.Valid, Scanning.UsedUp,
        PredsReset, ValidOrder;
      ghost var s, src := Now(), reader.src;
      var input, expected := ReadMarker();
      clean := clean && s.UsedUp(src) && expected;
      ResetPreds();
      eobrun := 0;
      restartsToGo := restartInterval;
      BeginSegment(input);
    }

    /** The reader goes on behind the marker. */
    method BeginSegment(input: Input)
      requires |lastDcVal| == MAX_COMPS_IN_SCAN
      modifies reader, `start
      ensures reader.Valid() && reader.src == old(reader.src) && reader.data == ByteBits(Rest(reader.src, start))
        && reader.final == End(reader.src, start)
      ensures start == input && reader.at == 0 && reader.insufficientData
        == (old(reader.insufficientData) && input.marker != 0)
    {
      hide BitReader.Valid, Rest, End, ByteBits;
      start := input;
      reader.StartSegment(input);
    }

    /** The predictions of the components of the scan are zeroed. */
    method ResetPreds()
      requires sc.Valid() && |lastDcVal| == MAX_COMPS_IN_SCAN
      modifies `lastDcVal
      ensures lastDcVal == PredsReset(sc, old(lastDcVal))
    {
      for ci := 0 to |sc.dcTbl|
        invariant |lastDcVal| == MAX_COMPS_IN_SCAN
        invariant forall j :: 0 <= j < MAX_COMPS_IN_SCAN ==> lastDcVal[j] == if j < ci then 0 else old(lastDcVal)[j]
      {
        lastDcVal := lastDcVal[ci := 0];
      }
    }

    /** With all bytes of a segment used nothing is left in the bit buffer or the input. */
    lemma LeftOver()
      requires Valid()
      ensures End(reader.src, Input(reader.pos, reader.unreadMarker)) == End(reader.src, start)
      ensures Now().UsedUp(reader.src) ==>
        reader.bitsLeft / 8 == 0 && Rest(reader.src, Input(reader.pos, reader.unreadMarker)) == []
    {
    }

    lemma EndAgain(src: seq<byte>, i: Input)
      ensures End(src, End(src, i)) == End(src, i)
    {
      EndMarker(src, i);
      EndHere(src, End(src, i));
    }

    /** The decode_mcu routines: the restart accounting, and the blocks unless the data ran
        out. */
    method DecodeNextMcu(mcu: seq<array<jcoef>>)
      requires Valid() && BlockArrays(mcu) && |mcu| == |sc.membership|
      modifies reader, mcu, `lastDcVal, `eobrun, `restartsToGo, `nextRestartNum, `extraneous, `resyncs, `start, `clean
      ensures Valid() && reader.src == old(reader.src)
      ensures (Now(), Contents(order, mcu)) == NextMcu(reader.src, sc, ts, restartInterval, old(Now()),
        old(Contents(order, mcu)))
    {
      hide BitReader.Valid, ProcessRestart, DecodeMcu, Rest, End, ByteBits, DerivedFrom, CountsOk, HScan.UsesDc,
        HScan.UsesAc, Zigzag;
      if restartInterval != 0 {
        if restartsToGo == 0 {
          Restart();
        }
      }
      label Segment:
      if !reader.insufficientData || sc.pass.mode.DcRefine? {
        DecodeBlocks(mcu);
      }
      restartsToGo := restartsToGo - 1;
    }

    /** jpeg_make_d_derived_tbl for the tables with the given numbers. */
    method DeriveTables(used: seq<nat>, tables: seq<HuffTable>, isDC: bool) returns (ok: bool, derived: seq<DTable>)
      requires |tables| == NUM_HUFF_TBLS && forall i :: 0 <= i < |used| ==> used[i] < NUM_HUFF_TBLS
      ensures ok <==> forall i :: 0 <= i < |used| ==> Decodable(tables[used[i]], isDC)
      ensures ok ==> |derived| == NUM_HUFF_TBLS
      ensures ok ==> forall i :: 0 <= i < NUM_HUFF_TBLS && i in used ==> DerivedFrom(derived[i], tables[i], isDC)
    {
      hide Derived, Decodable;
      derived := seq(NUM_HUFF_TBLS, i requires 0 <= i < NUM_HUFF_TBLS => DTable([], [], [], [], tables[i]));
      for j := 0 to |used|
        invariant |derived| == NUM_HUFF_TBLS && forall i :: 0 <= i < j ==> Decodable(tables[used[i]], isDC)
        invariant forall i :: 0 <= i < NUM_HUFF_TBLS && i in used[..j] ==> DerivedFrom(derived[i], tables[i], isDC)
      {
        var d;
        ok, d := MakeDDerived(tables[used[j]], isDC);
        if !ok {
          return;
        }
        derived := derived[used[j] := d];
        assert used[..j + 1] == used[..j] + [used[j]];
      }
      ok := true;
      assert used[..|used|] == used;
    }

    /** The tables of the scan are derived. */
    method PrepareTables(dc: seq<HuffTable>, ac: seq<HuffTable>) returns (ok: bool)
      requires sc.Valid() && |dc| == |ac| == NUM_HUFF_TBLS
      modifies `dcDerived, `acDerived, `ts
      ensures ok == AllDecodable(sc, dc, ac)
      ensures ok ==> TablesReady() && ts == TablesOf(sc, dc, ac)
    {
      hide Decodable, Derived, DerivedFrom, HScan.Valid;
      UsedNumbers();
      AllTables(sc, dc, ac);
      ok, dcDerived := DeriveTables(if sc.pass.CodesDc() then sc.dcTbl else [], dc, true);
      if !ok {
        return;
      }
      ok, acDerived := DeriveTables(if sc.pass.CodesAc() then sc.acTbl else [], ac, false);
      if !ok {
        return;
      }
      ts := TablesOf(sc, dc, ac);
      DerivedTables(dc, ac);
    }

    /** start_pass_huff_decoder for a scan already accepted, with the tables defined at the
        time; fails on a table that cannot be used. */
    method StartPass(scan: HScan, interval: nat, dc: seq<HuffTable>, ac: seq<HuffTable>) returns (ok: bool)
      requires scan.Valid() && ValidOrder(order) && |dc| == |ac| == NUM_HUFF_TBLS
      modifies this, reader
      ensures ok == AllDecodable(scan, dc, ac)
      ensures ok ==>
        Valid() && sc == scan && restartInterval == interval && ts == TablesOf(scan, dc, ac) && reader.src
        == old(reader.src)
      ensures ok ==> Now() == ScanStart(old(Input(reader.pos, reader.unreadMarker)), interval)
    {
      hide BitReader.Valid, ByteBits, Rest, End, HScan.Valid, HuffDecoder.TablesReady, AllDecodable, TablesOf;
      InitScan(scan, interval);
      ok := PrepareTables(dc, ac);
    }

    /** The fields set at the start of a scan. */
    method InitScan(scan: HScan, interval: nat)
      modifies this, reader
      ensures sc == scan && restartInterval == interval && extraneous == 0 && resyncs == 0
      ensures reader.Valid() && reader.src == old(reader.src) && reader.data == ByteBits(Rest(reader.src, start))
        && reader.final == End(reader.src, start)
      ensures |lastDcVal| == MAX_COMPS_IN_SCAN && Now() == ScanStart(old(Input(reader.pos, reader.unreadMarker)),
        interval)
    {
      hide BitReader.Valid, ByteBits, Rest, End;
      reader.StartPass();
      sc := scan;
      lastDcVal, eobrun := NO_PREDS, 0;
      restartInterval, restartsToGo, nextRestartNum, extraneous, resyncs := interval, interval, 0, 0, 0;
      start, clean := Input(reader.pos, reader.unreadMarker), true;
    }

    lemma UsedNumbers()
      requires sc.Valid()
      ensures forall i :: 0 <= i < |sc.dcTbl| ==> sc.dcTbl[i] < NUM_HUFF_TBLS
      ensures forall i :: 0 <= i < |sc.acTbl| ==> sc.acTbl[i] < NUM_HUFF_TBLS
    {
    }

    lemma AllTables(scan: HScan, dc: seq<HuffTable>, ac: seq<HuffTable>)
      requires scan.Valid() && |dc| == |ac| == NUM_HUFF_TBLS
      ensures AllDecodable(scan, dc, ac) <==>
        && (scan.pass.CodesDc() ==> forall i :: 0 <= i < |scan.dcTbl| ==> Decodable(dc[scan.dcTbl[i]], true))
        && (scan.pass.CodesAc() ==> forall i :: 0 <= i < |scan.acTbl| ==> Decodable(ac[scan.acTbl[i]], false))
    {
      hide Decodable;
      if AllDecodable(scan, dc, ac) {
        assert forall i :: 0 <= i < |scan.dcTbl| && scan.pass.CodesDc() ==> scan.UsesDc(scan.dcTbl[i]);
        assert forall i :: 0 <= i < |scan.acTbl| && scan.pass.CodesAc() ==> scan.UsesAc(scan.acTbl[i]);
      }
    }

    lemma DerivedTables(dc: seq<HuffTable>, ac: seq<HuffTable>)
      requires |dc| == |ac| == NUM_HUFF_TBLS == |dcDerived| == |acDerived| && ts == TablesOf(sc, dc, ac)
      requires forall i :: 0 <= i < NUM_HUFF_TBLS && sc.pass.CodesDc() && i in sc.dcTbl ==>
        DerivedFrom(dcDerived[i], dc[i], true)
      requires forall i :: 0 <= i < NUM_HUFF_TBLS && sc.pass.CodesAc() && i in sc.acTbl ==>
        DerivedFrom(acDerived[i], ac[i], false)
      ensures TablesReady()
    {
      hide DerivedFrom, CountsOk, NoTable;
      NoTableEmpty();
      forall i | 0 <= i < NUM_HUFF_TBLS
        ensures CountsOk(ts.dc[i]) && (sc.UsesDc(i) ==> DerivedFrom(dcDerived[i], ts.dc[i], true))
        ensures CountsOk(ts.ac[i]) && (sc.UsesAc(i) ==> DerivedFrom(acDerived[i], ts.ac[i], false))
      {
        if sc.UsesDc(i) { DerivedCounts(dcDerived[i], dc[i], true); }
        if sc.UsesAc(i) { DerivedCounts(acDerived[i], ac[i], false); }
      }
    }

    lemma DerivedCounts(d: DTable, t: HuffTable, isDC: bool)
      requires DerivedFrom(d, t, isDC)
      ensures CountsOk(t)
    {
    }
  }

  ghost predicate AllDecodable(sc: HScan, dc: seq<HuffTable>, ac: seq<HuffTable>)
    requires |dc| == |ac| == NUM_HUFF_TBLS
  {
    forall i :: 0 <= i < NUM_HUFF_TBLS ==>
      (sc.UsesDc(i) ==> Decodable(dc[i], true)) && (sc.UsesAc(i) ==> Decodable(ac[i], false))
  }

  /** The decoder at the start of a scan. */
  function ScanStart(i: Input, ri: nat): Scanning
  {
    Scanning(i, DecState(0, NO_PREDS, 0), false, ri, 0, true)
  }
}
