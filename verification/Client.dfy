/** The client object: its arrays and counters, and the loops that update them,
    each equal to its specification (src/client.cpp, src/client_main.cpp). */
module ClientObject {
  import opened Options
  import opened ModArith
  import opened Words
  import opened NumberTheory
  import opened Cutoff
  import opened Ring
  import opened Encoding
  import opened Prf
  import opened Bits
  import opened Hints
  import opened Query
  import opened Offline
  import opened Refresh
  import opened Answering
  import opened Protocol
  import opened Server
  import opened Setup
  import Codec

  class OneSVClient {
    const pp: Params
    const f: PrfFn
    const hintId: array<nat>
    const selectCutoff: array<nat>
    const extraPart: array<nat>
    const extraOffset: array<nat>
    const indicatorBit: array<bv8>
    const bvec: array<bool>
    const svec: array<nat>
    const prfSelectVals: array<Word32>
    const prfDummyIndices: array<nat>
    var dummyIdxUsed: nat
    var ciParity: seq<Cipher>
    var nextHintIndex: nat
    var encZeroCache: seq<Cipher>
    var encZeroNext: nat

    ghost predicate Allocated() {
      && hintId.Length == extraPart.Length == extraOffset.Length == pp.M()
      && selectCutoff.Length == pp.Slots()
      && indicatorBit.Length == (pp.M() + 7) / 8
      && bvec.Length == svec.Length == pp.partNum
      && prfSelectVals.Length == 4 * pp.partNum
      && prfDummyIndices.Length == 8
      && hintId != selectCutoff && hintId != extraPart && hintId != extraOffset
      && selectCutoff != extraPart && selectCutoff != extraOffset && extraPart != extraOffset
      && Scratch() !! TableArrays() && svec != prfDummyIndices
    }

    ghost function TableArrays(): set<object> {
      {hintId as object, selectCutoff as object, extraPart as object, extraOffset as object, indicatorBit as object}
    }

    ghost function Scratch(): set<object> {
      {bvec as object, svec as object, prfSelectVals as object, prfDummyIndices as object}
    }

    /** Between two refills the buffer holds the block the counter is in. */
    ghost predicate DummiesLoaded()
      reads this`dummyIdxUsed, prfDummyIndices
    {
      && prfDummyIndices.Length == 8
      && (dummyIdxUsed % 8 != 0 ==>
          forall l :: 0 <= l < 8 ==> prfDummyIndices[l] == Lane16(f(0, dummyIdxUsed / 8 % 0x1_0000_0000, 0), l))
    }

    ghost predicate Ready()
      reads this`dummyIdxUsed, prfDummyIndices
    {
      pp.Valid() && Allocated() && DummiesLoaded()
    }

    /** The hint table the arrays hold. */
    ghost function TableNow(): Table
      reads this`ciParity, this`nextHintIndex, hintId, selectCutoff, extraPart, extraOffset, indicatorBit
    {
      Table(hintId[..], selectCutoff[..], extraPart[..], extraOffset[..], indicatorBit[..], ciParity, nextHintIndex)
    }

    /** The whole state the protocol is about. */
    ghost function Now(): Client
      reads this, hintId, selectCutoff, extraPart, extraOffset, indicatorBit
    {
      Client(TableNow(), dummyIdxUsed, encZeroCache, encZeroNext)
    }

    constructor (pp: Params, f: PrfFn)
      requires pp.Valid()
      ensures this.pp == pp && this.f == f && Ready()
      ensures dummyIdxUsed == 0 && encZeroCache == [] && encZeroNext == 0
      ensures fresh(TableArrays()) && fresh(Scratch())
    {
      this.pp, this.f := pp, f;
      hintId, extraPart, extraOffset := new nat[pp.M()], new nat[pp.M()], new nat[pp.M()];
      selectCutoff := new nat[pp.Slots()];
      indicatorBit := new bv8[(pp.M() + 7) / 8];
      bvec, svec := new bool[pp.partNum], new nat[pp.partNum];
      prfSelectVals := new Word32[4 * pp.partNum];
      prfDummyIndices := new nat[8];
      dummyIdxUsed, encZeroCache, encZeroNext := 0, [], 0;
      ciParity, nextHintIndex := [], 0;
    }

    // Online: the query.

    /** The next dummy index; a block serves eight of them. */
    method NextDummyIdx() returns (r: nat)
      requires Ready()
      modifies this`dummyIdxUsed, prfDummyIndices
      ensures Ready()
      ensures r == DummyIdx(f, old(dummyIdxUsed)) && dummyIdxUsed == old(dummyIdxUsed) + 1
    {
      if dummyIdxUsed % 8 == 0 {
        var block := f(0, dummyIdxUsed / 8 % 0x1_0000_0000, 0);
        for l := 0 to 8
          invariant dummyIdxUsed == old(dummyIdxUsed)
          invariant forall m :: 0 <= m < l ==> prfDummyIndices[m] == Lane16(block, m)
        {
          prfDummyIndices[l] := Lane16(block, l);
        }
      }
      r := prfDummyIndices[dummyIdxUsed % 8];
      dummyIdxUsed := dummyIdxUsed + 1;
    }

    /** find_hint: scan the slots in order, and report the indicator with the slot. */
    method FindHint(part: nat, offset: nat) returns (h: nat, bIndicator: bool)
      requires Ready() && TableNow().Shape(pp) && offset < pp.partSize
      ensures h == Hints.FindHint(pp, f, TableNow(), part, offset, 0)
      ensures h < pp.M() ==> bIndicator == TableNow().Ind(h)
    {
      bIndicator := false;
      ghost var t := TableNow();
      for hintIndex := 0 to pp.M()
        invariant Hints.FindHint(pp, f, t, part, offset, 0) == Hints.FindHint(pp, f, t, part, offset, hintIndex)
      {
        if selectCutoff[hintIndex] != 0 {
          bIndicator := Bit(indicatorBit[hintIndex / 8], hintIndex % 8);
          if extraPart[hintIndex] == part && extraOffset[hintIndex] == offset {
            return hintIndex, bIndicator;
          }
          var r := Prf4Idx(f, hintId[hintIndex], part);
          if r % pp.partSize == offset {
            var b := Prf4Select(f, hintId[hintIndex], part, selectCutoff[hintIndex]);
            if b == bIndicator {
              return hintIndex, bIndicator;
            }
          }
        }
      }
      return pp.M() + 1, bIndicator;
    }

    /** One turn of the query loop: partition k's selector bit and offset. */
    method QueryEntry(h: nat, part: nat, bIndicator: bool, shouldFlip: bool, k: nat, ghost c: nat)
      returns (bit: bool, offset: nat)
      requires Ready() && TableNow().Shape(pp) && h < pp.M() && bIndicator == TableNow().Ind(h)
      requires dummyIdxUsed == c + DummiesBefore(f, TableNow(), h, part, k)
      modifies this`dummyIdxUsed, prfDummyIndices
      ensures Ready() && TableNow() == old(TableNow())
      ensures bit == (QueryBit(f, TableNow(), h, part, k) != shouldFlip)
      ensures offset == QueryOffset(f, pp.partSize, TableNow(), h, part, c, k)
      ensures dummyIdxUsed == c + DummiesBefore(f, TableNow(), h, part, k + 1)
    {
      if k == part {
        var r := NextDummyIdx();
        return (!bIndicator) != shouldFlip, r % pp.partSize;
      } else if extraPart[h] == k {
        return bIndicator != shouldFlip, extraOffset[h];
      } else {
        var b := Prf4Select(f, hintId[h], k, selectCutoff[h]);
        if b == bIndicator {
          return b != shouldFlip, Prf4Idx(f, hintId[h], k) % pp.partSize;
        } else {
          var r := NextDummyIdx();
          return b != shouldFlip, r % pp.partSize;
        }
      }
    }

    /** The query loop over all partitions. */
    method BuildQuery(h: nat, part: nat, bIndicator: bool, shouldFlip: bool)
      requires Ready() && TableNow().Shape(pp) && h < pp.M() && bIndicator == TableNow().Ind(h)
      modifies this`dummyIdxUsed, prfDummyIndices, bvec, svec
      ensures Ready() && TableNow() == old(TableNow())
      ensures bvec[..] == QueryBits(pp, f, TableNow(), h, part, shouldFlip)
      ensures svec[..] == QueryOffsets(pp, f, TableNow(), h, part, old(dummyIdxUsed))
      ensures dummyIdxUsed == old(dummyIdxUsed) + DummiesBefore(f, TableNow(), h, part, pp.partNum)
      ensures DummiesInOrder(f, pp.partSize, bvec[..], svec[..], bIndicator != shouldFlip, old(dummyIdxUsed))
      ensures dummyIdxUsed == old(dummyIdxUsed) + CountTrue(DummyMarks(bvec[..], bIndicator != shouldFlip))
    {
      hide QueryBit, QueryOffset, DummiesInOrder, DummyMarks, CountTrue;
      ghost var t, c := TableNow(), dummyIdxUsed;
      for k := 0 to pp.partNum
        invariant Ready() && TableNow() == t
        invariant dummyIdxUsed == c + DummiesBefore(f, t, h, part, k)
        invariant forall j :: 0 <= j < k ==> bvec[j] == (QueryBit(f, t, h, part, j) != shouldFlip)
        invariant forall j :: 0 <= j < k ==> svec[j] == QueryOffset(f, pp.partSize, t, h, part, c, j)
      {
        bvec[k], svec[k] := QueryEntry(h, part, bIndicator, shouldFlip, k, c);
      }
      DummyOffsets(pp, f, t, h, part, c, shouldFlip);
    }

    // Online: encryptions of zero, refresh, and the whole iteration.

    /** precomputeEncZeros: a new cache of count encryptions of the zero plaintext,
        each good for one query; the table is untouched. */
    method PrecomputeEncZeros(count: nat, encrypt: Encryption, ghost w: World)
      requires w.Valid() && w.pp == pp && Encrypts(pp, w.sk, encrypt, w.encBound)
      modifies this`encZeroCache, this`encZeroNext
      ensures |encZeroCache| == count && encZeroNext == 0
      ensures forall z :: 0 <= z < count ==> w.Holds(encZeroCache[z], 0, w.encBound)
      ensures old(TableOk(w, TableNow())) ==> ClientOk(w, Now())
    {
      hide EncodesWithin, TableOk;
      encZeroCache := [];
      encZeroNext := 0;
      var zeroVec := Zeros(pp);
      for i := 0 to count
        invariant |encZeroCache| == i && encZeroNext == 0 && TableNow() == old(TableNow())
        invariant forall z :: 0 <= z < i ==> w.Holds(encZeroCache[z], 0, w.encBound)
      {
        EncryptedZero(w, encrypt, i);
        encZeroCache := encZeroCache + [encrypt(i, zeroVec)];
      }
    }

    /** getNextEncZero: each cached encryption is handed out once; None stands for
        the exception. */
    method GetNextEncZero() returns (zero: Option<Cipher>)
      requires encZeroNext <= |encZeroCache|
      modifies this`encZeroNext
      ensures zero.None? <==> old(encZeroNext) == |encZeroCache|
      ensures zero.None? ==> encZeroNext == old(encZeroNext)
      ensures zero.Some? ==> zero.value == encZeroCache[old(encZeroNext)]
      ensures zero.Some? ==> encZeroNext == old(encZeroNext) + 1 <= |encZeroCache|
    {
      if |encZeroCache| == 0 {
        return None;
      }
      if encZeroNext >= |encZeroCache| {
        return None;
      }
      zero := Some(encZeroCache[encZeroNext]);
      encZeroNext := encZeroNext + 1;
    }

    /** Skip invalid backups.  The program's loop has no bound; where it would pass
        the last written cutoff, this one stops. */
    method SkipInvalid()
      requires Ready() && TableNow().Shape(pp) && nextHintIndex <= pp.BackupsEnd()
      modifies this`nextHintIndex
      ensures nextHintIndex == NextValid(pp, selectCutoff[..], old(nextHintIndex))
    {
      while nextHintIndex < pp.BackupsEnd() && selectCutoff[nextHintIndex] == 0
        invariant nextHintIndex <= pp.BackupsEnd()
        invariant NextValid(pp, selectCutoff[..], old(nextHintIndex)) == NextValid(pp, selectCutoff[..], nextHintIndex)
      {
        nextHintIndex := nextHintIndex + 1;
      }
    }

    /** Overwrite slot h in the arrays. */
    method WriteSlot(h: nat, id: nat, cutoff: nat, part: nat, offset: nat, indicator: bool)
      requires Ready() && TableNow().Shape(pp) && h < pp.M()
      modifies TableArrays()
      ensures Ready()
      ensures hintId[..] == old(hintId[..])[h := id] && selectCutoff[..] == old(selectCutoff[..])[h := cutoff]
      ensures extraPart[..] == old(extraPart[..])[h := part] && extraOffset[..] == old(extraOffset[..])[h := offset]
      ensures indicatorBit[..] == old(indicatorBit[..])[h / 8 := SetBit(old(indicatorBit[h / 8]), h % 8, indicator)]
      ensures unchanged(this)
    {
      hide SetBit;
      hintId[h] := id;
      selectCutoff[h] := cutoff;
      extraPart[h] := part;
      extraOffset[h] := offset;
      indicatorBit[h / 8] := SetBit(indicatorBit[h / 8], h % 8, indicator);
    }

    /** Algorithm 5: slot h becomes the side of the next backup that excludes the
        queried partition, with the decoded entry as its extra one. */
    method ReplenishSlot(h: nat, part: nat, offset: nat, value: nat)
      requires Ready() && TableNow().Shape(pp) && h < pp.M() <= nextHintIndex < pp.BackupsEnd()
      requires forall side: bool :: pp.partSize <= |BackupParity(pp, TableNow(), nextHintIndex, side).c0|
      modifies this`ciParity, this`nextHintIndex, TableArrays()
      ensures unchanged(`dummyIdxUsed, `encZeroCache, `encZeroNext)
      ensures Ready() && TableNow() == Replenish(pp, f, old(TableNow()), h, old(nextHintIndex), part, offset, value)
    {
      hide AddPlain, Prf4Select, SetBit, Bit;
      ghost var t := TableNow();
      var nextIdx := nextHintIndex;
      var newIndicator := !Prf4Select(f, nextIdx, part, selectCutoff[nextIdx]);
      WriteSlot(h, nextIdx, selectCutoff[nextIdx], part, offset, newIndicator);
      SetBitExact(t.indicator[h / 8], h % 8, newIndicator, h % 8);
      var parityI := nextIdx + (if Bit(indicatorBit[h / 8], h % 8) then pp.Pairs() else 0);
      assert BackupParity(pp, t, nextIdx, newIndicator) == ciParity[parityI];
      ciParity := ciParity[h := AddPlain(ciParity[parityI], pp.partSize - 1, value, pp.p, pp.q)];
      nextHintIndex := nextIdx + 1;
    }

    /** The refresh part of an iteration; no backup is left when the result is the
        end of the backups. */
    method RefreshSlot(h: nat, part: nat, offset: nat, value: nat, ghost w: World) returns (backup: nat)
      requires Ready() && w.Valid() && w.pp == pp && w.f == f && TableOk(w, TableNow()) && h < pp.M()
      modifies this`ciParity, this`nextHintIndex, TableArrays()
      ensures unchanged(`dummyIdxUsed, `encZeroCache, `encZeroNext)
      ensures Ready() && TableNow() == RefreshWith(w, old(TableNow()), h, part, offset, value)
      ensures backup == NextValid(pp, old(selectCutoff[..]), old(nextHintIndex))
      ensures backup < pp.BackupsEnd() ==> nextHintIndex == backup + 1
    {
      SkipInvalid();
      backup := nextHintIndex;
      if backup == pp.BackupsEnd() {
        return;
      }
      forall side: bool
        ensures pp.partSize <= |BackupParity(pp, TableNow(), nextHintIndex, side).c0|
      {
        BackupUsable(w, old(TableNow()), nextHintIndex, side);
      }
      ReplenishSlot(h, part, offset, value);
    }

    /** Send the query and receive, by oblivious transfer, the answer of the group
        that holds the hint's entries. */
    method ReceiveAnswer(query: Cipher, bIndicator: bool, r: Request, server: OneSVServer, ghost w: World)
      returns (answer: U64)
      requires server.Serves(w) && w.pp == pp && query.Valid(pp.n, pp.q)
      requires bvec.Length == svec.Length == pp.partNum
      requires forall k :: 0 <= k < pp.partNum ==> svec[k] < pp.partSize
      ensures answer == Answer(w, bvec[..], svec[..], query, bIndicator != r.flip, r.noise)
    {
      hide Answer, Layout;
      assert forall k :: 0 <= k < pp.partNum ==> svec[..][k] == svec[k] < pp.partSize <= 0x8000;
      var words: seq<Word32> := svec[..];
      var single := Codec.BatchQuery(bvec[..], words, server.wire.save(query));
      var payload := Codec.SendBatchQueries([single], pp.partNum);
      var b0, b1 := server.AnswerPayload(payload, r.noise, w, single, query);
      var resultBit := if (!bIndicator) != r.flip then 0 else 1;
      answer := if resultBit == 0 then b0 else b1;
    }

    /** From a built query to the decoded value: the masked parity is sent, and the
        selected answer unmasked and rounded. */
    method Ask(h: nat, part: nat, bIndicator: bool, zero: Cipher, r: Request, server: OneSVServer, ghost w: World,
               ghost c: nat)
      returns (value: nat)
      requires Ready() && w.Valid() && w.pp == pp && w.f == f && RequestOk(w, r) && server.Serves(w)
      requires TableNow().Shape(pp) && h < pp.M() && part < pp.partNum
      requires SlotOk(w, TableNow(), h) && TableNow().cutoff[h] != 0 && bIndicator == TableNow().Ind(h)
      requires zero.Valid(pp.n, pp.q)
      requires bvec[..] == QueryBits(pp, f, TableNow(), h, part, r.flip)
      requires svec[..] == QueryOffsets(pp, f, TableNow(), h, part, c)
      ensures value == Decoded(w, TableNow(), h, part, c, zero, r)
    {
      SlotHolds(w, TableNow(), h);
      OffsetsInRange(w, TableNow(), h, part, c);
      MaskedValid(w, ciParity[h], zero, r.mask);
      hide EncodesWithin, QueryBits, QueryOffsets, Phase, Answer, Layout, QueryBit, DummiesBefore, Bit, Decode;
      assert forall k :: 0 <= k < pp.partNum ==> svec[k] == svec[..][k];
      var query := Masked(pp, ciParity[h], zero, r.mask);
      var answer := ReceiveAnswer(query, bIndicator, r, server, w);
      value := DecodeAnswer(pp, answer, r.mask);
    }

    /** The rest of an iteration, once the query is built and an encryption of zero
        is taken: s is the state the iteration began with. */
    method AnswerAndRefresh(h: nat, bIndicator: bool, zeroUsed: nat, r: Request, server: OneSVServer, ghost w: World,
                            ghost s: Client) returns (o: Outcome)
      requires Ready() && w.Valid() && w.pp == pp && w.f == f && ClientOk(w, s) && RequestOk(w, r)
      requires server.Serves(w) && server.db !in TableArrays()
      requires h == Hints.FindHint(pp, f, s.table, PartOf(pp, r.query), OffsetOf(pp, r.query), 0) < pp.M()
      requires TableNow() == s.table && bIndicator == s.table.Ind(h)
      requires encZeroCache == s.zeros && zeroUsed == s.zeroNext < |s.zeros| && encZeroNext == s.zeroNext + 1
      requires dummyIdxUsed == s.dummyUsed + DummiesUsed(w, s.table, h, PartOf(pp, r.query))
      requires bvec[..] == QueryBits(pp, f, s.table, h, PartOf(pp, r.query), r.flip)
      requires svec[..] == QueryOffsets(pp, f, s.table, h, PartOf(pp, r.query), s.dummyUsed)
      modifies this`ciParity, this`nextHintIndex, TableArrays()
      ensures Ready() && (Now(), o) == Step(w, s, r)
      ensures server.Serves(w)
    {
      hide EncodesWithin, QueryBits, QueryOffsets, Decoded, RefreshWith, Bit;
      hide Layout, DummiesBefore, PartOf, OffsetOf, Step;
      assert SlotOk(w, s.table, h);
      assert w.Holds(s.zeros[zeroUsed], 0, w.encBound);
      var value := Ask(h, PartOf(pp, r.query), bIndicator, encZeroCache[zeroUsed], r, server, w, s.dummyUsed);
      var backup := RefreshSlot(h, PartOf(pp, r.query), OffsetOf(pp, r.query), value, w);
      StepParts(w, s, r, h, value, TableNow());
      if backup == pp.BackupsEnd() {
        o := NoBackupLeft;
      } else {
        o := if nextHintIndex < pp.BackupsEnd() then Answered(value, h, backup, zeroUsed) else AssertionFailed;
      }
      assert Now() == Step(w, s, r).0;
      assert o == Step(w, s, r).1;
    }

    /** One iteration of the online loop. */
    method Online(r: Request, server: OneSVServer, ghost w: World) returns (o: Outcome)
      requires Ready() && w.Valid() && w.pp == pp && w.f == f && ClientOk(w, Now()) && RequestOk(w, r)
      requires server.Serves(w) && server.db !in TableArrays() + Scratch()
      modifies this, TableArrays(), Scratch()
      ensures Ready() && (Now(), o) == Step(w, old(Now()), r)
      ensures server.Serves(w)
    {
      hide EncodesWithin, QueryBits, QueryOffsets, Decoded, RefreshWith, Bit;
      hide Layout, DummiesBefore, PartOf, OffsetOf, Step;
      ghost var s := Now();
      var h, bIndicator := FindHint(PartOf(pp, r.query), OffsetOf(pp, r.query));
      StepEarly(w, s, r, h);
      if h >= pp.M() {
        return NoHint;
      }
      BuildQuery(h, PartOf(pp, r.query), bIndicator, r.flip);
      var zeroUsed := encZeroNext;
      var zero := GetNextEncZero();
      if zero.None? {
        assert Now() == Step(w, s, r).0;
        return ZerosExhausted;
      }
      o := AnswerAndRefresh(h, bIndicator, zeroUsed, r, server, w, s);
    }

    /** The online loop: a query without a hint is skipped, and an exception or a
        failed assertion ends the run. */
    method RunOnline(rs: seq<Request>, server: OneSVServer, ghost w: World) returns (os: seq<Outcome>)
      requires Ready() && w.Valid() && w.pp == pp && w.f == f && Budget(w) && ClientOk(w, Now()) && RequestsOk(w, rs)
      requires server.Serves(w) && server.db !in TableArrays() + Scratch()
      modifies this, TableArrays(), Scratch()
      ensures Ready() && (Now(), os) == Run(w, old(Now()), rs)
    {
      hide Step, Run, EncodesWithin, ClientOk, RequestOk;
      ghost var whole := Run(w, Now(), rs);
      os := [];
      assert rs[0..] == rs && os + whole.1 == whole.1;
      for i := 0 to |rs|
        invariant Ready() && server.Serves(w) && ClientOk(w, Now()) && RequestsOk(w, rs[i..])
        invariant whole == (Run(w, Now(), rs[i..]).0, os + Run(w, Now(), rs[i..]).1)
      {
        ghost var s, left := Now(), rs[i..];
        assert left[0] == rs[i] && left[1..] == rs[i + 1..];
        var o := Online(rs[i], server, w);
        RunUnfolds(w, s, left, Now(), o);
        if o.Stops() {
          return os + [o];
        }
        assert (os + [o]) + Run(w, Now(), rs[i + 1..]).1 == os + ([o] + Run(w, Now(), rs[i + 1..]).1);
        os := os + [o];
      }
      assert rs[|rs|..] == [];
      RunNothing(w, Now());
      assert os + [] == os;
    }

    // Offline.

    /** The select values of four consecutive hints, one lane each: a block per
        partition serves all four. */
    method FillSelectVals(block: nat)
      requires Ready()
      modifies prfSelectVals
      ensures forall l :: 0 <= l < 4 ==> LaneLoaded(prfSelectVals[..], f, pp.partNum, block, l)
    {
      var n := pp.partNum;
      for k := 0 to n
        invariant forall l, j :: 0 <= l < 4 && 0 <= j < k ==>
          prfSelectVals[LaneStart(n, l) + j] == Lane32(f(block, j, 1), l)
      {
        var prfOut := f(block, k, 1);
        for l := 0 to 4
          invariant forall m, j :: 0 <= m < 4 && 0 <= j < k ==>
            prfSelectVals[LaneStart(n, m) + j] == Lane32(f(block, j, 1), m)
          invariant forall m :: 0 <= m < l ==> prfSelectVals[LaneStart(n, m) + k] == Lane32(prfOut, m)
        {
          prfSelectVals[LaneStart(n, l) + k] := Lane32(prfOut, l);
        }
      }
      forall l | 0 <= l < 4
        ensures LaneLoaded(prfSelectVals[..], f, n, block, l)
      {
        LaneIsSelectValues(prfSelectVals[..], f, n, block, l);
      }
    }

    /** Hint hintI's cutoff, from its lane, which is used up. */
    method CutoffOfLane(hintI: nat) returns (cutoff: Word32)
      requires Ready()
      requires forall l :: hintI % 4 <= l < 4 ==> LaneLoaded(prfSelectVals[..], f, pp.partNum, hintI / 4, l)
      modifies prfSelectVals
      ensures cutoff == HintCutoff(pp, f, hintI)
      ensures forall l :: hintI % 4 < l < 4 ==> LaneLoaded(prfSelectVals[..], f, pp.partNum, hintI / 4, l)
    {
      ghost var before := prfSelectVals[..];
      assert LaneLoaded(before, f, pp.partNum, hintI / 4, hintI % 4);
      assert hintI == 4 * (hintI / 4) + hintI % 4;
      cutoff := FindCutoff(prfSelectVals, LaneStart(pp.partNum, hintI % 4), pp.partNum);
      OtherLanesKept(before, prfSelectVals[..], f, pp.partNum, hintI / 4, hintI % 4);
    }

    /** The first loop of Offline: every hint's and every backup's cutoff. */
    method ComputeCutoffs()
      requires Ready() && TableNow().Shape(pp)
      modifies selectCutoff, prfSelectVals
      ensures Ready() && TableNow() == old(TableNow()).(cutoff := selectCutoff[..])
      ensures CutoffsDone(pp, f, TableNow())
    {
      hide HintCutoff, LaneLoaded;
      ghost var t := TableNow();
      for hintI := 0 to pp.BackupsEnd()
        invariant Ready() && TableNow() == t.(cutoff := selectCutoff[..])
        invariant forall i :: 0 <= i < hintI ==> selectCutoff[i] == HintCutoff(pp, f, i)
        invariant hintI % 4 != 0 ==>
          forall l :: hintI % 4 <= l < 4 ==> LaneLoaded(prfSelectVals[..], f, pp.partNum, hintI / 4, l)
      {
        if hintI % 4 == 0 {
          FillSelectVals(hintI / 4);
        }
        var cutoff := CutoffOfLane(hintI);
        ghost var vals := prfSelectVals[..];
        selectCutoff[hintI] := cutoff;
        assert prfSelectVals[..] == vals;
        assert (hintI + 1) % 4 != 0 ==> (hintI + 1) / 4 == hintI / 4 && (hintI + 1) % 4 == hintI % 4 + 1;
      }
    }

    /** Draw dummy indices until one names a partition hint i does not select. */
    method DrawExtraPart(i: nat) returns (part: nat)
      requires Ready() && TableNow().Shape(pp) && i < pp.M() && Offers(pp, f, i, selectCutoff[i], dummyIdxUsed)
      modifies this`dummyIdxUsed, prfDummyIndices
      ensures Ready() && old(dummyIdxUsed) < dummyIdxUsed
      ensures FirstUnselected(pp, f, i, selectCutoff[i], old(dummyIdxUsed), dummyIdxUsed - 1)
      ensures part == DummyIdx(f, dummyIdxUsed - 1) % pp.partNum
    {
      hide Prf4Select, DummyIdx, Bit;
      ghost var c, cutoff := dummyIdxUsed, selectCutoff[i];
      ghost var d :| c <= d && !Prf4Select(f, i, DummyIdx(f, d) % pp.partNum, cutoff);
      var b := true;
      part := 0;
      while b
        invariant Ready() && selectCutoff[i] == cutoff
        invariant b ==> c <= dummyIdxUsed <= d
        invariant b ==> forall e :: c <= e < dummyIdxUsed ==> Prf4Select(f, i, DummyIdx(f, e) % pp.partNum, cutoff)
        invariant !b ==> c < dummyIdxUsed && FirstUnselected(pp, f, i, cutoff, c, dummyIdxUsed - 1)
        invariant !b ==> part == DummyIdx(f, dummyIdxUsed - 1) % pp.partNum
        decreases if b then d + 1 - dummyIdxUsed else 0
      {
        var dummy := NextDummyIdx();
        part := dummy % pp.partNum;
        b := Prf4Select(f, i, part, selectCutoff[i]);
      }
    }

    /** The second loop of Offline: every hint's id and extra entry. */
    method DrawExtras() returns (ghost draws: seq<nat>)
      requires Ready() && TableNow().Shape(pp) && CutoffsDone(pp, f, TableNow()) && Fair(pp, f)
      modifies this`dummyIdxUsed, prfDummyIndices, hintId, extraPart, extraOffset
      ensures Ready() && ExtrasDone(pp, f, TableNow(), draws, pp.M())
      ensures TableNow()
           == old(TableNow()).(hintId := hintId[..], extraPart := extraPart[..], extraOffset := extraOffset[..])
      ensures forall i :: 0 <= i < pp.M() ==> extraOffset[i] < pp.partSize
      ensures draws[0] == old(dummyIdxUsed) && draws[pp.M()] == dummyIdxUsed
    {
      hide HintCutoff, ExtraDrawn, Offers, Bit;
      ghost var t := TableNow();
      draws := [dummyIdxUsed];
      for i := 0 to pp.M()
        invariant Ready()
        invariant TableNow() == t.(hintId := hintId[..], extraPart := extraPart[..], extraOffset := extraOffset[..])
        invariant ExtrasDone(pp, f, TableNow(), draws, i)
        invariant draws[0] == old(dummyIdxUsed) && draws[i] == dummyIdxUsed
        invariant forall j :: 0 <= j < i ==> extraOffset[j] < pp.partSize
      {
        ghost var before := TableNow();
        hintId[i] := i;
        assert selectCutoff[i] == HintCutoff(pp, f, i);
        extraPart[i], extraOffset[i] := DrawExtra(i);
        ExtraRecorded(pp, f, before, TableNow(), draws, i, dummyIdxUsed);
        draws := draws + [dummyIdxUsed];
      }
    }

    /** Hint i's extra entry. */
    method DrawExtra(i: nat) returns (part: nat, offset: nat)
      requires Ready() && TableNow().Shape(pp) && i < pp.M() && Offers(pp, f, i, selectCutoff[i], dummyIdxUsed)
      modifies this`dummyIdxUsed, prfDummyIndices
      ensures Ready() && TableNow() == old(TableNow()) && offset < pp.partSize
      ensures ExtraDrawn(pp, f, i, selectCutoff[i], part, offset, old(dummyIdxUsed), dummyIdxUsed)
    {
      hide Prf4Select, DummyIdx, Bit;
      part := DrawExtraPart(i);
      var dummy := NextDummyIdx();
      offset := dummy % pp.partSize;
    }

    /** The program's accumulation of one partition into one hint's parity, or into
        one side of a backup pair. */
    method UpdateHint(part: nat, hintI: nat, b: bool, r: nat, temp: Cipher, ghost w: World)
      requires Ready() && w.Valid() && w.pp == pp && TableNow().Shape(pp) && OffsetsOk(w, TableNow())
      requires ParitiesValid(w, TableNow())
      requires part < pp.partNum && hintI < pp.BackupsEnd() && r < pp.partSize && temp == w.encDB[part]
      modifies this`ciParity
      ensures ciParity == HintUpdate(w, old(TableNow()), part, hintI, b, r)
    {
      ghost var t := TableNow();
      assert w.PartitionOk(part);
      hide Add, Shift, EncodesWithin;
      if hintI < pp.M() {
        if b {
          var shifted := ShiftCipher(temp, pp.partSize - r - 1, pp.q);
          ciParity := ciParity[hintI := AddCipher(ciParity[hintI], shifted, pp.q)];
        } else if extraPart[hintI] == part {
          var shifted := ShiftCipher(temp, pp.partSize - extraOffset[hintI] - 1, pp.q);
          ciParity := ciParity[hintI := AddCipher(ciParity[hintI], shifted, pp.q)];
        }
      } else {
        var dst := hintI + (if b then pp.Pairs() else 0);
        var shifted := ShiftCipher(temp, pp.partSize - r - 1, pp.q);
        ciParity := ciParity[dst := AddCipher(ciParity[dst], shifted, pp.q)];
      }
    }

    /** The inner loop of Algorithm 4: one partition through all hints; a select
        block serves four hints and an index block eight. */
    method StreamPartition(part: nat, temp: Cipher, ghost w: World, ghost zeros: seq<Cipher>)
      requires Ready() && w.Valid() && w.pp == pp && w.f == f && ZerosOk(w, zeros)
      requires TableNow().Shape(pp) && OffsetsOk(w, TableNow()) && ParitiesValid(w, TableNow())
      requires part < pp.partNum && temp == w.encDB[part] && Streamed(w, TableNow(), zeros, part, 0)
      modifies this`ciParity
      ensures TableNow() == old(TableNow()).(parity := ciParity) && TableNow().Shape(pp)
      ensures ParitiesValid(w, TableNow()) && Streamed(w, TableNow(), zeros, part + 1, 0)
    {
      hide Streamed, HintUpdate, EncodesWithin, Bit;
      ghost var t := TableNow();
      var selectBlock, indexBlock := f(0, part, 1), f(0, part, 2);
      for hintI := 0 to pp.BackupsEnd()
        invariant TableNow() == t.(parity := ciParity) && TableNow().Shape(pp)
        invariant ParitiesValid(w, TableNow()) && Streamed(w, TableNow(), zeros, part, hintI)
        invariant hintI % 4 != 0 ==> selectBlock == f(hintI / 4, part, 1)
        invariant hintI % 8 != 0 ==> indexBlock == f(hintI / 8, part, 2)
      {
        if hintI % 4 == 0 {
          selectBlock := f(hintI / 4, part, 1);
        }
        if hintI % 8 == 0 {
          indexBlock := f(hintI / 8, part, 2);
        }
        var b := Lane32(selectBlock, hintI % 4) < selectCutoff[hintI];
        var r := Lane16(indexBlock, hintI % 8) % pp.partSize;
        ghost var before := TableNow();
        UpdateHint(part, hintI, b, r, temp, w);
        assert b == Prf4Select(w.f, hintI, part, before.cutoff[hintI]) && r == Offset(w, hintI, part);
        StreamedTurn(w, before, TableNow(), zeros, part, hintI);
        BlocksServe(hintI);
      }
      StreamedNext(w, TableNow(), zeros, part);
    }

    /** Algorithm 4: the encrypted database, one partition at a time. */
    method StreamParities(server: OneSVServer, ghost w: World, ghost zeros: seq<Cipher>)
      requires Ready() && w.Valid() && w.pp == pp && w.f == f && ZerosOk(w, zeros) && server.encryptedDb == w.encDB
      requires TableNow().Shape(pp) && OffsetsOk(w, TableNow()) && ciParity == zeros
      modifies this`ciParity
      ensures TableNow() == old(TableNow()).(parity := ciParity) && TableNow().Shape(pp)
      ensures Streamed(w, TableNow(), zeros, pp.partNum, 0)
    {
      hide Streamed, EncodesWithin, Bit;
      ghost var t := TableNow();
      StreamedStart(w, t, zeros);
      for part := 0 to pp.partNum
        invariant TableNow() == t.(parity := ciParity) && TableNow().Shape(pp)
        invariant ParitiesValid(w, TableNow()) && Streamed(w, TableNow(), zeros, part, 0)
      {
        StreamPartition(part, server.encryptedDb[part], w, zeros);
      }
    }

    /** Set every indicator bit. */
    method SetAllIndicators()
      requires Ready() && TableNow().Shape(pp)
      modifies indicatorBit
      ensures Ready() && TableNow() == old(TableNow()).(indicator := indicatorBit[..])
      ensures forall i :: 0 <= i < pp.M() ==> TableNow().Ind(i)
    {
      hide Bit;
      ghost var t := TableNow();
      for i := 0 to indicatorBit.Length
        invariant Ready() && TableNow() == t.(indicator := indicatorBit[..])
        invariant forall j :: 0 <= j < i ==> indicatorBit[j] == 255
      {
        indicatorBit[i] := 255;
      }
      forall i | 0 <= i < pp.M()
        ensures TableNow().Ind(i)
      {
        assert TableNow().indicator[i / 8] == 255;
        AllOnes(i % 8);
      }
    }

    /** OneSVClient::Offline, from 2 * M encryptions of zero. */
    method Offline(server: OneSVServer, zeros: seq<Cipher>, ghost w: World) returns (ghost draws: seq<nat>)
      requires Ready() && w.Valid() && w.pp == pp && w.f == f && ZerosOk(w, zeros) && server.encryptedDb == w.encDB
      requires Fair(pp, f)
      modifies this, TableArrays(), Scratch()
      ensures Ready() && OfflineDone(w, TableNow(), zeros, draws)
      ensures draws[0] == old(dummyIdxUsed) && draws[pp.M()] == dummyIdxUsed
      ensures TableOk(w, TableNow())
      ensures encZeroCache == old(encZeroCache) && encZeroNext == old(encZeroNext)
    {
      hide Streamed, EncodesWithin, Bit, HintCutoff, Fair, ExtrasDone, OfflineDone;
      ciParity := zeros;
      SetAllIndicators();
      ghost var marked := TableNow();
      ComputeCutoffs();
      draws := DrawExtras();
      ghost var drawn := TableNow();
      StreamParities(server, w, zeros);
      ghost var streamed := TableNow();
      nextHintIndex := pp.M();
      IndicatorsKept(pp, marked, TableNow());
      ExtrasKept(pp, f, drawn, TableNow(), draws);
      StreamedKept(w, streamed, TableNow(), zeros);
      PhasesDone(w, TableNow(), zeros, draws);
      OfflineEstablishes(w, TableNow(), zeros, draws);
    }
  }

  /** Take the mask off again on 64-bit words, then scale and round. */
  method DecodeAnswer(pp: Params, answer: U64, mask: U64) returns (value: nat)
    requires 0 < pp.p && answer < pp.q <= 0x4000_0000_0000_0000 && mask < pp.q
    ensures value == Decode(pp, answer, mask)
  {
    SmallMod(mask, pp.q);
    var unmasked: U64 := (answer + pp.q - mask % pp.q) % pp.q;
    CongIntro(answer + pp.q - mask, answer - mask, pp.q, 1);
    value := ScaleAndRound(unmasked, pp.p, pp.q);
  }

  /** Where lane l of the select value buffer starts: n * l. */
  function LaneStart(n: nat, l: nat): nat
    requires l < 4
  {
    if l == 0 then 0 else if l == 1 then n else if l == 2 then 2 * n else 3 * n
  }

  /** Lane l holds the select values of hint 4 * block + l. */
  ghost predicate LaneLoaded(vals: seq<Word32>, f: PrfFn, n: nat, block: nat, l: nat) {
    l < 4 && |vals| == 4 * n && vals[LaneStart(n, l)..LaneStart(n, l) + n] == SelectValues(f, 4 * block + l, n)
  }

  lemma LaneIsSelectValues(vals: seq<Word32>, f: PrfFn, n: nat, block: nat, l: nat)
    requires l < 4 && |vals| == 4 * n
    requires forall j :: 0 <= j < n ==> vals[LaneStart(n, l) + j] == Lane32(f(block, j, 1), l)
    ensures LaneLoaded(vals, f, n, block, l)
  {
    var lane := vals[LaneStart(n, l)..LaneStart(n, l) + n];
    forall j | 0 <= j < n
      ensures lane[j] == SelectValues(f, 4 * block + l, n)[j]
    {
      assert (4 * block + l) / 4 == block && (4 * block + l) % 4 == l;
    }
  }

  /** Using up one lane leaves the later ones loaded. */
  lemma OtherLanesKept(before: seq<Word32>, after: seq<Word32>, f: PrfFn, n: nat, block: nat, l: nat)
    requires l < 4 && |before| == |after| == 4 * n
    requires forall m :: l <= m < 4 ==> LaneLoaded(before, f, n, block, m)
    requires forall k :: 0 <= k < 4 * n && !(LaneStart(n, l) <= k < LaneStart(n, l) + n) ==> after[k] == before[k]
    ensures forall m :: l < m < 4 ==> LaneLoaded(after, f, n, block, m)
  {
    forall m | l < m < 4
      ensures LaneLoaded(after, f, n, block, m)
    {
      assert LaneLoaded(before, f, n, block, m);
      assert after[LaneStart(n, m)..LaneStart(n, m) + n] == before[LaneStart(n, m)..LaneStart(n, m) + n];
    }
  }

  /** Within a group of four (eight) hints the select (index) block stays. */
  lemma BlocksServe(h: nat)
    ensures (h + 1) % 4 != 0 ==> (h + 1) / 4 == h / 4
    ensures (h + 1) % 8 != 0 ==> (h + 1) / 8 == h / 8
  {
  }
}
