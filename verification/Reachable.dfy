/** Tables that Offline leaves behind on which the program's online loop leaves its
    defined behaviour (src/client_main.cpp). */
module Reachable {
  import opened Cutoff
  import opened Ring
  import opened Encoding
  import opened Prf
  import opened Bits
  import opened Hints
  import opened Query
  import opened Refresh
  import opened Offline
  import opened Answering
  import opened Protocol
  import opened Runs

  // One partition: no hint is ever valid.

  /** A database of one partition, after Offline: nothing is covered, yet the main
      loop's comparison does not skip the query. */
  lemma MainGuardMisses(w: World, t: Table, zeros: seq<Cipher>, draws: seq<nat>, query: nat)
    requires w.Valid() && ZerosOk(w, zeros) && OfflineDone(w, t, zeros, draws) && w.pp.partNum == 1
    ensures t.Shape(w.pp) && !Covered(w, t, query)
    ensures !SkippedByMain(w.pp, FindHint(w.pp, w.f, t, PartOf(w.pp, query), OffsetOf(w.pp, query), 0))
  {
    hide ActiveParity, SideParity, EncodesWithin;
    forall i | 0 <= i < w.pp.M()
      ensures t.cutoff[i] == 0
    {
      assert SlotDone(w, i, t.hintId[i], t.cutoff[i], t.Ind(i), t.extraPart[i], t.extraOffset[i], t.parity[i], zeros[i],
                      draws[i], draws[i + 1]);
      assert HeavyTail(SelectValues(w.f, i, 1));
    }
    FindHintExact(w, t, query);
  }

  /** Offline gets through with one partition, whatever the pseudorandom function. */
  lemma SinglePartitionFair(pp: Params, f: PrfFn)
    requires pp.Valid() && pp.partNum == 1
    ensures Fair(pp, f)
  {
    assert DummyIdx(f, 0) % pp.partNum == 0;
    assert Named(pp, f, 0);
    FairWhenAllNamed(pp, f);
  }

  // Two partitions: valid hints, and no valid backup.

  const LOW: Block := [0, 0, 0, 128, 0, 0, 0, 128, 0, 0, 0, 128, 0, 0, 0, 128]
  const HIGH: Block := [1, 0, 0, 128, 1, 0, 0, 128, 1, 0, 0, 128, 1, 0, 0, 128]

  /** A pseudorandom function whose first four hints have a median and no other. */
  function Starved(a: nat, b: nat, c: nat): Block {
    if c == 0 || (c == 1 && a == 0 && b == 1) then HIGH else LOW
  }

  lemma StarvedValues(id: nat)
    ensures SelectValues(Starved, id, 2) == [0x8000_0000, if id < 4 then 0x8000_0001 else 0x8000_0000]
  {
  }

  lemma PairCount(a: Word32, b: Word32, lo: int, hi: int)
    ensures Count([a, b], lo, hi) == (if lo <= a < hi then 1 else 0) + (if lo <= b < hi then 1 else 0)
  {
    assert [a, b][..1] == [a] && [a][..0] == [];
    assert Count([a], lo, hi) == Count([], lo, hi) + (if lo <= a < hi then 1 else 0);
  }

  /** Two different values have the larger as their median; two equal ones none. */
  lemma PairCutoff(a: Word32, b: Word32)
    requires LOWER_FILTER <= a <= b <= UPPER_FILTER
    ensures CutoffOf([a, b]) == if a < b then b else 0
  {
    var vals := [a, b];
    forall lo, hi
      ensures Count(vals, lo, hi) == (if lo <= a < hi then 1 else 0) + (if lo <= b < hi then 1 else 0)
    {
      PairCount(a, b, lo, hi);
    }
    if a < b {
      assert IsMedian(vals, b);
      MedianRange(vals, CutoffOf(vals));
      MedianUnique(vals, b, CutoffOf(vals));
    }
  }

  lemma StarvedCutoff(pp: Params, id: nat)
    requires pp.partNum == 2
    ensures HintCutoff(pp, Starved, id) == if id < 4 then 0x8000_0001 else 0
  {
    StarvedValues(id);
    PairCutoff(0x8000_0000, if id < 4 then 0x8000_0001 else 0x8000_0000);
  }

  /** Offline gets through with this function: its dummy indices name both
      partitions. */
  lemma StarvedFair(pp: Params)
    requires pp.Valid() && pp.partNum == 2
    ensures Fair(pp, Starved)
  {
    assert DummyIdx(Starved, 0) == 1 && DummyIdx(Starved, 1) == 0x8000;
    assert DummyIdx(Starved, 1) % 2 == 0 && DummyIdx(Starved, 0) % 2 == 1;
    assert Named(pp, Starved, 0) && Named(pp, Starved, 1);
    FairWhenAllNamed(pp, Starved);
  }

  lemma {:induction false} NoneLeft(pp: Params, cutoff: seq<nat>, j: nat)
    requires |cutoff| == pp.Slots() && j <= pp.BackupsEnd()
    requires forall k :: j <= k < pp.BackupsEnd() ==> cutoff[k] == 0
    ensures ValidLeft(pp, cutoff, j) == 0
    decreases pp.BackupsEnd() - j
  {
    if j < pp.BackupsEnd() {
      NoneLeft(pp, cutoff, j + 1);
    }
  }

  lemma StarvedCovers(w: World, t: Table)
    requires w.Valid() && t.Shape(w.pp) && w.f == Starved && w.pp.partNum == 2 && w.pp.partSize in {2, 4}
    requires t.hintId[0] == 0 && t.cutoff[0] == 0x8000_0001 && t.Ind(0)
    ensures Covered(w, t, 0)
  {
    StarvedValues(0);
    assert SelectValues(Starved, 0, 2)[0] == SelectValue(Starved, 0, 0);
    hide SelectValue, Bit, Prf4Idx;
    assert PartOf(w.pp, 0) == 0 && OffsetOf(w.pp, 0) == 0;
    assert Covers(w.pp, w.f, t, 0, 0, 0);
  }

  /** The table Offline leaves with it covers index 0 and has no valid backup. */
  lemma StarvedTable(w: World, t: Table, zeros: seq<Cipher>, draws: seq<nat>)
    requires w.Valid() && ZerosOk(w, zeros) && OfflineDone(w, t, zeros, draws)
    requires w.f == Starved && w.pp.partNum == 2 && w.pp.partSize in {2, 4}
    ensures t.Shape(w.pp) && t.next == w.pp.M() && Covered(w, t, 0)
    ensures ValidLeft(w.pp, t.cutoff, t.next) == 0
  {
    hide ActiveParity, SideParity, EncodesWithin, HintCutoff;
    forall j | w.pp.M() <= j < w.pp.BackupsEnd()
      ensures t.cutoff[j] == 0
    {
      assert PairDone(w, j, t.cutoff[j], t.parity[j], t.parity[j + w.pp.Pairs()], zeros[j], zeros[j + w.pp.Pairs()]);
      StarvedCutoff(w.pp, j);
    }
    NoneLeft(w.pp, t.cutoff, t.next);
    assert SlotDone(w, 0, t.hintId[0], t.cutoff[0], t.Ind(0), t.extraPart[0], t.extraOffset[0], t.parity[0], zeros[0],
                    draws[0], draws[0 + 1]);
    StarvedCutoff(w.pp, 0);
    StarvedCovers(w, t);
  }

  /** So its first query for index 0 sends the skip loop past the written cutoffs. */
  lemma StarvedStep(w: World, s: Client, zeros: seq<Cipher>, draws: seq<nat>, r: Request)
    requires w.Valid() && ZerosOk(w, zeros) && ClientOk(w, s) && OfflineDone(w, s.table, zeros, draws)
    requires w.f == Starved && w.pp.partNum == 2 && w.pp.partSize in {2, 4}
    requires RequestOk(w, r) && r.query == 0 && s.zeroNext < |s.zeros|
    ensures Step(w, s, r).1 == NoBackupLeft
  {
    hide Step, OfflineDone, EncodesWithin;
    StarvedTable(w, s.table, zeros, draws);
    StepOutcome(w, s, r);
    SkipStaysInsideIff(w.pp, s.table.cutoff, s.table.next);
  }
}
