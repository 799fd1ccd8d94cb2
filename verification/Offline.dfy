/** What the offline phase leaves in every slot, hint by hint, and why that is a
    table of valid hints (OneSVClient::Offline in src/client.cpp). */
module Offline {
  import opened ModArith
  import opened Ring
  import opened Encoding
  import opened Prf
  import opened Bits
  import opened Hints
  import opened Query

  /** Add entry r of partition k, moved to the place answers are read from. */
  ghost function AddEntry(w: World, c: Cipher, k: nat, r: nat): (d: Cipher)
    requires w.Valid() && c.Valid(w.pp.n, w.pp.q) && k < w.pp.partNum && r < w.pp.partSize
    ensures d.Valid(w.pp.n, w.pp.q)
  {
    assert w.PartitionOk(k);
    PhaseAddShifted(c, w.encDB[k], w.sk, w.pp.q, w.pp.partSize, r);
    AddCipher(c, ShiftCipher(w.encDB[k], w.pp.partSize - r - 1, w.pp.q), w.pp.q)
  }

  /** The shift brings entry r to the last coefficient without a sign change, so
      the entry is added to the plaintext and one bound to the error. */
  lemma AddEntryHolds(w: World, c: Cipher, m: int, b: int, k: nat, r: nat)
    requires w.Valid() && w.Holds(c, m, b) && k < w.pp.partNum && r < w.pp.partSize
    ensures w.Holds(AddEntry(w, c, k, r), m + Entry(w, k, r), b + w.encBound)
  {
    hide EncodesWithin, Phase;
    assert w.PartitionOk(k);
    PhaseAddShifted(c, w.encDB[k], w.sk, w.pp.q, w.pp.partSize, r);
    assert w.Carries(w.encDB[k], r, w.rows[k][r], w.encBound);
    WithinSum(Phase(c, w.sk, w.pp.q)[w.pp.partSize - 1], m, b,
              Phase(w.encDB[k], w.sk, w.pp.q)[r], w.rows[k][r], w.encBound, w.pp.p, w.pp.q);
  }

  ghost function Offset(w: World, id: nat, k: nat): (r: nat)
    requires w.Valid()
    ensures r < w.pp.partSize
  {
    Prf4Idx(w.f, id, k) % w.pp.partSize
  }

  /** One side of a backup pair, k partitions into the stream. */
  ghost function SideParity(w: World, id: nat, cutoff: nat, side: bool, c: Cipher, k: nat): (d: Cipher)
    requires w.Valid() && c.Valid(w.pp.n, w.pp.q) && k <= w.pp.partNum
    ensures d.Valid(w.pp.n, w.pp.q)
  {
    if k == 0 then c
    else
      var before := SideParity(w, id, cutoff, side, c, k - 1);
      if Prf4Select(w.f, id, k - 1, cutoff) == side then AddEntry(w, before, k - 1, Offset(w, id, k - 1)) else before
  }

  /** An active hint, k partitions into the stream: its selected entries and its
      extra one. */
  ghost function ActiveParity(w: World, id: nat, cutoff: nat, part: nat, offset: nat, c: Cipher, k: nat): (d: Cipher)
    requires w.Valid() && c.Valid(w.pp.n, w.pp.q) && k <= w.pp.partNum && offset < w.pp.partSize
    ensures d.Valid(w.pp.n, w.pp.q)
  {
    if k == 0 then c
    else
      var before := ActiveParity(w, id, cutoff, part, offset, c, k - 1);
      if Prf4Select(w.f, id, k - 1, cutoff) then AddEntry(w, before, k - 1, Offset(w, id, k - 1))
      else if part == k - 1 then AddEntry(w, before, k - 1, offset)
      else before
  }

  /** How many of the first k partitions are on a side. */
  ghost function SideCount(f: PrfFn, id: nat, cutoff: nat, side: bool, k: nat): nat {
    if k == 0 then 0
    else SideCount(f, id, cutoff, side, k - 1) + (if Prf4Select(f, id, k - 1, cutoff) == side then 1 else 0)
  }

  lemma {:induction false} SideCounts(f: PrfFn, id: nat, cutoff: nat, k: nat)
    ensures SideCount(f, id, cutoff, true, k) == CountTrue(SelectBits(f, k, id, cutoff))
    ensures SideCount(f, id, cutoff, false, k) == k - CountTrue(SelectBits(f, k, id, cutoff))
  {
    if k == 0 {
    } else {
      SideCounts(f, id, cutoff, k - 1);
      assert SelectBits(f, k, id, cutoff)[..k - 1] == SelectBits(f, k - 1, id, cutoff);
    }
  }

  /** Either side of a valid hint has half the partitions. */
  lemma SidesAreHalves(pp: Params, f: PrfFn, id: nat, cutoff: nat, side: bool)
    requires pp.Valid() && cutoff == HintCutoff(pp, f, id) && cutoff != 0
    ensures SideCount(f, id, cutoff, side, pp.partNum) == Half(pp)
  {
    HalfSelected(pp, f, id, cutoff);
    SideCounts(f, id, cutoff, pp.partNum);
  }

  ghost function SideSumUpTo(w: World, id: nat, cutoff: nat, side: bool, k: nat): int
    requires w.Valid() && k <= w.pp.partNum
  {
    Sum(Terms(w, id, cutoff, side)[..k])
  }

  lemma SideSumEnds(w: World, id: nat, cutoff: nat, side: bool)
    requires w.Valid()
    ensures SideSumUpTo(w, id, cutoff, side, 0) == 0
    ensures SideSumUpTo(w, id, cutoff, side, w.pp.partNum) == SideSum(w, id, cutoff, side)
  {
    assert Terms(w, id, cutoff, side)[..w.pp.partNum] == Terms(w, id, cutoff, side);
  }

  lemma SideSumStep(w: World, id: nat, cutoff: nat, side: bool, k: nat)
    requires w.Valid() && 0 < k <= w.pp.partNum
    ensures SideSumUpTo(w, id, cutoff, side, k)
         == SideSumUpTo(w, id, cutoff, side, k - 1) + Term(w, id, cutoff, side, k - 1)
  {
    var terms := Terms(w, id, cutoff, side);
    assert terms[..k][..k - 1] == terms[..k - 1];
  }

  lemma SideStep(w: World, id: nat, cutoff: nat, side: bool, before: Cipher, k: nat, m: int, n: nat)
    returns (after: Cipher, m': int, n': nat)
    requires w.Valid() && k < w.pp.partNum && w.Holds(before, m, Times(n, w.encBound))
    ensures after == if Prf4Select(w.f, id, k, cutoff) == side then AddEntry(w, before, k, Offset(w, id, k)) else before
    ensures m' == m + Term(w, id, cutoff, side, k)
    ensures n' == n + (if Prf4Select(w.f, id, k, cutoff) == side then 1 else 0)
    ensures w.Holds(after, m', Times(n', w.encBound))
  {
    hide EncodesWithin, AddEntry, Phase;
    after, m', n' := before, m + Term(w, id, cutoff, side, k), n;
    if Prf4Select(w.f, id, k, cutoff) == side {
      after, n' := AddEntry(w, before, k, Offset(w, id, k)), n + 1;
      AddEntryHolds(w, before, m, Times(n, w.encBound), k, Offset(w, id, k));
    }
  }

  /** After k partitions a side holds their sum, with one bound per entry. */
  lemma {:induction false} SideParityHolds(w: World, id: nat, cutoff: nat, side: bool, c: Cipher, k: nat)
    requires w.Valid() && w.Holds(c, 0, w.encBound) && k <= w.pp.partNum
    ensures w.Holds(SideParity(w, id, cutoff, side, c, k), SideSumUpTo(w, id, cutoff, side, k),
                    Times(SideCount(w.f, id, cutoff, side, k) + 1, w.encBound))
  {
    hide EncodesWithin, AddEntry, Phase, SideSumUpTo, Term, Prf4Select;
    if k == 0 {
      SideSumEnds(w, id, cutoff, side);
      assert Times(1, w.encBound) == w.encBound;
    } else {
      SideParityHolds(w, id, cutoff, side, c, k - 1);
      SideSumStep(w, id, cutoff, side, k);
      var after, m, n := SideStep(w, id, cutoff, side, SideParity(w, id, cutoff, side, c, k - 1), k - 1,
                                  SideSumUpTo(w, id, cutoff, side, k - 1), SideCount(w.f, id, cutoff, side, k - 1) + 1);
      assert after == SideParity(w, id, cutoff, side, c, k) && m == SideSumUpTo(w, id, cutoff, side, k);
      assert n == SideCount(w.f, id, cutoff, side, k) + 1;
    }
  }

  ghost function ExtraUpTo(w: World, part: nat, offset: nat, k: nat): int
    requires w.Valid() && part < w.pp.partNum && offset < w.pp.partSize
  {
    if part < k then Entry(w, part, offset) else 0
  }

  /** How many entries an active hint has after k partitions. */
  ghost function ActiveCount(f: PrfFn, id: nat, cutoff: nat, part: nat, k: nat): nat {
    SideCount(f, id, cutoff, true, k) + (if part < k then 1 else 0)
  }

  lemma ActiveStep(w: World, id: nat, cutoff: nat, part: nat, offset: nat, before: Cipher, k: nat, m: int, n: nat)
    returns (after: Cipher, m': int, n': nat)
    requires w.Valid() && k < w.pp.partNum && w.Holds(before, m, Times(n, w.encBound))
    requires part < w.pp.partNum && offset < w.pp.partSize && !Prf4Select(w.f, id, part, cutoff)
    ensures after == if Prf4Select(w.f, id, k, cutoff) then AddEntry(w, before, k, Offset(w, id, k))
                     else if part == k then AddEntry(w, before, k, offset) else before
    ensures m' == m + Term(w, id, cutoff, true, k) + (if part == k then Entry(w, k, offset) else 0)
    ensures n' == n + (if Prf4Select(w.f, id, k, cutoff) || part == k then 1 else 0)
    ensures w.Holds(after, m', Times(n', w.encBound))
  {
    hide EncodesWithin, AddEntry, Phase;
    after, m', n' := SideStep(w, id, cutoff, true, before, k, m, n);
    if part == k {
      after, m', n' := AddEntry(w, before, k, offset), m + Entry(w, k, offset), n + 1;
      AddEntryHolds(w, before, m, Times(n, w.encBound), k, offset);
    }
  }

  /** After k partitions an active hint holds its selected entries so far and, once
      its partition has passed, the extra one. */
  lemma {:induction false} ActiveParityHolds(w: World, id: nat, cutoff: nat, part: nat, offset: nat, c: Cipher, k: nat)
    requires w.Valid() && w.Holds(c, 0, w.encBound) && k <= w.pp.partNum
    requires part < w.pp.partNum && offset < w.pp.partSize && !Prf4Select(w.f, id, part, cutoff)
    ensures w.Holds(ActiveParity(w, id, cutoff, part, offset, c, k),
                    SideSumUpTo(w, id, cutoff, true, k) + ExtraUpTo(w, part, offset, k),
                    Times(ActiveCount(w.f, id, cutoff, part, k) + 1, w.encBound))
  {
    hide EncodesWithin, AddEntry, Phase, SideSumUpTo, Term, Prf4Select, Entry;
    if k == 0 {
      SideSumEnds(w, id, cutoff, true);
      assert Times(1, w.encBound) == w.encBound;
    } else {
      ActiveParityHolds(w, id, cutoff, part, offset, c, k - 1);
      SideSumStep(w, id, cutoff, true, k);
      var after, m, n := ActiveStep(w, id, cutoff, part, offset,
                                    ActiveParity(w, id, cutoff, part, offset, c, k - 1), k - 1,
                                    SideSumUpTo(w, id, cutoff, true, k - 1) + ExtraUpTo(w, part, offset, k - 1),
                                    ActiveCount(w.f, id, cutoff, part, k - 1) + 1);
      assert after == ActiveParity(w, id, cutoff, part, offset, c, k);
      assert m == SideSumUpTo(w, id, cutoff, true, k) + ExtraUpTo(w, part, offset, k);
      assert n == ActiveCount(w.f, id, cutoff, part, k) + 1;
    }
  }

  // The whole table.

  /** Dummy index d is the first from c on that names an unselected partition. */
  ghost predicate FirstUnselected(pp: Params, f: PrfFn, id: nat, cutoff: nat, c: nat, d: nat)
    requires 0 < pp.partNum
  {
    && c <= d && !Prf4Select(f, id, DummyIdx(f, d) % pp.partNum, cutoff)
    && forall e :: c <= e < d ==> Prf4Select(f, id, DummyIdx(f, e) % pp.partNum, cutoff)
  }

  /** Hint i's extra entry: the first unselected partition the dummy indices
      offer, and the next dummy index as its offset. */
  ghost predicate ExtraDrawn(pp: Params, f: PrfFn, i: nat, cutoff: nat, part: nat, offset: nat, c: nat, c': nat)
    requires 0 < pp.partNum && 0 < pp.partSize
  {
    && 2 <= c' && FirstUnselected(pp, f, i, cutoff, c, c' - 2)
    && part == DummyIdx(f, c' - 2) % pp.partNum && offset == DummyIdx(f, c' - 1) % pp.partSize
  }

  ghost predicate ZerosOk(w: World, zeros: seq<Cipher>)
    requires w.Valid()
  {
    |zeros| == w.pp.Slots() && forall i :: 0 <= i < |zeros| ==> w.Holds(zeros[i], 0, w.encBound)
  }

  /** What Offline leaves in slot i, started from an encryption of zero. */
  ghost predicate SlotDone(w: World, i: nat, id: nat, cutoff: nat, side: bool, part: nat, offset: nat,
                           parity: Cipher, zero: Cipher, c: nat, c': nat)
    requires w.Valid() && zero.Valid(w.pp.n, w.pp.q)
  {
    && id == i && side && cutoff == HintCutoff(w.pp, w.f, i)
    && ExtraDrawn(w.pp, w.f, i, cutoff, part, offset, c, c')
    && parity == ActiveParity(w, i, cutoff, part, offset, zero, w.pp.partNum)
  }

  ghost predicate PairDone(w: World, j: nat, cutoff: nat, unselected: Cipher, selected: Cipher,
                           zero: Cipher, zero': Cipher)
    requires w.Valid() && zero.Valid(w.pp.n, w.pp.q) && zero'.Valid(w.pp.n, w.pp.q)
  {
    && cutoff == HintCutoff(w.pp, w.f, j)
    && unselected == SideParity(w, j, cutoff, false, zero, w.pp.partNum)
    && selected == SideParity(w, j, cutoff, true, zero', w.pp.partNum)
  }

  /** The result of Offline, slot by slot and pair by pair; draws[i] counts the
      dummy indices used before hint i's extra entry is drawn. */
  ghost predicate OfflineDone(w: World, t: Table, zeros: seq<Cipher>, draws: seq<nat>)
    requires w.Valid() && ZerosOk(w, zeros)
  {
    && t.Shape(w.pp) && t.next == w.pp.M() && |draws| == w.pp.M() + 1
    && (forall i :: 0 <= i < w.pp.M() ==>
          SlotDone(w, i, t.hintId[i], t.cutoff[i], t.Ind(i), t.extraPart[i], t.extraOffset[i], t.parity[i], zeros[i],
                   draws[i], draws[i + 1]))
    && (forall j :: w.pp.M() <= j < w.pp.BackupsEnd() ==>
          PairDone(w, j, t.cutoff[j], t.parity[j], t.parity[j + w.pp.Pairs()], zeros[j], zeros[j + w.pp.Pairs()]))
  }

  lemma SlotDoneOk(w: World, i: nat, id: nat, cutoff: nat, side: bool, part: nat, offset: nat,
                   parity: Cipher, zero: Cipher, c: nat, c': nat)
    requires w.Valid() && w.Holds(zero, 0, w.encBound)
    requires SlotDone(w, i, id, cutoff, side, part, offset, parity, zero, c, c')
    ensures id == i && HintOk(w, id, cutoff, side, part, offset, parity)
  {
    hide EncodesWithin, AddEntry, Phase, ActiveParity, SideSumUpTo, SideSum;
    if cutoff != 0 {
      ActiveParityHolds(w, i, cutoff, part, offset, zero, w.pp.partNum);
      SidesAreHalves(w.pp, w.f, i, cutoff, true);
      SideSumEnds(w, i, cutoff, true);
    }
  }

  lemma PairDoneOk(w: World, j: nat, cutoff: nat, unselected: Cipher, selected: Cipher, zero: Cipher, zero': Cipher)
    requires w.Valid() && w.Holds(zero, 0, w.encBound) && w.Holds(zero', 0, w.encBound)
    requires PairDone(w, j, cutoff, unselected, selected, zero, zero')
    ensures PairOk(w, j, cutoff, unselected, selected)
  {
    hide EncodesWithin, AddEntry, Phase, SideParity, SideSumUpTo, SideSum;
    if cutoff != 0 {
      SideParityHolds(w, j, cutoff, false, zero, w.pp.partNum);
      SideParityHolds(w, j, cutoff, true, zero', w.pp.partNum);
      SidesAreHalves(w.pp, w.f, j, cutoff, false);
      SidesAreHalves(w.pp, w.f, j, cutoff, true);
      SideSumEnds(w, j, cutoff, false);
      SideSumEnds(w, j, cutoff, true);
    }
  }

  /** Offline establishes the invariant of the whole table. */
  lemma OfflineEstablishes(w: World, t: Table, zeros: seq<Cipher>, draws: seq<nat>)
    requires w.Valid() && ZerosOk(w, zeros) && OfflineDone(w, t, zeros, draws)
    ensures TableOk(w, t)
  {
    hide SlotDone, PairDone, HintOk, PairOk, EncodesWithin;
    forall i | 0 <= i < w.pp.M()
      ensures SlotOk(w, t, i) && t.hintId[i] == i
    {
      SlotDoneOk(w, i, t.hintId[i], t.cutoff[i], t.Ind(i), t.extraPart[i], t.extraOffset[i], t.parity[i], zeros[i],
                 draws[i], draws[i + 1]);
    }
    forall j | w.pp.M() <= j < w.pp.BackupsEnd()
      ensures BackupOk(w, t, j)
    {
      PairDoneOk(w, j, t.cutoff[j], t.parity[j], t.parity[j + w.pp.Pairs()], zeros[j], zeros[j + w.pp.Pairs()]);
    }
  }

  /** Where Offline's extra entries come from: slot i holds hint i, and its extra entry
      takes the last two of the dummy indices drawn for it.  The first of them names a
      partition outside the hint's side, as none before it does, and the second the
      offset there. */
  lemma ExtrasDrawnInOrder(w: World, t: Table, zeros: seq<Cipher>, draws: seq<nat>, i: nat, e: nat)
    requires w.Valid() && ZerosOk(w, zeros) && OfflineDone(w, t, zeros, draws) && i < w.pp.M()
    ensures t.hintId[i] == i && t.Ind(i) && draws[i] + 2 <= draws[i + 1]
    ensures t.extraPart[i] == DummyIdx(w.f, draws[i + 1] - 2) % w.pp.partNum
    ensures t.extraOffset[i] == DummyIdx(w.f, draws[i + 1] - 1) % w.pp.partSize
    ensures draws[i] <= e < draws[i + 1] - 1 ==>
      (SelectValue(w.f, i, DummyIdx(w.f, e) % w.pp.partNum) < t.cutoff[i] <==> e < draws[i + 1] - 2)
  {
    hide ActiveParity, SideParity, EncodesWithin, HintCutoff, DummyIdx, SelectValue;
    assert SlotDone(w, i, t.hintId[i], t.cutoff[i], t.Ind(i), t.extraPart[i], t.extraOffset[i], t.parity[i], zeros[i],
                    draws[i], draws[i + 1]);
  }

  // Streaming: all slots and pairs, some partitions into the stream.

  ghost predicate OffsetsOk(w: World, t: Table)
    requires w.Valid() && t.Shape(w.pp)
  {
    forall i :: 0 <= i < w.pp.M() ==> t.extraOffset[i] < w.pp.partSize
  }

  /** In the middle of partition k, hints before h have seen it. */
  function Seen(k: nat, h: nat, i: nat): nat {
    if i < h then k + 1 else k
  }

  ghost predicate SlotStreamed(w: World, t: Table, zeros: seq<Cipher>, i: nat, k: nat, h: nat)
    requires w.Valid() && ZerosOk(w, zeros) && t.Shape(w.pp) && OffsetsOk(w, t)
    requires Seen(k, h, i) <= w.pp.partNum && i < w.pp.M()
  {
    t.parity[i] == ActiveParity(w, i, t.cutoff[i], t.extraPart[i], t.extraOffset[i], zeros[i], Seen(k, h, i))
  }

  ghost predicate PairStreamed(w: World, t: Table, zeros: seq<Cipher>, j: nat, k: nat, h: nat)
    requires w.Valid() && ZerosOk(w, zeros) && t.Shape(w.pp)
    requires Seen(k, h, j) <= w.pp.partNum && w.pp.M() <= j < w.pp.BackupsEnd()
  {
    && t.parity[j] == SideParity(w, j, t.cutoff[j], false, zeros[j], Seen(k, h, j))
    && t.parity[j + w.pp.Pairs()] == SideParity(w, j, t.cutoff[j], true, zeros[j + w.pp.Pairs()], Seen(k, h, j))
  }

  /** All parities, with k partitions streamed and hints before h done with one
      more. */
  ghost predicate Streamed(w: World, t: Table, zeros: seq<Cipher>, k: nat, h: nat)
    requires w.Valid() && ZerosOk(w, zeros) && t.Shape(w.pp) && OffsetsOk(w, t)
    requires k + (if h == 0 then 0 else 1) <= w.pp.partNum
  {
    && (forall i :: 0 <= i < w.pp.M() ==> SlotStreamed(w, t, zeros, i, k, h))
    && (forall j :: w.pp.M() <= j < w.pp.BackupsEnd() ==> PairStreamed(w, t, zeros, j, k, h))
  }

  ghost predicate ParitiesValid(w: World, t: Table) {
    forall i :: 0 <= i < |t.parity| ==> t.parity[i].Valid(w.pp.n, w.pp.q)
  }

  /** The update of one hint by one partition, as the program does it: an active
      hint adds its selected or its extra entry, a backup adds its entry to the
      side the select bit names. */
  ghost function HintUpdate(w: World, t: Table, k: nat, h: nat, b: bool, r: nat): (s: seq<Cipher>)
    requires w.Valid() && t.Shape(w.pp) && OffsetsOk(w, t) && ParitiesValid(w, t)
    requires k < w.pp.partNum && h < w.pp.BackupsEnd() && r < w.pp.partSize
    ensures |s| == |t.parity| && forall i :: 0 <= i < |s| ==> s[i].Valid(w.pp.n, w.pp.q)
  {
    if h < w.pp.M() then
      if b then t.parity[h := AddEntry(w, t.parity[h], k, r)]
      else if t.extraPart[h] == k then t.parity[h := AddEntry(w, t.parity[h], k, t.extraOffset[h])]
      else t.parity
    else
      var dst := h + (if b then w.pp.Pairs() else 0);
      t.parity[dst := AddEntry(w, t.parity[dst], k, r)]
  }

  lemma SlotTurn(w: World, t: Table, t': Table, zeros: seq<Cipher>, k: nat, h: nat, i: nat)
    requires w.Valid() && ZerosOk(w, zeros) && t.Shape(w.pp) && OffsetsOk(w, t) && ParitiesValid(w, t)
    requires k < w.pp.partNum && h < w.pp.BackupsEnd() && i < w.pp.M() && SlotStreamed(w, t, zeros, i, k, h)
    requires t' == t.(parity := HintUpdate(w, t, k, h, Prf4Select(w.f, h, k, t.cutoff[h]), Offset(w, h, k)))
    ensures SlotStreamed(w, t', zeros, i, k, h + 1)
  {
    hide AddEntry, EncodesWithin, Prf4Select, Offset;
  }

  lemma PairTurn(w: World, t: Table, t': Table, zeros: seq<Cipher>, k: nat, h: nat, j: nat)
    requires w.Valid() && ZerosOk(w, zeros) && t.Shape(w.pp) && OffsetsOk(w, t) && ParitiesValid(w, t)
    requires k < w.pp.partNum && h < w.pp.BackupsEnd() && w.pp.M() <= j < w.pp.BackupsEnd()
    requires PairStreamed(w, t, zeros, j, k, h)
    requires t' == t.(parity := HintUpdate(w, t, k, h, Prf4Select(w.f, h, k, t.cutoff[h]), Offset(w, h, k)))
    ensures PairStreamed(w, t', zeros, j, k, h + 1)
  {
    hide AddEntry, EncodesWithin, Prf4Select, Offset;
  }

  /** One turn of the inner loop moves one hint past partition k. */
  lemma StreamedTurn(w: World, t: Table, t': Table, zeros: seq<Cipher>, k: nat, h: nat)
    requires w.Valid() && ZerosOk(w, zeros) && t.Shape(w.pp) && OffsetsOk(w, t) && ParitiesValid(w, t)
    requires k < w.pp.partNum && h < w.pp.BackupsEnd() && Streamed(w, t, zeros, k, h)
    requires t' == t.(parity := HintUpdate(w, t, k, h, Prf4Select(w.f, h, k, t.cutoff[h]), Offset(w, h, k)))
    ensures Streamed(w, t', zeros, k, h + 1)
  {
    hide AddEntry, EncodesWithin, Prf4Select, Offset, SlotStreamed, PairStreamed, HintUpdate;
    var next := h + 1;
    forall i | 0 <= i < w.pp.M()
      ensures SlotStreamed(w, t', zeros, i, k, next)
    {
      SlotTurn(w, t, t', zeros, k, h, i);
    }
    forall j | w.pp.M() <= j < w.pp.BackupsEnd()
      ensures PairStreamed(w, t', zeros, j, k, next)
    {
      PairTurn(w, t, t', zeros, k, h, j);
    }
  }

  /** A partition all hints have seen is one more partition streamed. */
  lemma StreamedNext(w: World, t: Table, zeros: seq<Cipher>, k: nat)
    requires w.Valid() && ZerosOk(w, zeros) && t.Shape(w.pp) && OffsetsOk(w, t) && k < w.pp.partNum
    requires Streamed(w, t, zeros, k, w.pp.BackupsEnd())
    ensures Streamed(w, t, zeros, k + 1, 0)
  {
    hide AddEntry, EncodesWithin, ActiveParity, SideParity;
    var next := k + 1;
    forall i | 0 <= i < w.pp.M()
      ensures SlotStreamed(w, t, zeros, i, next, 0)
    {
      assert SlotStreamed(w, t, zeros, i, k, w.pp.BackupsEnd());
    }
    forall j | w.pp.M() <= j < w.pp.BackupsEnd()
      ensures PairStreamed(w, t, zeros, j, next, 0)
    {
      assert PairStreamed(w, t, zeros, j, k, w.pp.BackupsEnd());
    }
  }

  lemma StreamedStart(w: World, t: Table, zeros: seq<Cipher>)
    requires w.Valid() && ZerosOk(w, zeros) && t.Shape(w.pp) && OffsetsOk(w, t) && t.parity == zeros
    ensures Streamed(w, t, zeros, 0, 0)
  {
  }

  // Putting the phases together.

  ghost predicate CutoffsDone(pp: Params, f: PrfFn, t: Table)
    requires t.Shape(pp)
  {
    forall i :: 0 <= i < pp.BackupsEnd() ==> t.cutoff[i] == HintCutoff(pp, f, i)
  }

  ghost predicate ExtraAt(pp: Params, f: PrfFn, t: Table, draws: seq<nat>, i: nat)
    requires pp.Valid() && t.Shape(pp) && i < pp.M() && i + 1 < |draws|
  {
    t.hintId[i] == i && ExtraDrawn(pp, f, i, t.cutoff[i], t.extraPart[i], t.extraOffset[i], draws[i], draws[i + 1])
  }

  ghost predicate ExtrasDone(pp: Params, f: PrfFn, t: Table, draws: seq<nat>, h: nat)
    requires pp.Valid() && t.Shape(pp) && h <= pp.M()
  {
    |draws| == h + 1 && forall i :: 0 <= i < h ==> ExtraAt(pp, f, t, draws, i)
  }

  /** One more hint's extra entry, in the slot after those already drawn. */
  lemma ExtraRecorded(pp: Params, f: PrfFn, t: Table, t': Table, draws: seq<nat>, i: nat, c: nat)
    requires pp.Valid() && t.Shape(pp) && t'.Shape(pp) && i < pp.M() && ExtrasDone(pp, f, t, draws, i)
    requires t'.cutoff == t.cutoff && t'.hintId == t.hintId[i := i]
    requires t'.extraPart == t.extraPart[i := t'.extraPart[i]]
    requires t'.extraOffset == t.extraOffset[i := t'.extraOffset[i]]
    requires ExtraDrawn(pp, f, i, t.cutoff[i], t'.extraPart[i], t'.extraOffset[i], draws[i], c)
    ensures ExtrasDone(pp, f, t', draws + [c], i + 1)
  {
    hide ExtraDrawn;
    var longer := draws + [c];
    forall j | 0 <= j < i + 1
      ensures ExtraAt(pp, f, t', longer, j)
    {
      assert j < i ==> ExtraAt(pp, f, t, draws, j);
    }
  }

  /** Every dummy stream offers each hint an unselected partition sooner or later;
      without it the program's retry loop would not end. */
  ghost predicate Fair(pp: Params, f: PrfFn)
    requires pp.Valid()
  {
    forall i: nat, cutoff: nat, c: nat :: i < pp.M() && cutoff == HintCutoff(pp, f, i) ==> Offers(pp, f, i, cutoff, c)
  }

  ghost predicate Offers(pp: Params, f: PrfFn, i: nat, cutoff: nat, c: nat)
    requires pp.Valid()
  {
    exists d :: c <= d && !Prf4Select(f, i, DummyIdx(f, d) % pp.partNum, cutoff)
  }

  /** Two tables whose hints read the same, whatever their parities. */
  ghost predicate SameHints(t: Table, t': Table) {
    && t'.hintId == t.hintId && t'.cutoff == t.cutoff && t'.extraPart == t.extraPart && t'.extraOffset == t.extraOffset
    && t'.indicator == t.indicator
  }

  lemma ExtrasKept(pp: Params, f: PrfFn, t: Table, t': Table, draws: seq<nat>)
    requires pp.Valid() && t.Shape(pp) && t'.Shape(pp) && SameHints(t, t') && ExtrasDone(pp, f, t, draws, pp.M())
    ensures ExtrasDone(pp, f, t', draws, pp.M())
  {
    hide ExtraDrawn;
    forall i | 0 <= i < pp.M()
      ensures ExtraAt(pp, f, t', draws, i)
    {
      assert ExtraAt(pp, f, t, draws, i);
    }
  }

  lemma IndicatorsKept(pp: Params, t: Table, t': Table)
    requires t.Shape(pp) && t'.Shape(pp) && t'.indicator == t.indicator
    requires forall i :: 0 <= i < pp.M() ==> t.Ind(i)
    ensures forall i :: 0 <= i < pp.M() ==> t'.Ind(i)
  {
    forall i | 0 <= i < pp.M()
      ensures t'.Ind(i)
    {
      assert t.Ind(i);
    }
  }

  lemma StreamedKept(w: World, t: Table, t': Table, zeros: seq<Cipher>)
    requires w.Valid() && ZerosOk(w, zeros) && t.Shape(w.pp) && t'.Shape(w.pp) && OffsetsOk(w, t) && OffsetsOk(w, t')
    requires SameHints(t, t') && t'.parity == t.parity && Streamed(w, t, zeros, w.pp.partNum, 0)
    ensures Streamed(w, t', zeros, w.pp.partNum, 0)
  {
    hide ActiveParity, SideParity, EncodesWithin;
    var k := w.pp.partNum;
    forall i | 0 <= i < w.pp.M()
      ensures SlotStreamed(w, t', zeros, i, k, 0)
    {
      assert SlotStreamed(w, t, zeros, i, k, 0);
    }
    forall j | w.pp.M() <= j < w.pp.BackupsEnd()
      ensures PairStreamed(w, t', zeros, j, k, 0)
    {
      assert PairStreamed(w, t, zeros, j, k, 0);
    }
  }

  lemma PhasesDone(w: World, t: Table, zeros: seq<Cipher>, draws: seq<nat>)
    requires w.Valid() && ZerosOk(w, zeros) && t.Shape(w.pp) && OffsetsOk(w, t) && t.next == w.pp.M()
    requires CutoffsDone(w.pp, w.f, t) && ExtrasDone(w.pp, w.f, t, draws, w.pp.M())
    requires forall i :: 0 <= i < w.pp.M() ==> t.Ind(i)
    requires Streamed(w, t, zeros, w.pp.partNum, 0)
    ensures OfflineDone(w, t, zeros, draws)
  {
    hide ActiveParity, SideParity, EncodesWithin, HintCutoff, ExtraDrawn;
    forall i | 0 <= i < w.pp.M()
      ensures SlotDone(w, i, t.hintId[i], t.cutoff[i], t.Ind(i), t.extraPart[i], t.extraOffset[i], t.parity[i],
                       zeros[i], draws[i], draws[i + 1])
    {
      assert SlotStreamed(w, t, zeros, i, w.pp.partNum, 0) && ExtraAt(w.pp, w.f, t, draws, i);
    }
    forall j | w.pp.M() <= j < w.pp.BackupsEnd()
      ensures PairDone(w, j, t.cutoff[j], t.parity[j], t.parity[j + w.pp.Pairs()], zeros[j], zeros[j + w.pp.Pairs()])
    {
      assert PairStreamed(w, t, zeros, j, w.pp.partNum, 0);
    }
  }

  // When the stream is fair.

  /** The block number is 32 bits wide, so the dummy indices repeat. */
  lemma DummyPeriod(f: PrfFn, d: nat)
    ensures DummyIdx(f, d + 0x8_0000_0000) == DummyIdx(f, d)
  {
    assert (d + 0x8_0000_0000) / 8 == d / 8 + 0x1_0000_0000;
    assert (d / 8 + 0x1_0000_0000) % 0x1_0000_0000 == d / 8 % 0x1_0000_0000;
    assert (d + 0x8_0000_0000) % 8 == d % 8;
  }

  lemma {:induction false} DummiesRepeat(f: PrfFn, d: nat, from: nat) returns (e: nat)
    ensures from <= e && DummyIdx(f, e) == DummyIdx(f, d)
  {
    hide DummyIdx;
    if from == 0 {
      e := d;
    } else {
      e := DummiesRepeat(f, d, from - 1);
      DummyPeriod(f, e);
      e := e + 0x8_0000_0000;
    }
  }

  lemma {:induction false} SomeFalse(s: seq<bool>) returns (k: nat)
    requires CountTrue(s) < |s|
    ensures k < |s| && !s[k]
  {
    if s[|s| - 1] {
      k := SomeFalse(s[..|s| - 1]);
    } else {
      k := |s| - 1;
    }
  }

  ghost predicate Named(pp: Params, f: PrfFn, part: nat)
    requires pp.Valid()
  {
    exists d: nat :: DummyIdx(f, d) % pp.partNum == part
  }

  lemma NamedAgain(pp: Params, f: PrfFn, i: nat, cutoff: nat, c: nat, part: nat)
    requires pp.Valid() && Named(pp, f, part) && !Prf4Select(f, i, part, cutoff)
    ensures Offers(pp, f, i, cutoff, c)
  {
    hide DummyIdx, Prf4Select;
    var d: nat :| DummyIdx(f, d) % pp.partNum == part;
    var e := DummiesRepeat(f, d, c);
    assert c <= e && !Prf4Select(f, i, DummyIdx(f, e) % pp.partNum, cutoff);
  }

  /** If every partition is named by some dummy index, the retry loop of every hint
      ends: a valid hint leaves half the partitions unselected, and an invalid one
      selects none. */
  lemma FairWhenAllNamed(pp: Params, f: PrfFn)
    requires pp.Valid()
    requires forall part :: 0 <= part < pp.partNum ==> Named(pp, f, part)
    ensures Fair(pp, f)
  {
    hide Offers, Named, HintCutoff;
    forall i: nat, cutoff: nat, c: nat | i < pp.M() && cutoff == HintCutoff(pp, f, i)
      ensures Offers(pp, f, i, cutoff, c)
    {
      var part: nat := 0;
      if cutoff != 0 {
        HalfSelected(pp, f, i, cutoff);
        part := SomeFalse(SelectBits(f, pp.partNum, i, cutoff));
      }
      NamedAgain(pp, f, i, cutoff, c, part);
    }
  }
}
