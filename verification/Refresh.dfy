/** Replacing a consumed hint by an unused backup (src/client_main.cpp). */
module Refresh {
  import opened ModArith
  import opened Ring
  import opened Encoding
  import opened Prf
  import opened Bits
  import opened Hints

  /** The first backup from position j on whose cutoff is valid, or the end. */
  function NextValid(pp: Params, cutoff: seq<nat>, j: nat): (v: nat)
    requires |cutoff| == pp.Slots() && j <= pp.BackupsEnd()
    ensures j <= v <= pp.BackupsEnd()
    ensures v < pp.BackupsEnd() ==> cutoff[v] != 0
    ensures forall i :: j <= i < v ==> cutoff[i] == 0
    decreases pp.BackupsEnd() - j
  {
    if j == pp.BackupsEnd() || cutoff[j] != 0 then j else NextValid(pp, cutoff, j + 1)
  }

  /** add_plain of a vector that is zero but for one coefficient. */
  function AddPlain(c: Cipher, t: nat, m: int, p: int, q: int): Cipher
    requires 0 < p && 0 < q && t < |c.c0|
  {
    AddToCoefficient(c, t, Delta(m, p, q), q)
  }

  /** The side of backup j that excludes a partition. */
  function ExcludingSide(f: PrfFn, cutoff: seq<nat>, j: nat, part: nat): bool
    requires j < |cutoff|
  {
    !Prf4Select(f, j, part, cutoff[j])
  }

  function BackupParity(pp: Params, t: Table, j: nat, side: bool): Cipher
    requires t.Shape(pp) && j < pp.BackupsEnd()
  {
    t.parity[j + (if side then pp.Pairs() else 0)]
  }

  /** Slot h becomes backup j's side that excludes the queried partition, with
      the queried entry and its decoded value as the extra one. */
  function Replenish(pp: Params, f: PrfFn, t: Table, h: nat, j: nat, part: nat, offset: nat, value: nat): Table
    requires t.Shape(pp) && h < pp.M() && j < pp.BackupsEnd()
    requires 0 < pp.p && 0 < pp.q && 0 < pp.partSize
    requires pp.partSize <= |BackupParity(pp, t, j, ExcludingSide(f, t.cutoff, j, part)).c0|
  {
    var side := ExcludingSide(f, t.cutoff, j, part);
    Table(
      t.hintId[h := j],
      t.cutoff[h := t.cutoff[j]],
      t.extraPart[h := part],
      t.extraOffset[h := offset],
      t.indicator[h / 8 := SetBit(t.indicator[h / 8], h % 8, side)],
      t.parity[h := AddPlain(BackupParity(pp, t, j, side), pp.partSize - 1, value, pp.p, pp.q)],
      j + 1)
  }

  /** The indicator bit of slot h is set, and every other slot's is untouched. */
  lemma IndicatorUpdate(t: Table, h: nat, v: bool, t': Table, i: nat)
    requires h / 8 < |t.indicator| && i / 8 < |t.indicator|
    requires t'.indicator == t.indicator[h / 8 := SetBit(t.indicator[h / 8], h % 8, v)]
    ensures t'.Ind(i) == if i == h then v else t.Ind(i)
  {
    SetBitExact(t.indicator[h / 8], h % 8, v, i % 8);
    if i / 8 == h / 8 && i != h {
      assert i % 8 != h % 8;
    }
  }

  /** Adding the decoded value turns a backup side into an active parity. */
  lemma AddedValueHolds(w: World, c: Cipher, m: int, value: nat)
    requires w.Valid() && w.Holds(c, m, BackupBound(w))
    ensures w.Holds(AddPlain(c, w.pp.partSize - 1, value, w.pp.p, w.pp.q), m + value, HintBound(w))
  {
    var t, p, q := w.pp.partSize - 1, w.pp.p, w.pp.q;
    var d := Delta(value, p, q);
    PhaseAddToCoefficient(c, t, d, w.sk, q);
    DeltaEncodes(value, 0, 0, p, q);
    WithinSum(Phase(c, w.sk, q)[t], m, BackupBound(w), d % q, value, p, p, q);
    CongAddMod(Phase(c, w.sk, q)[t], d, q);
    assert HintBound(w) == BackupBound(w) + w.encBound;
    WithinWeaker((Phase(c, w.sk, q)[t] + d) % q, m + value, BackupBound(w) + p, HintBound(w), p, q);
  }

  lemma PairSide(w: World, j: nat, cutoff: nat, unselected: Cipher, selected: Cipher, side: bool, c: Cipher)
    requires w.Valid() && cutoff != 0 && PairOk(w, j, cutoff, unselected, selected)
    requires c == if side then selected else unselected
    ensures w.Holds(c, SideSum(w, j, cutoff, side), BackupBound(w)) && w.pp.partSize <= |c.c0|
  {
  }

  lemma BackupSide(pp: Params, t: Table, j: nat, side: bool)
    requires t.Shape(pp) && pp.M() <= j < pp.BackupsEnd()
    ensures BackupParity(pp, t, j, side) == if side then t.parity[j + pp.Pairs()] else t.parity[j]
  {
  }

  lemma BackupUsable(w: World, t: Table, j: nat, side: bool)
    requires w.Valid() && TableOk(w, t) && t.next <= j < w.pp.BackupsEnd() && t.cutoff[j] != 0
    ensures w.pp.partSize <= |BackupParity(w.pp, t, j, side).c0|
  {
    assert BackupOk(w, t, j);
    BackupSide(w.pp, t, j, side);
    PairSide(w, j, t.cutoff[j], t.parity[j], t.parity[j + w.pp.Pairs()], side, BackupParity(w.pp, t, j, side));
  }

  /** What Replenish leaves alone: every other slot, not even touched through the
      shared indicator byte, and every parity and cutoff beyond the hints. */
  ghost predicate OthersKept(pp: Params, t: Table, t': Table, h: nat)
    requires t.Shape(pp) && t'.Shape(pp)
  {
    && (forall i :: 0 <= i < pp.M() && i != h ==> SameSlot(pp, t, t', i))
    && (forall j :: pp.M() <= j < pp.Slots() ==> t'.cutoff[j] == t.cutoff[j] && t'.parity[j] == t.parity[j])
  }

  ghost predicate SameSlot(pp: Params, t: Table, t': Table, i: nat)
    requires t.Shape(pp) && t'.Shape(pp) && i < pp.M()
  {
    && t'.hintId[i] == t.hintId[i] && t'.cutoff[i] == t.cutoff[i] && t'.parity[i] == t.parity[i]
    && t'.extraPart[i] == t.extraPart[i] && t'.extraOffset[i] == t.extraOffset[i]
    && t'.Ind(i) == t.Ind(i)
  }

  lemma ReplenishFrame(pp: Params, f: PrfFn, t: Table, h: nat, j: nat, part: nat, offset: nat, value: nat)
    requires t.Shape(pp) && h < pp.M() <= j < pp.BackupsEnd()
    requires 0 < pp.p && 0 < pp.q && 0 < pp.partSize
    requires pp.partSize <= |BackupParity(pp, t, j, ExcludingSide(f, t.cutoff, j, part)).c0|
    ensures var t' := Replenish(pp, f, t, h, j, part, offset, value);
      t'.Shape(pp) && OthersKept(pp, t, t', h) && t'.Ind(h) == ExcludingSide(f, t.cutoff, j, part)
  {
    var t' := Replenish(pp, f, t, h, j, part, offset, value);
    var side := ExcludingSide(f, t.cutoff, j, part);
    IndicatorUpdate(t, h, side, t', h);
    forall i | 0 <= i < pp.M() && i != h
      ensures SameSlot(pp, t, t', i)
    {
      IndicatorUpdate(t, h, side, t', i);
    }
  }

  /** A backup side, with the queried entry added, is a valid hint again. */
  lemma SideBecomesHint(w: World, j: nat, cutoff: nat, part: nat, offset: nat, c: Cipher)
    requires w.Valid() && cutoff != 0 && cutoff == HintCutoff(w.pp, w.f, j)
    requires part < w.pp.partNum && offset < w.pp.partSize
    requires w.Holds(c, SideSum(w, j, cutoff, !Prf4Select(w.f, j, part, cutoff)), BackupBound(w))
    ensures HintOk(w, j, cutoff, !Prf4Select(w.f, j, part, cutoff), part, offset,
                   AddPlain(c, w.pp.partSize - 1, Entry(w, part, offset), w.pp.p, w.pp.q))
  {
    AddedValueHolds(w, c, SideSum(w, j, cutoff, !Prf4Select(w.f, j, part, cutoff)), Entry(w, part, offset));
  }

  /** The consumed slot reads back what was written. */
  lemma ReplenishedFields(w: World, t: Table, h: nat, j: nat, part: nat, offset: nat, side: bool, c: Cipher)
    requires w.Valid() && t.Shape(w.pp) && h < w.pp.M() <= j < w.pp.BackupsEnd()
    requires side == ExcludingSide(w.f, t.cutoff, j, part) && c == BackupParity(w.pp, t, j, side)
    requires part < w.pp.partNum && offset < w.pp.partSize <= |c.c0|
    requires HintOk(w, j, t.cutoff[j], side, part, offset,
                    AddPlain(c, w.pp.partSize - 1, Entry(w, part, offset), w.pp.p, w.pp.q))
    ensures var t' := Replenish(w.pp, w.f, t, h, j, part, offset, Entry(w, part, offset));
      t'.Shape(w.pp) && SlotOk(w, t', h)
  {
    ReplenishFrame(w.pp, w.f, t, h, j, part, offset, Entry(w, part, offset));
  }

  /** The consumed slot satisfies its invariant again. */
  lemma ReplenishedSlotOk(w: World, t: Table, h: nat, j: nat, part: nat, offset: nat)
    requires w.Valid() && t.Shape(w.pp) && h < w.pp.M() <= j < w.pp.BackupsEnd() && t.cutoff[j] != 0
    requires part < w.pp.partNum && offset < w.pp.partSize
    requires BackupOk(w, t, j)
    ensures w.pp.partSize <= |BackupParity(w.pp, t, j, ExcludingSide(w.f, t.cutoff, j, part)).c0|
    ensures var t' := Replenish(w.pp, w.f, t, h, j, part, offset, Entry(w, part, offset));
      t'.Shape(w.pp) && SlotOk(w, t', h)
  {
    var side := ExcludingSide(w.f, t.cutoff, j, part);
    var c := BackupParity(w.pp, t, j, side);
    BackupSide(w.pp, t, j, side);
    PairSide(w, j, t.cutoff[j], t.parity[j], t.parity[j + w.pp.Pairs()], side, c);
    SideBecomesHint(w, j, t.cutoff[j], part, offset, c);
    ReplenishedFields(w, t, h, j, part, offset, side, c);
  }

  /** Refreshing with the right value keeps the whole table's invariant. */
  lemma ReplenishKeepsTable(w: World, t: Table, h: nat, j: nat, part: nat, offset: nat)
    requires w.Valid() && TableOk(w, t) && h < w.pp.M() && t.next <= j < w.pp.BackupsEnd() && t.cutoff[j] != 0
    requires part < w.pp.partNum && offset < w.pp.partSize
    ensures w.pp.partSize <= |BackupParity(w.pp, t, j, ExcludingSide(w.f, t.cutoff, j, part)).c0|
    ensures TableOk(w, Replenish(w.pp, w.f, t, h, j, part, offset, Entry(w, part, offset)))
  {
    ReplenishedSlotOk(w, t, h, j, part, offset);
    var t' := Replenish(w.pp, w.f, t, h, j, part, offset, Entry(w, part, offset));
    ReplenishFrame(w.pp, w.f, t, h, j, part, offset, Entry(w, part, offset));
    OthersOk(w, t, t', h);
  }

  /** Kept slots and backups keep their invariants. */
  lemma OthersOk(w: World, t: Table, t': Table, h: nat)
    requires w.Valid() && TableOk(w, t) && t'.Shape(w.pp) && h < w.pp.M() && OthersKept(w.pp, t, t', h)
    ensures forall i :: 0 <= i < w.pp.M() && i != h ==> SlotOk(w, t', i)
    ensures forall j :: t.next <= j < w.pp.BackupsEnd() ==> BackupOk(w, t', j)
  {
    forall i | 0 <= i < w.pp.M() && i != h
      ensures SlotOk(w, t', i)
    {
      assert SameSlot(w.pp, t, t', i);
      assert SlotOk(w, t, i);
    }
    forall j | t.next <= j < w.pp.BackupsEnd()
      ensures BackupOk(w, t', j)
    {
      assert BackupOk(w, t, j);
    }
  }
}
