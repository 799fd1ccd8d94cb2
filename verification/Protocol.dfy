/** One online query, from the request to the refreshed table, and whole runs of
    queries (src/client_main.cpp). */
module Protocol {
  import opened NumberTheory
  import opened Ring
  import opened Encoding
  import opened Prf
  import opened Hints
  import opened Query
  import opened Refresh
  import opened Answering

  /** The client between two queries: its hints, how many dummy indices it has
      drawn, and its encryptions of zero with the number already used. */
  datatype Client = Client(table: Table, dummyUsed: nat, zeros: seq<Cipher>, zeroNext: nat)

  /** A queried index, with the random flip and mask the client draws for it and
      the noise the server adds. */
  datatype Request = Request(query: nat, flip: bool, mask: nat, noise: I64)

  /** How a query ends.  NoHint skips the query.  The last three end the program:
      an exception, the assertion after the refresh, and the loop that skips invalid
      backups running past the last cutoff Offline has written, where the program's
      behaviour is not defined.  An answer records the slot, the backup and the
      encryption of zero it used. */
  datatype Outcome =
    | Answered(value: nat, slot: nat, backup: nat, zero: nat)
    | NoHint
    | ZerosExhausted
    | AssertionFailed
    | NoBackupLeft
  {
    predicate Stops() { ZerosExhausted? || AssertionFailed? || NoBackupLeft? }
  }

  function PartOf(pp: Params, query: nat): nat
    requires 0 < pp.partSize
  {
    query / pp.partSize
  }

  function OffsetOf(pp: Params, query: nat): (r: nat)
    requires 0 < pp.partSize
    ensures r < pp.partSize
  {
    query % pp.partSize
  }

  /** The database entry with a given index. */
  ghost function Wanted(w: World, query: nat): nat
    requires w.Valid() && PartOf(w.pp, query) < w.pp.partNum
  {
    Entry(w, PartOf(w.pp, query), OffsetOf(w.pp, query))
  }

  ghost predicate RequestOk(w: World, r: Request)
    requires w.Valid()
  {
    PartOf(w.pp, r.query) < w.pp.partNum && r.mask < w.pp.q && w.NoiseOk(r.noise)
  }

  /** The invariant between queries. */
  ghost predicate ClientOk(w: World, s: Client)
    requires w.Valid()
  {
    && TableOk(w, s.table)
    && s.zeroNext <= |s.zeros|
    && forall z :: 0 <= z < |s.zeros| ==> w.Holds(s.zeros[z], 0, w.encBound)
  }

  /** What the client decodes from slot h: the query it builds, the answer of the
      group it selects, unmasked and rounded. */
  ghost function Decoded(w: World, t: Table, h: nat, part: nat, c: nat, zero: Cipher, r: Request): (v: nat)
    requires w.Valid() && t.Shape(w.pp) && h < w.pp.M() && SlotOk(w, t, h) && t.cutoff[h] != 0
    requires part < w.pp.partNum && zero.Valid(w.pp.n, w.pp.q)
    ensures v < w.pp.p
  {
    SlotHolds(w, t, h);
    OffsetsInRange(w, t, h, part, c);
    MaskedValid(w, t.parity[h], zero, r.mask);
    var answer := Answer(w, QueryBits(w.pp, w.f, t, h, part, r.flip), QueryOffsets(w.pp, w.f, t, h, part, c),
                         Masked(w.pp, t.parity[h], zero, r.mask), t.Ind(h) != r.flip, r.noise);
    Decode(w.pp, answer, r.mask)
  }

  lemma DecodedIsEntry(w: World, t: Table, h: nat, part: nat, offset: nat, c: nat, zero: Cipher, r: Request)
    requires w.Valid() && Budget(w) && t.Shape(w.pp) && h < w.pp.M() && part < w.pp.partNum && offset < w.pp.partSize
    requires SlotOk(w, t, h) && Covers(w.pp, w.f, t, part, offset, h)
    requires w.Holds(zero, 0, w.encBound) && w.NoiseOk(r.noise)
    ensures Decoded(w, t, h, part, c, zero, r) == Entry(w, part, offset)
  {
    DecodesQueriedEntry(w, t, h, part, offset, c, r.flip, zero, r.mask, r.noise);
  }

  /** Dummy indices a query from slot h consumes. */
  function DummiesUsed(w: World, t: Table, h: nat, part: nat): nat
    requires t.Shape(w.pp) && h < w.pp.M()
  {
    DummiesBefore(w.f, t, h, part, w.pp.partNum)
  }

  /** Slot h's table after the refresh with the first usable backup, if any. */
  ghost function RefreshWith(w: World, t: Table, h: nat, part: nat, offset: nat, value: nat): (t': Table)
    requires w.Valid() && TableOk(w, t) && h < w.pp.M()
    ensures t.next <= t'.next <= w.pp.BackupsEnd() && 0 < t'.next
  {
    var j := NextValid(w.pp, t.cutoff, t.next);
    if j == w.pp.BackupsEnd() then t.(next := j)
    else
      BackupUsable(w, t, j, ExcludingSide(w.f, t.cutoff, j, part));
      Replenish(w.pp, w.f, t, h, j, part, offset, value)
  }

  /** The outcome of a query that has been decoded. */
  function Ending(pp: Params, t: Table, value: nat, h: nat, zero: nat): Outcome
    requires t.Shape(pp) && t.next <= pp.BackupsEnd()
  {
    var j := NextValid(pp, t.cutoff, t.next);
    if j == pp.BackupsEnd() then NoBackupLeft
    else if j + 1 < pp.BackupsEnd() then Answered(value, h, j, zero)
    else AssertionFailed
  }

  /** One iteration of the online loop. */
  ghost function Step(w: World, s: Client, r: Request): (res: (Client, Outcome))
    requires w.Valid() && ClientOk(w, s) && RequestOk(w, r)
  {
    var part, offset := PartOf(w.pp, r.query), OffsetOf(w.pp, r.query);
    var h := FindHint(w.pp, w.f, s.table, part, offset, 0);
    if h >= w.pp.M() then (s, NoHint)
    else if s.zeroNext == |s.zeros| then
      (s.(dummyUsed := s.dummyUsed + DummiesUsed(w, s.table, h, part)), ZerosExhausted)
    else
      var value := Decoded(w, s.table, h, part, s.dummyUsed, s.zeros[s.zeroNext], r);
      var t := RefreshWith(w, s.table, h, part, offset, value);
      (Client(t, s.dummyUsed + DummiesUsed(w, s.table, h, part), s.zeros, s.zeroNext + 1),
       Ending(w.pp, s.table, value, h, s.zeroNext))
  }

  /** A step that ends before the query is answered. */
  lemma StepEarly(w: World, s: Client, r: Request, h: nat)
    requires w.Valid() && ClientOk(w, s) && RequestOk(w, r)
    requires h == FindHint(w.pp, w.f, s.table, PartOf(w.pp, r.query), OffsetOf(w.pp, r.query), 0)
    ensures h >= w.pp.M() ==> Step(w, s, r) == (s, NoHint)
    ensures h < w.pp.M() && s.zeroNext == |s.zeros| ==>
      var used := s.dummyUsed + DummiesUsed(w, s.table, h, PartOf(w.pp, r.query));
      Step(w, s, r) == (s.(dummyUsed := used), ZerosExhausted)
  {
    hide EncodesWithin, Decoded, RefreshWith, PartOf, OffsetOf, FindHint, DummiesUsed;
    hide ClientOk, TableOk, SlotOk, RequestOk;
  }

  /** The parts of a step that gets as far as the refresh. */
  lemma StepParts(w: World, s: Client, r: Request, h: nat, value: nat, t: Table)
    requires w.Valid() && ClientOk(w, s) && RequestOk(w, r) && s.zeroNext < |s.zeros|
    requires h == FindHint(w.pp, w.f, s.table, PartOf(w.pp, r.query), OffsetOf(w.pp, r.query), 0) < w.pp.M()
    requires SlotOk(w, s.table, h) && s.zeros[s.zeroNext].Valid(w.pp.n, w.pp.q)
    requires value == Decoded(w, s.table, h, PartOf(w.pp, r.query), s.dummyUsed, s.zeros[s.zeroNext], r)
    requires t == RefreshWith(w, s.table, h, PartOf(w.pp, r.query), OffsetOf(w.pp, r.query), value)
    ensures Step(w, s, r) == (
      Client(t, s.dummyUsed + DummiesUsed(w, s.table, h, PartOf(w.pp, r.query)), s.zeros, s.zeroNext + 1),
      Ending(w.pp, s.table, value, h, s.zeroNext))
  {
    hide EncodesWithin, Ending, Decoded, RefreshWith, PartOf, OffsetOf, FindHint, DummiesUsed;
    hide ClientOk, TableOk, SlotOk, RequestOk;
  }

  // One step.

  /** Some valid slot covers an index. */
  ghost predicate Covered(w: World, t: Table, query: nat)
    requires w.Valid() && t.Shape(w.pp)
  {
    exists h :: 0 <= h < w.pp.M() && Covers(w.pp, w.f, t, PartOf(w.pp, query), OffsetOf(w.pp, query), h)
  }

  /** find_hint returns the least covering slot, or M + 1 exactly when there is none. */
  lemma FindHintExact(w: World, t: Table, query: nat)
    requires w.Valid() && t.Shape(w.pp)
    ensures var h := FindHint(w.pp, w.f, t, PartOf(w.pp, query), OffsetOf(w.pp, query), 0);
      if Covered(w, t, query) then
        && h < w.pp.M() && Covers(w.pp, w.f, t, PartOf(w.pp, query), OffsetOf(w.pp, query), h)
        && forall j :: 0 <= j < h ==> !Covers(w.pp, w.f, t, PartOf(w.pp, query), OffsetOf(w.pp, query), j)
      else h == w.pp.M() + 1
  {
    var part, offset := PartOf(w.pp, query), OffsetOf(w.pp, query);
    var h := FindHint(w.pp, w.f, t, part, offset, 0);
    if Covered(w, t, query) {
      var i :| 0 <= i < w.pp.M() && Covers(w.pp, w.f, t, part, offset, i);
      assert h < w.pp.M();
    }
  }

  /** How a step ends depends only on whether a slot covers the index and on the
      remaining resources, never on the random choices. */
  lemma StepOutcome(w: World, s: Client, r: Request)
    requires w.Valid() && ClientOk(w, s) && RequestOk(w, r)
    ensures var o := Step(w, s, r).1;
      if !Covered(w, s.table, r.query) then o == NoHint
      else if s.zeroNext == |s.zeros| then o == ZerosExhausted
      else
        var j := NextValid(w.pp, s.table.cutoff, s.table.next);
        && (o.Answered? <==> j + 1 < w.pp.BackupsEnd())
        && (o == AssertionFailed <==> j + 1 == w.pp.BackupsEnd())
        && (o == NoBackupLeft <==> j == w.pp.BackupsEnd())
  {
    hide EncodesWithin, Decoded, RefreshWith, PartOf, OffsetOf, DummiesUsed;
    FindHintExact(w, s.table, r.query);
  }

  /** Every value a step returns is the database entry asked for. */
  lemma StepAnswers(w: World, s: Client, r: Request)
    requires w.Valid() && Budget(w) && ClientOk(w, s) && RequestOk(w, r)
    ensures Step(w, s, r).1.Answered? ==> Step(w, s, r).1.value == Wanted(w, r.query)
  {
    hide EncodesWithin, Decoded, RefreshWith, PartOf, OffsetOf, DummiesUsed, Step;
    var part, offset := PartOf(w.pp, r.query), OffsetOf(w.pp, r.query);
    var h := FindHint(w.pp, w.f, s.table, part, offset, 0);
    StepEarly(w, s, r, h);
    if h < w.pp.M() && s.zeroNext < |s.zeros| {
      assert SlotOk(w, s.table, h) && w.Holds(s.zeros[s.zeroNext], 0, w.encBound);
      var value := Decoded(w, s.table, h, part, s.dummyUsed, s.zeros[s.zeroNext], r);
      DecodedIsEntry(w, s.table, h, part, offset, s.dummyUsed, s.zeros[s.zeroNext], r);
      StepParts(w, s, r, h, value, RefreshWith(w, s.table, h, part, offset, value));
    }
  }

  lemma RefreshKeepsTable(w: World, t: Table, h: nat, part: nat, offset: nat)
    requires w.Valid() && TableOk(w, t) && h < w.pp.M() && part < w.pp.partNum && offset < w.pp.partSize
    ensures TableOk(w, RefreshWith(w, t, h, part, offset, Entry(w, part, offset)))
  {
    var j := NextValid(w.pp, t.cutoff, t.next);
    if j < w.pp.BackupsEnd() {
      ReplenishKeepsTable(w, t, h, j, part, offset);
    } else {
      SkippedKeepsTable(w, t);
    }
  }

  lemma SkippedKeepsTable(w: World, t: Table)
    requires w.Valid() && TableOk(w, t)
    ensures TableOk(w, t.(next := w.pp.BackupsEnd()))
  {
    var t' := t.(next := w.pp.BackupsEnd());
    forall i | 0 <= i < w.pp.M()
      ensures SlotOk(w, t', i)
    {
      assert SlotOk(w, t, i);
    }
  }

  /** Every step keeps the invariant over the whole table. */
  lemma StepKeeps(w: World, s: Client, r: Request)
    requires w.Valid() && Budget(w) && ClientOk(w, s) && RequestOk(w, r)
    ensures ClientOk(w, Step(w, s, r).0)
  {
    var part, offset := PartOf(w.pp, r.query), OffsetOf(w.pp, r.query);
    var h := FindHint(w.pp, w.f, s.table, part, offset, 0);
    if h < w.pp.M() && s.zeroNext < |s.zeros| {
      assert w.Holds(s.zeros[s.zeroNext], 0, w.encBound);
      DecodedIsEntry(w, s.table, h, part, offset, s.dummyUsed, s.zeros[s.zeroNext], r);
      RefreshKeepsTable(w, s.table, h, part, offset);
    }
  }

  // Whole runs.

  ghost predicate RequestsOk(w: World, rs: seq<Request>)
    requires w.Valid()
  {
    forall i :: 0 <= i < |rs| ==> RequestOk(w, rs[i])
  }

  /** The online loop over a list of requests, until one stops it. */
  ghost function Run(w: World, s: Client, rs: seq<Request>): (res: (Client, seq<Outcome>))
    requires w.Valid() && Budget(w) && ClientOk(w, s) && RequestsOk(w, rs)
    decreases rs
  {
    if rs == [] then (s, [])
    else
      StepKeeps(w, s, rs[0]);
      var (s', o) := Step(w, s, rs[0]);
      if o.Stops() then (s', [o])
      else
        var (last, os) := Run(w, s', rs[1..]);
        (last, [o] + os)
  }

  lemma RunNothing(w: World, s: Client)
    requires w.Valid() && Budget(w) && ClientOk(w, s)
    ensures Run(w, s, []) == (s, [])
  {
  }

  lemma RunUnfolds(w: World, s: Client, rs: seq<Request>, s': Client, o: Outcome)
    requires w.Valid() && Budget(w) && ClientOk(w, s) && RequestsOk(w, rs) && rs != []
    requires (s', o) == Step(w, s, rs[0])
    ensures ClientOk(w, s')
    ensures o.Stops() ==> Run(w, s, rs) == (s', [o])
    ensures !o.Stops() ==> Run(w, s, rs) == (Run(w, s', rs[1..]).0, [o] + Run(w, s', rs[1..]).1)
  {
    hide Step;
    StepKeeps(w, s, rs[0]);
  }

  /** End-to-end correctness of every run: whatever the indices, flips, masks and
      noise, each answer is the entry asked for and the invariant still holds. */
  lemma {:induction false} RunCorrect(w: World, s: Client, rs: seq<Request>)
    requires w.Valid() && Budget(w) && ClientOk(w, s) && RequestsOk(w, rs)
    ensures var (last, os) := Run(w, s, rs);
      && ClientOk(w, last) && |os| <= |rs|
      && (forall i :: 0 <= i < |os| && os[i].Answered? ==> os[i].value == Wanted(w, rs[i].query))
      && (forall i :: 0 <= i < |os| && os[i].Stops() ==> i == |os| - 1)
      && (|os| < |rs| ==> os != [] && os[|os| - 1].Stops())
    decreases rs
  {
    hide Step, EncodesWithin, Wanted;
    if rs != [] {
      StepKeeps(w, s, rs[0]);
      StepAnswers(w, s, rs[0]);
      var (s', o) := Step(w, s, rs[0]);
      if !o.Stops() {
        RunCorrect(w, s', rs[1..]);
        var (last, os) := Run(w, s', rs[1..]);
        assert ([o] + os)[1..] == os;
        assert forall i :: 0 <= i < |os| ==> rs[1..][i] == rs[i + 1] && ([o] + os)[i + 1] == os[i];
      }
    }
  }
}
