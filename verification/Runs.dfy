/** What holds over whole runs besides correctness: how hints, backups and
    encryptions of zero are consumed, and when a run gets through. */
module Runs {
  import opened ModArith
  import opened Cutoff
  import opened Ring
  import opened Encoding
  import opened Prf
  import opened Hints
  import opened Query
  import opened Refresh
  import opened Answering
  import opened Protocol

  // Resource discipline.

  /** Nothing in the backup area has changed. */
  ghost predicate StoreKept(pp: Params, t: Table, t': Table)
    requires t.Shape(pp) && t'.Shape(pp)
  {
    forall j :: pp.M() <= j < pp.Slots() ==> t'.cutoff[j] == t.cutoff[j] && t'.parity[j] == t.parity[j]
  }

  /** Slot h has become a hint from backup j, with an extra entry. */
  ghost predicate Rewritten(pp: Params, t: Table, h: nat, j: nat, part: nat, offset: nat)
    requires t.Shape(pp) && h < pp.M()
  {
    t.hintId[h] == j && t.cutoff[h] != 0 && t.extraPart[h] == part && t.extraOffset[h] == offset
  }

  lemma RefreshUses(w: World, t: Table, h: nat, part: nat, offset: nat)
    requires w.Valid() && TableOk(w, t) && h < w.pp.M() && part < w.pp.partNum && offset < w.pp.partSize
    ensures var j := NextValid(w.pp, t.cutoff, t.next);
      var t' := RefreshWith(w, t, h, part, offset, Entry(w, part, offset));
      && t'.Shape(w.pp) && StoreKept(w.pp, t, t')
      && (j < w.pp.BackupsEnd() ==>
            t'.next == j + 1 && OthersKept(w.pp, t, t', h) && Rewritten(w.pp, t', h, j, part, offset))
      && (j == w.pp.BackupsEnd() ==> t'.next == j)
  {
    var j := NextValid(w.pp, t.cutoff, t.next);
    if j < w.pp.BackupsEnd() {
      BackupUsable(w, t, j, ExcludingSide(w.f, t.cutoff, j, part));
      ReplenishFrame(w.pp, w.f, t, h, j, part, offset, Entry(w, part, offset));
    }
  }

  /** What one step takes: an answer consumes the least valid backup that is left
      and the next encryption of zero, and rewrites one slot only. */
  lemma StepUses(w: World, s: Client, r: Request)
    requires w.Valid() && Budget(w) && ClientOk(w, s) && RequestOk(w, r)
    ensures var (s', o) := Step(w, s, r);
      && ClientOk(w, s') && s'.zeros == s.zeros && StoreKept(w.pp, s.table, s'.table)
      && s.table.next <= s'.table.next && s.zeroNext <= s'.zeroNext
      && (o == NoHint ==> s' == s)
      && (o.Answered? ==>
          && o.zero == s.zeroNext && s'.zeroNext == o.zero + 1
          && o.backup == NextValid(w.pp, s.table.cutoff, s.table.next) && s'.table.next == o.backup + 1
          && o.slot < w.pp.M()
          && Rewritten(w.pp, s'.table, o.slot, o.backup, PartOf(w.pp, r.query), OffsetOf(w.pp, r.query))
          && OthersKept(w.pp, s.table, s'.table, o.slot))
  {
    hide EncodesWithin, Decoded, RefreshWith, PartOf, OffsetOf, DummiesUsed;
    StepKeeps(w, s, r);
    var part, offset := PartOf(w.pp, r.query), OffsetOf(w.pp, r.query);
    var h := FindHint(w.pp, w.f, s.table, part, offset, 0);
    if h < w.pp.M() && s.zeroNext < |s.zeros| {
      assert w.Holds(s.zeros[s.zeroNext], 0, w.encBound);
      DecodedIsEntry(w, s.table, h, part, offset, s.dummyUsed, s.zeros[s.zeroNext], r);
      RefreshUses(w, s.table, h, part, offset);
    }
  }

  /** A query that finds a hint draws a dummy index for half of the partitions, however
      it ends; one without a hint draws none. */
  lemma StepDummies(w: World, s: Client, r: Request)
    requires w.Valid() && Budget(w) && ClientOk(w, s) && RequestOk(w, r)
    ensures var (s', o) := Step(w, s, r); s'.dummyUsed == s.dummyUsed + (if o == NoHint then 0 else Half(w.pp))
  {
    hide EncodesWithin, Decoded, RefreshWith, Ending, PartOf, OffsetOf, Half, DummiesBefore;
    var part, offset := PartOf(w.pp, r.query), OffsetOf(w.pp, r.query);
    var h := FindHint(w.pp, w.f, s.table, part, offset, 0);
    StepOutcome(w, s, r);
    FindHintExact(w, s.table, r.query);
    if h < w.pp.M() {
      assert SlotOk(w, s.table, h);
      SlotHolds(w, s.table, h);
      DummiesAreHalf(w, s.table, h, part, offset);
    }
  }

  ghost function WithHint(os: seq<Outcome>): nat {
    if os == [] then 0 else (if os[0] == NoHint then 0 else 1) + WithHint(os[1..])
  }

  /** So a run's dummy indices are counted by its queries with a hint. */
  lemma {:induction false} RunDummies(w: World, s: Client, rs: seq<Request>)
    requires w.Valid() && Budget(w) && ClientOk(w, s) && RequestsOk(w, rs)
    ensures var (last, os) := Run(w, s, rs); last.dummyUsed == s.dummyUsed + Times(WithHint(os), Half(w.pp))
    decreases rs
  {
    hide Step, Half, EncodesWithin, ClientOk;
    if rs != [] {
      StepDummies(w, s, rs[0]);
      var (s', o) := Step(w, s, rs[0]);
      RunUnfolds(w, s, rs, s', o);
      hide Run;
      if o.Stops() {
        assert [o][1..] == [];
      } else {
        RunDummies(w, s', rs[1..]);
        assert ([o] + Run(w, s', rs[1..]).1)[1..] == Run(w, s', rs[1..]).1;
      }
    }
  }

  /** The backups used by a list of outcomes lie in [from, to) and increase; so do
      the encryptions of zero. */
  ghost predicate Disciplined(os: seq<Outcome>, next: nat, end: nat, zeroNext: nat) {
    && (forall i :: 0 <= i < |os| && os[i].Answered? ==> next <= os[i].backup < end && zeroNext <= os[i].zero)
    && (forall i, k :: 0 <= i < k < |os| && os[i].Answered? && os[k].Answered?
          ==> os[i].backup < os[k].backup && os[i].zero < os[k].zero)
  }

  lemma DisciplinedCons(o: Outcome, os: seq<Outcome>, next: nat, end: nat, zeroNext: nat, next': nat, zeroNext': nat)
    requires Disciplined(os, next', end, zeroNext') && next <= next' && zeroNext <= zeroNext'
    requires o.Answered? ==> next <= o.backup < next' <= end && zeroNext <= o.zero < zeroNext'
    ensures Disciplined([o] + os, next, end, zeroNext)
  {
    var all := [o] + os;
    forall i | 0 <= i < |all| && all[i].Answered?
      ensures next <= all[i].backup < end && zeroNext <= all[i].zero
    {
      assert i > 0 ==> all[i] == os[i - 1];
    }
    forall i, k | 0 <= i < k < |all| && all[i].Answered? && all[k].Answered?
      ensures all[i].backup < all[k].backup && all[i].zero < all[k].zero
    {
      assert all[k] == os[k - 1];
      assert i > 0 ==> all[i] == os[i - 1];
    }
  }

  /** Over any run every backup and every encryption of zero is used at most once,
      in increasing order, and a backup's parities stay as Offline left them until
      it is used. */
  lemma {:induction false} RunDisciplined(w: World, s: Client, rs: seq<Request>)
    requires w.Valid() && Budget(w) && ClientOk(w, s) && RequestsOk(w, rs)
    ensures var (last, os) := Run(w, s, rs);
      && ClientOk(w, last) && last.zeros == s.zeros && StoreKept(w.pp, s.table, last.table)
      && s.table.next <= last.table.next
      && Disciplined(os, s.table.next, last.table.next, s.zeroNext)
    decreases rs
  {
    if rs != [] {
      StepUses(w, s, rs[0]);
      var (s', o) := Step(w, s, rs[0]);
      if o.Stops() {
        DisciplinedCons(o, [], s.table.next, s'.table.next, s.zeroNext, s'.table.next, s'.zeroNext);
        assert [o] + [] == [o];
      } else {
        RunDisciplined(w, s', rs[1..]);
        var (last, os) := Run(w, s', rs[1..]);
        DisciplinedCons(o, os, s.table.next, last.table.next, s.zeroNext, s'.table.next, s'.zeroNext);
      }
    }
  }

  /** Noise does not grow: after any run, however long, the parity of every valid
      slot carries its sum within the bounds of partNum / 2 + 2 encryptions. */
  lemma NoiseNeverGrows(w: World, s: Client, rs: seq<Request>, h: nat)
    requires w.Valid() && Budget(w) && ClientOk(w, s) && RequestsOk(w, rs) && h < w.pp.M()
    ensures ClientOk(w, Run(w, s, rs).0)
    ensures var t := Run(w, s, rs).0.table;
      t.Shape(w.pp) && (t.cutoff[h] != 0 ==>
        ActiveShape(w, t, h) && w.Holds(t.parity[h], SlotSum(w, t, h), Times(Half(w.pp) + 2, w.encBound)))
  {
    hide Run, EncodesWithin, TableOk, ActiveShape, SlotSum;
    RunCorrect(w, s, rs);
    TableShape(w, Run(w, s, rs).0.table);
    if Run(w, s, rs).0.table.cutoff[h] != 0 {
      SlotNoise(w, Run(w, s, rs).0.table, h);
    }
  }

  lemma TableShape(w: World, t: Table)
    requires w.Valid() && TableOk(w, t)
    ensures t.Shape(w.pp)
  {
  }

  lemma SlotNoise(w: World, t: Table, h: nat)
    requires w.Valid() && TableOk(w, t) && h < w.pp.M() && t.cutoff[h] != 0
    ensures ActiveShape(w, t, h) && w.Holds(t.parity[h], SlotSum(w, t, h), Times(Half(w.pp) + 2, w.encBound))
  {
    hide EncodesWithin, BackupOk, IdsOk, HintOk, Times, SlotSum, ActiveShape, Half;
    assert SlotOk(w, t, h);
    SlotHolds(w, t, h);
  }

  /** What a valid slot holds fits the widths of the program's arrays. */
  lemma WidthsSuffice(w: World, t: Table, h: nat)
    requires w.Valid() && TableOk(w, t) && h < w.pp.M() && t.cutoff[h] != 0
    ensures t.hintId[h] < 0x1_0000_0000 && t.cutoff[h] < 0x1_0000_0000
    ensures t.extraPart[h] < 0x1_0000 && t.extraOffset[h] < 0x1_0000
  {
    hide EncodesWithin, IsMedian, HeavyTail;
    assert SlotOk(w, t, h);
    CutoffHalves(SelectValues(w.f, t.hintId[h], w.pp.partNum));
  }

  // Asking again.

  /** After an answer the refreshed slot covers the same index. */
  lemma StepCoversAgain(w: World, s: Client, r: Request)
    requires w.Valid() && Budget(w) && ClientOk(w, s) && RequestOk(w, r)
    requires Step(w, s, r).1.Answered?
    ensures ClientOk(w, Step(w, s, r).0)
    ensures Covered(w, Step(w, s, r).0.table, r.query)
  {
    hide Step, PartOf, OffsetOf;
    StepUses(w, s, r);
    var h := Step(w, s, r).1.slot;
    assert Covers(w.pp, w.f, Step(w, s, r).0.table, PartOf(w.pp, r.query), OffsetOf(w.pp, r.query), h);
  }

  /** A covered index is not skipped, and stays covered unless the step stops. */
  lemma StepRepeats(w: World, s: Client, r: Request)
    requires w.Valid() && Budget(w) && ClientOk(w, s) && RequestOk(w, r) && Covered(w, s.table, r.query)
    ensures ClientOk(w, Step(w, s, r).0) && Step(w, s, r).1 != NoHint
    ensures !Step(w, s, r).1.Stops() ==> Covered(w, Step(w, s, r).0.table, r.query)
  {
    StepOutcome(w, s, r);
    StepKeeps(w, s, r);
    if Step(w, s, r).1.Answered? {
      StepCoversAgain(w, s, r);
    }
  }

  /** Repeating one covered index never meets "no hint", however long the run. */
  lemma {:induction false} RunRepeats(w: World, s: Client, rs: seq<Request>, query: nat)
    requires w.Valid() && Budget(w) && ClientOk(w, s) && RequestsOk(w, rs)
    requires forall i :: 0 <= i < |rs| ==> rs[i].query == query
    requires PartOf(w.pp, query) < w.pp.partNum && Covered(w, s.table, query)
    ensures NoHint !in Run(w, s, rs).1
    decreases rs
  {
    hide Step;
    if rs != [] {
      StepRepeats(w, s, rs[0]);
      if !Step(w, s, rs[0]).1.Stops() {
        RunRepeats(w, Step(w, s, rs[0]).0, rs[1..], query);
      }
    }
  }

  // Getting through.

  /** How many valid backups are left from position j on. */
  ghost function ValidLeft(pp: Params, cutoff: seq<nat>, j: nat): nat
    requires |cutoff| == pp.Slots() && j <= pp.BackupsEnd()
    decreases pp.BackupsEnd() - j
  {
    if j == pp.BackupsEnd() then 0
    else (if cutoff[j] != 0 then 1 else 0) + ValidLeft(pp, cutoff, j + 1)
  }

  /** Skipping invalid backups loses none. */
  lemma {:induction false} ValidLeftSkips(pp: Params, cutoff: seq<nat>, j: nat)
    requires |cutoff| == pp.Slots() && j <= pp.BackupsEnd()
    ensures ValidLeft(pp, cutoff, NextValid(pp, cutoff, j)) == ValidLeft(pp, cutoff, j)
    decreases pp.BackupsEnd() - j
  {
    if j < pp.BackupsEnd() && cutoff[j] == 0 {
      ValidLeftSkips(pp, cutoff, j + 1);
    }
  }

  /** The loop that skips invalid backups stops at a cutoff Offline has written
      exactly when a valid backup is left. */
  lemma SkipStaysInsideIff(pp: Params, cutoff: seq<nat>, next: nat)
    requires |cutoff| == pp.Slots() && next <= pp.BackupsEnd()
    ensures NextValid(pp, cutoff, next) < pp.BackupsEnd() <==> 0 < ValidLeft(pp, cutoff, next)
  {
    ValidLeftSkips(pp, cutoff, next);
  }

  /** The position just after the n-th valid backup from j on, or the end. */
  ghost function AfterValid(pp: Params, cutoff: seq<nat>, j: nat, n: nat): (r: nat)
    requires |cutoff| == pp.Slots() && j <= pp.BackupsEnd()
    ensures j <= r <= pp.BackupsEnd()
    decreases n
  {
    if n == 0 then j
    else
      var v := NextValid(pp, cutoff, j);
      if v == pp.BackupsEnd() then v else AfterValid(pp, cutoff, v + 1, n - 1)
  }

  lemma {:induction false} AfterValidKept(pp: Params, cutoff: seq<nat>, cutoff': seq<nat>, j: nat, n: nat)
    requires |cutoff| == |cutoff'| == pp.Slots() && j <= pp.BackupsEnd()
    requires forall k :: j <= k < pp.BackupsEnd() ==> cutoff'[k] == cutoff[k]
    ensures AfterValid(pp, cutoff', j, n) == AfterValid(pp, cutoff, j, n)
    decreases n
  {
    if n != 0 {
      NextValidKept(pp, cutoff, cutoff', j);
      var v := NextValid(pp, cutoff, j);
      if v != pp.BackupsEnd() {
        AfterValidKept(pp, cutoff, cutoff', v + 1, n - 1);
      }
    }
  }

  lemma {:induction false} NextValidKept(pp: Params, cutoff: seq<nat>, cutoff': seq<nat>, j: nat)
    requires |cutoff| == |cutoff'| == pp.Slots() && j <= pp.BackupsEnd()
    requires forall k :: j <= k < pp.BackupsEnd() ==> cutoff'[k] == cutoff[k]
    ensures NextValid(pp, cutoff', j) == NextValid(pp, cutoff, j)
    decreases pp.BackupsEnd() - j
  {
    if j < pp.BackupsEnd() && cutoff[j] == 0 {
      NextValidKept(pp, cutoff, cutoff', j + 1);
    }
  }

  lemma {:induction false} AfterValidMonotone(pp: Params, cutoff: seq<nat>, j: nat, n: nat)
    requires |cutoff| == pp.Slots() && j <= pp.BackupsEnd()
    ensures AfterValid(pp, cutoff, j, n) <= AfterValid(pp, cutoff, j, n + 1)
    decreases n
  {
    if n != 0 {
      var v := NextValid(pp, cutoff, j);
      if v != pp.BackupsEnd() {
        AfterValidMonotone(pp, cutoff, v + 1, n - 1);
      }
    }
  }

  /** What n answers need: n encryptions of zero, and the n-th valid backup from
      next on before the last backup. */
  ghost predicate EnoughFor(w: World, s: Client, n: nat)
    requires w.Valid() && ClientOk(w, s)
  {
    n == 0
    || (s.zeroNext + n <= |s.zeros| && AfterValid(w.pp, s.table.cutoff, s.table.next, n) < w.pp.BackupsEnd())
  }

  /** The valid backups from position j on, but for the last position. */
  ghost function ValidBackups(pp: Params, cutoff: seq<nat>, j: nat): set<int>
    requires |cutoff| == pp.Slots()
  {
    set i | j <= i < pp.BackupsEnd() - 1 && cutoff[i] != 0
  }

  lemma ValidBackupsSkip(pp: Params, cutoff: seq<nat>, j: nat)
    requires |cutoff| == pp.Slots() && j <= pp.BackupsEnd()
    ensures var v := NextValid(pp, cutoff, j);
      ValidBackups(pp, cutoff, j) == if v + 1 < pp.BackupsEnd() then {v} + ValidBackups(pp, cutoff, v + 1) else {}
  {
  }

  lemma {:induction false} AfterValidCounts(pp: Params, cutoff: seq<nat>, j: nat, n: nat)
    requires |cutoff| == pp.Slots() && j <= pp.BackupsEnd() && 0 < n
    ensures AfterValid(pp, cutoff, j, n) < pp.BackupsEnd() <==> n <= |ValidBackups(pp, cutoff, j)|
    decreases n
  {
    hide ValidBackups;
    ValidBackupsSkip(pp, cutoff, j);
    var v := NextValid(pp, cutoff, j);
    if v < pp.BackupsEnd() {
      BackupsAhead(pp, cutoff, v);
      if n > 1 {
        ValidBackupsSkip(pp, cutoff, v + 1);
        AfterValidCounts(pp, cutoff, v + 1, n - 1);
      } else {
        assert AfterValid(pp, cutoff, v + 1, 0) == v + 1;
      }
    }
  }

  lemma BackupsAhead(pp: Params, cutoff: seq<nat>, v: nat)
    requires |cutoff| == pp.Slots()
    ensures v !in ValidBackups(pp, cutoff, v + 1)
  {
  }

  /** What n answers need, counted: n encryptions of zero, and n valid backups before
      the last position. */
  lemma EnoughForIff(w: World, s: Client, n: nat)
    requires w.Valid() && ClientOk(w, s) && 0 < n
    ensures EnoughFor(w, s, n) <==>
      s.zeroNext + n <= |s.zeros| && n <= |ValidBackups(w.pp, s.table.cutoff, s.table.next)|
  {
    hide AfterValid, ValidBackups, SlotOk, BackupOk, IdsOk;
    AfterValidCounts(w.pp, s.table.cutoff, s.table.next, n);
  }

  lemma StepEnough(w: World, s: Client, r: Request, n: nat)
    requires w.Valid() && Budget(w) && ClientOk(w, s) && RequestOk(w, r) && EnoughFor(w, s, n + 1)
    ensures !Step(w, s, r).1.Stops()
    ensures ClientOk(w, Step(w, s, r).0) && EnoughFor(w, Step(w, s, r).0, n)
  {
    hide Step, SlotOk, BackupOk, IdsOk, EncodesWithin, PartOf, OffsetOf, Covered, Rewritten, OthersKept, Wanted;
    StepOutcome(w, s, r);
    StepUses(w, s, r);
    var s', j := Step(w, s, r).0, NextValid(w.pp, s.table.cutoff, s.table.next);
    AfterValidMonotone(w.pp, s.table.cutoff, s.table.next, n);
    if j < w.pp.BackupsEnd() {
      AfterValidKept(w.pp, s.table.cutoff, s'.table.cutoff, j + 1, n);
    }
  }

  lemma StepNeeds(w: World, s: Client, r: Request, n: nat)
    requires w.Valid() && Budget(w) && ClientOk(w, s) && RequestOk(w, r) && Step(w, s, r).1.Answered?
    requires ClientOk(w, Step(w, s, r).0) && EnoughFor(w, Step(w, s, r).0, n)
    ensures EnoughFor(w, s, n + 1)
  {
    hide Step, SlotOk, BackupOk, IdsOk, EncodesWithin, PartOf, OffsetOf, Covered, Rewritten, OthersKept, Wanted;
    StepOutcome(w, s, r);
    StepUses(w, s, r);
    var s', j := Step(w, s, r).0, NextValid(w.pp, s.table.cutoff, s.table.next);
    AfterValidKept(w.pp, s.table.cutoff, s'.table.cutoff, j + 1, n);
  }

  /** With enough for all requests a run is never stopped: every request is answered
      or has no hint. */
  lemma {:induction false} RunGetsThrough(w: World, s: Client, rs: seq<Request>)
    requires w.Valid() && Budget(w) && ClientOk(w, s) && RequestsOk(w, rs) && EnoughFor(w, s, |rs|)
    ensures var os := Run(w, s, rs).1;
      |os| == |rs| && forall i :: 0 <= i < |os| ==> os[i].Answered? || os[i] == NoHint
    decreases rs
  {
    hide Step, EnoughFor;
    if rs != [] {
      StepKeeps(w, s, rs[0]);
      StepEnough(w, s, rs[0], |rs| - 1);
      RunGetsThrough(w, Step(w, s, rs[0]).0, rs[1..]);
    }
  }

  ghost predicate AllAnswered(os: seq<Outcome>, n: nat) {
    |os| == n && forall i :: 0 <= i < n ==> os[i].Answered?
  }

  /** Without enough, some request is not answered. */
  lemma {:induction false} RunNeeds(w: World, s: Client, rs: seq<Request>)
    requires w.Valid() && Budget(w) && ClientOk(w, s) && RequestsOk(w, rs)
    requires AllAnswered(Run(w, s, rs).1, |rs|)
    ensures EnoughFor(w, s, |rs|)
    decreases rs
  {
    hide Step;
    if rs != [] {
      var (s', o) := Step(w, s, rs[0]);
      RunUnfolds(w, s, rs, s', o);
      hide Run, EnoughFor;
      var os := Run(w, s', rs[1..]).1;
      assert ([o] + os)[1..] == os;
      assert Run(w, s, rs).1[0] == o;
      RunNeeds(w, s', rs[1..]);
      StepNeeds(w, s, rs[0], |rs| - 1);
    }
  }

  /** Exactly when a run of covered queries is answered throughout. */
  lemma RunAnsweredIff(w: World, s: Client, rs: seq<Request>)
    requires w.Valid() && Budget(w) && ClientOk(w, s) && RequestsOk(w, rs)
    requires NoHint !in Run(w, s, rs).1
    ensures AllAnswered(Run(w, s, rs).1, |rs|) <==> EnoughFor(w, s, |rs|)
  {
    hide Step, Run, EnoughFor;
    if EnoughFor(w, s, |rs|) {
      RunGetsThrough(w, s, rs);
      var os := Run(w, s, rs).1;
      forall i | 0 <= i < |rs|
        ensures os[i].Answered?
      {
        assert os[i] in os;
      }
    }
    if AllAnswered(Run(w, s, rs).1, |rs|) {
      RunNeeds(w, s, rs);
    }
  }

  /** The main loop makes partSize queries with partSize encryptions of zero, so
      no query of it finds the cache exhausted. */
  lemma {:induction false} ZerosSuffice(w: World, s: Client, rs: seq<Request>)
    requires w.Valid() && Budget(w) && ClientOk(w, s) && RequestsOk(w, rs)
    requires s.zeroNext + |rs| <= |s.zeros|
    ensures ZerosExhausted !in Run(w, s, rs).1
    decreases rs
  {
    hide Step;
    if rs != [] {
      StepOutcome(w, s, rs[0]);
      StepUses(w, s, rs[0]);
      StepKeeps(w, s, rs[0]);
      StepZero(w, s, rs[0]);
      var (s', o) := Step(w, s, rs[0]);
      if !o.Stops() {
        ZerosSuffice(w, s', rs[1..]);
      }
    }
  }

  lemma StepZero(w: World, s: Client, r: Request)
    requires w.Valid() && ClientOk(w, s) && RequestOk(w, r)
    ensures Step(w, s, r).0.zeroNext <= s.zeroNext + 1
  {
  }

  /** A covered index, asked again and again, is answered every time exactly when
      the supplies last, and then always correctly. */
  lemma RepeatedIndexAnswered(w: World, s: Client, rs: seq<Request>, query: nat)
    requires w.Valid() && Budget(w) && ClientOk(w, s) && RequestsOk(w, rs)
    requires forall i :: 0 <= i < |rs| ==> rs[i].query == query
    requires PartOf(w.pp, query) < w.pp.partNum && Covered(w, s.table, query)
    ensures AllAnswered(Run(w, s, rs).1, |rs|) <==> EnoughFor(w, s, |rs|)
    ensures EnoughFor(w, s, |rs|) ==> forall i :: 0 <= i < |rs| ==> Run(w, s, rs).1[i].value == Wanted(w, query)
  {
    hide Run, Step, EncodesWithin, Wanted, EnoughFor;
    RunCorrect(w, s, rs);
    RunRepeats(w, s, rs, query);
    RunAnsweredIff(w, s, rs);
  }

  // The program's own test for "no hint".

  /** client_main.cpp skips the query when the index is at least the number of
      parities, 2 * M. */
  predicate SkippedByMain(pp: Params, h: nat) { h >= pp.Slots() }

  /** How an iteration of the main loop as written ends: as the step says, or, when
      it goes on with slot M + 1, past the end of the hint arrays, where the program's
      behaviour is not defined. */
  datatype MainOutcome = Ended(outcome: Outcome) | PastHints

  /** One iteration of the main loop with its own test. */
  ghost function MainStep(w: World, s: Client, r: Request): (Client, MainOutcome)
    requires w.Valid() && ClientOk(w, s) && RequestOk(w, r)
  {
    var h := FindHint(w.pp, w.f, s.table, PartOf(w.pp, r.query), OffsetOf(w.pp, r.query), 0);
    if SkippedByMain(w.pp, h) then (s, Ended(NoHint))
    else if h >= w.pp.M() then (s, PastHints)
    else (Step(w, s, r).0, Ended(Step(w, s, r).1))
  }

  /** It is the step exactly when some slot covers the index. */
  lemma MainStepIff(w: World, s: Client, r: Request)
    requires w.Valid() && Budget(w) && ClientOk(w, s) && RequestOk(w, r)
    ensures ClientOk(w, MainStep(w, s, r).0)
    ensures MainStep(w, s, r) == (Step(w, s, r).0, Ended(Step(w, s, r).1)) <==> Covered(w, s.table, r.query)
    ensures MainStep(w, s, r).1 == PastHints <==> !Covered(w, s.table, r.query)
    ensures MainStep(w, s, r).1 == PastHints <==> Step(w, s, r).1 == NoHint
  {
    hide Step, PartOf, OffsetOf;
    FindHintExact(w, s.table, r.query);
    StepOutcome(w, s, r);
    StepKeeps(w, s, r);
  }

  /** The main loop with its own test. */
  ghost function MainRun(w: World, s: Client, rs: seq<Request>): seq<MainOutcome>
    requires w.Valid() && Budget(w) && ClientOk(w, s) && RequestsOk(w, rs)
    decreases rs
  {
    if rs == [] then []
    else
      MainStepIff(w, s, rs[0]);
      var (s', o) := MainStep(w, s, rs[0]);
      if o == PastHints || o.outcome.Stops() then [o] else [o] + MainRun(w, s', rs[1..])
  }

  ghost function UpToNoHint(os: seq<Outcome>): seq<MainOutcome> {
    if os == [] then []
    else if os[0] == NoHint then [PastHints]
    else [Ended(os[0])] + UpToNoHint(os[1..])
  }

  /** The main loop as written does what the run does, up to the first query without
      a hint, and leaves its defined behaviour there. */
  lemma {:induction false} MainRunExact(w: World, s: Client, rs: seq<Request>)
    requires w.Valid() && Budget(w) && ClientOk(w, s) && RequestsOk(w, rs)
    ensures MainRun(w, s, rs) == UpToNoHint(Run(w, s, rs).1)
    decreases rs
  {
    hide Step, MainStep;
    if rs != [] {
      MainStepIff(w, s, rs[0]);
      var (s', o) := Step(w, s, rs[0]);
      RunUnfolds(w, s, rs, s', o);
      StepOutcome(w, s, rs[0]);
      hide Run;
      if o.Stops() {
        assert [o][1..] == [];
      } else if o != NoHint {
        MainRunExact(w, s', rs[1..]);
        assert ([o] + Run(w, s', rs[1..]).1)[1..] == Run(w, s', rs[1..]).1;
      }
    }
  }

  /** Every answer of the main loop as written is the entry asked for. */
  lemma MainRunCorrect(w: World, s: Client, rs: seq<Request>, i: nat)
    requires w.Valid() && Budget(w) && ClientOk(w, s) && RequestsOk(w, rs)
    requires i < |MainRun(w, s, rs)| && MainRun(w, s, rs)[i].Ended? && MainRun(w, s, rs)[i].outcome.Answered?
    ensures i < |rs| && MainRun(w, s, rs)[i].outcome.value == Wanted(w, rs[i].query)
  {
    hide MainRun, Run, Wanted;
    MainRunExact(w, s, rs);
    RunCorrect(w, s, rs);
    PrefixOutcome(Run(w, s, rs).1, i);
  }

  lemma {:induction false} PrefixOutcome(os: seq<Outcome>, i: nat)
    requires i < |UpToNoHint(os)|
    ensures i < |os| && UpToNoHint(os)[i] == if os[i] == NoHint then PastHints else Ended(os[i])
    decreases os
  {
    if i > 0 {
      PrefixOutcome(os[1..], i - 1);
    }
  }

  /** The test on the number of parities is right exactly when there is a hint:
      "no hint" is M + 1, which it never catches. */
  lemma MainGuardExact(w: World, t: Table, query: nat)
    requires w.Valid() && t.Shape(w.pp)
    ensures var h := FindHint(w.pp, w.f, t, PartOf(w.pp, query), OffsetOf(w.pp, query), 0);
      (SkippedByMain(w.pp, h) <==> !Covered(w, t, query)) <==> Covered(w, t, query)
  {
    FindHintExact(w, t, query);
  }
}
