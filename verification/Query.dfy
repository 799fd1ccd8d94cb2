/** The query built from a hint: its selector bits and offsets, the group it
    hides, and its balance (src/client_main.cpp). */
module Query {
  import opened ModArith
  import opened Cutoff
  import opened Prf
  import opened Hints
  import opened Encoding

  /** A slot that can be turned into a query. */
  ghost predicate Askable(w: World, t: Table, h: nat, part: nat)
    requires w.Valid() && t.Shape(w.pp)
  {
    h < w.pp.M() && part < w.pp.partNum && ActiveShape(w, t, h)
  }

  /** The group of partition k before the random flip: the queried partition
      goes to the dummy group, the extra partition to the real one. */
  function QueryBit(f: PrfFn, t: Table, h: nat, part: nat, k: nat): bool
    requires h < |t.hintId| && h < |t.extraPart| && h < |t.cutoff| && h / 8 < |t.indicator|
  {
    if k == part then !t.Ind(h)
    else if t.extraPart[h] == k then t.Ind(h)
    else Prf4Select(f, t.hintId[h], k, t.cutoff[h])
  }

  /** How many of the first k partitions get a dummy offset. */
  function DummiesBefore(f: PrfFn, t: Table, h: nat, part: nat, k: nat): nat
    requires h < |t.hintId| && h < |t.extraPart| && h < |t.cutoff| && h / 8 < |t.indicator|
  {
    if k == 0 then 0
    else DummiesBefore(f, t, h, part, k - 1) + (if QueryBit(f, t, h, part, k - 1) == t.Ind(h) then 0 else 1)
  }

  /** The offset sent for partition k, when c dummy indices were used before. */
  function QueryOffset(f: PrfFn, partSize: nat, t: Table, h: nat, part: nat, c: nat, k: nat): nat
    requires h < |t.hintId| && h < |t.extraPart| && h < |t.extraOffset| && h < |t.cutoff| && h / 8 < |t.indicator|
    requires 0 < partSize
  {
    if QueryBit(f, t, h, part, k) != t.Ind(h) then DummyIdx(f, c + DummiesBefore(f, t, h, part, k)) % partSize
    else if t.extraPart[h] == k then t.extraOffset[h]
    else Prf4Idx(f, t.hintId[h], k) % partSize
  }

  function QueryBits(pp: Params, f: PrfFn, t: Table, h: nat, part: nat, flip: bool): (bits: seq<bool>)
    requires t.Shape(pp) && h < pp.M()
    ensures |bits| == pp.partNum
    ensures forall k :: 0 <= k < pp.partNum ==> bits[k] == (QueryBit(f, t, h, part, k) != flip)
  {
    seq(pp.partNum, k requires 0 <= k < pp.partNum => QueryBit(f, t, h, part, k) != flip)
  }

  function QueryOffsets(pp: Params, f: PrfFn, t: Table, h: nat, part: nat, c: nat): (offs: seq<nat>)
    requires t.Shape(pp) && h < pp.M() && 0 < pp.partSize
    ensures |offs| == pp.partNum
    ensures forall k :: 0 <= k < pp.partNum ==> offs[k] == QueryOffset(f, pp.partSize, t, h, part, c, k)
  {
    seq(pp.partNum, k requires 0 <= k < pp.partNum => QueryOffset(f, pp.partSize, t, h, part, c, k))
  }

  /** The entries the server adds up for one group. */
  ghost function GroupTerms(w: World, bits: seq<bool>, offs: seq<nat>, group: bool): (s: seq<int>)
    requires w.Valid() && |bits| == |offs| == w.pp.partNum
    requires forall k :: 0 <= k < |offs| ==> offs[k] < w.pp.partSize
    ensures |s| == w.pp.partNum
    ensures forall k :: 0 <= k < |s| ==> s[k] == if bits[k] == group then Entry(w, k, offs[k]) else 0
  {
    seq(w.pp.partNum, k requires 0 <= k < w.pp.partNum => if bits[k] == group then Entry(w, k, offs[k]) else 0)
  }

  ghost function GroupSum(w: World, bits: seq<bool>, offs: seq<nat>, group: bool): int
    requires w.Valid() && |bits| == |offs| == w.pp.partNum
    requires forall k :: 0 <= k < |offs| ==> offs[k] < w.pp.partSize
  {
    Sum(GroupTerms(w, bits, offs, group))
  }

  lemma OffsetsInRange(w: World, t: Table, h: nat, part: nat, c: nat)
    requires w.Valid() && t.Shape(w.pp) && Askable(w, t, h, part)
    ensures forall k :: 0 <= k < w.pp.partNum ==> QueryOffsets(w.pp, w.f, t, h, part, c)[k] < w.pp.partSize
  {
  }

  /** Partition k's share of the hint without the queried entry. */
  ghost function RealTerm(w: World, t: Table, h: nat, part: nat, k: nat): int
    requires w.Valid() && t.Shape(w.pp) && Askable(w, t, h, part) && k < w.pp.partNum
  {
    if k == part then 0
    else if k == t.extraPart[h] then Entry(w, k, t.extraOffset[h])
    else Term(w, t.hintId[h], t.cutoff[h], t.Ind(h), k)
  }

  /** Removing the queried term and placing the extra one. */
  lemma TermsExchanged(w: World, t: Table, h: nat, part: nat, offset: nat, kept: seq<int>)
    requires w.Valid() && t.Shape(w.pp) && Askable(w, t, h, part) && offset < w.pp.partSize
    requires SlotOk(w, t, h) && Covers(w.pp, w.f, t, part, offset, h)
    requires |kept| == w.pp.partNum
    requires forall k :: 0 <= k < w.pp.partNum ==> kept[k] == RealTerm(w, t, h, part, k)
    ensures Sum(kept) == SlotSum(w, t, h) - Entry(w, part, offset)
  {
    var id, cut, ind, e := t.hintId[h], t.cutoff[h], t.Ind(h), t.extraPart[h];
    var terms := Terms(w, id, cut, ind);
    assert terms[part] == Term(w, id, cut, ind, part);
    assert terms[e] == Term(w, id, cut, ind, e) == 0;
    if e == part {
      assert kept == terms;
    } else {
      var extra := Entry(w, e, t.extraOffset[h]);
      assert kept == terms[part := 0][e := extra];
      SumUpdate(terms, part, 0);
      SumUpdate(terms[part := 0], e, extra);
    }
  }

  /** The real group is the hint's covered set without the queried entry. */
  lemma RealGroupSum(w: World, t: Table, h: nat, part: nat, offset: nat, c: nat, flip: bool)
    requires w.Valid() && t.Shape(w.pp) && Askable(w, t, h, part) && offset < w.pp.partSize
    requires SlotOk(w, t, h) && Covers(w.pp, w.f, t, part, offset, h)
    ensures forall k :: 0 <= k < w.pp.partNum ==> QueryOffsets(w.pp, w.f, t, h, part, c)[k] < w.pp.partSize
    ensures GroupSum(w, QueryBits(w.pp, w.f, t, h, part, flip), QueryOffsets(w.pp, w.f, t, h, part, c),
                     t.Ind(h) != flip)
         == SlotSum(w, t, h) - Entry(w, part, offset)
  {
    OffsetsInRange(w, t, h, part, c);
    var bits, offs := QueryBits(w.pp, w.f, t, h, part, flip), QueryOffsets(w.pp, w.f, t, h, part, c);
    var kept := GroupTerms(w, bits, offs, t.Ind(h) != flip);
    forall k | 0 <= k < w.pp.partNum
      ensures kept[k] == RealTerm(w, t, h, part, k)
    {
      assert bits[k] == (QueryBit(w.f, t, h, part, k) != flip);
      assert offs[k] == QueryOffset(w.f, w.pp.partSize, t, h, part, c, k);
    }
    TermsExchanged(w, t, h, part, offset, kept);
  }

  // Balance.

  ghost function CountTrue(s: seq<bool>): nat {
    if s == [] then 0 else CountTrue(s[..|s| - 1]) + (if s[|s| - 1] then 1 else 0)
  }

  lemma {:induction false} CountTrueUpdate(s: seq<bool>, i: nat, v: bool)
    requires i < |s|
    ensures CountTrue(s[i := v]) + (if s[i] then 1 else 0) == CountTrue(s) + (if v then 1 else 0)
  {
    if i == |s| - 1 {
      assert s[i := v][..i] == s[..i];
    } else {
      CountTrueUpdate(s[..|s| - 1], i, v);
      assert s[i := v][..|s| - 1] == s[..|s| - 1][i := v];
    }
  }

  lemma {:induction false} CountTrueFlip(s: seq<bool>, r: seq<bool>)
    requires |s| == |r| && forall k :: 0 <= k < |s| ==> r[k] == !s[k]
    ensures CountTrue(s) + CountTrue(r) == |s|
  {
    if s != [] {
      CountTrueFlip(s[..|s| - 1], r[..|r| - 1]);
    }
  }

  /** The select bits of a hint, partition by partition. */
  ghost function SelectBits(f: PrfFn, partNum: nat, id: nat, cutoff: nat): (s: seq<bool>)
    ensures |s| == partNum
    ensures forall k :: 0 <= k < partNum ==> s[k] == Prf4Select(f, id, k, cutoff)
  {
    seq(partNum, k requires 0 <= k => Prf4Select(f, id, k, cutoff))
  }

  lemma {:induction false} SelectedCount(f: PrfFn, partNum: nat, id: nat, cutoff: nat)
    ensures CountTrue(SelectBits(f, partNum, id, cutoff)) == Count(SelectValues(f, id, partNum), 0, cutoff)
  {
    if partNum != 0 {
      SelectedCount(f, partNum - 1, id, cutoff);
      assert SelectBits(f, partNum, id, cutoff)[..partNum - 1] == SelectBits(f, partNum - 1, id, cutoff);
      assert SelectValues(f, id, partNum)[..partNum - 1] == SelectValues(f, id, partNum - 1);
    }
  }

  /** A hint selects the partitions with the smaller select values. */
  lemma SelectedAreSmaller(f: PrfFn, id: nat, cutoff: nat, k: nat, j: nat)
    requires Prf4Select(f, id, k, cutoff) && !Prf4Select(f, id, j, cutoff)
    ensures SelectValue(f, id, k) < SelectValue(f, id, j)
  {
  }

  /** A valid cutoff selects exactly half of an even number of partitions. */
  lemma HalfSelected(pp: Params, f: PrfFn, id: nat, cutoff: nat)
    requires pp.Valid() && cutoff == HintCutoff(pp, f, id) && cutoff != 0
    ensures pp.partNum == 2 * Half(pp)
    ensures CountTrue(SelectBits(f, pp.partNum, id, cutoff)) == Half(pp)
  {
    var vals := SelectValues(f, id, pp.partNum);
    CutoffHalves(vals);
    SelectedCount(f, pp.partNum, id, cutoff);
    assert pp.partNum == 1 ==> HeavyTail(vals);
  }

  /** Before the flip: the queried and the extra partition trade groups. */
  lemma PlainBalanced(w: World, t: Table, h: nat, part: nat, offset: nat)
    requires w.Valid() && t.Shape(w.pp) && Askable(w, t, h, part)
    requires SlotOk(w, t, h) && Covers(w.pp, w.f, t, part, offset, h)
    ensures CountTrue(QueryBits(w.pp, w.f, t, h, part, false)) == Half(w.pp)
    ensures w.pp.partNum == 2 * Half(w.pp)
  {
    var id, cut, ind, e := t.hintId[h], t.cutoff[h], t.Ind(h), t.extraPart[h];
    HalfSelected(w.pp, w.f, id, cut);
    var select := SelectBits(w.f, w.pp.partNum, id, cut);
    var plain := QueryBits(w.pp, w.f, t, h, part, false);
    assert plain == select[e := ind][part := !ind] by {
      forall k | 0 <= k < w.pp.partNum
        ensures plain[k] == select[e := ind][part := !ind][k]
      {
        assert plain[k] == QueryBit(w.f, t, h, part, k);
      }
    }
    CountTrueUpdate(select, e, ind);
    CountTrueUpdate(select[e := ind], part, !ind);
  }

  /** Every query sent for a valid slot is balanced: each group has exactly half
      the partitions, every offset is inside its partition, and the queried
      partition is in the dummy group. */
  lemma QueryBalanced(w: World, t: Table, h: nat, part: nat, offset: nat, c: nat, flip: bool)
    requires w.Valid() && t.Shape(w.pp) && Askable(w, t, h, part)
    requires SlotOk(w, t, h) && Covers(w.pp, w.f, t, part, offset, h)
    ensures var bits := QueryBits(w.pp, w.f, t, h, part, flip);
      && CountTrue(bits) == Half(w.pp) && w.pp.partNum == 2 * Half(w.pp)
      && bits[part] == ((!t.Ind(h)) != flip)
    ensures forall k :: 0 <= k < w.pp.partNum ==> QueryOffsets(w.pp, w.f, t, h, part, c)[k] < w.pp.partSize
  {
    PlainBalanced(w, t, h, part, offset);
    OffsetsInRange(w, t, h, part, c);
    if flip {
      CountTrueFlip(QueryBits(w.pp, w.f, t, h, part, false), QueryBits(w.pp, w.f, t, h, part, true));
    }
  }

  // The dummy group.

  /** Which partitions are not in the group that hides the hint, by the bits sent. */
  ghost function DummyMarks(bits: seq<bool>, hidden: bool): (marks: seq<bool>)
    ensures |marks| == |bits| && forall k :: 0 <= k < |bits| ==> marks[k] == (bits[k] != hidden)
  {
    seq(|bits|, k requires 0 <= k < |bits| => bits[k] != hidden)
  }

  /** The offset of every dummy partition is the dummy stream's next index: after c,
      one for every dummy partition before it. */
  ghost predicate DummiesInOrder(f: PrfFn, partSize: nat, bits: seq<bool>, offs: seq<nat>, hidden: bool, c: nat)
    requires |bits| == |offs| && 0 < partSize
  {
    var marks := DummyMarks(bits, hidden);
    forall k :: 0 <= k < |bits| && marks[k] ==> offs[k] == DummyIdx(f, c + CountTrue(marks[..k])) % partSize
  }

  lemma {:induction false} DummiesCounted(pp: Params, f: PrfFn, t: Table, h: nat, part: nat, flip: bool, k: nat)
    requires t.Shape(pp) && h < pp.M() && k <= pp.partNum
    ensures DummiesBefore(f, t, h, part, k)
         == CountTrue(DummyMarks(QueryBits(pp, f, t, h, part, flip), t.Ind(h) != flip)[..k])
  {
    if k != 0 {
      DummiesCounted(pp, f, t, h, part, flip, k - 1);
      var marks := DummyMarks(QueryBits(pp, f, t, h, part, flip), t.Ind(h) != flip);
      assert marks[..k][..k - 1] == marks[..k - 1];
    }
  }

  lemma DummyOffsetAt(pp: Params, f: PrfFn, t: Table, h: nat, part: nat, c: nat, flip: bool, k: nat)
    requires t.Shape(pp) && h < pp.M() && 0 < pp.partSize && k < pp.partNum
    requires QueryBit(f, t, h, part, k) != t.Ind(h)
    ensures var marks := DummyMarks(QueryBits(pp, f, t, h, part, flip), t.Ind(h) != flip);
      QueryOffset(f, pp.partSize, t, h, part, c, k) == DummyIdx(f, c + CountTrue(marks[..k])) % pp.partSize
  {
    hide QueryBit, DummiesBefore, CountTrue, DummyIdx, QueryBits, DummyMarks, Prf4Idx, Table.Ind;
    DummiesCounted(pp, f, t, h, part, flip, k);
  }

  /** What a query sends in the dummy group depends on the bits sent and the counter
      only, and it draws one dummy index for every partition there. */
  lemma DummyOffsets(pp: Params, f: PrfFn, t: Table, h: nat, part: nat, c: nat, flip: bool)
    requires t.Shape(pp) && h < pp.M() && 0 < pp.partSize
    ensures var bits, hidden := QueryBits(pp, f, t, h, part, flip), t.Ind(h) != flip;
      && DummiesInOrder(f, pp.partSize, bits, QueryOffsets(pp, f, t, h, part, c), hidden, c)
      && DummiesBefore(f, t, h, part, pp.partNum) == CountTrue(DummyMarks(bits, hidden))
  {
    hide DummyIdx, QueryBit, QueryOffset, QueryBits, QueryOffsets, DummiesBefore, CountTrue, Table.Ind;
    var marks := DummyMarks(QueryBits(pp, f, t, h, part, flip), t.Ind(h) != flip);
    forall k | 0 <= k < pp.partNum && marks[k]
      ensures QueryOffsets(pp, f, t, h, part, c)[k] == DummyIdx(f, c + CountTrue(marks[..k])) % pp.partSize
    {
      DummyOffsetAt(pp, f, t, h, part, c, flip, k);
    }
    DummiesCounted(pp, f, t, h, part, flip, pp.partNum);
    assert marks[..pp.partNum] == marks;
  }

  /** A query from a valid slot uses as many dummy indices as there are partitions in
      half the database. */
  lemma DummiesAreHalf(w: World, t: Table, h: nat, part: nat, offset: nat)
    requires w.Valid() && t.Shape(w.pp) && Askable(w, t, h, part)
    requires SlotOk(w, t, h) && Covers(w.pp, w.f, t, part, offset, h)
    ensures DummiesBefore(w.f, t, h, part, w.pp.partNum) == Half(w.pp)
  {
    hide EncodesWithin, SlotOk, Covers;
    var bits := QueryBits(w.pp, w.f, t, h, part, false);
    var marks := DummyMarks(bits, t.Ind(h));
    DummyOffsets(w.pp, w.f, t, h, part, 0, false);
    PlainBalanced(w, t, h, part, offset);
    if t.Ind(h) {
      CountTrueFlip(bits, marks);
    } else {
      assert marks == bits;
    }
  }

  /** Queries with the same selector bits send the same dummy offsets, whatever the
      hints behind them. */
  lemma DummyOffsetsAgree(pp: Params, f: PrfFn, c: nat, t: Table, h: nat, part: nat, flip: bool,
                          t': Table, h': nat, part': nat, flip': bool, k: nat)
    requires t.Shape(pp) && t'.Shape(pp) && h < pp.M() && h' < pp.M() && 0 < pp.partSize && k < pp.partNum
    requires QueryBits(pp, f, t, h, part, flip) == QueryBits(pp, f, t', h', part', flip')
    requires (t.Ind(h) != flip) == (t'.Ind(h') != flip')
    requires QueryBits(pp, f, t, h, part, flip)[k] != (t.Ind(h) != flip)
    ensures QueryOffsets(pp, f, t, h, part, c)[k] == QueryOffsets(pp, f, t', h', part', c)[k]
    ensures DummiesBefore(f, t, h, part, pp.partNum) == DummiesBefore(f, t', h', part', pp.partNum)
  {
    hide QueryBits, QueryOffsets, DummyIdx, DummiesBefore, CountTrue, Table.Ind, DummyMarks;
    DummyOffsets(pp, f, t, h, part, c, flip);
    DummyOffsets(pp, f, t', h', part', c, flip');
  }
}
