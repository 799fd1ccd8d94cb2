/** The hint table, what each hint stands for, and the invariant over the whole
    table (src/client.cpp, src/client_main.cpp). */
module Hints {
  import opened ModArith
  import opened Ring
  import opened Encoding
  import opened Cutoff
  import opened Prf
  import opened Bits

  /** What is fixed before the first query.  rows[k] is partition k of the
      database and encDB[k] its encryption; scale stands for the server's
      multiplication by q / p.  The last three bound, in units of 1/p, the error
      of a fresh encryption, of that scaling, and of the answer noise. */
  datatype World = World(pp: Params, f: PrfFn, rows: seq<seq<nat>>, sk: Poly, encDB: seq<Cipher>,
                         scale: nat -> int, encBound: nat, scaleBound: nat, noiseBound: nat)
  {
    ghost predicate Valid() {
      && pp.Valid()
      && IsPoly(sk, pp.n, pp.q)
      && pp.p <= encBound  // encrypting rounds q * m / p, which alone may cost that much
      && |rows| == pp.partNum && |encDB| == pp.partNum
      && (forall k :: 0 <= k < pp.partNum ==> PartitionOk(k))
      && (forall b :: 0 <= b < pp.p ==> ScaleOk(b))
    }

    ghost predicate PartitionOk(k: nat)
      requires pp.Valid() && |sk| == pp.n && k < |rows| && k < |encDB|
    {
      && |rows[k]| == pp.partSize
      && encDB[k].Valid(pp.n, pp.q)
      && forall r :: 0 <= r < pp.partSize ==> rows[k][r] < pp.p && Carries(encDB[k], r, rows[k][r], encBound)
    }

    ghost predicate ScaleOk(b: nat)
      requires pp.Valid()
    {
      0 <= scale(b) < pp.q && EncodesWithin(scale(b), b, scaleBound, pp.p, pp.q)
    }

    /** Ciphertext c carries plaintext m at coefficient r, up to the bound. */
    ghost predicate Carries(c: Cipher, r: nat, m: int, bound: int)
      requires 0 < pp.p && 0 < pp.q && |sk| == pp.n && c.Valid(pp.n, pp.q) && r < pp.n
    {
      EncodesWithin(Phase(c, sk, pp.q)[r], m, bound, pp.p, pp.q)
    }

    /** Answer noise, in the same units, is bounded. */
    ghost predicate NoiseOk(noise: int) {
      -(noiseBound as int) <= Times(pp.p, noise) <= noiseBound
    }

    /** c is a valid ciphertext that carries m where answers are read. */
    ghost predicate Holds(c: Cipher, m: int, bound: int)
      requires pp.Valid() && |sk| == pp.n
    {
      c.Valid(pp.n, pp.q) && Carries(c, pp.partSize - 1, m, bound)
    }
  }

  /** The client's arrays: M hints, the cutoffs of the backups after them, and
      one parity per hint and per side of a backup pair. */
  datatype Table = Table(hintId: seq<nat>, cutoff: seq<nat>, extraPart: seq<nat>, extraOffset: seq<nat>,
                         indicator: seq<bv8>, parity: seq<Cipher>, next: nat)
  {
    ghost predicate Shape(pp: Params) {
      && |hintId| == |extraPart| == |extraOffset| == pp.M()
      && |cutoff| == |parity| == pp.Slots()
      && 8 * |indicator| >= pp.M()
    }

    /** Slot i's indicator bit. */
    predicate Ind(i: nat)
      requires i / 8 < |indicator|
    {
      Bit(indicator[i / 8], i % 8)
    }
  }

  ghost function Entry(w: World, k: nat, r: nat): (x: nat)
    requires w.Valid() && k < w.pp.partNum && r < w.pp.partSize
    ensures x < w.pp.p
  {
    assert w.PartitionOk(k);
    w.rows[k][r]
  }

  ghost function Sum(s: seq<int>): int {
    if s == [] then 0 else Sum(s[..|s| - 1]) + s[|s| - 1]
  }

  lemma {:induction false} SumUpdate(s: seq<int>, i: nat, v: int)
    requires i < |s|
    ensures Sum(s[i := v]) == Sum(s) - s[i] + v
  {
    if i == |s| - 1 {
      assert s[i := v][..i] == s[..i];
    } else {
      SumUpdate(s[..|s| - 1], i, v);
      assert s[i := v][..|s| - 1] == s[..|s| - 1][i := v];
    }
  }

  /** The entries a hint covers on one side: partition k counts when its select
      bit equals the side. */
  ghost function Term(w: World, id: nat, cutoff: nat, side: bool, k: nat): int
    requires w.Valid() && k < w.pp.partNum
  {
    if Prf4Select(w.f, id, k, cutoff) == side then Entry(w, k, Prf4Idx(w.f, id, k) % w.pp.partSize) else 0
  }

  ghost function Terms(w: World, id: nat, cutoff: nat, side: bool): (s: seq<int>)
    requires w.Valid()
    ensures |s| == w.pp.partNum
  {
    seq(w.pp.partNum, k requires 0 <= k < w.pp.partNum => Term(w, id, cutoff, side, k))
  }

  ghost function SideSum(w: World, id: nat, cutoff: nat, side: bool): int
    requires w.Valid()
  {
    Sum(Terms(w, id, cutoff, side))
  }

  /** Half the partitions: the size of either side of a valid hint. */
  function Half(pp: Params): nat { pp.partNum / 2 }

  /** What an active hint's parity must carry: its side, and its extra entry. */
  ghost function HintSum(w: World, id: nat, cutoff: nat, side: bool, part: nat, offset: nat): int
    requires w.Valid() && part < w.pp.partNum && offset < w.pp.partSize
  {
    SideSum(w, id, cutoff, side) + Entry(w, part, offset)
  }

  /** A backup side has half the partitions' encryptions and one Enc(0); an
      active hint one encryption, or one added plaintext, more. */
  ghost function BackupBound(w: World): nat
    requires w.Valid()
  {
    Times(Half(w.pp) + 1, w.encBound)
  }

  ghost function HintBound(w: World): nat
    requires w.Valid()
  {
    Times(Half(w.pp) + 2, w.encBound)
  }

  /** A valid hint covers one entry per partition on its side, plus one extra
      entry from a partition on the other side. */
  ghost predicate HintOk(w: World, id: nat, cutoff: nat, side: bool, part: nat, offset: nat, parity: Cipher)
    requires w.Valid()
  {
    cutoff != 0 ==>
      && part < w.pp.partNum && offset < w.pp.partSize
      && cutoff == HintCutoff(w.pp, w.f, id)
      && Prf4Select(w.f, id, part, cutoff) != side
      && w.Holds(parity, HintSum(w, id, cutoff, side, part, offset), HintBound(w))
  }

  ghost predicate SlotOk(w: World, t: Table, i: nat)
    requires w.Valid() && t.Shape(w.pp) && i < w.pp.M()
  {
    HintOk(w, t.hintId[i], t.cutoff[i], t.Ind(i), t.extraPart[i], t.extraOffset[i], t.parity[i])
  }

  ghost predicate ActiveShape(w: World, t: Table, i: nat)
    requires w.Valid() && t.Shape(w.pp)
  {
    i < w.pp.M() && t.extraPart[i] < w.pp.partNum && t.extraOffset[i] < w.pp.partSize
  }

  ghost function SlotSum(w: World, t: Table, i: nat): int
    requires w.Valid() && t.Shape(w.pp) && ActiveShape(w, t, i)
  {
    HintSum(w, t.hintId[i], t.cutoff[i], t.Ind(i), t.extraPart[i], t.extraOffset[i])
  }

  /** A valid backup pair holds its two halves. */
  ghost predicate PairOk(w: World, j: nat, cutoff: nat, unselected: Cipher, selected: Cipher)
    requires w.Valid()
  {
    && cutoff == HintCutoff(w.pp, w.f, j)
    && (cutoff != 0 ==>
        && w.Holds(unselected, SideSum(w, j, cutoff, false), BackupBound(w))
        && w.Holds(selected, SideSum(w, j, cutoff, true), BackupBound(w)))
  }

  /** Backup pair j keeps its unselected half at j and its selected half at j + M/2. */
  ghost predicate BackupOk(w: World, t: Table, j: nat)
    requires w.Valid() && t.Shape(w.pp) && w.pp.M() <= j < w.pp.BackupsEnd()
  {
    PairOk(w, j, t.cutoff[j], t.parity[j], t.parity[j + w.pp.Pairs()])
  }

  /** Hint numbers in use are distinct and older than the next backup. */
  ghost predicate IdsOk(pp: Params, t: Table)
    requires t.Shape(pp)
  {
    && (forall i :: 0 <= i < pp.M() ==> t.hintId[i] < t.next)
    && (forall i, j :: 0 <= i < j < pp.M() ==> t.hintId[i] != t.hintId[j])
  }

  /** The invariant of the whole table. */
  ghost predicate TableOk(w: World, t: Table)
    requires w.Valid()
  {
    && t.Shape(w.pp)
    && w.pp.M() <= t.next <= w.pp.BackupsEnd()
    && IdsOk(w.pp, t)
    && (forall i :: 0 <= i < w.pp.M() ==> SlotOk(w, t, i))
    && (forall j :: t.next <= j < w.pp.BackupsEnd() ==> BackupOk(w, t, j))
  }

  // Finding a hint.

  /** Slot i is valid and its covered set contains entry offset of part. */
  predicate Covers(pp: Params, f: PrfFn, t: Table, part: nat, offset: nat, i: nat)
    requires t.Shape(pp) && 0 < pp.partSize && i < pp.M()
  {
    && t.cutoff[i] != 0
    && ((t.extraPart[i] == part && t.extraOffset[i] == offset)
        || (Prf4Idx(f, t.hintId[i], part) % pp.partSize == offset
            && Prf4Select(f, t.hintId[i], part, t.cutoff[i]) == t.Ind(i)))
  }

  lemma {:induction false} SumChange(s: seq<int>, s': seq<int>, k: nat)
    requires |s| == |s'| && k < |s| && forall i :: 0 <= i < |s| && i != k ==> s[i] == s'[i]
    ensures Sum(s') - Sum(s) == s'[k] - s[k]
  {
    assert s' == s[k := s'[k]];
    SumUpdate(s, k, s'[k]);
  }

  /** Two databases that differ in one entry only. */
  ghost predicate DifferOnlyAt(w: World, w': World, part: nat, offset: nat)
    requires w.Valid() && w'.Valid() && part < w.pp.partNum && offset < w.pp.partSize
  {
    && w'.pp == w.pp && w'.f == w.f
    && forall k, r :: 0 <= k < w.pp.partNum && 0 <= r < w.pp.partSize && !(k == part && r == offset) ==>
         Entry(w', k, r) == Entry(w, k, r)
  }

  /** A valid slot covers exactly the entries its parity sums, each once: changing an
      entry moves the sum by that change if the slot covers it, and not otherwise. */
  lemma CoversIffSummed(w: World, w': World, t: Table, part: nat, offset: nat, h: nat)
    requires w.Valid() && w'.Valid() && part < w.pp.partNum && offset < w.pp.partSize
    requires DifferOnlyAt(w, w', part, offset)
    requires t.Shape(w.pp) && ActiveShape(w, t, h) && SlotOk(w, t, h) && t.cutoff[h] != 0
    ensures SlotSum(w', t, h) - SlotSum(w, t, h)
         == if Covers(w.pp, w.f, t, part, offset, h) then Entry(w', part, offset) - Entry(w, part, offset) else 0
  {
    hide EncodesWithin, Entry;
    var id, cut, ind, e := t.hintId[h], t.cutoff[h], t.Ind(h), t.extraPart[h];
    var terms, terms' := Terms(w, id, cut, ind), Terms(w', id, cut, ind);
    forall k | 0 <= k < w.pp.partNum && k != part
      ensures terms[k] == terms'[k]
    {
      assert Term(w, id, cut, ind, k) == Term(w', id, cut, ind, k);
    }
    SumChange(terms, terms', part);
    assert terms[part] == Term(w, id, cut, ind, part) && terms'[part] == Term(w', id, cut, ind, part);
  }

  /** The least covering slot from position i on, or M + 1. */
  function FindHint(pp: Params, f: PrfFn, t: Table, part: nat, offset: nat, i: nat): (h: nat)
    requires t.Shape(pp) && 0 < pp.partSize && i <= pp.M()
    ensures h < pp.M() ==> i <= h && Covers(pp, f, t, part, offset, h)
    ensures h < pp.M() || h == pp.M() + 1
    ensures forall j :: i <= j < pp.M() && j < h ==> !Covers(pp, f, t, part, offset, j)
    decreases pp.M() - i
  {
    if i == pp.M() then pp.M() + 1
    else if Covers(pp, f, t, part, offset, i) then i
    else FindHint(pp, f, t, part, offset, i + 1)
  }
}
