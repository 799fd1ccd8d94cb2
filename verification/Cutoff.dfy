/** The median cutoff of a hint (FindCutoff in src/utils.cpp). */
module Cutoff {

  type Word32 = x: int | 0 <= x < 0x1_0000_0000

  const LOWER_FILTER: int := 0x8000_0000 - 0x1000_0000
  const UPPER_FILTER: int := 0x8000_0000 + 0x1000_0000

  /** How many members of s lie in [lo, hi). */
  ghost function Count(s: seq<Word32>, lo: int, hi: int): (c: nat)
    ensures c <= |s|
  {
    if s == [] then 0
    else Count(s[..|s| - 1], lo, hi) + (if lo <= s[|s| - 1] < hi then 1 else 0)
  }

  lemma {:induction false} CountConcat(a: seq<Word32>, b: seq<Word32>, lo: int, hi: int)
    ensures Count(a + b, lo, hi) == Count(a, lo, hi) + Count(b, lo, hi)
    decreases b
  {
    if b == [] {
      assert a + b == a;
    } else {
      CountConcat(a, b[..|b| - 1], lo, hi);
      assert (a + b)[..|a + b| - 1] == a + b[..|b| - 1];
    }
  }

  lemma {:induction false} CountSplit(s: seq<Word32>, lo: int, mid: int, hi: int)
    requires lo <= mid <= hi
    ensures Count(s, lo, mid) + Count(s, mid, hi) == Count(s, lo, hi)
  {
    if s != [] {
      CountSplit(s[..|s| - 1], lo, mid, hi);
    }
  }

  lemma {:induction false} CountAll(s: seq<Word32>, lo: int, hi: int)
    requires forall k :: 0 <= k < |s| ==> lo <= s[k] < hi
    ensures Count(s, lo, hi) == |s|
  {
    if s != [] {
      CountAll(s[..|s| - 1], lo, hi);
    }
  }

  lemma {:induction false} CountNone(s: seq<Word32>, lo: int, hi: int)
    requires forall k :: 0 <= k < |s| ==> !(lo <= s[k] < hi)
    ensures Count(s, lo, hi) == 0
  {
    if s != [] {
      CountNone(s[..|s| - 1], lo, hi);
    }
  }

  /** Counting at an index: what is before it, it, what is after it. */
  lemma CountAround(s: seq<Word32>, i: nat, lo: int, hi: int)
    requires i < |s|
    ensures Count(s, lo, hi)
         == Count(s[..i], lo, hi) + (if lo <= s[i] < hi then 1 else 0) + Count(s[i + 1..], lo, hi)
  {
    assert s == s[..i + 1] + s[i + 1..];
    CountConcat(s[..i + 1], s[i + 1..], lo, hi);
    assert s[..i + 1][..i] == s[..i];
  }

  /** Counting does not see the order. */
  lemma {:induction false} CountPermutation(a: seq<Word32>, b: seq<Word32>, lo: int, hi: int)
    requires multiset(a) == multiset(b)
    ensures Count(a, lo, hi) == Count(b, lo, hi)
    decreases |a|
  {
    if a == [] {
      assert |multiset(a)| == |multiset(b)| == |b|;
    } else {
      var n := |a| - 1;
      assert a == a[..n] + [a[n]];
      assert a[n] in multiset(b);
      var i :| 0 <= i < |b| && b[i] == a[n];
      assert b == b[..i] + [b[i]] + b[i + 1..];
      var rest := b[..i] + b[i + 1..];
      assert multiset(rest) == multiset(b) - multiset{b[i]};
      assert multiset(a[..n]) == multiset(a) - multiset{a[n]};
      CountPermutation(a[..n], rest, lo, hi);
      CountAround(b, i, lo, hi);
      CountConcat(b[..i], b[i + 1..], lo, hi);
    }
  }

  /** c is in the middle: half the values are below it, and it occurs once. */
  ghost predicate IsMedian(vals: seq<Word32>, c: int) {
    Count(vals, 0, c) == |vals| / 2 && Count(vals, c, c + 1) == 1
  }

  /** One of the tails the filter cuts off already holds half the values. */
  ghost predicate HeavyTail(vals: seq<Word32>) {
    || Count(vals, 0, LOWER_FILTER) >= |vals| / 2
    || Count(vals, UPPER_FILTER + 1, 0x1_0000_0000) >= |vals| / 2
  }

  /** The cutoff a hint must get: its unique median, or zero. */
  ghost function CutoffOf(vals: seq<Word32>): int {
    if !HeavyTail(vals) && exists c :: IsMedian(vals, c) then
      var c :| IsMedian(vals, c); c
    else 0
  }

  lemma MedianUnique(vals: seq<Word32>, c: int, d: int)
    requires 0 <= c && 0 <= d && IsMedian(vals, c) && IsMedian(vals, d)
    ensures c == d
  {
    var lo, hi := if c < d then c else d, if c < d then d else c;
    if c != d {
      CountSplit(vals, 0, lo, hi);
      CountSplit(vals, lo, lo + 1, hi);
    }
  }

  lemma MedianRange(vals: seq<Word32>, c: int)
    requires !HeavyTail(vals) && IsMedian(vals, c)
    ensures LOWER_FILTER <= c <= UPPER_FILTER
  {
    if c < LOWER_FILTER {
      if c < 0 {
        CountNone(vals, 0, c);
      } else {
        CountSplit(vals, 0, c, LOWER_FILTER);
      }
    } else if UPPER_FILTER < c {
      if 0x1_0000_0000 <= c {
        CountNone(vals, c, c + 1);
      } else {
        CountAll(vals, 0, 0x1_0000_0000);
        CountSplit(vals, 0, c, 0x1_0000_0000);
        CountSplit(vals, c, c + 1, 0x1_0000_0000);
        CountSplit(vals, UPPER_FILTER + 1, c, 0x1_0000_0000);
      }
    }
  }

  /** When a hint gets cutoff c: c occurs once, half the values are below it, and less
      than half lie on either side of the kept range. */
  lemma CutoffIff(vals: seq<Word32>, c: int)
    requires 0 < c
    ensures CutoffOf(vals) == c <==>
      && Count(vals, 0, c) == |vals| / 2 && Count(vals, c, c + 1) == 1
      && Count(vals, 0, 0x7000_0000) < |vals| / 2 && Count(vals, 0x9000_0001, 0x1_0000_0000) < |vals| / 2
  {
    if !HeavyTail(vals) && IsMedian(vals, c) {
      MedianRange(vals, CutoffOf(vals));
      MedianUnique(vals, c, CutoffOf(vals));
    }
  }

  /** A nonzero cutoff splits an even number of values into equal halves. */
  lemma CutoffHalves(vals: seq<Word32>)
    requires CutoffOf(vals) != 0
    ensures IsMedian(vals, CutoffOf(vals))
    ensures LOWER_FILTER <= CutoffOf(vals) <= UPPER_FILTER
    ensures Count(vals, 0, CutoffOf(vals)) == |vals| / 2
  {
    MedianRange(vals, CutoffOf(vals));
  }

  /** The values the filter keeps, in order. */
  ghost function Middle(s: seq<Word32>): (m: seq<Word32>)
    ensures |m| <= |s|
  {
    if s == [] then []
    else
      var x := s[|s| - 1];
      Middle(s[..|s| - 1]) + (if LOWER_FILTER <= x <= UPPER_FILTER then [x] else [])
  }

  lemma {:induction false} MiddleRange(s: seq<Word32>)
    ensures forall k :: 0 <= k < |Middle(s)| ==> LOWER_FILTER <= Middle(s)[k] <= UPPER_FILTER
  {
    if s != [] {
      MiddleRange(s[..|s| - 1]);
    }
  }

  /** Inside the kept range, counting the kept values is counting them all. */
  lemma {:induction false} MiddleCount(s: seq<Word32>, lo: int, hi: int)
    requires LOWER_FILTER <= lo && hi <= UPPER_FILTER + 1
    ensures Count(Middle(s), lo, hi) == Count(s, lo, hi)
  {
    if s != [] {
      var rest, x := s[..|s| - 1], s[|s| - 1];
      MiddleCount(rest, lo, hi);
      CountConcat(Middle(rest), if LOWER_FILTER <= x <= UPPER_FILTER then [x] else [], lo, hi);
      assert [x][..0] == [];
    }
  }

  lemma {:induction false} MiddleSize(s: seq<Word32>)
    ensures |Middle(s)| == |s| - Count(s, 0, LOWER_FILTER) - Count(s, UPPER_FILTER + 1, 0x1_0000_0000)
  {
    if s != [] {
      MiddleSize(s[..|s| - 1]);
    }
  }

  /** The k-th smallest of a segment is in place: nothing larger is before it
      and nothing smaller is after it. */
  ghost predicate Selected(s: seq<Word32>, k: nat) {
    && k < |s|
    && (forall i :: 0 <= i < k ==> s[i] <= s[k])
    && (forall i :: k < i < |s| ==> s[k] <= s[i])
  }

  method IndexOfLeast(a: array<Word32>, lo: nat, hi: nat) returns (least: nat)
    requires lo < hi <= a.Length
    ensures lo <= least < hi && forall k :: lo <= k < hi ==> a[least] <= a[k]
  {
    least := lo;
    for j := lo to hi
      invariant lo <= least < hi
      invariant forall k :: lo <= k < j ==> a[least] <= a[k]
    {
      if a[j] < a[least] {
        least := j;
      }
    }
  }

  method Swap(a: array<Word32>, lo: nat, i: nat, j: nat, hi: nat)
    requires lo <= i < hi <= a.Length && lo <= j < hi
    modifies a
    ensures a[i] == old(a[j]) && a[j] == old(a[i])
    ensures forall k :: 0 <= k < a.Length && k != i && k != j ==> a[k] == old(a[k])
    ensures multiset(a[lo..hi]) == multiset(old(a[lo..hi]))
  {
    ghost var before := a[lo..hi];
    a[i], a[j] := a[j], a[i];
    assert a[lo..hi] == before[i - lo := before[j - lo]][j - lo := before[i - lo]];
  }

  /** std::nth_element on a[lo..hi], by its contract; a selection sort that
      stops once position nth is final. */
  method NthElement(a: array<Word32>, lo: nat, nth: nat, hi: nat)
    requires lo <= nth < hi <= a.Length
    modifies a
    ensures Selected(a[lo..hi], nth - lo)
    ensures multiset(a[lo..hi]) == multiset(old(a[lo..hi]))
    ensures forall k :: 0 <= k < a.Length && !(lo <= k < hi) ==> a[k] == old(a[k])
  {
    var i := lo;
    while i <= nth
      invariant lo <= i <= nth + 1
      invariant multiset(a[lo..hi]) == multiset(old(a[lo..hi]))
      invariant forall k :: 0 <= k < a.Length && !(lo <= k < hi) ==> a[k] == old(a[k])
      invariant forall j, k :: lo <= j < i && j <= k < hi ==> a[j] <= a[k]
    {
      var least := IndexOfLeast(a, i, hi);
      Swap(a, lo, i, least, hi);
      i := i + 1;
    }
  }

  lemma CountKept(vals: seq<Word32>, s: seq<Word32>, lo: int, hi: int)
    requires multiset(s) == multiset(Middle(vals)) && LOWER_FILTER <= lo && hi <= UPPER_FILTER + 1
    ensures Count(vals, lo, hi) == Count(s, lo, hi)
  {
    MiddleCount(vals, lo, hi);
    CountPermutation(s, Middle(vals), lo, hi);
  }

  lemma CountBelow(vals: seq<Word32>, s: seq<Word32>, c: int)
    requires multiset(s) == multiset(Middle(vals)) && LOWER_FILTER <= c <= UPPER_FILTER
    ensures Count(vals, 0, c) == Count(vals, 0, LOWER_FILTER) + Count(s, LOWER_FILTER, c)
  {
    CountSplit(vals, 0, LOWER_FILTER, c);
    CountKept(vals, s, LOWER_FILTER, c);
  }

  lemma PermutationRange(vals: seq<Word32>, s: seq<Word32>)
    requires multiset(s) == multiset(Middle(vals))
    ensures forall i :: 0 <= i < |s| ==> LOWER_FILTER <= s[i] <= UPPER_FILTER
  {
    MiddleRange(vals);
    forall i | 0 <= i < |s|
      ensures LOWER_FILTER <= s[i] <= UPPER_FILTER
    {
      assert s[i] in multiset(s);
    }
  }

  ghost predicate Bounded(s: seq<Word32>) {
    forall i :: 0 <= i < |s| ==> LOWER_FILTER <= s[i]
  }

  /** No more than k values are below the selected one. */
  lemma SelectedBelow(s: seq<Word32>, k: nat, c: int)
    requires Selected(s, k) && c == s[k]
    ensures Count(s, LOWER_FILTER, c) == Count(s[..k], LOWER_FILTER, c) <= k
  {
    CountAround(s, k, LOWER_FILTER, c);
    CountNone(s[k + 1..], LOWER_FILTER, c);
  }

  /** More than k values are at most the selected one. */
  lemma SelectedUpTo(s: seq<Word32>, k: nat, c: int)
    requires Selected(s, k) && Bounded(s) && c == s[k]
    ensures Count(s, LOWER_FILTER, c + 1) >= k + 1
  {
    CountAround(s, k, LOWER_FILTER, c + 1);
    CountAll(s[..k], LOWER_FILTER, c + 1);
  }

  lemma UniqueCount(s: seq<Word32>, k: nat, c: int)
    requires k < |s| && c == s[k] && forall i :: 0 <= i < |s| && i != k ==> s[i] != c
    ensures Count(s, c, c + 1) == 1
  {
    CountAround(s, k, c, c + 1);
    CountNone(s[..k], c, c + 1);
    CountNone(s[k + 1..], c, c + 1);
  }

  lemma UniqueBelow(s: seq<Word32>, k: nat, c: int)
    requires Selected(s, k) && Bounded(s) && c == s[k]
    requires forall i :: 0 <= i < |s| && i != k ==> s[i] != c
    ensures Count(s, LOWER_FILTER, c) == k
  {
    SelectedBelow(s, k, c);
    CountAll(s[..k], LOWER_FILTER, c);
  }

  lemma RepeatedCount(s: seq<Word32>, k: nat, i: nat, c: int)
    requires i < k < |s| && s[i] == s[k] == c
    ensures Count(s, c, c + 1) >= 2
  {
    CountAround(s, k, c, c + 1);
    CountAround(s[..k], i, c, c + 1);
  }

  lemma MedianOfKept(vals: seq<Word32>, s: seq<Word32>, c: int)
    requires multiset(s) == multiset(Middle(vals)) && LOWER_FILTER <= c <= UPPER_FILTER
    ensures IsMedian(vals, c) <==>
      && Count(s, LOWER_FILTER, c) == |vals| / 2 - Count(vals, 0, LOWER_FILTER)
      && Count(s, c, c + 1) == 1
  {
    CountBelow(vals, s, c);
    CountKept(vals, s, c, c + 1);
  }

  /** A value that occurs once at the selected position is the median. */
  lemma UniqueSelected(vals: seq<Word32>, s: seq<Word32>, k: nat, c: int)
    requires multiset(s) == multiset(Middle(vals))
    requires k == |vals| / 2 - Count(vals, 0, LOWER_FILTER)
    requires Selected(s, k) && Bounded(s) && c == s[k] <= UPPER_FILTER
    requires forall i :: 0 <= i < |s| && i != k ==> s[i] != c
    ensures IsMedian(vals, c)
  {
    UniqueBelow(s, k, c);
    UniqueCount(s, k, c);
    MedianOfKept(vals, s, c);
  }

  lemma OtherMedian(s: seq<Word32>, k: nat, i: nat, d: int)
    requires Selected(s, k) && Bounded(s) && LOWER_FILTER <= d
    requires i < |s| && i != k && s[i] == s[k]
    ensures Count(s, LOWER_FILTER, d) != k || Count(s, d, d + 1) != 1
  {
    var c: int := s[k];
    if d < c {
      SelectedBelow(s, k, c);
      CountSplit(s, LOWER_FILTER, d, c);
      CountSplit(s, d, d + 1, c);
    } else if c < d {
      SelectedUpTo(s, k, c);
      CountSplit(s, LOWER_FILTER, c + 1, d);
    } else if i < k {
      RepeatedCount(s, k, i, c);
    } else {
      RepeatedCount(s, i, k, c);
    }
  }

  /** If the selected value repeats, no value is a unique median. */
  lemma RepeatedSelected(vals: seq<Word32>, s: seq<Word32>, k: nat, i: nat, d: int)
    requires !HeavyTail(vals) && multiset(s) == multiset(Middle(vals))
    requires k == |vals| / 2 - Count(vals, 0, LOWER_FILTER) && Selected(s, k)
    requires i < |s| && i != k && s[i] == s[k]
    ensures !IsMedian(vals, d)
  {
    if IsMedian(vals, d) {
      MedianRange(vals, d);
      MedianOfKept(vals, s, d);
      PermutationRange(vals, s);
      OtherMedian(s, k, i, d);
    }
  }

  /** Which values a selected segment proves to be the median. */
  lemma SelectedMedian(vals: seq<Word32>, s: seq<Word32>, k: nat)
    requires !HeavyTail(vals) && multiset(s) == multiset(Middle(vals))
    requires k == |vals| / 2 - Count(vals, 0, LOWER_FILTER) && Selected(s, k)
    ensures LOWER_FILTER <= s[k] <= UPPER_FILTER
    ensures (forall i :: 0 <= i < |s| && i != k ==> s[i] != s[k]) ==> CutoffOf(vals) == s[k]
    ensures (exists i :: 0 <= i < |s| && i != k && s[i] == s[k]) ==> CutoffOf(vals) == 0
  {
    PermutationRange(vals, s);
    if forall i :: 0 <= i < |s| && i != k ==> s[i] != s[k] {
      UniqueSelected(vals, s, k, s[k]);
      MedianRange(vals, CutoffOf(vals));
      MedianUnique(vals, s[k], CutoffOf(vals));
    }
    if i :| 0 <= i < |s| && i != k && s[i] == s[k] {
      forall d | IsMedian(vals, d)
        ensures false
      {
        RepeatedSelected(vals, s, k, i, d);
      }
    }
  }

  /** One more value through the filter. */
  lemma FilterStep(given: seq<Word32>, k: nat)
    requires k < |given|
    ensures forall lo, hi :: Count(given[..k + 1], lo, hi)
                          == Count(given[..k], lo, hi) + (if lo <= given[k] < hi then 1 else 0)
    ensures Middle(given[..k + 1])
         == Middle(given[..k]) + (if LOWER_FILTER <= given[k] <= UPPER_FILTER then [given[k]] else [])
  {
    assert given[..k + 1][..k] == given[..k];
  }

  /** The compaction loop of FindCutoff. */
  method Compact(vals: array<Word32>, off: nat, n: nat) returns (lowerCnt: nat, upperCnt: nat, middleCnt: nat)
    requires off + n <= vals.Length
    modifies vals
    ensures lowerCnt == Count(old(vals[off..off + n]), 0, LOWER_FILTER)
    ensures upperCnt == Count(old(vals[off..off + n]), UPPER_FILTER + 1, 0x1_0000_0000)
    ensures middleCnt <= n && vals[off..off + middleCnt] == Middle(old(vals[off..off + n]))
    ensures forall k :: 0 <= k < vals.Length && !(off <= k < off + n) ==> vals[k] == old(vals[k])
  {
    ghost var given: seq<Word32> := vals[off..off + n];
    lowerCnt, upperCnt, middleCnt := 0, 0, 0;
    for k := 0 to n
      invariant lowerCnt == Count(given[..k], 0, LOWER_FILTER)
      invariant upperCnt == Count(given[..k], UPPER_FILTER + 1, 0x1_0000_0000)
      invariant middleCnt <= k && vals[off..off + middleCnt] == Middle(given[..k])
      invariant forall j :: k <= j < n ==> vals[off + j] == given[j]
      invariant forall j :: 0 <= j < vals.Length && !(off <= j < off + n) ==> vals[j] == old(vals[j])
    {
      FilterStep(given, k);
      if vals[off + k] < LOWER_FILTER {
        lowerCnt := lowerCnt + 1;
      } else if vals[off + k] > UPPER_FILTER {
        upperCnt := upperCnt + 1;
      } else {
        vals[off + middleCnt] := vals[off + k];
        middleCnt := middleCnt + 1;
      }
    }
    assert given[..n] == given;
  }

  /** The end of FindCutoff: select the median, then look for a second copy. */
  method TakeMedian(vals: array<Word32>, lo: nat, median: nat, hi: nat)
    returns (cutoff: Word32, ghost chosen: seq<Word32>)
    requires lo <= median < hi <= vals.Length
    requires 0 !in multiset(vals[lo..hi])
    modifies vals
    ensures multiset(chosen) == multiset(old(vals[lo..hi])) && Selected(chosen, median - lo)
    ensures if forall i :: 0 <= i < |chosen| && i != median - lo ==> chosen[i] != chosen[median - lo]
      then cutoff == chosen[median - lo] else cutoff == 0
    ensures forall k :: 0 <= k < vals.Length && !(lo <= k < hi) ==> vals[k] == old(vals[k])
  {
    NthElement(vals, lo, median, hi);
    chosen := vals[lo..hi];
    cutoff := vals[median];
    assert cutoff in multiset(chosen);
    vals[median] := 0;
    for k := 0 to hi - lo
      invariant forall j :: 0 <= j < k && j != median - lo ==> chosen[j] != cutoff
    {
      if vals[lo + k] == cutoff {
        assert chosen[k] == cutoff;
        cutoff := 0;
        return;
      }
    }
  }

  /** FindCutoff on the n values at vals[off..]: it compacts the middle values
      in place, selects the median among them, and gives up (zero) when a tail
      is too heavy or the median repeats. */
  method FindCutoff(vals: array<Word32>, off: nat, n: nat) returns (cutoff: Word32)
    requires off + n <= vals.Length
    modifies vals
    ensures cutoff == CutoffOf(old(vals[off..off + n]))
    ensures forall k :: 0 <= k < vals.Length && !(off <= k < off + n) ==> vals[k] == old(vals[k])
  {
    ghost var given: seq<Word32> := vals[off..off + n];
    var lowerCnt, upperCnt, middleCnt := Compact(vals, off, n);
    MiddleSize(given);
    if lowerCnt >= n / 2 || upperCnt >= n / 2 {
      return 0;
    }
    // the median's position is inside the compacted segment
    var median := off + n / 2 - lowerCnt;
    MiddleRange(given);
    ghost var chosen: seq<Word32>;
    cutoff, chosen := TakeMedian(vals, off, median, off + middleCnt);
    SelectedMedian(given, chosen, median - off);
  }
}
