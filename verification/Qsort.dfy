/** The corpus's in-place quicksort: Hoare partition with unguarded scans, recursion on the
    smaller side only, and insertion sort for short ranges. Ranges [lo, hi] are inclusive
    and may be empty, as in the source. */
module Qsort {
  import opened Words

  ghost predicate Sorted(s: seq<Word>, lo: int, hi: int)
    requires 0 <= lo && hi < |s|
  {
    forall a, b :: lo <= a < b <= hi ==> s[a] <= s[b]
  }

  function Count(s: seq<Word>, x: Word): nat {
    if s == [] then 0 else (if s[0] == x then 1 else 0) + Count(s[1..], x)
  }

  lemma {:induction false} CountIsMultiplicity(s: seq<Word>, x: Word)
    ensures Count(s, x) == multiset(s)[x]
  {
    if s != [] {
      assert s == [s[0]] + s[1..];
      CountIsMultiplicity(s[1..], x);
    }
  }

  /** Each value occurs equally often: one sequence is a permutation of the other. */
  ghost predicate SameCounts(s: seq<Word>, t: seq<Word>) {
    forall x: Word :: Count(s, x) == Count(t, x)
  }

  /** `t` is `s` with the elements of [lo, hi] rearranged and all others in place. */
  ghost predicate Shuffled(s: seq<Word>, t: seq<Word>, lo: int, hi: int)
  {
    |s| == |t| && SameCounts(s, t)
    && forall k :: 0 <= k < |s| && !(lo <= k <= hi) ==> s[k] == t[k]
  }

  /** [first, last] is in order except, perhaps, among the elements of [lo, hi]. */
  ghost predicate SortedAround(s: seq<Word>, first: int, last: int, lo: int, hi: int)
    requires 0 <= first && last < |s|
  {
    forall a, b :: first <= a < b <= last && !(lo <= a && b <= hi) ==> s[a] <= s[b]
  }

  /** The outcome of a partition: up to `i` nothing exceeds the pivot, and from `j` on
      nothing is below it. */
  ghost predicate Split(s: seq<Word>, lo: int, hi: int, i: int, j: int, pivot: Word)
    requires 0 <= lo && hi < |s|
  {
    lo - 1 <= j < i <= hi + 1
    && (forall k :: lo <= k < i && k <= hi ==> s[k] <= pivot)
    && (forall k :: j < k <= hi && lo <= k ==> s[k] >= pivot)
  }

  // --- Rearranging a range ---

  lemma SwapShuffles(s: seq<Word>, i: int, j: int, lo: int, hi: int)
    requires 0 <= lo <= i <= hi < |s| && lo <= j <= hi
    ensures Shuffled(s, s[i := s[j]][j := s[i]], lo, hi)
  {
    var t := s[i := s[j]][j := s[i]];
    assert multiset(s) == multiset(t);
    forall x: Word ensures Count(s, x) == Count(t, x) {
      CountIsMultiplicity(s, x);
      CountIsMultiplicity(t, x);
    }
  }

  lemma ShuffledTwice(s: seq<Word>, t: seq<Word>, u: seq<Word>, lo: int, hi: int)
    requires Shuffled(s, t, lo, hi) && Shuffled(t, u, lo, hi)
    ensures Shuffled(s, u, lo, hi)
  {
    forall k | 0 <= k < |s| && !(lo <= k <= hi)
      ensures s[k] == u[k]
    {
      assert s[k] == t[k];
    }
  }

  lemma FrameOf(s: seq<Word>, t: seq<Word>, lo: int, hi: int)
    requires 0 <= lo <= hi + 1 <= |s| == |t|
    ensures (forall k :: 0 <= k < |s| && !(lo <= k <= hi) ==> s[k] == t[k])
            <==> s[..lo] == t[..lo] && s[hi + 1..] == t[hi + 1..]
  {
    if s[..lo] == t[..lo] && s[hi + 1..] == t[hi + 1..] {
      forall k | 0 <= k < |s| && !(lo <= k <= hi)
        ensures s[k] == t[k]
      {
        if k < lo {
          assert s[k] == s[..lo][k];
        } else {
          assert s[k] == s[hi + 1..][k - hi - 1];
        }
      }
    }
  }

  lemma {:induction false} CountSplits(s: seq<Word>, t: seq<Word>, x: Word)
    ensures Count(s + t, x) == Count(s, x) + Count(t, x)
  {
    if s == [] {
      assert s + t == t;
    } else {
      assert (s + t)[1..] == s[1..] + t;
      CountSplits(s[1..], t, x);
    }
  }

  lemma {:induction false} Find(s: seq<Word>, x: Word) returns (k: nat)
    requires Count(s, x) > 0
    ensures k < |s| && s[k] == x
  {
    k := 0;
    if s[0] != x {
      k := Find(s[1..], x);
      k := k + 1;
    }
  }

  lemma {:induction false} Occurs(s: seq<Word>, k: nat)
    requires k < |s|
    ensures Count(s, s[k]) > 0
  {
    if k > 0 {
      Occurs(s[1..], k - 1);
    }
  }

  /** Shuffling is exactly: the range itself is permuted (each value occurs in it as often
      as before), and everything outside it is untouched. */
  lemma ShuffledRange(s: seq<Word>, t: seq<Word>, lo: int, hi: int)
    requires 0 <= lo <= hi + 1 <= |s| == |t|
    ensures Shuffled(s, t, lo, hi)
            <==> SameCounts(s[lo..hi + 1], t[lo..hi + 1]) && s[..lo] == t[..lo] && s[hi + 1..] == t[hi + 1..]
  {
    FrameOf(s, t, lo, hi);
    if s[..lo] == t[..lo] && s[hi + 1..] == t[hi + 1..] {
      var a, b := s[lo..hi + 1], t[lo..hi + 1];
      forall x: Word
        ensures Count(a, x) == Count(b, x) <==> Count(s, x) == Count(t, x)
      {
        CountRange(s, lo, hi + 1, x);
        CountRange(t, lo, hi + 1, x);
      }
    }
  }

  lemma CountRange(s: seq<Word>, lo: int, end: int, x: Word)
    requires 0 <= lo <= end <= |s|
    ensures Count(s, x) == Count(s[..lo], x) + Count(s[lo..end], x) + Count(s[end..], x)
  {
    assert s == s[..lo] + s[lo..end] + s[end..];
    CountSplits(s[..lo] + s[lo..end], s[end..], x);
    CountSplits(s[..lo], s[lo..end], x);
  }

  /** Every element of the range came from the range. */
  lemma Origin(s: seq<Word>, t: seq<Word>, lo: int, hi: int, k: int) returns (o: int)
    requires Shuffled(s, t, lo, hi) && 0 <= lo <= k <= hi < |s|
    ensures lo <= o <= hi && s[o] == t[k]
  {
    ShuffledRange(s, t, lo, hi);
    assert t[k] == t[lo..hi + 1][k - lo];
    Occurs(t[lo..hi + 1], k - lo);
    var d := Find(s[lo..hi + 1], t[k]);
    o := lo + d;
  }

  /** Rearranging inside the unordered range keeps the order around it. */
  lemma AroundKept(s: seq<Word>, t: seq<Word>, first: int, last: int, lo: int, hi: int)
    requires 0 <= first <= lo && hi <= last < |s|
    requires SortedAround(s, first, last, lo, hi) && Shuffled(s, t, lo, hi)
    ensures SortedAround(t, first, last, lo, hi)
  {
    forall a, b | first <= a < b <= last && !(lo <= a && b <= hi)
      ensures t[a] <= t[b]
    {
      var a', b' := a, b;
      if lo <= a <= hi {
        a' := Origin(s, t, lo, hi, a);
      }
      if lo <= b <= hi {
        b' := Origin(s, t, lo, hi, b);
      }
      assert s[a'] <= s[b'];
    }
  }

  /** Sorting either side keeps the split. */
  lemma SplitKept(s: seq<Word>, t: seq<Word>, lo: int, hi: int, i: int, j: int, pivot: Word, from: int, to: int)
    requires 0 <= lo && hi < |s| && Split(s, lo, hi, i, j, pivot)
    requires Shuffled(s, t, from, to) && ((from == lo && to == j) || (from == i && to == hi))
    ensures Split(t, lo, hi, i, j, pivot)
  {
    forall k | lo <= k <= hi
      ensures (k < i ==> t[k] <= pivot) && (j < k ==> t[k] >= pivot)
    {
      if from <= k <= to {
        var o := Origin(s, t, from, to, k);
      }
    }
  }

  /** With one side of the split sorted, only the other side remains. */
  lemma OneSideLeft(s: seq<Word>, first: int, last: int, lo: int, hi: int, i: int, j: int, pivot: Word)
    requires 0 <= first <= lo && hi <= last < |s|
    requires SortedAround(s, first, last, lo, hi) && Split(s, lo, hi, i, j, pivot)
    ensures Sorted(s, lo, j) ==> SortedAround(s, first, last, i, hi)
    ensures Sorted(s, i, hi) ==> SortedAround(s, first, last, lo, j)
  {
  }

  /** One round: [lo, hi] is split and the side [from, to] sorted; the side that is left
      is [lo', hi']. */
  lemma Round(s: seq<Word>, t: seq<Word>, u: seq<Word>, first: int, last: int, lo: int, hi: int,
              i: int, j: int, pivot: Word, lo': int, hi': int)
    requires 0 <= first <= lo && hi <= last < |s| == |t| == |u|
    requires SortedAround(s, first, last, lo, hi) && Shuffled(s, t, lo, hi) && Split(t, lo, hi, i, j, pivot)
    requires (lo' == i && hi' == hi && Shuffled(t, u, lo, j) && Sorted(u, lo, j))
             || (lo' == lo && hi' == j && Shuffled(t, u, i, hi) && Sorted(u, i, hi))
    ensures SortedAround(u, first, last, lo', hi')
    ensures Shuffled(s, u, first, last)
  {
    AroundKept(s, t, first, last, lo, hi);
    AroundKept(t, u, first, last, lo, hi);
    if lo' == i && hi' == hi && Shuffled(t, u, lo, j) && Sorted(u, lo, j) {
      SplitKept(t, u, lo, hi, i, j, pivot, lo, j);
    } else {
      SplitKept(t, u, lo, hi, i, j, pivot, i, hi);
    }
    OneSideLeft(u, first, last, lo, hi, i, j, pivot);
    ShuffledTwice(s, t, u, first, last);
  }

  /** Each side of a swapped pair moves on by one. */
  lemma SwapExtends(s: seq<Word>, t: seq<Word>, lo: int, hi: int, i: int, j: int, pivot: Word)
    requires 0 <= lo <= i <= j <= hi < |s|
    requires s[i] >= pivot >= s[j] && t == s[i := s[j]][j := s[i]]
    requires forall k :: lo <= k < i ==> s[k] <= pivot
    requires forall k :: j < k <= hi ==> s[k] >= pivot
    ensures forall k :: lo <= k < i + 1 ==> t[k] <= pivot
    ensures forall k :: j - 1 < k <= hi ==> t[k] >= pivot
  {
  }

  /** A call on at most half of the range nests one deeper. */
  lemma DepthBound(deeper: nat, part: int, whole: int)
    requires deeper > 0 ==> Pow2(deeper) <= part
    requires 2 * part <= whole && whole >= 2
    ensures Pow2(deeper + 1) <= whole
  {
    assert Pow2(deeper + 1) == 2 * Pow2(deeper);
    if deeper == 0 {
      assert Pow2(deeper) == 1;
    }
  }

  // --- The sorts ---

  method Put(v: array<Word>, i: int, x: Word)
    requires 0 <= i < v.Length
    modifies v
    ensures v[..] == old(v[..])[i := x]
  {
    v[i] := x;
  }

  method Swap(v: array<Word>, i: int, j: int)
    requires 0 <= i < v.Length && 0 <= j < v.Length
    modifies v
    ensures v[..] == old(v[..])[i := old(v[j])][j := old(v[i])]
  {
    v[i], v[j] := v[j], v[i];
  }

  /** Moving the hole one to the left, with `x` in it, is a swap. */
  lemma HoleMoves(before: seq<Word>, s: seq<Word>, t: seq<Word>, x: Word, lo: int, i: int, j: int)
    requires 0 <= lo <= j < i < |s|
    requires Shuffled(before, s[j + 1 := x], lo, i) && t == s[j + 1 := s[j]]
    ensures Shuffled(before, t[j := x], lo, i)
    ensures Sorted(s, lo, if j == i - 1 then i - 1 else i) ==> Sorted(t, lo, i)
  {
    var filled := s[j + 1 := x];
    SwapShuffles(filled, j, j + 1, lo, i);
    assert t[j := x] == filled[j := filled[j + 1]][j + 1 := filled[j]];
    ShuffledTwice(before, filled, t[j := x], lo, i);
  }

  /** With `x` in the hole the range is sorted. */
  lemma HoleFilled(s: seq<Word>, lo: int, i: int, hole: int, x: Word)
    requires 0 <= lo <= hole <= i < |s|
    requires Sorted(s, lo, if hole == i then i - 1 else i)
    requires hole > lo ==> s[hole - 1] <= x
    requires forall k :: hole < k <= i ==> s[k] > x
    ensures Sorted(s[hole := x], lo, i)
  {
    var t := s[hole := x];
    forall a, b | lo <= a < b <= i
      ensures t[a] <= t[b]
    {
      if b == hole && a < hole - 1 {
        assert s[a] <= s[hole - 1];
      }
    }
  }

  /** Inserts v[i] into the sorted elements before it. */
  method Insert(v: array<Word>, lo: int, i: int)
    requires 0 <= lo < i < v.Length && Sorted(v[..], lo, i - 1)
    modifies v
    ensures Sorted(v[..], lo, i) && Shuffled(old(v[..]), v[..], lo, i)
  {
    var x := v[i];
    var j := i - 1;
    assert v[..][j + 1 := x] == v[..];
    while j >= lo && v[j] > x
      invariant lo - 1 <= j < i
      invariant Shuffled(old(v[..]), v[..][j + 1 := x], lo, i)
      invariant Sorted(v[..], lo, if j == i - 1 then i - 1 else i)
      invariant forall k :: j + 1 < k <= i ==> v[k] > x
    {
      ghost var s := v[..];
      Put(v, j + 1, v[j]);
      HoleMoves(old(v[..]), s, v[..], x, lo, i, j);
      j := j - 1;
    }
    HoleFilled(v[..], lo, i, j + 1, x);
    Put(v, j + 1, x);
  }

  method InsertionSort(v: array<Word>, lo: int, hi: int)
    requires 0 <= lo <= hi + 1 <= v.Length
    modifies v
    ensures Sorted(v[..], lo, hi) && Shuffled(old(v[..]), v[..], lo, hi)
  {
    var i := lo + 1;
    while i <= hi
      invariant lo < i
      invariant i <= hi + 1 || i == lo + 1
      invariant Sorted(v[..], lo, if i <= hi + 1 then i - 1 else hi)
      invariant Shuffled(old(v[..]), v[..], lo, hi)
      decreases hi - i
    {
      ghost var s := v[..];
      Insert(v, lo, i);
      ShuffledTwice(old(v[..]), s, v[..], lo, hi);
      i := i + 1;
    }
  }

  /** The two inner scans. They have no bounds test: `left` and `right` are the elements
      that stop them inside [lo, hi]. */
  method Scan(v: array<Word>, lo: int, hi: int, i0: int, j0: int, pivot: Word, ghost left: int, ghost right: int)
    returns (i: int, j: int)
    requires 0 <= lo <= i0 <= right <= hi < v.Length && lo <= left <= j0 <= hi
    requires v[left] <= pivot <= v[right]
    ensures i0 <= i <= right && left <= j <= j0
    ensures v[i] >= pivot >= v[j]
    ensures forall k :: i0 <= k < i ==> v[k] < pivot
    ensures forall k :: j < k <= j0 ==> v[k] > pivot
  {
    i, j := i0, j0;
    while v[i] < pivot
      invariant i0 <= i <= right
      invariant forall k :: i0 <= k < i ==> v[k] < pivot
      decreases right - i
    {
      i := i + 1;
    }
    while v[j] > pivot
      invariant left <= j <= j0
      invariant forall k :: j < k <= j0 ==> v[k] > pivot
      decreases j - left
    {
      j := j - 1;
    }
  }

  /** The Hoare partition around `pivot`, which occurs at `mid`. */
  method Partition(v: array<Word>, lo: int, hi: int, ghost mid: int, pivot: Word) returns (i: int, j: int)
    requires 0 <= lo <= mid <= hi < v.Length && v[mid] == pivot
    modifies v
    ensures lo < i && j < hi && Split(v[..], lo, hi, i, j, pivot)
    ensures Shuffled(old(v[..]), v[..], lo, hi)
  {
    i, j := lo, hi;
    ghost var left, right := mid, mid;
    while i <= j
      invariant lo <= i <= hi + 1 && lo - 1 <= j <= hi
      invariant i <= j ==> i <= right <= hi && lo <= left <= j && v[left] <= pivot <= v[right]
      invariant (i <= mid <= j && left == mid == right) || (lo < i && j < hi)
      invariant forall k :: lo <= k < i ==> v[k] <= pivot
      invariant forall k :: j < k <= hi ==> v[k] >= pivot
      invariant Shuffled(old(v[..]), v[..], lo, hi)
      decreases j - i
    {
      i, j := Scan(v, lo, hi, i, j, pivot, left, right);
      if i <= j {
        ghost var s := v[..];
        Swap(v, i, j);
        SwapShuffles(s, i, j, lo, hi);
        SwapExtends(s, v[..], lo, hi, i, j, pivot);
        ShuffledTwice(old(v[..]), s, v[..], lo, hi);
        left, right := i, j;
        i, j := i + 1, j - 1;
      }
    }
  }

  /** `depth` is how deep the recursion nests below this call. */
  method Quick(v: array<Word>, first: int, last: int) returns (ghost depth: nat)
    requires 0 <= first <= last + 1 <= v.Length
    modifies v
    ensures Sorted(v[..], first, last) && Shuffled(old(v[..]), v[..], first, last)
    ensures depth > 0 ==> Pow2(depth) <= last - first + 1
    decreases last - first
  {
    var lo, hi := first, last;
    depth := 0;
    while hi - lo > 16
      invariant first <= lo <= hi + 1 <= last + 1
      invariant SortedAround(v[..], first, last, lo, hi)
      invariant Shuffled(old(v[..]), v[..], first, last)
      invariant depth > 0 ==> Pow2(depth) <= last - first + 1
      decreases hi - lo
    {
      var mid := lo + (hi - lo) / 2;
      var pivot := v[mid];
      ghost var s := v[..];
      var i, j := Partition(v, lo, hi, mid, pivot);
      ghost var t := v[..];
      ghost var deeper;
      if j - lo < hi - i {
        deeper := Quick(v, lo, j);
        Round(s, t, v[..], first, last, lo, hi, i, j, pivot, i, hi);
        DepthBound(deeper, j - lo + 1, last - first + 1);
        lo := i;
      } else {
        deeper := Quick(v, i, hi);
        Round(s, t, v[..], first, last, lo, hi, i, j, pivot, lo, j);
        DepthBound(deeper, hi - i + 1, last - first + 1);
        hi := j;
      }
      ShuffledTwice(old(v[..]), s, v[..], first, last);
      depth := if deeper + 1 > depth then deeper + 1 else depth;
    }
    ghost var s := v[..];
    InsertionSort(v, lo, hi);
    AroundKept(s, v[..], first, last, lo, hi);
    ShuffledTwice(old(v[..]), s, v[..], first, last);
  }
}
