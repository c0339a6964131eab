/** The recursive quicksort of Atividade1.py and the split-then-combine
    route that `testar_quicksort` takes to sort the two halves separately. */
module Quicksort {
  import opened Wrappers

  /** Non-decreasing order. */
  predicate Sorted(s: seq<int>) {
    forall i, j :: 0 <= i < j < |s| ==> s[i] <= s[j]
  }

  /** `[x for x in s if x <= pivot]`, scanning `s` from the front. The
      contract states the bound and the multiplicities; the order of the
      kept elements is not part of it, since the sort does not depend on it. */
  function AtMost(s: seq<int>, pivot: int): (r: seq<int>)
    ensures |r| <= |s|
    ensures AllAtMost(r, pivot)
    ensures forall x :: multiset(r)[x] == if x <= pivot then multiset(s)[x] else 0
  {
    if s == [] then []
    else
      assert s == [s[0]] + s[1..];
      (if s[0] <= pivot then [s[0]] else []) + AtMost(s[1..], pivot)
  }

  /** `[x for x in s if x > pivot]`, scanning `s` from the front. The
      contract states the bound and the multiplicities, as for `AtMost`. */
  function Above(s: seq<int>, pivot: int): (r: seq<int>)
    ensures |r| <= |s|
    ensures AllAbove(r, pivot)
    ensures forall x :: multiset(r)[x] == if x > pivot then multiset(s)[x] else 0
  {
    if s == [] then []
    else
      assert s == [s[0]] + s[1..];
      (if s[0] > pivot then [s[0]] else []) + Above(s[1..], pivot)
  }

  /** The two comprehensions together hold every element of `s` once. */
  lemma PartitionSplit(s: seq<int>, pivot: int)
    ensures multiset(AtMost(s, pivot)) + multiset(Above(s, pivot)) == multiset(s)
    ensures |AtMost(s, pivot)| + |Above(s, pivot)| == |s|
  {
    var l, r := AtMost(s, pivot), Above(s, pivot);
    assert multiset(l) + multiset(r) == multiset(s) by {
      forall x ensures (multiset(l) + multiset(r))[x] == multiset(s)[x] { }
    }
    assert |multiset(l) + multiset(r)| == |multiset(s)|;
  }

  /** Every element is at most `bound`. */
  predicate AllAtMost(s: seq<int>, bound: int) {
    forall i :: 0 <= i < |s| ==> s[i] <= bound
  }

  /** Every element is above `bound`. */
  predicate AllAbove(s: seq<int>, bound: int) {
    forall i :: 0 <= i < |s| ==> s[i] > bound
  }

  /** Bounds on the elements carry over to any permutation. */
  lemma PermutationKeepsBounds(t: seq<int>, u: seq<int>, bound: int)
    requires multiset(t) == multiset(u)
    ensures AllAtMost(u, bound) ==> AllAtMost(t, bound)
    ensures AllAbove(u, bound) ==> AllAbove(t, bound)
  {
    forall i | 0 <= i < |t| ensures t[i] in u {
      assert t[i] in multiset(t);
    }
  }

  /** Joining two sorted runs around a pivot that separates them is sorted. */
  lemma SortedJoin(a: seq<int>, pivot: int, b: seq<int>)
    requires Sorted(a) && Sorted(b)
    requires AllAtMost(a, pivot) && AllAbove(b, pivot)
    ensures Sorted(a + [pivot] + b)
  {
    var s := a + [pivot] + b;
    forall i, j | 0 <= i < j < |s| ensures s[i] <= s[j] {
      if j < |a| {
        assert s[i] == a[i] && s[j] == a[j];
      } else if j == |a| {
        assert s[i] == a[i];
      } else if i < |a| {
        assert s[i] == a[i] && s[j] == b[j - |a| - 1];
      } else if i == |a| {
        assert s[j] == b[j - |a| - 1];
      } else {
        assert s[i] == b[i - |a| - 1] && s[j] == b[j - |a| - 1];
      }
    }
  }

  /** `quicksort(arr)`: the last element is the pivot, the rest is split by
      the two comprehensions and each side is sorted recursively. The result
      is sorted and is a permutation of the input. */
  function Quicksort(s: seq<int>): (r: seq<int>)
    ensures multiset(r) == multiset(s)
    ensures |r| == |s|
    ensures Sorted(r)
    decreases |s|
  {
    if |s| <= 1 then s
    else
      var pivot := s[|s| - 1];
      var rest := s[..|s| - 1];
      var left, right := AtMost(rest, pivot), Above(rest, pivot);
      assert s == rest + [pivot];
      var sl, sr := Quicksort(left), Quicksort(right);
      SortedPartsJoin(rest, pivot, sl, sr);
      sl + [pivot] + sr
  }

  /** Sorted permutations of the two comprehensions, joined around the
      pivot, form a sorted permutation of the whole list. */
  lemma SortedPartsJoin(rest: seq<int>, pivot: int, sl: seq<int>, sr: seq<int>)
    requires Sorted(sl) && multiset(sl) == multiset(AtMost(rest, pivot))
    requires Sorted(sr) && multiset(sr) == multiset(Above(rest, pivot))
    ensures multiset(sl + [pivot] + sr) == multiset(rest + [pivot])
    ensures |sl + [pivot] + sr| == |rest| + 1
    ensures Sorted(sl + [pivot] + sr)
  {
    PermutationKeepsBounds(sl, AtMost(rest, pivot), pivot);
    PermutationKeepsBounds(sr, Above(rest, pivot), pivot);
    SortedJoin(sl, pivot, sr);
    PartitionSplit(rest, pivot);
    assert |sl| == |multiset(sl)| && |sr| == |multiset(sr)|;
  }

  /** A list of length 0 or 1 is returned as it is. */
  lemma QuicksortShort(s: seq<int>)
    requires |s| <= 1
    ensures Quicksort(s) == s
  {
  }

  /** The head of a sorted sequence is its least element. */
  lemma SortedHeadIsLeast(a: seq<int>, x: int)
    requires Sorted(a) && x in a
    ensures a[0] <= x
  {
    var i :| 0 <= i < |a| && a[i] == x;
    if i > 0 {
      assert a[0] <= a[i];
    }
  }

  /** Taking the head off removes one occurrence of it. */
  lemma MultisetTail(a: seq<int>)
    requires a != []
    ensures multiset(a[1..]) == multiset(a) - multiset{a[0]}
  {
    assert a == [a[0]] + a[1..];
  }

  /** The tail of a sorted sequence is sorted. */
  lemma SortedTail(a: seq<int>)
    requires a != [] && Sorted(a)
    ensures Sorted(a[1..])
  {
    forall i, j | 0 <= i < j < |a| - 1 ensures a[1..][i] <= a[1..][j] {
      assert a[1..][i] == a[i + 1] && a[1..][j] == a[j + 1];
    }
  }

  /** Two non-empty sequences with the same head and the same tail are equal. */
  lemma SameHeadAndTail(a: seq<int>, b: seq<int>)
    requires a != [] && b != [] && a[0] == b[0] && a[1..] == b[1..]
    ensures a == b
  {
    assert a == [a[0]] + a[1..] && b == [b[0]] + b[1..];
  }

  /** A sorted permutation of a sequence is unique. */
  lemma {:induction false} SortedPermutationUnique(a: seq<int>, b: seq<int>)
    requires Sorted(a) && Sorted(b) && multiset(a) == multiset(b)
    ensures a == b
    decreases |a|
  {
    assert |a| == |multiset(a)| == |multiset(b)| == |b|;
    if a != [] {
      assert a[0] in multiset(b) && b[0] in multiset(a);
      SortedHeadIsLeast(b, a[0]);
      SortedHeadIsLeast(a, b[0]);
      MultisetTail(a);
      MultisetTail(b);
      SortedTail(a);
      SortedTail(b);
      SortedPermutationUnique(a[1..], b[1..]);
      SameHeadAndTail(a, b);
    }
  }

  /** Quicksort agrees with every other sort: any sorted permutation of the
      input is exactly its result. */
  lemma QuicksortIsTheSort(s: seq<int>, t: seq<int>)
    ensures Sorted(t) && multiset(t) == multiset(s) <==> t == Quicksort(s)
  {
    if Sorted(t) && multiset(t) == multiset(s) {
      SortedPermutationUnique(t, Quicksort(s));
    }
  }

  /** In `r == a + [pivot] + b`, the pivot sits at index `|a|` between the
      two bounded runs. */
  lemma PivotInJoin(a: seq<int>, pivot: int, b: seq<int>, r: seq<int>)
    requires AllAtMost(a, pivot) && AllAbove(b, pivot) && r == a + [pivot] + b
    ensures |a| < |r| && r[|a|] == pivot
    ensures forall i :: 0 <= i < |a| ==> r[i] <= pivot
    ensures forall i :: |a| < i < |r| ==> r[i] > pivot
  {
    forall i | 0 <= i < |a| ensures r[i] <= pivot {
      assert r[i] == a[i];
    }
    assert r[|a| + 1..] == b;
    forall i | |a| < i < |r| ensures r[i] > pivot {
      assert r[i] == r[|a| + 1..][i - |a| - 1];
    }
  }

  /** What `testar_quicksort` builds from the hand-made first partition: the
      two halves sorted separately and glued around the pivot equal the
      direct sort of the whole list. */
  lemma HalvesAgree(s: seq<int>)
    requires |s| >= 1
    ensures Quicksort(AtMost(s[..|s| - 1], s[|s| - 1])) + [s[|s| - 1]] + Quicksort(Above(s[..|s| - 1], s[|s| - 1]))
              == Quicksort(s)
  {
    if |s| == 1 {
      assert s[..0] == [];
      assert Quicksort([]) == [];
    }
  }

  /** The pivot `arr[-1]` ends at index `k == len(left)` of the result,
      with everything before it at most the pivot and everything after it
      above. */
  lemma PivotPosition(s: seq<int>, k: nat)
    requires |s| >= 1 && k == |AtMost(s[..|s| - 1], s[|s| - 1])|
    ensures k < |Quicksort(s)| && Quicksort(s)[k] == s[|s| - 1]
    ensures forall i :: 0 <= i < k ==> Quicksort(s)[i] <= s[|s| - 1]
    ensures forall i :: k < i < |Quicksort(s)| ==> Quicksort(s)[i] > s[|s| - 1]
  {
    var pivot := s[|s| - 1];
    var left, right := AtMost(s[..|s| - 1], pivot), Above(s[..|s| - 1], pivot);
    SortedSidesBounded(left, right, pivot);
    HalvesAgree(s);
    PivotInJoin(Quicksort(left), pivot, Quicksort(right), Quicksort(s));
  }

  /** Sorting the two comprehensions keeps each on its side of the pivot. */
  lemma SortedSidesBounded(left: seq<int>, right: seq<int>, pivot: int)
    requires AllAtMost(left, pivot) && AllAbove(right, pivot)
    ensures AllAtMost(Quicksort(left), pivot) && AllAbove(Quicksort(right), pivot)
  {
    PermutationKeepsBounds(Quicksort(left), left, pivot);
    PermutationKeepsBounds(Quicksort(right), right, pivot);
  }

  /** `quicksort_parallel(arr, result, index)`: stores the sorted list in slot
      `index` of `result` (a negative index counts from the end, as in
      Python). An index out of range raises IndexError before anything is
      stored; `ok` is false exactly then. */
  method QuicksortParallel(arr: seq<int>, result: array<Option<seq<int>>>, index: int)
    returns (ok: bool)
    modifies result
    ensures ok <==> -result.Length <= index < result.Length
    ensures ok ==> result[if index < 0 then index + result.Length else index] == Some(Quicksort(arr))
    ensures forall i :: 0 <= i < result.Length && !(ok && i == (if index < 0 then index + result.Length else index))
              ==> result[i] == old(result[i])
  {
    var sorted := Quicksort(arr);
    ok := -result.Length <= index < result.Length;
    if ok {
      var slot := if index < 0 then index + result.Length else index;
      result[slot] := Some(sorted);
    }
  }

  /** The partition-then-recombine part of `testar_quicksort`: the first
      split by hand, each half sorted into its own one-slot list, then
      `left_sorted[0] + [pivot] + right_sorted[0]`. An empty list has no
      `numeros[-1]`, so it gives None. */
  method SortByHalves(numeros: seq<int>) returns (r: Option<seq<int>>)
    ensures numeros == [] <==> r.None?
    ensures r.Some? ==> r.value == Quicksort(numeros)
    ensures r.Some? ==> Sorted(r.value) && multiset(r.value) == multiset(numeros)
  {
    if numeros == [] {
      return None;
    }
    var pivot := numeros[|numeros| - 1];
    var left := AtMost(numeros[..|numeros| - 1], pivot);
    var right := Above(numeros[..|numeros| - 1], pivot);
    HalvesAgree(numeros);
    // the two threads, run one after the other, each with its own
    // one-slot list
    var leftSorted := new Option<seq<int>>[1](_ => None);
    var okLeft := QuicksortParallel(left, leftSorted, 0);
    var leftHalf := leftSorted[0];
    assert leftHalf == Some(Quicksort(left));
    var rightSorted := new Option<seq<int>>[1](_ => None);
    var okRight := QuicksortParallel(right, rightSorted, 0);
    var rightHalf := rightSorted[0];
    assert rightHalf == Some(Quicksort(right));
    r := Some(leftHalf.value + [pivot] + rightHalf.value);
  }
}
