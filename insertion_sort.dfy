/** `insertion_sort`: each element is shifted left one position at a time past
    the predecessors it strictly precedes, one step per shift. */
module Insertion {
  import opened Ordering

  /** The first `i` slots are ordered. */
  ghost predicate OrderedPrefix(s: seq<int>, i: int, ascending: bool) {
    forall k, m :: 0 <= k < m < i && m < |s| ==> InOrder(s[k], s[m], ascending)
  }

  /** Mid-insertion of `current`, which started at slot `i` and now sits at
      slot `j`: without it, s[..i + 1] is ordered, and every element it has
      passed belongs strictly after it. */
  ghost predicate Inserting(s: seq<int>, i: int, j: int, current: int, ascending: bool)
    requires 0 <= j <= i < |s|
  {
    && s[j] == current
    && (forall k, m :: 0 <= k < m <= i && k != j && m != j ==> InOrder(s[k], s[m], ascending))
    && (forall m :: j < m <= i ==> Precedes(current, s[m], ascending))
  }

  lemma StartInserting(s: seq<int>, i: int, ascending: bool)
    requires 0 <= i < |s| && OrderedPrefix(s, i, ascending)
    ensures Inserting(s, i, i, s[i], ascending)
  {
  }

  /** One shift: `current` exchanges places with the predecessor it strictly
      precedes. */
  lemma ShiftKeepsInserting(s: seq<int>, i: int, j: int, current: int, ascending: bool)
    requires 0 < j <= i < |s| && Inserting(s, i, j, current, ascending)
    requires Precedes(current, s[j - 1], ascending)
    ensures Inserting(Swap(s, j - 1, j), i, j - 1, current, ascending)
  {
  }

  /** Once `current` reaches the front or a predecessor it may follow, the
      first i + 1 slots are ordered. */
  lemma FinishInserting(s: seq<int>, i: int, j: int, current: int, ascending: bool)
    requires 0 <= j <= i < |s| && Inserting(s, i, j, current, ascending)
    requires j == 0 || !Precedes(current, s[j - 1], ascending)
    ensures OrderedPrefix(s, i + 1, ascending)
  {
    forall k, m | 0 <= k < m < i + 1 ensures InOrder(s[k], s[m], ascending) {
      if m == j && k < j - 1 {
        assert InOrder(s[k], s[j - 1], ascending);
      }
    }
  }

  /** Sorts `a` in place and returns how many steps the routine yields: one per
      one-position left shift, which is the number of inversions of the input. */
  method InsertionSort(a: array<int>, ascending: bool) returns (steps: nat)
    modifies a
    ensures Ordered(a[..], ascending)
    ensures multiset(a[..]) == old(multiset(a[..]))
    ensures steps == Inversions(old(a[..]), ascending)
  {
    var n := a.Length;
    steps := 0;
    var i := 1;
    while i < n
      invariant 1 <= i && (n == 0 || i <= n)
      invariant OrderedPrefix(a[..], i, ascending)
      invariant multiset(a[..]) == old(multiset(a[..]))
      invariant steps + Inversions(a[..], ascending) == Inversions(old(a[..]), ascending)
    {
      var shifts := Insert(a, i, ascending);
      steps := steps + shifts;
      i := i + 1;
    }
    OrderedIffNoInversions(a[..], ascending);
  }

  /** The inner loop for one index `i`: shifts a[i] left past the predecessors
      it strictly precedes and returns the number of shifts (steps). */
  method Insert(a: array<int>, i: int, ascending: bool) returns (shifts: nat)
    requires 0 <= i < a.Length && OrderedPrefix(a[..], i, ascending)
    modifies a
    ensures OrderedPrefix(a[..], i + 1, ascending)
    ensures a[i + 1..] == old(a[i + 1..])
    ensures multiset(a[..]) == old(multiset(a[..]))
    ensures shifts + Inversions(a[..], ascending) == Inversions(old(a[..]), ascending)
  {
    shifts := 0;
    var current := a[i];
    var j := i;
    StartInserting(a[..], i, ascending);
    while j > 0 && Precedes(current, a[j - 1], ascending)
      invariant 0 <= j <= i
      invariant Inserting(a[..], i, j, current, ascending)
      invariant a[i + 1..] == old(a[i + 1..])
      invariant multiset(a[..]) == old(multiset(a[..]))
      invariant shifts + Inversions(a[..], ascending) == Inversions(old(a[..]), ascending)
    {
      SwapAdjacentInversion(a[..], j - 1, ascending);
      ShiftKeepsInserting(a[..], i, j, current, ascending);
      ShiftLeft(a, j, current);
      j := j - 1;
      shifts := shifts + 1;
    }
    FinishInserting(a[..], i, j, current, ascending);
  }

  /** `lst[i] = lst[i - 1]` followed by `lst[i - 1] = current`, where
      `current` is the value at slot `i`: an exchange of neighbours. */
  method ShiftLeft(a: array<int>, j: int, current: int)
    requires 0 < j < a.Length && a[j] == current
    modifies a
    ensures a[..] == Swap(old(a[..]), j - 1, j)
  {
    a[j] := a[j - 1];
    a[j - 1] := current;
  }
}
