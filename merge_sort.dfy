/** `merge_sort` and `merge`: top-down merge sort over the half-open range
    [start, end), one step per element a merge writes back. */
module Merge {
  import opened Ordering

  /** The run `merge` writes back: it takes the left front only when it
      strictly precedes the right front, so on equal fronts the right one goes
      first. */
  function Merged(left: seq<int>, right: seq<int>, ascending: bool): (r: seq<int>)
    ensures |r| == |left| + |right|
    decreases |left| + |right|
  {
    if left == [] then right
    else if right == [] then left
    else if Precedes(left[0], right[0], ascending) then [left[0]] + Merged(left[1..], right, ascending)
    else [right[0]] + Merged(left, right[1..], ascending)
  }

  /** Mid-merge: the run `done` written so far, followed by the merge of what
      is left of both runs, is the whole merge. */
  ghost predicate Pending(done: seq<int>, left: seq<int>, right: seq<int>, li: int, ri: int, ascending: bool)
    requires 0 <= li <= |left| && 0 <= ri <= |right|
  {
    done + Merged(left[li..], right[ri..], ascending) == Merged(left, right, ascending)
  }

  /** The merge is a permutation of the two runs together. */
  lemma {:induction false} MergedPermutes(left: seq<int>, right: seq<int>, ascending: bool)
    ensures multiset(Merged(left, right, ascending)) == multiset(left) + multiset(right)
    decreases |left| + |right|
  {
    if left != [] && right != [] {
      assert left == [left[0]] + left[1..];
      assert right == [right[0]] + right[1..];
      if Precedes(left[0], right[0], ascending) {
        MergedPermutes(left[1..], right, ascending);
      } else {
        MergedPermutes(left, right[1..], ascending);
      }
    }
  }

  /** An element that may stand before both runs may stand before their merge. */
  lemma MergedLeads(x: int, left: seq<int>, right: seq<int>, ascending: bool)
    requires Leads(x, left, ascending) && Leads(x, right, ascending)
    ensures Leads(x, Merged(left, right, ascending), ascending)
  {
    var r := Merged(left, right, ascending);
    MergedPermutes(left, right, ascending);
    forall y | y in r ensures InOrder(x, y, ascending) {
      assert y in multiset(r);
      assert y in multiset(left) || y in multiset(right);
    }
  }

  /** Merging two ordered runs gives an ordered run. */
  lemma {:induction false} MergedOrdered(left: seq<int>, right: seq<int>, ascending: bool)
    requires Ordered(left, ascending) && Ordered(right, ascending)
    ensures Ordered(Merged(left, right, ascending), ascending)
    decreases |left| + |right|
  {
    if left != [] && right != [] {
      assert left == [left[0]] + left[1..];
      assert right == [right[0]] + right[1..];
      OrderedCons(left[0], left[1..], ascending);
      OrderedCons(right[0], right[1..], ascending);
      if Precedes(left[0], right[0], ascending) {
        MergedOrdered(left[1..], right, ascending);
        MergedLeads(left[0], left[1..], right, ascending);
        OrderedCons(left[0], Merged(left[1..], right, ascending), ascending);
      } else {
        MergedOrdered(left, right[1..], ascending);
        MergedLeads(right[0], left, right[1..], ascending);
        OrderedCons(right[0], Merged(left, right[1..], ascending), ascending);
      }
    }
  }

  /** Before the first round nothing is written and both runs are whole. */
  lemma NothingPending(left: seq<int>, right: seq<int>, ascending: bool)
    ensures Pending([], left, right, 0, 0, ascending)
  {
    assert left[0..] == left && right[0..] == right;
  }

  /** When the left front goes first, moving it from the pending merge to the
      written run `done` keeps their concatenation. */
  lemma TakeLeft(done: seq<int>, left: seq<int>, right: seq<int>, li: int, ri: int, ascending: bool)
    requires 0 <= li < |left| && 0 <= ri <= |right|
    requires ri == |right| || Precedes(left[li], right[ri], ascending)
    requires Pending(done, left, right, li, ri, ascending)
    ensures Pending(done + [left[li]], left, right, li + 1, ri, ascending)
  {
    assert left[li..][0] == left[li] && left[li..][1..] == left[li + 1..];
    var rest := Merged(left[li + 1..], right[ri..], ascending);
    assert Merged(left[li..], right[ri..], ascending) == [left[li]] + rest;
    assert (done + [left[li]]) + rest == done + ([left[li]] + rest);
  }

  /** The same step when the right front goes first. */
  lemma TakeRight(done: seq<int>, left: seq<int>, right: seq<int>, li: int, ri: int, ascending: bool)
    requires 0 <= li <= |left| && 0 <= ri < |right|
    requires li == |left| || !Precedes(left[li], right[ri], ascending)
    requires Pending(done, left, right, li, ri, ascending)
    ensures Pending(done + [right[ri]], left, right, li, ri + 1, ascending)
  {
    assert right[ri..][0] == right[ri] && right[ri..][1..] == right[ri + 1..];
    if li == |left| {
      assert left[li..] == [];
    }
    var rest := Merged(left[li..], right[ri + 1..], ascending);
    assert Merged(left[li..], right[ri..], ascending) == [right[ri]] + rest;
    assert (done + [right[ri]]) + rest == done + ([right[ri]] + rest);
  }

  /** Once one run is used up, what is left of the other completes the merge
      as it stands. */
  lemma Drained(done: seq<int>, left: seq<int>, right: seq<int>, li: int, ri: int, ascending: bool)
    requires 0 <= li <= |left| && 0 <= ri <= |right| && (li == |left| || ri == |right|)
    requires Pending(done, left, right, li, ri, ascending)
    ensures done + left[li..] + right[ri..] == Merged(left, right, ascending)
  {
    if li == |left| {
      assert left[li..] == [];
    } else {
      assert right[ri..] == [];
    }
    assert done + Merged(left[li..], right[ri..], ascending) == Merged(left, right, ascending);
  }

  /** The array content `s` holds the original content `a0` with the run
      `done` written over the slots from `start` on. */
  ghost predicate Written(s: seq<int>, a0: seq<int>, start: int, done: seq<int>)
    requires 0 <= start && start + |done| <= |a0|
  {
    s == a0[..start] + done + a0[start + |done|..]
  }

  /** Once the whole merge is written back over a[start..end], that range
      holds it, the rest is as it was, and the list is a permutation of the
      original. */
  lemma WrittenBack(s: seq<int>, a0: seq<int>, start: int, end: int, left: seq<int>, right: seq<int>,
                     done: seq<int>, ascending: bool)
    requires 0 <= start && end == start + |left| + |right| <= |a0|
    requires a0[start..end] == left + right
    requires done == Merged(left, right, ascending) && Written(s, a0, start, done)
    ensures s[start..end] == Merged(left, right, ascending)
    ensures AgreeOutside(a0, s, start, end)
    ensures multiset(s) == multiset(a0)
  {
    assert s[start..end] == done;
    MergedPermutes(left, right, ascending);
    assert a0 == a0[..start] + (left + right) + a0[end..];
  }

  /** `lst[current] = v` for the first slot after the written run `done`:
      the written run grows by `v`. */
  method Put(a: array<int>, start: int, ghost a0: seq<int>, ghost done: seq<int>, current: int, v: int)
    requires 0 <= start && current == start + |done| < |a0| == a.Length
    requires Written(a[..], a0, start, done)
    modifies a
    ensures Written(a[..], a0, start, done + [v])
  {
    a[current] := v;
    assert a[..] == (a0[..start] + done + a0[current..])[current := v];
  }

  /** Merges the runs a[start..mid] and a[mid..end] back into a[start..end],
      yielding once per element placed; nothing outside [start, end) changes. */
  method Merge(a: array<int>, start: int, mid: int, end: int, ascending: bool) returns (steps: nat)
    requires 0 <= start <= mid <= end <= a.Length
    modifies a
    ensures a[start..end] == Merged(old(a[start..mid]), old(a[mid..end]), ascending)
    ensures AgreeOutside(old(a[..]), a[..], start, end)
    ensures multiset(a[..]) == old(multiset(a[..]))
    ensures steps == end - start
  {
    var left := a[start..mid];
    var right := a[mid..end];
    ghost var a0 := a[..];
    assert a0[start..end] == left + right;
    var leftIdx, rightIdx, current;
    ghost var done;
    leftIdx, rightIdx, current, steps, done := MergeFronts(a, start, a0, left, right, ascending);
    Drained(done, left, right, leftIdx, rightIdx, ascending);
    // the loop over what is left of `left`, then the one over `right`
    var copied := CopyRest(a, start, a0, done, left, leftIdx, current);
    done, current, leftIdx, steps := done + left[leftIdx..], current + copied, |left|, steps + copied;
    copied := CopyRest(a, start, a0, done, right, rightIdx, current);
    done, current, rightIdx, steps := done + right[rightIdx..], current + copied, |right|, steps + copied;
    // The source repeats the first loop here (visual.py lines 170-182); both
    // runs are used up by now, so its guard is false and it never runs.
    assert !(leftIdx < |left| && rightIdx < |right|);
    WrittenBack(a[..], a0, start, end, left, right, done, ascending);
  }

  /** The first loop of the merge: while both runs have elements, write back
      the left front when it strictly precedes the right front, else the right
      front, one step each. */
  method MergeFronts(a: array<int>, start: int, ghost a0: seq<int>, left: seq<int>, right: seq<int>, ascending: bool)
      returns (leftIdx: nat, rightIdx: nat, current: int, steps: nat, ghost done: seq<int>)
    requires 0 <= start && start + |left| + |right| <= a.Length && a[..] == a0
    modifies a
    ensures start + |done| <= |a0|
    ensures leftIdx <= |left| && rightIdx <= |right| && (leftIdx == |left| || rightIdx == |right|)
    ensures |done| == steps == leftIdx + rightIdx && current == start + steps
    ensures Pending(done, left, right, leftIdx, rightIdx, ascending)
    ensures Written(a[..], a0, start, done)
  {
    leftIdx, rightIdx, current, steps, done := 0, 0, start, 0, [];
    NothingPending(left, right, ascending);
    assert a0 == a0[..start] + [] + a0[start..];
    while leftIdx < |left| && rightIdx < |right|
      invariant leftIdx <= |left| && rightIdx <= |right| && |a0| == a.Length
      invariant |done| == steps == leftIdx + rightIdx && current == start + steps
      invariant Pending(done, left, right, leftIdx, rightIdx, ascending)
      invariant Written(a[..], a0, start, done)
      decreases |left| + |right| - steps
    {
      steps := steps + 1;
      leftIdx, rightIdx, done := MergeRound(a, start, a0, left, right, leftIdx, rightIdx, current, done, ascending);
      current := current + 1;
    }
  }

  /** One round of that loop: lst[current] receives the left front when it
      strictly precedes the right front, else the right front, and that run's
      index moves on. */
  method MergeRound(a: array<int>, start: int, ghost a0: seq<int>, left: seq<int>, right: seq<int>,
                    leftIdx: nat, rightIdx: nat, current: int, ghost done: seq<int>, ascending: bool)
      returns (leftIdx': nat, rightIdx': nat, ghost done': seq<int>)
    requires leftIdx < |left| && rightIdx < |right| && 0 <= start && start + |left| + |right| <= a.Length == |a0|
    requires |done| == leftIdx + rightIdx && current == start + |done|
    requires Pending(done, left, right, leftIdx, rightIdx, ascending)
    requires Written(a[..], a0, start, done)
    modifies a
    ensures leftIdx' <= |left| && rightIdx' <= |right| && leftIdx' + rightIdx' == leftIdx + rightIdx + 1
    ensures |done'| == |done| + 1
    ensures Pending(done', left, right, leftIdx', rightIdx', ascending)
    ensures Written(a[..], a0, start, done')
  {
    var next;
    if Precedes(left[leftIdx], right[rightIdx], ascending) {
      TakeLeft(done, left, right, leftIdx, rightIdx, ascending);
      next, leftIdx', rightIdx' := left[leftIdx], leftIdx + 1, rightIdx;
    } else {
      TakeRight(done, left, right, leftIdx, rightIdx, ascending);
      next, leftIdx', rightIdx' := right[rightIdx], leftIdx, rightIdx + 1;
    }
    Put(a, start, a0, done, current, next);
    done' := done + [next];
  }

  /** One of the loops that copy what is left of a run, from `run[idx]` on,
      into the slots after the written run `done`, one step per element. */
  method CopyRest(a: array<int>, start: int, ghost a0: seq<int>, ghost done: seq<int>, run: seq<int>, idx: int, current: int)
      returns (copied: nat)
    requires 0 <= start && 0 <= idx <= |run| && |a0| == a.Length && current == start + |done|
    requires start + |done| + (|run| - idx) <= a.Length
    requires Written(a[..], a0, start, done)
    modifies a
    ensures copied == |run| - idx
    ensures Written(a[..], a0, start, done + run[idx..])
  {
    var i, current := idx, current;
    ghost var written := done;
    copied := 0;
    while i < |run|
      invariant idx <= i <= |run| && copied == i - idx
      invariant written == done + run[idx..i] && current == start + |written|
      invariant Written(a[..], a0, start, written)
    {
      Put(a, start, a0, written, current, run[i]);
      assert run[idx..i + 1] == run[idx..i] + [run[i]];
      written := written + [run[i]];
      i, current, copied := i + 1, current + 1, copied + 1;
    }
    assert run[idx..i] == run[idx..];
  }

  /** The size of the left half of a range of `n` elements, n // 2, counted
      down two at a time so that unfolding it involves no division. */
  function Half(n: int): (h: nat)
    ensures n > 1 ==> 2 * h <= n <= 2 * h + 1
    decreases n
  {
    if n <= 1 then 0 else Half(n - 2) + 1
  }

  /** Steps `merge_sort` yields on a range of `n` elements: every merge yields
      once per element it writes back. */
  function MergeSortSteps(n: int): nat
    decreases n
  {
    if n <= 1 then 0 else MergeSortSteps(Half(n)) + MergeSortSteps(n - Half(n)) + n
  }

  /** Halving a number offset by an even amount: (2x + n) / 2 = x + n / 2. */
  lemma HalfOffset(x: int, n: nat)
    ensures (2 * x + n) / 2 == x + n / 2
  {
    var q, r := n / 2, n % 2;
    assert n == 2 * q + r && 0 <= r < 2;
    assert 2 * x + n == 2 * (x + q) + r;
  }

  /** Splitting a range of n > 1 elements at its midpoint gives halves of
      n // 2 and n - n // 2 elements, whose step counts add up with the
      n steps of the final merge. */
  lemma StepsSplit(start: int, mid: int, end: int)
    requires end - start > 1 && 2 * (mid - start) <= end - start <= 2 * (mid - start) + 1
    ensures MergeSortSteps(end - start) == MergeSortSteps(mid - start) + MergeSortSteps(end - mid) + (end - start)
  {
    assert Half(end - start) == mid - start;
  }

  /** The midpoint the routine computes splits a range of n > 1 elements
      into n / 2 and n - n / 2, both non-empty. */
  lemma MidIsHalf(start: int, mid: int, end: int)
    requires 0 <= start && end - start > 1 && mid == (start + end) / 2
    ensures 2 * (mid - start) <= end - start <= 2 * (mid - start) + 1
    ensures start < mid < end
  {
    var n := end - start;
    assert start + end == 2 * start + n;
    HalfOffset(start, n);
  }

  /** 2 to the power `k`. */
  function Pow2(k: nat): (r: nat)
    ensures r >= 1
  {
    if k == 0 then 1 else 2 * Pow2(k - 1)
  }

  /** On 2^k elements the sort yields k * 2^k steps: k levels of merges, each
      writing back every element once. */
  lemma {:induction false} MergeSortStepsPow2(k: nat)
    ensures MergeSortSteps(Pow2(k)) == k * Pow2(k)
  {
    if k > 0 {
      var h := Pow2(k - 1);
      MergeSortStepsPow2(k - 1);
      StepsSplit(0, h, 2 * h);
      LevelsAdd(k, h, MergeSortSteps(h));
    }
  }

  /** Two halves of (k - 1) * h steps and one merge of 2h steps make
      k * 2h steps. */
  lemma LevelsAdd(k: nat, h: int, half: int)
    requires k > 0 && half == (k - 1) * h
    ensures half + half + 2 * h == k * (2 * h)
  {
  }

  /** After both recursive calls the two halves are ordered runs, so their
      merge is ordered. */
  lemma HalvesOrdered(s1: seq<int>, s2: seq<int>, start: int, mid: int, end: int, ascending: bool)
    requires 0 <= start <= mid <= end <= |s1|
    requires AgreeOutside(s1, s2, mid, end)
    requires Ordered(s1[start..mid], ascending) && Ordered(s2[mid..end], ascending)
    ensures Ordered(Merged(s2[start..mid], s2[mid..end], ascending), ascending)
  {
    assert s2[start..mid] == s1[start..mid];
    MergedOrdered(s2[start..mid], s2[mid..end], ascending);
  }

  /** The three steps of one call each keep the list a permutation and touch
      only their own range, which lies inside [start, end). */
  lemma SortFrame(s0: seq<int>, s1: seq<int>, s2: seq<int>, s3: seq<int>, start: int, mid: int, end: int)
    requires start <= mid <= end
    requires AgreeOutside(s0, s1, start, mid) && multiset(s1) == multiset(s0)
    requires AgreeOutside(s1, s2, mid, end) && multiset(s2) == multiset(s1)
    requires AgreeOutside(s2, s3, start, end) && multiset(s3) == multiset(s2)
    ensures AgreeOutside(s0, s3, start, end) && multiset(s3) == multiset(s0)
  {
  }

  /** Sorts a[start..end] in place and returns how many steps the routine
      yields; a range of fewer than two elements is left as it is, and
      nothing outside the range changes. */
  method MergeSort(a: array<int>, start: int, end: int, ascending: bool) returns (steps: nat)
    requires 0 <= start && end <= a.Length
    modifies a
    ensures end - start <= 1 ==> a[..] == old(a[..])
    ensures start <= end ==> Ordered(a[start..end], ascending)
    ensures AgreeOutside(old(a[..]), a[..], start, end)
    ensures multiset(a[..]) == old(multiset(a[..]))
    ensures steps == MergeSortSteps(end - start)
    decreases end - start
  {
    if end - start <= 1 {
      return 0;
    }
    var mid := (start + end) / 2;
    MidIsHalf(start, mid, end);
    StepsSplit(start, mid, end);
    ghost var s0 := a[..];
    var leftSteps := MergeSort(a, start, mid, ascending);
    ghost var s1 := a[..];
    var rightSteps := MergeSort(a, mid, end, ascending);
    ghost var s2 := a[..];
    HalvesOrdered(s1, s2, start, mid, end, ascending);
    var mergeSteps := Merge(a, start, mid, end, ascending);
    SortFrame(s0, s1, s2, a[..], start, mid, end);
    steps := leftSteps + rightSteps + mergeSteps;
  }
}
