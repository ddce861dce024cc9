/** `bubble_sort`: adjacent exchanges over shrinking passes, one step per
    exchange. */
module Bubble {
  import opened Ordering

  /** The slots from `b` on hold their final values: they are ordered, and
      every element before `b` may stand before every one of them. */
  ghost predicate Settled(s: seq<int>, b: int, ascending: bool) {
    && (forall k, m :: 0 <= b <= k < m < |s| ==> InOrder(s[k], s[m], ascending))
    && (forall k, m :: 0 <= k < b <= m < |s| ==> InOrder(s[k], s[m], ascending))
  }

  /** The bubble: `s[j]` may follow everything before it. */
  ghost predicate Bubbled(s: seq<int>, j: int, ascending: bool)
    requires 0 <= j < |s|
  {
    forall k :: 0 <= k <= j ==> InOrder(s[k], s[j], ascending)
  }

  /** Whether or not the routine exchanges s[j] and s[j + 1], the bubble moves
      on to slot j + 1. */
  lemma BubbleMoves(s: seq<int>, j: int, ascending: bool)
    requires 0 <= j < |s| - 1 && Bubbled(s, j, ascending)
    ensures Precedes(s[j + 1], s[j], ascending) ==> Bubbled(Swap(s, j, j + 1), j + 1, ascending)
    ensures !Precedes(s[j + 1], s[j], ascending) ==> Bubbled(s, j + 1, ascending)
  {
  }

  /** At the end of a pass the bubble at `bound` joins the settled slots. */
  lemma BubbleSettles(s: seq<int>, bound: int, ascending: bool)
    requires 0 <= bound < |s| && Bubbled(s, bound, ascending)
    requires Settled(s, bound + 1, ascending)
    ensures Settled(s, bound, ascending)
  {
  }

  /** Exchanging two neighbours below `b` leaves the settled slots settled. */
  lemma SwapKeepsSettled(s: seq<int>, j: int, b: int, ascending: bool)
    requires 0 <= j && j + 1 < b <= |s|
    requires Settled(s, b, ascending)
    ensures Settled(Swap(s, j, j + 1), b, ascending)
  {
  }

  /** Sorts `a` in place and returns how many steps the routine yields: one per
      exchange of neighbours, which is the number of inversions of the input.
      So an input already ordered in the chosen direction yields no step. */
  method BubbleSort(a: array<int>, ascending: bool) returns (steps: nat)
    modifies a
    ensures Ordered(a[..], ascending)
    ensures multiset(a[..]) == old(multiset(a[..]))
    ensures steps == Inversions(old(a[..]), ascending)
  {
    var n := a.Length;
    steps := 0;
    var i := 0;
    while i < n - 1
      invariant 0 <= i <= n && (n > 0 ==> i <= n - 1)
      // after pass i, the last i slots hold their final values
      invariant Settled(a[..], n - i, ascending)
      invariant multiset(a[..]) == old(multiset(a[..]))
      invariant steps + Inversions(a[..], ascending) == Inversions(old(a[..]), ascending)
    {
      var swaps := Pass(a, n - 1 - i, ascending);
      steps := steps + swaps;
      i := i + 1;
    }
    assert Settled(a[..], if n == 0 then 0 else 1, ascending);
    OrderedIffNoInversions(a[..], ascending);
  }

  /** One pass of the inner loop over the neighbour pairs (j, j + 1), j < bound:
      it carries the element that belongs last among a[..bound + 1] into slot
      `bound`, and returns the number of exchanges (steps) it made. */
  method Pass(a: array<int>, bound: int, ascending: bool) returns (swaps: nat)
    requires 0 <= bound < a.Length
    requires Settled(a[..], bound + 1, ascending)
    modifies a
    ensures Settled(a[..], bound, ascending)
    ensures multiset(a[..]) == old(multiset(a[..]))
    ensures swaps + Inversions(a[..], ascending) == Inversions(old(a[..]), ascending)
  {
    swaps := 0;
    var j := 0;
    while j < bound
      invariant 0 <= j <= bound
      invariant Bubbled(a[..], j, ascending)
      invariant Settled(a[..], bound + 1, ascending)
      invariant multiset(a[..]) == old(multiset(a[..]))
      invariant swaps + Inversions(a[..], ascending) == Inversions(old(a[..]), ascending)
    {
      var swapped := Compare(a, j, bound, ascending);
      swaps := swaps + swapped;
      j := j + 1;
    }
    BubbleSettles(a[..], bound, ascending);
  }

  /** One round of the inner loop: neighbours j and j + 1 are exchanged when
      they are strictly out of order, which yields a step. */
  method Compare(a: array<int>, j: int, bound: int, ascending: bool) returns (swapped: nat)
    requires 0 <= j < bound < a.Length
    requires Bubbled(a[..], j, ascending) && Settled(a[..], bound + 1, ascending)
    modifies a
    ensures a[..] == if Precedes(old(a[j + 1]), old(a[j]), ascending) then Swap(old(a[..]), j, j + 1) else old(a[..])
    ensures swapped == if Precedes(old(a[j + 1]), old(a[j]), ascending) then 1 else 0
    ensures Bubbled(a[..], j + 1, ascending) && Settled(a[..], bound + 1, ascending)
    ensures multiset(a[..]) == old(multiset(a[..]))
    ensures swapped + Inversions(a[..], ascending) == Inversions(old(a[..]), ascending)
  {
    swapped := 0;
    BubbleMoves(a[..], j, ascending);
    if Precedes(a[j + 1], a[j], ascending) {
      SwapAdjacentInversion(a[..], j, ascending);
      SwapKeepsSettled(a[..], j, bound + 1, ascending);
      Exchange(a, j, j + 1);
      swapped := 1;
    }
  }
}
