/** `selection_sort`: for each slot, a scan of the rest finds the first
    element that belongs there (one step per scanned index), then one
    exchange brings it in (one more step, only when it is not already there). */
module Selection {
  import opened Ordering

  /** The first `i` slots hold their final values: they are ordered, and each
      may stand before every element from slot `i` on. */
  ghost predicate SortedFront(s: seq<int>, i: int, ascending: bool) {
    && (forall k, m :: 0 <= k < m < i && m < |s| ==> InOrder(s[k], s[m], ascending))
    && (forall k, m :: 0 <= k < i <= m < |s| ==> InOrder(s[k], s[m], ascending))
  }

  /** Bringing an element that may stand before all of s[i..] into slot `i`
      extends the sorted front by one slot. */
  lemma SelectExtendsFront(s: seq<int>, i: int, idx: int, ascending: bool)
    requires 0 <= i <= idx < |s| && SortedFront(s, i, ascending)
    requires forall k :: i <= k < |s| ==> InOrder(s[idx], s[k], ascending)
    ensures SortedFront(Swap(s, i, idx), i + 1, ascending)
  {
  }

  /** On an ordered list the scan settles on slot `i` itself: a later index
      would hold a value strictly preceding a[i]. */
  lemma ScanOfOrdered(s: seq<int>, i: int, idx: int, ascending: bool)
    requires 0 <= i <= idx < |s|
    requires forall k :: i <= k < idx ==> Precedes(s[idx], s[k], ascending)
    ensures Ordered(s, ascending) ==> idx == i
  {
    if idx != i {
      assert Precedes(s[idx], s[i], ascending);
    }
  }

  /** `idx` indexes the FIRST element of s[i..] that may stand before all of
      s[i..]: the minimum when ascending, the maximum otherwise, where a later
      equal value does not replace an earlier one. */
  ghost predicate IsPick(s: seq<int>, i: int, idx: int, ascending: bool) {
    && 0 <= i <= idx < |s|
    && (forall k :: i <= k < |s| ==> InOrder(s[idx], s[k], ascending))
    && (forall k :: i <= k < idx ==> Precedes(s[idx], s[k], ascending))
  }

  /** The slot the scan from `i` settles on, found from the back: the pick of
      s[i + 1..] unless s[i] may stand before it. */
  function Pick(s: seq<int>, i: int, ascending: bool): (idx: int)
    requires 0 <= i < |s|
    ensures i <= idx < |s|
    decreases |s| - i
  {
    if i == |s| - 1 then i
    else
      var p := Pick(s, i + 1, ascending);
      if Precedes(s[p], s[i], ascending) then p else i
  }

  /** The slot `Pick` finds is the first extreme one. */
  lemma {:induction false} PickIsPick(s: seq<int>, i: int, ascending: bool)
    requires 0 <= i < |s|
    ensures IsPick(s, i, Pick(s, i, ascending), ascending)
    decreases |s| - i
  {
    if i < |s| - 1 {
      PickIsPick(s, i + 1, ascending);
    }
  }

  /** There is only one first extreme element. */
  lemma PickUnique(s: seq<int>, i: int, x: int, y: int, ascending: bool)
    requires IsPick(s, i, x, ascending) && IsPick(s, i, y, ascending)
    ensures x == y
  {
    assert InOrder(s[x], s[y], ascending) && InOrder(s[y], s[x], ascending);
  }

  /** The number of exchanges the outer iterations from slot `i` on make:
      one for every slot whose pick lies elsewhere. */
  function Exchanges(s: seq<int>, i: nat, ascending: bool): nat
    decreases |s| - i
  {
    if i >= |s| then 0
    else
      var p := Pick(s, i, ascending);
      (if p != i then 1 else 0) + Exchanges(Swap(s, i, p), i + 1, ascending)
  }

  /** At most one exchange per slot but the last. */
  lemma {:induction false} ExchangesBound(s: seq<int>, i: nat, ascending: bool)
    requires i < |s|
    ensures Exchanges(s, i, ascending) <= |s| - 1 - i
    decreases |s| - i
  {
    var p := Pick(s, i, ascending);
    if i + 1 < |s| {
      ExchangesBound(Swap(s, i, p), i + 1, ascending);
    } else {
      assert p == i;
    }
  }

  /** On an ordered list every scan settles on its own slot. */
  lemma PickOfOrdered(s: seq<int>, i: int, ascending: bool)
    requires 0 <= i < |s| && Ordered(s, ascending)
    ensures Pick(s, i, ascending) == i
  {
    PickIsPick(s, i, ascending);
    ScanOfOrdered(s, i, Pick(s, i, ascending), ascending);
  }

  /** An ordered list needs no exchange. */
  lemma {:induction false} OrderedNoExchanges(s: seq<int>, i: nat, ascending: bool)
    requires Ordered(s, ascending)
    ensures Exchanges(s, i, ascending) == 0
    decreases |s| - i
  {
    if i < |s| {
      PickOfOrdered(s, i, ascending);
      assert Swap(s, i, i) == s;
      assert Exchanges(s, i, ascending) == Exchanges(s, i + 1, ascending);
      OrderedNoExchanges(s, i + 1, ascending);
    }
  }

  /** The inner scan of one outer iteration: the index of the first element
      of a[i..] that may stand before all of a[i..], and the number of steps
      the scan yields, one per index after `i`. */
  method Scan(a: array<int>, i: int, ascending: bool) returns (idxSwap: int, steps: nat)
    requires 0 <= i < a.Length
    ensures idxSwap == Pick(a[..], i, ascending)
    ensures steps == a.Length - 1 - i
  {
    idxSwap := i;
    steps := 0;
    var j := i + 1;
    while j < a.Length
      invariant i + 1 <= j <= a.Length
      invariant i <= idxSwap < j
      // idxSwap indexes the first extreme element of a[i..j]
      invariant forall k :: i <= k < j ==> InOrder(a[idxSwap], a[k], ascending)
      invariant forall k :: i <= k < idxSwap ==> Precedes(a[idxSwap], a[k], ascending)
      invariant steps == j - i - 1
    {
      if ascending && a[j] < a[idxSwap] {
        idxSwap := j;
      } else if !ascending && a[j] > a[idxSwap] {
        idxSwap := j;
      }
      steps := steps + 1;
      j := j + 1;
    }
    PickIsPick(a[..], i, ascending);
    PickUnique(a[..], i, idxSwap, Pick(a[..], i, ascending), ascending);
  }

  /** One outer iteration for slot `i`: the scan, then the exchange when the
      pick lies elsewhere. */
  method Place(a: array<int>, i: int, ascending: bool) returns (placeSteps: nat)
    requires 0 <= i < a.Length && SortedFront(a[..], i, ascending)
    modifies a
    ensures a[..] == Swap(old(a[..]), i, Pick(old(a[..]), i, ascending))
    ensures placeSteps == a.Length - 1 - i + if Pick(old(a[..]), i, ascending) != i then 1 else 0
    ensures SortedFront(a[..], i + 1, ascending)
    ensures multiset(a[..]) == old(multiset(a[..]))
    ensures placeSteps + Remaining(a[..], i + 1, ascending) == Remaining(old(a[..]), i, ascending)
  {
    ghost var s0 := a[..];
    var idxSwap, scanSteps := Scan(a, i, ascending);
    PickIsPick(a[..], i, ascending);
    assert Exchanges(s0, i, ascending) == (if idxSwap != i then 1 else 0) + Exchanges(Swap(s0, i, idxSwap), i + 1, ascending);
    placeSteps := scanSteps;
    if idxSwap != i {
      SelectExtendsFront(a[..], i, idxSwap, ascending);
      Exchange(a, i, idxSwap);
      placeSteps := placeSteps + 1;
    } else {
      SelectExtendsFront(a[..], i, i, ascending);
      assert Swap(a[..], i, i) == a[..];
    }
    RemainingStep(s0, a[..], i, placeSteps, ascending);
  }

  /** The steps the outer iterations from slot `i` on yield: the scans, then
      the exchanges. */
  ghost function Remaining(s: seq<int>, i: nat, ascending: bool): nat
    requires i <= |s|
  {
    Triangle(|s| - i) + Exchanges(s, i, ascending)
  }

  /** One outer iteration's steps: its scan and its exchange. */
  lemma RemainingStep(s: seq<int>, t: seq<int>, i: nat, placeSteps: nat, ascending: bool)
    requires i < |s| == |t|
    requires placeSteps + Exchanges(t, i + 1, ascending) == |s| - 1 - i + Exchanges(s, i, ascending)
    ensures placeSteps + Remaining(t, i + 1, ascending) == Remaining(s, i, ascending)
  {
    var m := |s| - i;
    assert |t| - (i + 1) == m - 1;
    assert Triangle(m) == m - 1 + Triangle(m - 1);
  }

  /** Sorts `a` in place and returns how many steps the routine yields:
      n(n-1)/2 scan steps plus one per exchange. */
  method SelectionSort(a: array<int>, ascending: bool) returns (steps: nat)
    modifies a
    ensures Ordered(a[..], ascending)
    ensures multiset(a[..]) == old(multiset(a[..]))
    ensures steps == Triangle(a.Length) + Exchanges(old(a[..]), 0, ascending)
  {
    var n := a.Length;
    steps := 0;
    var i := 0;
    ghost var total := Remaining(a[..], 0, ascending);
    while i < n
      invariant 0 <= i <= n
      invariant SortedFront(a[..], i, ascending)
      invariant multiset(a[..]) == old(multiset(a[..]))
      invariant steps + Remaining(a[..], i, ascending) == total
    {
      var placeSteps := Place(a, i, ascending);
      steps := steps + placeSteps;
      i := i + 1;
    }
  }
}
