/** `partition` and `quick_sort`: Lomuto partitioning around the last entry of
    the inclusive range [low, high], then recursion on both sides. */
module Quick {
  import opened Ordering

  /** Mid-partition: the entries from `low` to `i` strictly precede the pivot
      and those after `i` and before `j` do not. */
  ghost predicate Split(s: seq<int>, low: int, i: int, j: int, pivot: int, ascending: bool) {
    && (forall k :: low <= k <= i && 0 <= k < |s| ==> Precedes(s[k], pivot, ascending))
    && (forall k :: i < k < j && 0 <= k < |s| ==> !Precedes(s[k], pivot, ascending))
  }

  /** One round of the loop over `j`: an entry that strictly precedes the pivot
      is exchanged into slot i + 1, any other stays where it is. */
  lemma SplitStep(s: seq<int>, low: int, i: int, j: int, pivot: int, ascending: bool)
    requires low - 1 <= i < j < |s| && 0 <= low && Split(s, low, i, j, pivot, ascending)
    ensures Precedes(s[j], pivot, ascending) ==> Split(Swap(s, i + 1, j), low, i + 1, j + 1, pivot, ascending)
    ensures !Precedes(s[j], pivot, ascending) ==> Split(s, low, i, j + 1, pivot, ascending)
  {
  }

  /** The final exchange puts the pivot between the two parts. */
  lemma SplitDone(s: seq<int>, low: int, i: int, high: int, ascending: bool)
    requires low - 1 <= i < high < |s| && 0 <= low && Split(s, low, i, high, s[high], ascending)
    ensures var t := Swap(s, i + 1, high);
      && (forall k :: low <= k < i + 1 ==> Precedes(t[k], t[i + 1], ascending))
      && (forall k :: i + 1 < k <= high ==> !Precedes(t[k], t[i + 1], ascending))
  {
  }

  /** Partitions a[low..high + 1] around the pivot a[high] and returns its
      final slot `p` together with the number of values the partition
      generator yields (one per exchange, then `p` itself). Entries strictly
      preceding the pivot end up before `p`, all others after it. */
  method Partition(a: array<int>, low: int, high: int, ascending: bool) returns (p: int, steps: nat)
    requires 0 <= low <= high < a.Length
    modifies a
    ensures low <= p <= high && a[p] == old(a[high])
    ensures forall k :: low <= k < p ==> Precedes(a[k], a[p], ascending)
    ensures forall k :: p < k <= high ==> !Precedes(a[k], a[p], ascending)
    ensures AgreeOutside(old(a[..]), a[..], low, high + 1)
    ensures multiset(a[..]) == old(multiset(a[..]))
    ensures steps == p - low + 1
  {
    var pivot := a[high];
    var i := low - 1;
    ghost var a0 := a[..];
    steps := 0;
    for j := low to high
      invariant low - 1 <= i < j && a[high] == pivot
      invariant Split(a[..], low, i, j, pivot, ascending)
      invariant AgreeOutside(a0, a[..], low, high + 1)
      invariant multiset(a[..]) == multiset(a0)
      invariant steps == i - low + 1
    {
      i, steps := PartitionRound(a, low, high, i, j, pivot, steps, ascending, a0);
    }
    SplitDone(a[..], low, i, high, ascending);
    SwapAgrees(a0, a[..], low, high + 1, i + 1, high);
    Exchange(a, i + 1, high);
    p := i + 1;
    steps := steps + 1;
  }

  /** The body of the loop over `j`: when a[j] strictly precedes the pivot,
      `i` moves on and a[i] and a[j] are exchanged, which yields a step. */
  method PartitionRound(a: array<int>, low: int, high: int, i: int, j: int, pivot: int, steps: nat,
                        ascending: bool, ghost a0: seq<int>)
      returns (i': int, steps': nat)
    requires 0 <= low && low - 1 <= i < j < high < a.Length && a[high] == pivot
    requires Split(a[..], low, i, j, pivot, ascending)
    requires AgreeOutside(a0, a[..], low, high + 1) && multiset(a[..]) == multiset(a0)
    modifies a
    ensures a[..] == if Precedes(old(a[j]), pivot, ascending) then Swap(old(a[..]), i + 1, j) else old(a[..])
    ensures i' == if Precedes(old(a[j]), pivot, ascending) then i + 1 else i
    ensures steps' - i' == steps - i && a[high] == pivot
    ensures Split(a[..], low, i', j + 1, pivot, ascending)
    ensures AgreeOutside(a0, a[..], low, high + 1) && multiset(a[..]) == multiset(a0)
  {
    SplitStep(a[..], low, i, j, pivot, ascending);
    i', steps' := i, steps;
    if Precedes(a[j], pivot, ascending) {
      i' := i' + 1;
      SwapAgrees(a0, a[..], low, high + 1, i', j);
      Exchange(a, i', j);
      steps' := steps' + 1;
    }
  }

  /** What holds of every entry of a range holds of every entry of the same
      range of a list that agrees with it outside that range and is a
      permutation of it. */
  lemma RangeKeeps(s: seq<int>, t: seq<int>, lo: int, hi: int, P: int -> bool)
    requires 0 <= lo <= hi <= |s|
    requires multiset(s) == multiset(t) && AgreeOutside(s, t, lo, hi)
    requires forall k :: lo <= k < hi ==> P(s[k])
    ensures forall k :: lo <= k < hi ==> P(t[k])
  {
    RangeMultiset(s, t, lo, hi);
    forall k | lo <= k < hi ensures P(t[k]) {
      assert t[k] == t[lo..hi][k - lo];
      assert t[k] in multiset(s[lo..hi]);
      var m :| lo <= m < hi && s[m] == t[k] by {
        assert t[k] in s[lo..hi];
        var m' :| 0 <= m' < hi - lo && s[lo..hi][m'] == t[k];
        assert s[lo + m'] == t[k];
      }
    }
  }

  /** After the partition (`s1`) and the sorting of both sides (`s2`, then
      `s3`), the whole range is ordered. */
  lemma SortedAroundPivot(s1: seq<int>, s2: seq<int>, s3: seq<int>, low: int, p: int, high: int, ascending: bool)
    requires 0 <= low <= p <= high < |s1|
    requires forall k :: low <= k < p ==> Precedes(s1[k], s1[p], ascending)
    requires forall k :: p < k <= high ==> !Precedes(s1[k], s1[p], ascending)
    requires AgreeOutside(s1, s2, low, p) && multiset(s2) == multiset(s1)
    requires AgreeOutside(s2, s3, p + 1, high + 1) && multiset(s3) == multiset(s2)
    requires Ordered(s2[low..p], ascending) && Ordered(s3[p + 1..high + 1], ascending)
    ensures Ordered(s3[low..high + 1], ascending)
  {
    var pivot := s1[p];
    RangeKeeps(s1, s2, low, p, x => Precedes(x, pivot, ascending));
    RangeKeeps(s2, s3, p + 1, high + 1, x => !Precedes(x, pivot, ascending));
    OrderedRange(s2, low, p, ascending);
    OrderedRange(s3, p + 1, high + 1, ascending);
    forall i, j | low <= i < j <= high ensures InOrder(s3[i], s3[j], ascending) {
      if j < p {
        assert s3[i] == s2[i] && s3[j] == s2[j];
      }
    }
    OrderedRange(s3, low, high + 1, ascending);
  }

  /** Sorts a[low..high + 1] in place. The partition generator is drained
      inside and its values are discarded, so the routine yields no step. */
  method QuickSort(a: array<int>, low: int, high: int, ascending: bool) returns (steps: nat)
    requires 0 <= low && high < a.Length
    modifies a
    ensures low >= high ==> a[..] == old(a[..])
    ensures low <= high ==> Ordered(a[low..high + 1], ascending)
    ensures AgreeOutside(old(a[..]), a[..], low, high + 1)
    ensures multiset(a[..]) == old(multiset(a[..]))
    ensures steps == 0
    decreases high - low
  {
    steps := 0;
    if low < high {
      var p, partitionSteps := Partition(a, low, high, ascending);
      ghost var s1 := a[..];
      var leftSteps := QuickSort(a, low, p - 1, ascending);
      ghost var s2 := a[..];
      var rightSteps := QuickSort(a, p + 1, high, ascending);
      SortedAroundPivot(s1, s2, a[..], low, p, high, ascending);
      steps := leftSteps + rightSteps;
    }
  }
}
