/** The comparison every sorting routine of the visualizer tests, and the
    specifications the routines are proved against: orderedness in the chosen
    direction, the inversion count, and permutation facts about ranges. */
module Ordering {

  /** The strict test the routines make: with `ascending`, `x` belongs strictly
      before `y` when `x < y`; otherwise when `x > y`. */
  predicate Precedes(x: int, y: int, ascending: bool) {
    if ascending then x < y else x > y
  }

  /** `x` may stand before `y` in a list ordered in the chosen direction. */
  predicate InOrder(x: int, y: int, ascending: bool) {
    !Precedes(y, x, ascending)
  }

  /** Non-decreasing when `ascending`, non-increasing otherwise. */
  ghost predicate Ordered(s: seq<int>, ascending: bool) {
    forall i, j :: 0 <= i < j < |s| ==> InOrder(s[i], s[j], ascending)
  }

  /** A range of a list is ordered exactly when its entries are pairwise in
      order by their positions in the whole list. */
  lemma OrderedRange(s: seq<int>, lo: int, hi: int, ascending: bool)
    requires 0 <= lo <= hi <= |s|
    ensures Ordered(s[lo..hi], ascending) <==> forall i, j :: lo <= i < j < hi ==> InOrder(s[i], s[j], ascending)
  {
    if forall i, j :: lo <= i < j < hi ==> InOrder(s[i], s[j], ascending) {
      forall i, j | 0 <= i < j < hi - lo ensures InOrder(s[lo..hi][i], s[lo..hi][j], ascending) {
        assert s[lo..hi][i] == s[lo + i] && s[lo..hi][j] == s[lo + j];
      }
    }
    if Ordered(s[lo..hi], ascending) {
      forall i, j | lo <= i < j < hi ensures InOrder(s[i], s[j], ascending) {
        assert s[i] == s[lo..hi][i - lo] && s[j] == s[lo..hi][j - lo];
      }
    }
  }

  /** `x` may stand before every element of `s`. */
  ghost predicate Leads(x: int, s: seq<int>, ascending: bool) {
    forall y :: y in s ==> InOrder(x, y, ascending)
  }

  /** 0 + 1 + ... + (n - 1): the number of pairs i < j below n. */
  function Triangle(n: nat): nat {
    if n == 0 then 0 else n - 1 + Triangle(n - 1)
  }

  lemma {:induction false} TriangleClosedForm(n: nat)
    ensures 2 * Triangle(n) == n * (n - 1)
  {
    if n > 0 {
      TriangleClosedForm(n - 1);
      assert n * (n - 1) == (n - 1) * (n - 2) + 2 * (n - 1);
    }
  }

  /** `s` with the entries at `i` and `j` exchanged. */
  function Swap(s: seq<int>, i: int, j: int): (r: seq<int>)
    requires 0 <= i < |s| && 0 <= j < |s|
    ensures |r| == |s| && r[i] == s[j] && r[j] == s[i]
    ensures forall k :: 0 <= k < |s| && k != i && k != j ==> r[k] == s[k]
    ensures multiset(r) == multiset(s)
  {
    s[i := s[j]][j := s[i]]
  }

  /** Exchanges `a[i]` and `a[j]` in place, as the tuple assignments of the
      routines do. */
  method Exchange(a: array<int>, i: int, j: int)
    requires 0 <= i < a.Length && 0 <= j < a.Length
    modifies a
    ensures a[..] == Swap(old(a[..]), i, j)
  {
    a[i], a[j] := a[j], a[i];
  }

  /** Number of elements of `t` that belong strictly before `x`. */
  ghost function Overtaking(x: int, t: seq<int>, ascending: bool): (r: nat)
    ensures r <= |t|
  {
    if t == [] then 0
    else (if Precedes(t[0], x, ascending) then 1 else 0) + Overtaking(x, t[1..], ascending)
  }

  /** Number of pairs i < j whose entries are strictly out of order. */
  ghost function Inversions(s: seq<int>, ascending: bool): nat {
    if s == [] then 0
    else Overtaking(s[0], s[1..], ascending) + Inversions(s[1..], ascending)
  }

  /** No list of length n has more than n(n-1)/2 inversions. */
  lemma {:induction false} InversionsBound(s: seq<int>, ascending: bool)
    ensures Inversions(s, ascending) <= Triangle(|s|)
  {
    if s != [] {
      InversionsBound(s[1..], ascending);
    }
  }

  lemma {:induction false} OvertakingNone(x: int, t: seq<int>, ascending: bool)
    ensures Overtaking(x, t, ascending) == 0 <==> Leads(x, t, ascending)
  {
    if t != [] {
      OvertakingNone(x, t[1..], ascending);
      assert t == [t[0]] + t[1..];
      if Leads(x, t, ascending) {
        assert t[0] in t;
        assert forall y :: y in t[1..] ==> y in t;
      }
      if InOrder(x, t[0], ascending) && Leads(x, t[1..], ascending) {
        assert forall y :: y in t ==> y == t[0] || y in t[1..];
      }
    }
  }

  lemma {:induction false} OvertakingAll(x: int, t: seq<int>, ascending: bool)
    requires forall y :: y in t ==> Precedes(y, x, ascending)
    ensures Overtaking(x, t, ascending) == |t|
  {
    if t != [] {
      assert t[0] in t;
      OvertakingAll(x, t[1..], ascending);
    }
  }

  /** An ordered head followed by an ordered tail it leads is ordered. */
  lemma OrderedCons(x: int, t: seq<int>, ascending: bool)
    ensures Ordered([x] + t, ascending) <==> Leads(x, t, ascending) && Ordered(t, ascending)
  {
    var s := [x] + t;
    assert s[1..] == t;
    if Ordered(s, ascending) {
      forall y | y in t ensures InOrder(x, y, ascending) {
        var k :| 0 <= k < |t| && t[k] == y;
        assert s[0] == x && s[k + 1] == y;
      }
    }
    if Leads(x, t, ascending) && Ordered(t, ascending) {
      forall i, j | 0 <= i < j < |s| ensures InOrder(s[i], s[j], ascending) {
        if i == 0 {
          assert s[j] == t[j - 1];
          assert s[j] in t;
        } else {
          assert s[i] == t[i - 1] && s[j] == t[j - 1];
        }
      }
    }
  }

  /** A list is ordered exactly when it has no inversion. */
  lemma {:induction false} OrderedIffNoInversions(s: seq<int>, ascending: bool)
    ensures Ordered(s, ascending) <==> Inversions(s, ascending) == 0
  {
    if s != [] {
      assert s == [s[0]] + s[1..];
      OrderedCons(s[0], s[1..], ascending);
      OvertakingNone(s[0], s[1..], ascending);
      OrderedIffNoInversions(s[1..], ascending);
    }
  }

  /** A list in strictly reverse order has the most inversions possible. */
  lemma {:induction false} StrictlyReversedInversions(s: seq<int>, ascending: bool)
    requires forall i, j :: 0 <= i < j < |s| ==> Precedes(s[j], s[i], ascending)
    ensures Inversions(s, ascending) == Triangle(|s|)
  {
    if s != [] {
      forall y | y in s[1..] ensures Precedes(y, s[0], ascending) {
        var k :| 0 <= k < |s[1..]| && s[1..][k] == y;
        assert s[k + 1] == y;
      }
      OvertakingAll(s[0], s[1..], ascending);
      StrictlyReversedInversions(s[1..], ascending);
    }
  }

  lemma {:induction false} OvertakingSwap(x: int, t: seq<int>, k: int, ascending: bool)
    requires 0 <= k < |t| - 1
    ensures Overtaking(x, Swap(t, k, k + 1), ascending) == Overtaking(x, t, ascending)
  {
    var u := Swap(t, k, k + 1);
    if k == 0 {
      assert u[1..][1..] == t[1..][1..];
    } else {
      assert u[1..] == Swap(t[1..], k - 1, k);
      OvertakingSwap(x, t[1..], k - 1, ascending);
    }
  }

  /** Exchanging two neighbours that are strictly out of order removes exactly
      one inversion. */
  lemma {:induction false} SwapAdjacentInversion(s: seq<int>, k: int, ascending: bool)
    requires 0 <= k < |s| - 1
    requires Precedes(s[k + 1], s[k], ascending)
    ensures Inversions(Swap(s, k, k + 1), ascending) + 1 == Inversions(s, ascending)
  {
    var u := Swap(s, k, k + 1);
    if k == 0 {
      var rest := s[2..];
      assert s[1..] == [s[1]] + rest && s[1..][1..] == rest;
      assert u[1..] == [s[0]] + rest && u[1..][1..] == rest;
    } else {
      assert u[0] == s[0];
      assert u[1..] == Swap(s[1..], k - 1, k);
      OvertakingSwap(s[0], s[1..], k - 1, ascending);
      SwapAdjacentInversion(s[1..], k - 1, ascending);
    }
  }

  /** `s` and `t` have one length and the same entries outside `[lo, hi)`:
      what a routine working on that range leaves alone. */
  ghost predicate AgreeOutside(s: seq<int>, t: seq<int>, lo: int, hi: int) {
    |s| == |t| && forall k :: 0 <= k < |s| && !(lo <= k < hi) ==> s[k] == t[k]
  }

  /** Exchanging two entries inside `[lo, hi)` keeps a list agreeing with
      another outside that range. */
  lemma SwapAgrees(s0: seq<int>, s: seq<int>, lo: int, hi: int, i: int, j: int)
    requires AgreeOutside(s0, s, lo, hi) && lo <= i < hi && lo <= j < hi && 0 <= i < |s| && 0 <= j < |s|
    ensures AgreeOutside(s0, Swap(s, i, j), lo, hi)
  {
  }

  /** A list's multiset is that of its three parts around `[lo, hi)`. */
  lemma MultisetParts(s: seq<int>, lo: int, hi: int)
    requires 0 <= lo <= hi <= |s|
    ensures multiset(s) == multiset(s[..lo]) + multiset(s[lo..hi]) + multiset(s[hi..])
  {
    assert s == s[..lo] + s[lo..hi] + s[hi..];
  }

  /** Two lists that agree outside `[lo, hi)` and are permutations of each
      other are permutations of each other inside `[lo, hi)` too. */
  lemma RangeMultiset(s: seq<int>, t: seq<int>, lo: int, hi: int)
    requires 0 <= lo <= hi <= |s|
    requires multiset(s) == multiset(t) && AgreeOutside(s, t, lo, hi)
    ensures multiset(s[lo..hi]) == multiset(t[lo..hi])
  {
    assert t[..lo] == s[..lo] && t[hi..] == s[hi..];
    MultisetParts(s, lo, hi);
    MultisetParts(t, lo, hi);
    var outside := multiset(s[..lo]) + multiset(s[hi..]);
    assert multiset(s[lo..hi]) == multiset(s) - outside;
    assert multiset(t[lo..hi]) == multiset(t) - outside;
  }
}
