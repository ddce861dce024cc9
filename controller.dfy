/** The command loop of `main`: which routine is selected, in which direction,
    whether a sort is running, and how the frame loop advances the running
    sort's generator. The list is sorted when SPACE starts a sort, and the
    generator is represented by the number of steps it still has to yield. */
module Controller {
  import opened Ordering
  import Bubble
  import Insertion
  import Selection
  import Merge
  import Quick

  datatype Algorithm = BubbleSort | InsertionSort | SelectionSort | MergeSort | QuickSort

  /** The keys `main` reacts to; R carries the freshly generated list. */
  datatype Key = R(newList: seq<int>) | Space | A | D | I | B | S | M | Q | OtherKey

  datatype Option<T> = None | Some(value: T)

  datatype Event = Quit | KeyDown(key: Key) | OtherEvent

  /** The loop variables of `main` other than the list and the generator. */
  datatype Controls = Controls(run: bool, sorting: bool, ascending: bool, algorithm: Algorithm)

  /** The state `main` starts in: running, idle, ascending, bubble sort. */
  const Initial := Controls(true, false, true, BubbleSort)

  predicate IsReset(e: Event) {
    e.KeyDown? && e.key.R?
  }

  /** The algorithm a selection key picks, if it is one. */
  function Selected(k: Key): Option<Algorithm> {
    match k
    case I => Some(InsertionSort)
    case B => Some(BubbleSort)
    case S => Some(SelectionSort)
    case M => Some(MergeSort)
    case Q => Some(QuickSort)
    case _ => None
  }

  /** One event of the inner `for event in pygame.event.get()` loop. */
  function Next(c: Controls, e: Event): (r: Controls)
    // QUIT ends the loop and nothing else
    ensures r.run == (c.run && e != Quit)
    // R stops any sort and keeps the direction and the algorithm
    ensures IsReset(e) ==> r == c.(sorting := false)
    // while sorting, every command but R and QUIT is ignored
    ensures c.sorting && !IsReset(e) ==> r.(run := c.run) == c
    // only SPACE, when idle, starts a sort
    ensures r.sorting <==> (c.sorting && !IsReset(e)) || (!c.sorting && e == KeyDown(Space))
    // when idle, A and D set the direction and the letters select the routine
    ensures !c.sorting && e == KeyDown(A) ==> r == c.(ascending := true)
    ensures !c.sorting && e == KeyDown(D) ==> r == c.(ascending := false)
    ensures !c.sorting && e.KeyDown? && Selected(e.key).Some? ==> r == c.(algorithm := Selected(e.key).value)
    // QUIT only clears `run`; idle SPACE only sets `sorting`; anything else is ignored
    ensures e == Quit ==> r == c.(run := false)
    ensures !c.sorting && e == KeyDown(Space) ==> r == c.(sorting := true)
    ensures e == OtherEvent || e == KeyDown(OtherKey) ==> r == c
  {
    match e
    case Quit => c.(run := false)
    case OtherEvent => c
    case KeyDown(k) =>
      if k.R? then c.(sorting := false)
      else if c.sorting then c
      else if k == Space then c.(sorting := true)
      else if k == A then c.(ascending := true)
      else if k == D then c.(ascending := false)
      else if Selected(k).Some? then c.(algorithm := Selected(k).value)
      else c
  }

  /** A batch of events, handled in order. */
  function NextAll(c: Controls, events: seq<Event>): Controls
    decreases |events|
  {
    if events == [] then c else NextAll(Next(c, events[0]), events[1..])
  }

  /** While a sort runs, no batch of events without R or QUIT changes the
      state. */
  lemma {:induction false} SortingIgnores(c: Controls, events: seq<Event>)
    requires c.sorting
    requires forall k :: 0 <= k < |events| ==> !IsReset(events[k]) && events[k] != Quit
    ensures NextAll(c, events) == c
    decreases |events|
  {
    if events != [] {
      assert Next(c, events[0]) == c;
      SortingIgnores(c, events[1..]);
    }
  }

  /** A batch of events ends the loop exactly when it holds QUIT. */
  lemma {:induction false} QuitEnds(c: Controls, events: seq<Event>)
    ensures NextAll(c, events).run <==> c.run && Quit !in events
    decreases |events|
  {
    if events != [] {
      QuitEnds(Next(c, events[0]), events[1..]);
      assert Quit in events <==> events[0] == Quit || Quit in events[1..];
    }
  }

  /** A batch that ends with R leaves the controller idle, whatever came
      before. */
  lemma {:induction false} ResetStops(c: Controls, events: seq<Event>, newList: seq<int>)
    ensures !NextAll(c, events + [KeyDown(R(newList))]).sorting
    decreases |events|
  {
    if events == [] {
      assert events + [KeyDown(R(newList))] == [KeyDown(R(newList))];
    } else {
      assert (events + [KeyDown(R(newList))])[1..] == events[1..] + [KeyDown(R(newList))];
      ResetStops(Next(c, events[0]), events[1..], newList);
    }
  }

  /** The start of a frame: with a sort running, `next(generator)` either
      consumes one of its remaining steps or, when none is left, raises
      StopIteration, which ends the sort. */
  function Ticked(c: Controls, remaining: nat): (r: (Controls, nat))
    ensures r.0.(sorting := c.sorting) == c
    ensures r.0.sorting <==> c.sorting && remaining > 0
    ensures r.1 == if c.sorting && remaining > 0 then remaining - 1 else remaining
  {
    if !c.sorting then (c, remaining)
    else if remaining == 0 then (c.(sorting := false), 0)
    else (c, remaining - 1)
  }

  /** `frames` frames without events. */
  function Idle(c: Controls, remaining: nat, frames: nat): (Controls, nat)
    decreases frames
  {
    if frames == 0 then (c, remaining)
    else var t := Ticked(c, remaining); Idle(t.0, t.1, frames - 1)
  }

  /** A generator with `remaining` steps keeps the controller sorting
      through exactly the next `remaining` frames; the frame after them
      raises StopIteration and ends the sort. */
  lemma {:induction false} SortingLasts(c: Controls, remaining: nat, frames: nat)
    requires c.sorting
    ensures Idle(c, remaining, frames).0.sorting <==> frames <= remaining
    ensures Idle(c, remaining, frames).0.(sorting := true) == c
    decreases frames
  {
    if frames > 0 {
      var t := Ticked(c, remaining);
      if remaining == 0 {
        StaysIdle(t.0, t.1, frames - 1);
      } else {
        SortingLasts(t.0, t.1, frames - 1);
      }
    }
  }

  /** Frames without events change nothing once the controller is idle. */
  lemma {:induction false} StaysIdle(c: Controls, remaining: nat, frames: nat)
    requires !c.sorting
    ensures Idle(c, remaining, frames) == (c, remaining)
    decreases frames
  {
    if frames > 0 {
      StaysIdle(c, remaining, frames - 1);
    }
  }

  /** First index the routine started from the UI sorts: `main` passes the
      direction positionally, so for merge sort it lands in `start` and for
      quick sort in `low`, where True counts as 1 and False as 0. */
  function UiStart(algorithm: Algorithm, ascending: bool): nat {
    if algorithm in {MergeSort, QuickSort} && ascending then 1 else 0
  }

  /** Direction the routine started from the UI sorts in: merge sort and
      quick sort keep their default, ascending. */
  function UiDirection(algorithm: Algorithm, ascending: bool): bool {
    if algorithm in {MergeSort, QuickSort} then true else ascending
  }

  /** `after` is `before` with the range from `lo` on ordered in direction
      `ascending` and everything else left in place. */
  ghost predicate SortedFrom(before: seq<int>, after: seq<int>, lo: int, ascending: bool) {
    && multiset(after) == multiset(before)
    && AgreeOutside(before, after, lo, |after|)
    && (0 <= lo <= |after| ==> Ordered(after[lo..], ascending))
  }

  /** `merge_sort(draw_info, ascending)` or `quick_sort(draw_info, ascending)`
      as `main` calls them: the flag lands in the second parameter, `start`
      or `low`, as the index 1 or 0, and the direction keeps its default. */
  method StartPositional(a: array<int>, algorithm: Algorithm, start: nat) returns (steps: nat)
    requires algorithm in {MergeSort, QuickSort} && start <= 1
    modifies a
    ensures SortedFrom(old(a[..]), a[..], start, true)
    ensures algorithm == MergeSort ==> steps == Merge.MergeSortSteps(a.Length - start)
    ensures algorithm == QuickSort ==> steps == 0
  {
    if algorithm == MergeSort {
      steps := Merge.MergeSort(a, start, a.Length, true);
      assert start <= a.Length ==> a[start..a.Length] == a[start..];
    } else {
      steps := Quick.QuickSort(a, start, a.Length - 1, true);
      assert start <= a.Length - 1 ==> a[start..a.Length - 1 + 1] == a[start..];
    }
  }

  /** `sorting_algorithm(draw_info, ascending)` as `main` calls it, run to
      the end; returns the number of steps its generator yields. */
  method StartSort(a: array<int>, algorithm: Algorithm, ascending: bool) returns (steps: nat)
    modifies a
    ensures SortedFrom(old(a[..]), a[..], UiStart(algorithm, ascending), UiDirection(algorithm, ascending))
    ensures algorithm in {BubbleSort, InsertionSort} ==> steps == Inversions(old(a[..]), ascending)
    ensures algorithm == SelectionSort ==> steps == Triangle(a.Length) + Selection.Exchanges(old(a[..]), 0, ascending)
    ensures algorithm == MergeSort ==> steps == Merge.MergeSortSteps(a.Length - UiStart(algorithm, ascending))
    ensures algorithm == QuickSort ==> steps == 0
  {
    match algorithm
    case BubbleSort =>
      steps := Bubble.BubbleSort(a, ascending);
      assert a[0..] == a[..];
    case InsertionSort =>
      steps := Insertion.InsertionSort(a, ascending);
      assert a[0..] == a[..];
    case SelectionSort =>
      steps := Selection.SelectionSort(a, ascending);
      assert a[0..] == a[..];
    case _ =>
      steps := StartPositional(a, algorithm, if ascending then 1 else 0);
  }

  /** From the UI, merge sort and quick sort leave an unordered list
      unordered: with "ascending" selected they start at index 1, so the
      list 2, 1 comes back as it went in. */
  method UiLeavesUnordered(algorithm: Algorithm) returns (before: seq<int>, after: seq<int>)
    requires algorithm in {MergeSort, QuickSort}
    ensures before == [2, 1] && after == [2, 1]
    ensures !Ordered(after, true)
  {
    var a := new int[2];
    a[0], a[1] := 2, 1;
    before := a[..];
    var steps := StartSort(a, algorithm, true);
    after := a[..];
    assert after[0] == 2;
    assert 1 in multiset(before);
    assert 1 in after;
    assert !InOrder(after[0], after[1], true);
  }

  /** The call `main` evidently means: every routine sorts the whole list in
      the selected direction. */
  method StartSortIntended(a: array<int>, algorithm: Algorithm, ascending: bool) returns (steps: nat)
    modifies a
    ensures Ordered(a[..], ascending)
    ensures multiset(a[..]) == old(multiset(a[..]))
    ensures algorithm in {BubbleSort, InsertionSort} ==> steps == Inversions(old(a[..]), ascending)
    ensures algorithm == SelectionSort ==> steps == Triangle(a.Length) + Selection.Exchanges(old(a[..]), 0, ascending)
    ensures algorithm == MergeSort ==> steps == Merge.MergeSortSteps(a.Length)
    ensures algorithm == QuickSort ==> steps == 0
  {
    match algorithm
    case BubbleSort =>
      steps := Bubble.BubbleSort(a, ascending);
    case InsertionSort =>
      steps := Insertion.InsertionSort(a, ascending);
    case SelectionSort =>
      steps := Selection.SelectionSort(a, ascending);
    case MergeSort =>
      steps := Merge.MergeSort(a, 0, a.Length, ascending);
      assert a[0..a.Length] == a[..];
    case QuickSort =>
      steps := Quick.QuickSort(a, 0, a.Length - 1, ascending);
      assert a[0..a.Length] == a[..];
  }

  /** Whether event `e` starts a sort from state `c`. */
  predicate Starts(c: Controls, e: Event) {
    !c.sorting && e == KeyDown(Space)
  }

  /** Whether some event of a batch, handled in order from state `c`,
      starts a sort. */
  predicate StartsAny(c: Controls, events: seq<Event>)
    decreases |events|
  {
    events != [] && (Starts(c, events[0]) || StartsAny(Next(c, events[0]), events[1..]))
  }

  /** The variables of `main`: the list on screen, the loop variables, and the
      live generator, represented by how many steps it has left to yield. */
  class Session {
    var lst: array<int>
    var controls: Controls
    var remaining: nat

    /** `main` before its loop, with the generated starting list. */
    constructor(initial: seq<int>)
      ensures fresh(lst) && lst[..] == initial
      ensures controls == Initial && remaining == 0
    {
      lst := new int[|initial|](i requires 0 <= i < |initial| => initial[i]);
      controls := Initial;
      remaining := 0;
    }

    /** The head of one frame: advance the generator while sorting. */
    method Tick()
      modifies this
      ensures (controls, remaining) == Ticked(old(controls), old(remaining))
      ensures lst == old(lst)
    {
      if controls.sorting {
        if remaining == 0 {
          controls := controls.(sorting := false);
        } else {
          remaining := remaining - 1;
        }
      }
    }

    /** One event of the frame's event loop. R installs the new list; SPACE,
        when idle, runs the selected routine over the list and keeps the
        number of steps its generator would yield. */
    method Handle(e: Event)
      modifies this, lst
      ensures controls == Next(old(controls), e)
      ensures lst == old(lst) || fresh(lst)
      ensures IsReset(e) ==> fresh(lst) && lst[..] == e.key.newList && remaining == old(remaining)
      ensures Starts(old(controls), e) ==>
        && lst == old(lst)
        && SortedFrom(old(lst[..]), lst[..], UiStart(controls.algorithm, controls.ascending),
                      UiDirection(controls.algorithm, controls.ascending))
        && (controls.algorithm in {BubbleSort, InsertionSort} ==> remaining == Inversions(old(lst[..]), controls.ascending))
        && (controls.algorithm == SelectionSort ==>
              remaining == Triangle(lst.Length) + Selection.Exchanges(old(lst[..]), 0, controls.ascending))
        && (controls.algorithm == MergeSort ==>
              remaining == Merge.MergeSortSteps(lst.Length - UiStart(controls.algorithm, controls.ascending)))
        && (controls.algorithm == QuickSort ==> remaining == 0)
      ensures !IsReset(e) && !Starts(old(controls), e) ==>
        lst == old(lst) && lst[..] == old(lst[..]) && remaining == old(remaining)
    {
      if IsReset(e) {
        var newList := e.key.newList;
        lst := new int[|newList|](i requires 0 <= i < |newList| => newList[i]);
      } else if Starts(controls, e) {
        remaining := StartSort(lst, controls.algorithm, controls.ascending);
      }
      controls := Next(controls, e);
    }

    /** One iteration of the `while run` loop: the generator step, then the
        frame's events in order. */
    method Frame(events: seq<Event>)
      modifies this, lst
      ensures controls == NextAll(Ticked(old(controls), old(remaining)).0, events)
      ensures lst == old(lst) || fresh(lst)
      // a frame with no R and no sort started only advances the generator
      ensures (forall k :: 0 <= k < |events| ==> !IsReset(events[k]))
              && !StartsAny(Ticked(old(controls), old(remaining)).0, events) ==>
                lst == old(lst) && lst[..] == old(lst[..]) && remaining == Ticked(old(controls), old(remaining)).1
    {
      ghost var quiet := (forall k :: 0 <= k < |events| ==> !IsReset(events[k]))
                         && !StartsAny(Ticked(controls, remaining).0, events);
      Tick();
      assert events[0..] == events;
      var i := 0;
      while i < |events|
        invariant 0 <= i <= |events|
        invariant NextAll(controls, events[i..]) == NextAll(Ticked(old(controls), old(remaining)).0, events)
        invariant lst == old(lst) || fresh(lst)
        invariant quiet ==> && lst == old(lst) && lst[..] == old(lst[..])
                            && remaining == Ticked(old(controls), old(remaining)).1
                            && !StartsAny(controls, events[i..])
      {
        assert events[i..][1..] == events[i + 1..];
        Handle(events[i]);
        i := i + 1;
      }
    }

    /** The `while run` loop over the frames the event source delivers; it
        stops after the frame whose events include QUIT. Returns the number
        of frames it ran. */
    method Run(frames: seq<seq<Event>>) returns (ran: nat)
      modifies this, lst
      ensures ran <= |frames|
      ensures ran < |frames| ==> !controls.run
      ensures old(controls.run) && (forall f, e :: f in frames && e in f ==> e != Quit) ==> controls.run && ran == |frames|
      // started running, the loop goes on exactly until the first frame holding QUIT
      ensures old(controls.run) ==> forall k :: 0 <= k < ran - 1 ==> Quit !in frames[k]
      ensures old(controls.run) && ran < |frames| ==> 0 < ran && Quit in frames[ran - 1]
      ensures old(controls.run) ==> (controls.run <==> forall k :: 0 <= k < ran ==> Quit !in frames[k])
      ensures !old(controls.run) ==> ran == 0
    {
      ran := 0;
      while ran < |frames| && controls.run
        invariant ran <= |frames|
        invariant lst == old(lst) || fresh(lst)
        invariant old(controls.run) && (forall f, e :: f in frames && e in f ==> e != Quit) ==> controls.run
        invariant old(controls.run) || (ran == 0 && !controls.run)
        invariant old(controls.run) ==> forall k :: 0 <= k < ran - 1 ==> Quit !in frames[k]
        invariant old(controls.run) ==> (controls.run <==> forall k :: 0 <= k < ran ==> Quit !in frames[k])
      {
        ghost var before := Ticked(controls, remaining).0;
        Frame(frames[ran]);
        QuitEnds(before, frames[ran]);
        ran := ran + 1;
      }
    }
  }
}
