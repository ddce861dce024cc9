# Sorting visualizer core in Dafny

`visual.py` is a pygame program that animates five in-place sorting routines
(bubble, insertion, selection, merge and quick sort). Each routine is a Python
generator: it rearranges `draw_info.lst` and `yield`s once per visual step.
`main` runs a 60 Hz frame loop. While a sort runs, each frame advances the
generator once. Keyboard events pick the routine (I, B, S, M, Q) and the
direction (A, D), start a sort (SPACE), or install a fresh random list (R).

This project models that core:

- `ordering.dfy` (module `Ordering`) holds the one strict comparison every
  routine makes (`Precedes`) and the specifications the routines are proved
  against. These are orderedness in either direction, the inversion count, the
  frame predicate "agrees outside a range" and the triangle numbers.
- `bubble_sort.dfy`, `insertion_sort.dfy`, `selection_sort.dfy`,
  `merge_sort.dfy` and `quick_sort.dfy` model the routines as imperative
  methods over an `array<int>` with an `ascending` flag. Each returns the
  number of `yield` points it passes. Each is proved to do three things:
  - leave its range ordered in the chosen direction;
  - leave the list a permutation of its input and everything outside its
    range unchanged;
  - yield an exactly stated number of steps.
- `controller.dfy` (module `Controller`) models the loop variables of `main`:
  - a transition function `Next` over (run, sorting, ascending, algorithm);
  - the generator's frame tick `Ticked`;
  - the call the SPACE key makes;
  - a `Session` class holding the list array and the live generator. The
    generator is represented by the number of steps it still has to yield.
    SPACE makes the call as `main` writes it (`StartSort`); the call as
    evidently meant (`StartSortIntended`) is proved beside it (see Findings).

## Model

| member | source | states |
|---|---|---|
| Ordering.Swap | visual.py:88 | the tuple exchange: the two entries trade places, the others stay, the multiset is kept |
| Ordering.Exchange | visual.py:120-121 | the in-place exchange `lst[i], lst[j] = lst[j], lst[i]` leaves the array equal to `Swap` of its old contents |
| Ordering.TriangleClosedForm | visual.py:108-118 | 2·Triangle(n) = n(n-1), the number of inner-scan steps of selection sort |
| Ordering.InversionsBound | visual.py:83-90 | no list of length n has more than n(n-1)/2 inversions, so bubble and insertion sort yield at most that many steps |
| Ordering.OrderedIffNoInversions | visual.py:83-90 | a list is ordered in the chosen direction iff it has no inversion, so an ordered list makes bubble and insertion sort yield nothing |
| Ordering.StrictlyReversedInversions | visual.py:83-90 | a strictly reversed list has the maximal n(n-1)/2 inversions, the worst case of bubble and insertion sort |
| Ordering.OrderedCons | visual.py:143-155 | a head followed by a tail is ordered iff the head leads the tail and the tail is ordered |
| Ordering.SwapAdjacentInversion | visual.py:87-88 | exchanging two strictly out-of-order neighbours removes exactly one inversion |
| Ordering.SwapAgrees | visual.py:192 | an exchange inside [lo, hi) keeps the list agreeing with the original outside that range |
| Ordering.RangeMultiset | visual.py:188-196 | a permutation that agrees outside [lo, hi) is a permutation inside [lo, hi) as well |
| Bubble.BubbleMoves | visual.py:85-88 | the comparison of neighbours j, j+1 (with an exchange when they are strictly out of order) carries the largest-so-far element to slot j+1 |
| Bubble.BubbleSettles | visual.py:84 | at the end of a pass the element carried to the pass bound joins the settled suffix |
| Bubble.SwapKeepsSettled | visual.py:88 | an exchange below the settled suffix keeps the suffix settled |
| Bubble.Compare | visual.py:85-90 | one round of the inner loop: the new list is `Swap(old, j, j+1)` when lst[j+1] strictly precedes lst[j] and the old list otherwise; it yields 1 step in the first case and 0 in the second, the step count plus the inversions left equals the old inversions, the bubble moves to j+1 and the settled suffix stays settled |
| Bubble.Pass | visual.py:84-90 | one inner pass: afterwards the last i+1 slots hold their final values; the list is a permutation of its input; one step per exchange, i.e. exactly the inversions it removes |
| Bubble.BubbleSort | visual.py:80-90 | the list ends ordered in the chosen direction and is a permutation of its input; the number of steps equals the number of inversions of the input |
| Insertion.StartInserting | visual.py:96-97 | taking `current = lst[i]` over an ordered prefix starts an insertion |
| Insertion.ShiftKeepsInserting | visual.py:99-102 | one shift past a predecessor that `current` strictly precedes keeps the insertion invariant |
| Insertion.FinishInserting | visual.py:99 | when the shift loop stops, lst[0..i] is ordered |
| Insertion.ShiftLeft | visual.py:100-102 | `lst[i] = lst[i - 1]; i -= 1; lst[i] = current` is an exchange of neighbours |
| Insertion.Insert | visual.py:97-104 | one outer iteration: lst[0..i] ends ordered, the slots after i are unchanged, the list is a permutation, and one step per left shift, each removing one inversion |
| Insertion.InsertionSort | visual.py:93-104 | the list ends ordered and is a permutation of its input; the number of steps equals the number of inversions of the input |
| Selection.SelectExtendsFront | visual.py:120-121 | exchanging the scan's pick into slot i extends the sorted front to i+1 slots |
| Selection.ScanOfOrdered | visual.py:111-115 | on an ordered list the scan settles on slot i itself |
| Selection.PickIsPick | visual.py:109-115 | the reference function `Pick` finds the first element of lst[i..] that may stand before all of lst[i..] (the minimum ascending, the maximum descending, with ties kept at the earlier index) |
| Selection.PickUnique | visual.py:109-115 | that first extreme index is unique |
| Selection.ExchangesBound | visual.py:120-123 | the outer iterations from slot i on exchange at most n-1-i times |
| Selection.PickOfOrdered | visual.py:120 | on an ordered list `idx_swap == i` for every i |
| Selection.OrderedNoExchanges | visual.py:120-123 | an ordered list needs no exchange, so selection sort then yields exactly n(n-1)/2 steps |
| Selection.RemainingStep | visual.py:108-123 | the steps of iterations i.. are the scan steps of iteration i, its exchange, and the steps of iterations i+1.. |
| Selection.Scan | visual.py:109-118 | the inner scan returns `Pick` of lst[i..] (during the scan `idx_swap` indexes the first extreme element of lst[i..j]) and yields n-1-i steps |
| Selection.Place | visual.py:108-123 | one outer iteration: the new list is `Swap(old, i, Pick(old, i))`, the sorted front grows by one slot, the multiset is kept, and the steps are n-1-i scan steps plus one exactly when the pick is not slot i |
| Selection.SelectionSort | visual.py:105-123 | the list ends ordered and is a permutation of its input; steps = n(n-1)/2 scan steps plus the number of slots whose pick lies elsewhere (`Exchanges`) |
| Merge.Merged | visual.py:143-169 | the reference merge, which takes the left front only when it strictly precedes the right front (ties go right); its length is the sum of the runs' lengths |
| Merge.MergedPermutes | visual.py:143-169 | the merge is a permutation of the two runs together |
| Merge.MergedLeads | visual.py:143-169 | an element that may stand before both runs may stand before their merge |
| Merge.MergedOrdered | visual.py:143-169 | merging two ordered runs gives an ordered run |
| Merge.NothingPending | visual.py:140-141 | before the first round nothing is written and both runs are whole |
| Merge.TakeLeft | visual.py:147-149 | writing the left front when it strictly precedes the right one continues the reference merge |
| Merge.TakeRight | visual.py:150-152 | writing the right front otherwise (including on equal values) continues the reference merge |
| Merge.Drained | visual.py:157-169 | once one run is used up, the rest of the other run completes the merge |
| Merge.WrittenBack | visual.py:137-182 | once the whole merge is written, lst[start:end] holds it, the rest is unchanged and the list is a permutation |
| Merge.Put | visual.py:148 | `lst[current] = v` extends the written run by v |
| Merge.MergeRound | visual.py:144-155 | one round of the first loop places the correct next element of the reference merge |
| Merge.MergeFronts | visual.py:143-155 | the first loop ends with one run used up, after one step per element it placed |
| Merge.CopyRest | visual.py:157-169 | each copy loop writes the rest of its run, one step per element |
| Merge.Merge | visual.py:137-182 | lst[start:end] ends equal to the reference merge of the two old runs; nothing outside changes; the list is a permutation; end-start steps (that the fourth loop, 170-182, never runs is an assertion in the body, not part of the contract) |
| Merge.MidIsHalf | visual.py:128-131 | for a range of n > 1 elements the midpoint `(start + end) // 2` lies n//2 slots past `start`, strictly inside the range |
| Merge.StepsSplit | visual.py:131-135 | splitting n > 1 elements into n//2 and n-n//2 splits the step count into the halves' counts plus the n steps of the final merge |
| Merge.MergeSortStepsPow2 | visual.py:124-135 | on 2^k elements merge sort yields k·2^k steps |
| Merge.HalvesOrdered | visual.py:133-135 | after both recursive calls the merge of the halves is ordered |
| Merge.SortFrame | visual.py:133-135 | the two recursive calls and the merge each touch only their part of [start, end), so the call does too |
| Merge.MergeSort | visual.py:124-135 | a range of at most one element is left as is; otherwise lst[start:end] ends ordered, the rest is unchanged, the list is a permutation, and the steps are `MergeSortSteps(end - start)` |
| Quick.SplitStep | visual.py:188-194 | one round of the partition loop keeps the split: [low, i] strictly precedes the pivot, (i, j) does not |
| Quick.SplitDone | visual.py:196 | the final exchange puts the pivot between the two parts |
| Quick.PartitionRound | visual.py:189-194 | one round: the new list is `Swap(old, i+1, j)` and i advances by one when lst[j] strictly precedes the pivot, otherwise the list and i are unchanged; a step is yielded exactly when i advances; the split is kept and the pivot stays in slot high |
| Quick.Partition | visual.py:184-198 | low <= p <= high, lst[p] is the old lst[high], [low, p) strictly precedes it, (p, high] does not; only [low, high] changes; p-low+1 yields (one per exchange, then p) |
| Quick.RangeKeeps | visual.py:214-215 | sorting one side keeps what held of every entry of that side |
| Quick.SortedAroundPivot | visual.py:213-215 | after partitioning and sorting both sides, lst[low..high] is ordered |
| Quick.QuickSort | visual.py:200-215 | lst[low..high] ends ordered, nothing outside changes, the list is a permutation, and the routine yields no step because it drains `partition` itself |
| Controller.Next | visual.py:244-273 | QUIT clears `run` and changes nothing else; R stops any sort; while sorting every other key is a no-op; only SPACE when idle starts a sort, and changes nothing else; A/D and the letters I, B, S, M, Q set direction and routine when idle; other events and keys change nothing |
| Controller.SortingIgnores | visual.py:252-273 | while sorting, any batch of events without R and QUIT leaves the state unchanged |
| Controller.QuitEnds | visual.py:233-246 | a batch ends the loop exactly when it holds QUIT |
| Controller.ResetStops | visual.py:248-251 | a batch ending with R leaves the controller idle |
| Controller.Ticked | visual.py:236-240 | while sorting, a frame consumes one step or, when none is left, ends the sort; nothing else changes |
| Controller.SortingLasts | visual.py:233-240 | a generator with r steps left keeps the controller sorting through exactly the next r frames; the frame after them raises StopIteration and ends the sort; nothing else changes |
| Controller.StaysIdle | visual.py:236-242 | frames without events change nothing when idle |
| Controller.StartPositional | visual.py:254 | `merge_sort(draw_info, ascending)` / `quick_sort(draw_info, ascending)` sort ascending from index `start`, leave the slots before it alone, and yield `MergeSortSteps(n - start)` or 0 steps |
| Controller.StartSort | visual.py:252-254 | the call as written: the list ends ordered from `UiStart` on in direction `UiDirection`, unchanged before it, a permutation, with each routine's exact step count |
| Controller.UiLeavesUnordered | visual.py:254 | the counterexample: with ascending selected, merge and quick sort leave the list [2, 1] unordered |
| Controller.StartSortIntended | visual.py:252-254 | the call as evidently meant: every routine sorts the whole list in the selected direction, with each routine's exact step count |
| Controller.Session.constructor | visual.py:221-231 | the list is the generated starting list; the loop starts running, idle, ascending, on bubble sort, with no live generator |
| Controller.Session.Tick | visual.py:236-240 | the frame head follows `Ticked` and leaves the list alone |
| Controller.Session.Handle | visual.py:244-273 | the state follows `Next`; R installs the new list; SPACE when idle makes the call as written: the list ends ordered from `UiStart` on in direction `UiDirection`, unchanged before it, a permutation, and the generator keeps each routine's exact step count; otherwise the list and the generator are untouched |
| Controller.Session.Frame | visual.py:233-273 | one frame: the generator tick, then the events in order, as `NextAll` of the ticked state; a frame with no R and no event that starts a sort leaves the list as it was and only advances the generator as `Ticked` does |
| Controller.Session.Run | visual.py:233-273 | started running, the loop runs frames until the first one holding QUIT, that one included: no earlier frame holds QUIT, it stops early only after a frame holding QUIT, and `run` stays true exactly when none of the frames run held QUIT; started stopped, it runs no frame |

## Left out

- Rendering: `DrawInformation` and its colour and font tables, `draw`, `draw_list`, and the highlight maps passed to it. These are graphics calls without logic to verify.
- `generate_starting_list` (visual.py:76-77) draws random numbers. The starting list is the `Session` constructor's parameter, and a reset list is the payload of the R key.
- The layout metrics of `set_list` (visual.py:30-35) are floating point pixel arithmetic. They divide by zero when all values are equal (visual.py:34). R is modelled as installing the list only.
- `clock.tick` and `pygame.event.get` are timing and I/O. `Session.Run` takes the events of each frame as a parameter.
- The generator suspension itself: a routine is run to completion when SPACE starts it, and the generator is represented by the number of steps it still has to yield. The intermediate list states a viewer sees between frames are not modelled. The step counts and the order of state changes in the controller are.
- When R arrives while sorting, the Python generator object stays alive but is never advanced again. The model keeps its step count in `remaining`, which nothing reads before the next SPACE replaces it.
- Step pacing of `merge`: the routine has one `yield` per loop iteration, i.e. one per element it places, before each comparison in the first loop and before each copy, so a merge yields `end - start` steps.

## Findings

| source | as written | input that shows it | evidently intended | confidence | as-written member | corrected member |
|---|---|---|---|---|---|---|
| visual.py:254 | `sorting_algorithm(draw_info, ascending)` passes the direction positionally. For `merge_sort` (visual.py:124) it binds to `start` and for `quick_sort` (visual.py:200) to `low`. Both then sort ascending over index 1.. when "ascending" is selected, and over the whole list when "descending" is selected. | list [2, 1], merge or quick sort, ascending selected: the list stays [2, 1] | pass the direction by keyword, so every routine sorts the whole list in the selected direction | not executed | Controller.StartSort, Controller.UiLeavesUnordered | Controller.StartSortIntended |
