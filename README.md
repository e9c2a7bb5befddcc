# Algorithm visualizer — Dafny model

The modelled application is a set of React components that animate textbook
algorithms and data structures:

- **Sort visualizers (selection, insertion and bubble sort).** Each one runs
  its sort eagerly on a copy of the array. It records a *step* at every
  comparison and every write: the kind of step, the indices it involves, the
  sorted boundary `sortedUntil` and a snapshot of the whole array. The user
  then replays the steps with Next and Previous.
- **Search panels (linear and binary search).** Each one highlights the
  indices it probes, one after another. It also lets the user add a number to
  the array or remove every occurrence of one.
- **Data-structure demos (an array and a linked list).** The user appends
  elements, removes the last one, or resets. The linked list is drawn as
  nodes chained head to tail by arrows.

Each component has one module, following the program's structure:

| module | file | component |
|---|---|---|
| `Common` | `common.dfy` | what the components share: the text field, the default array, the node descriptor, the search panels' message line, `Sorted`, `IndexOf` (JavaScript's `indexOf`) and `RemoveAll` (the `filter` that drops a value) |
| `SelectionSort` | `selection_sort.dfy` | `SelectionSort.jsx` |
| `InsertionSort` | `insertion_sort.dfy` | `InsertionSort.jsx` |
| `BubbleSort` | `bubble_sort.dfy` | `BubbleSort.jsx` |
| `LinearSearch` | `linear_search.dfy` | `LinearSearch.jsx` |
| `BinarySearch` | `binary_search.dfy` | `BinarySearch.jsx` |
| `LinkedList` | `linked_list.dfy` | `LinkedList.jsx` |
| `ArrayComponent` | `array_component.dfy` | `ArrayComponent.jsx` |

## How the model is built

**Step generators.** Each `generateSteps` is an imperative `GenerateSteps`
method. It works in place on a fresh `array<int>`, the component's
`tempArray`. Each loop of the source is its own method: `ScanPass`/`Pass`,
`InsertKey` and `BubblePass`/`Visit`. Each method is proved equal to a
recursive reference function that follows the same loops: `Run`, `Sweep`,
`PassSteps`, `PassTail` and `ShiftSteps`. The properties of a run are then
proved as lemmas about that function:

- every snapshot is a permutation of the input;
- the settled part of every snapshot is sorted;
- the last snapshot is sorted;
- the boundary moves in one direction only;
- the number of steps of each kind;
- which step follows which.

**Playback.** Each sort component's playback state is a `class Visualizer`.
Its fields are the component's React state: `values` (the source's `array`),
`currentIndex`, `compareIndex`, `minIndex`, `sortedUntil`, `sorting`,
`steps` and `currentStep`. Each handler is one atomic update of these fields,
in which a later setter call overrides an earlier one. This matters in
`handleNext`, where the finishing branch overrides the fields of the step it
has just shown. The invariant `Valid` keeps the step list equal to
`Run(source)`, where `source` is the array the run was generated from. In
insertion sort, `Valid` also allows an empty step list. That is the state
before the first Sort, because an insertion sort run always holds at least
its initial step. In the other two sorts, the empty list before the first
Sort is `Run` of an empty `source`. `Valid` also keeps the cursor in
`[-1, |steps|-1]`. Through `Valid`, Next on the last
step shows the source array sorted.

**Search panels.** Each search panel is a `class Panel`. Its search loop
becomes a loop method (`Scan`, `Bisect` with `Round`, `InsertionPoint`),
with the pauses between probes removed. Each loop method is proved against a
recursive function:

- `Probes`, the indices linear search probes;
- `Bisection`/`Rounds`, the windows binary search probes;
- `InsertionIndex`, the position of a sorted insertion.

The binary-search panel keeps the invariant that its array is sorted. It
starts sorted, and only the sorted insertion and the removal change it.

**Demos.** The array and linked-list demos replace their state wholesale, so
each is a `Demo` datatype with one function per handler.

**The text field.** A handler reads a number from the text field. This is
`Input = Blank | Entered(value)`: `Blank` is the empty text that the handlers
ignore, and `Entered(v)` is the number that `parseInt` yields.

**Messages.** The search panels' message line is reduced to a `Report` that
carries only the numbers it quotes. The demos' message line is reduced to a
`Message` tag.

## Model

| member | source | states |
|---|---|---|
| Common.Exchanged | src/components/sorting/SelectionSort.jsx:87-89 | the array with two positions exchanged has the same length and the same multiset, the two values trade places, and every other position is unchanged |
| Common.IndexOf | src/components/searching/LinearSearch.jsx:73 | `indexOf` gives -1 exactly when the value is absent, and otherwise the first position that holds it, with every earlier position different |
| Common.RemoveAll | src/components/searching/LinearSearch.jsx:75 | the filter keeps exactly the elements different from t; its multiset is the input's with t's count set to 0; an absent t leaves the array unchanged |
| Common.RemoveAllDistributes | src/components/searching/LinearSearch.jsx:75 | filtering distributes over concatenation, so the kept elements stay in their original order |
| Common.RemoveAllKeepsSorted | src/components/searching/BinarySearch.jsx:111 | removing every occurrence keeps a sorted array sorted |
| Common.ComparesFromTotal | src/components/sorting/BubbleSort.jsx:44-45 | passes i..n-2 of n-1-k comparisons each add up to (n-i)(n-i-1)/2 |
| SelectionSort.Closing | src/components/sorting/SelectionSort.jsx:85-107 | the step that closes pass i is a swap or no_swap step with currentIndex i, minIndex m and sortedUntil i+1, and its snapshot is a permutation of the array |
| SelectionSort.MinFrom | src/components/sorting/SelectionSort.jsx:59-83 | the running minimum index stays inside the array and is either the starting minimum or a position that was compared |
| SelectionSort.ScanPass | src/components/sorting/SelectionSort.jsx:47-83 | the inner loop leaves minIdx at MinFrom and records the start_pass step, then the compare and new_min steps of pass i, exactly as PassSteps lists them before its closing step |
| SelectionSort.Pass | src/components/sorting/SelectionSort.jsx:46-108 | one pass of the outer loop records PassSteps(a, i) and leaves the array as AfterPass(a, i) |
| SelectionSort.GenerateSteps | src/components/sorting/SelectionSort.jsx:42-111 | the generator returns exactly Run(input) |
| SelectionSort.MinFromFinds | src/components/sorting/SelectionSort.jsx:59-83 | because the comparison is strict, the minimum the scan ends on is the first smallest element of a[i..] |
| SelectionSort.SwapMinSettles | src/components/sorting/SelectionSort.jsx:85-97 | exchanging the first minimum into position i settles one more element: a[0..i] is ascending and none of it exceeds what follows |
| SelectionSort.ScanStepFacts | src/components/sorting/SelectionSort.jsx:61-81 | compare and new_min steps show a permutation of the input with the settled prefix and the running first minimum |
| SelectionSort.ClosingFacts | src/components/sorting/SelectionSort.jsx:85-107 | the swap/no_swap step shows a permutation whose first i+1 elements are settled |
| SelectionSort.PassTailFacts | src/components/sorting/SelectionSort.jsx:59-107 | every step of the rest of a pass satisfies StepFacts |
| SelectionSort.SweepFacts | src/components/sorting/SelectionSort.jsx:46-108 | every step of passes i..n-2 satisfies StepFacts |
| SelectionSort.RunFacts | src/components/sorting/SelectionSort.jsx:42-111 | every step of a run satisfies StepFacts: its snapshot is a permutation of the input; its first sortedUntil elements are settled; sortedUntil is i before the exchange of pass i and i+1 from it on; minIndex is the first minimum so far |
| SelectionSort.PassTailLast | src/components/sorting/SelectionSort.jsx:85-107 | a pass ends with its closing step |
| SelectionSort.SweepLast | src/components/sorting/SelectionSort.jsx:46-108 | the last step closes pass n-2, with sortedUntil n-1 |
| SelectionSort.SettledSorted | src/components/sorting/SelectionSort.jsx:46 | an array whose first n-1 elements are settled is sorted |
| SelectionSort.RunEndsSorted | src/components/sorting/SelectionSort.jsx:42-111 | the run is empty exactly when n < 2; otherwise it opens with start_pass at 0 on the unchanged input, and its last snapshot is the input sorted ascending |
| SelectionSort.Count | src/components/sorting/SelectionSort.jsx:43 | a count of the steps of one kind never exceeds the number of steps |
| SelectionSort.PassTailCounts | src/components/sorting/SelectionSort.jsx:59-107 | from position j on, a pass makes n-j comparisons, no start_pass and exactly one swap or no_swap |
| SelectionSort.SweepCounts | src/components/sorting/SelectionSort.jsx:46-108 | passes i..n-2 make one start_pass and one closing step each, and ComparesFrom(n, i) comparisons |
| SelectionSort.RunCounts | src/components/sorting/SelectionSort.jsx:46-107 | a run makes n-1 start_pass steps and n-1 swap/no_swap steps (none when n < 2), and n(n-1)/2 comparisons |
| SelectionSort.PassTailMinsFollow | src/components/sorting/SelectionSort.jsx:59-104 | within a pass, a new_min step comes exactly after each compare step whose element is strictly below the running minimum, and takes the compared position as the minimum |
| SelectionSort.SweepMinsFollow | src/components/sorting/SelectionSort.jsx:46-108 | the same holds over passes i..n-2, across the pass boundaries |
| SelectionSort.RunMinsFollow | src/components/sorting/SelectionSort.jsx:59-82 | in the whole run, a new_min step follows a compare step exactly when `a[j] < a[minIdx]` (strictly, so an equal element never replaces the minimum); it records minIndex = j and shows the same array |
| SelectionSort.PassTailAscending | src/components/sorting/SelectionSort.jsx:51-104 | within pass i, sortedUntil is i or i+1 and never decreases |
| SelectionSort.SweepAscending | src/components/sorting/SelectionSort.jsx:46-108 | sortedUntil never decreases over passes i..n-2 |
| SelectionSort.RunSortedUntil | src/components/sorting/SelectionSort.jsx:51-104 | sortedUntil never decreases along the run and stays within [0, n-1] |
| SelectionSort.RunEnds | src/components/sorting/SelectionSort.jsx:175 | the first snapshot is the array the run started from, and the last is that array sorted |
| SelectionSort.Nodes | src/components/sorting/SelectionSort.jsx:26-40 | there is one node per element, with id equal to its index and label equal to the element |
| SelectionSort.SortedNodesSettled | src/components/sorting/SelectionSort.jsx:35 | while any step is shown, a node drawn sorted holds a value no greater than any node after it |
| SelectionSort.FinishedNodes | src/components/sorting/SelectionSort.jsx:143-146 | after the finishing Next every node is drawn sorted and none is marked |
| SelectionSort.Visualizer.constructor | src/components/sorting/SelectionSort.jsx:12-23 | the initial state: the default array, no steps, the cursor at -1, no marks, and sortedUntil 0 |
| SelectionSort.Visualizer.Sort | src/components/sorting/SelectionSort.jsx:113-120 | does nothing while sorting; otherwise sets sorting and stores Run(values) as the steps, with the cursor at -1 |
| SelectionSort.Visualizer.Show | src/components/sorting/SelectionSort.jsx:128-138 | copies a step into the render fields; compareIndex is set only for compare steps and is -1 otherwise |
| SelectionSort.Visualizer.Finish | src/components/sorting/SelectionSort.jsx:142-149 | the finishing branch clears the three indices, sets sortedUntil to the length and clears sorting |
| SelectionSort.Visualizer.Rewind | src/components/sorting/SelectionSort.jsx:169-177 | going back to before the first step clears the indices, sets sortedUntil to 0 and shows the first snapshot |
| SelectionSort.Visualizer.Next | src/components/sorting/SelectionSort.jsx:122-150 | moves the cursor by exactly one, and only when it is below the last step, showing that step; on the click that lands on the last step it overrides the step with the finished state, whose array is the source sorted; at the end it does nothing |
| SelectionSort.Visualizer.Previous | src/components/sorting/SelectionSort.jsx:152-178 | from a cursor above 0 it shows the step before; from 0 it returns to -1 with the pre-run array and sortedUntil 0; at -1 it does nothing |
| SelectionSort.Visualizer.Add | src/components/sorting/SelectionSort.jsx:229-236 | appends the entered number unless the field is blank or a run is in progress |
| SelectionSort.Visualizer.Reset | src/components/sorting/SelectionSort.jsx:238-251 | restores the default array, empties the steps, moves the cursor to -1, clears the indices and sorting, and sets sortedUntil to 0 |
| InsertionSort.Placed | src/components/sorting/InsertionSort.jsx:67-95 | the array after the inner loop and the insertion has the same length |
| InsertionSort.InsertKey | src/components/sorting/InsertionSort.jsx:55-103 | pass i records PassSteps(a, i) and leaves the array as Placed(a, i-1, a[i]) |
| InsertionSort.GenerateSteps | src/components/sorting/InsertionSort.jsx:40-107 | the generator returns exactly Run(input) |
| InsertionSort.Gap | src/components/sorting/InsertionSort.jsx:67-92 | the insertion position j+1 lies in [0, i] |
| InsertionSort.GapStops | src/components/sorting/InsertionSort.jsx:69 | the inner loop stops at the first element from the right that is not greater than the key, or at the front |
| InsertionSort.Inserted | src/components/sorting/InsertionSort.jsx:81-95 | moving a[i] down to p shifts a[p..i) one place right and keeps the multiset |
| InsertionSort.Working | src/components/sorting/InsertionSort.jsx:81 | the array while the loop compares at j: a[j+2..i] holds the old a[j+1..i-1], and the rest is untouched |
| InsertionSort.WorkingMultiset | src/components/sorting/InsertionSort.jsx:69-89 | while the inner loop runs, the array holds the input's elements with the key taken out and the element at j+1 shown twice; before the first shift it is unchanged |
| InsertionSort.WorkingShifts | src/components/sorting/InsertionSort.jsx:81 | one shift `a[j+1] := a[j]` moves the working array from j to j-1 |
| InsertionSort.PlacedInserts | src/components/sorting/InsertionSort.jsx:67-95 | the shifts and the final write together move the key to its gap |
| InsertionSort.PassInserts | src/components/sorting/InsertionSort.jsx:54-104 | pass i moves a[i] to the gap Gap(a, i-1, a[i]) |
| InsertionSort.InsertSorts | src/components/sorting/InsertionSort.jsx:69-95 | inserting the key keeps a[0..i] ascending, and every element the key passed is strictly greater than it, so the sort is stable |
| InsertionSort.InsertPermutes | src/components/sorting/InsertionSort.jsx:95 | after the insertion, a[0..i] is a permutation of the original a[0..i] and the rest is untouched |
| InsertionSort.InsertStepFacts | src/components/sorting/InsertionSort.jsx:94-103 | the insert step shows a permutation whose first i+1 elements are the input's first i+1, sorted |
| InsertionSort.WorkingOrdered | src/components/sorting/InsertionSort.jsx:81 | shifting keeps the first i elements ascending |
| InsertionSort.CompareShiftFacts | src/components/sorting/InsertionSort.jsx:71-89 | compare and shift steps satisfy StepFacts: an ascending prefix, and a snapshot that has lost the key and shows one element twice (the shifted one, for a shift step) |
| InsertionSort.CompareFacts | src/components/sorting/InsertionSort.jsx:71-78 | a compare step at j shows an ascending prefix and the input with the key taken out and a[j+1] shown twice; before the first shift that is the input itself |
| InsertionSort.ShiftFacts | src/components/sorting/InsertionSort.jsx:80-89 | a shift step at j shows a[j] at both j and j+1, and the input with the key taken out and a[j] shown twice |
| InsertionSort.InsertCaseFacts | src/components/sorting/InsertionSort.jsx:95-103 | the insert step ending the inner loop satisfies StepFacts |
| InsertionSort.ShiftStepsFacts | src/components/sorting/InsertionSort.jsx:67-103 | every step from the inner loop on satisfies StepFacts |
| InsertionSort.PassFacts | src/components/sorting/InsertionSort.jsx:54-104 | every step of pass i satisfies StepFacts, and the pass leaves the first i+1 elements sorted |
| InsertionSort.SweepFacts | src/components/sorting/InsertionSort.jsx:54-104 | every step of passes i..n-1 satisfies StepFacts |
| InsertionSort.RunFacts | src/components/sorting/InsertionSort.jsx:40-107 | every step of a run satisfies StepFacts: between select_key and insert the snapshot has lost the key and repeats one element, and from insert on it is again a permutation of the input with a sorted prefix |
| InsertionSort.ShiftStepsLast | src/components/sorting/InsertionSort.jsx:94-103 | a pass ends with its insert step, whose sortedUntil is i+1 |
| InsertionSort.SweepLast | src/components/sorting/InsertionSort.jsx:54-104 | the last step inserts with sortedUntil n |
| InsertionSort.RunEndsSorted | src/components/sorting/InsertionSort.jsx:44-107 | the run always opens with the initial step on the unchanged input with sortedUntil 1, even for an empty array; its last snapshot is the input sorted |
| InsertionSort.Count | src/components/sorting/InsertionSort.jsx:41 | a count of the steps of one kind never exceeds the number of steps |
| InsertionSort.CountAll | src/components/sorting/InsertionSort.jsx:45-103 | every step is of one of the five kinds |
| InsertionSort.GapFrame | src/components/sorting/InsertionSort.jsx:69 | the gap depends only on the elements at or below j |
| InsertionSort.ShiftStepsCount | src/components/sorting/InsertionSort.jsx:69-103 | from j on, a pass makes one compare and one shift for each element it moves, then one insert |
| InsertionSort.PassCounts | src/components/sorting/InsertionSort.jsx:54-103 | pass i makes k compare/shift pairs, where k is the number of consecutive predecessors strictly greater than the key |
| InsertionSort.SweepCount | src/components/sorting/InsertionSort.jsx:54-104 | the counts of passes i..n-1 by kind |
| InsertionSort.RunCounts | src/components/sorting/InsertionSort.jsx:44-104 | one initial step; one select_key and one insert per position from 1 on; equal numbers of compare and shift steps; and the total length |
| InsertionSort.ShiftStepsAscending | src/components/sorting/InsertionSort.jsx:58-103 | within pass i, sortedUntil is i, then i+1 at the insert |
| InsertionSort.SweepAscending | src/components/sorting/InsertionSort.jsx:54-104 | sortedUntil never decreases over passes i..n-1 |
| InsertionSort.RunSortedUntil | src/components/sorting/InsertionSort.jsx:49-100 | sortedUntil starts at 1, never decreases and never exceeds n (or 1 for the empty array) |
| InsertionSort.ShiftStepsFollow | src/components/sorting/InsertionSort.jsx:71-89 | in a pass every shift directly follows its compare step |
| InsertionSort.SweepShiftsFollow | src/components/sorting/InsertionSort.jsx:54-104 | the same holds over passes i..n-1 |
| InsertionSort.RunShiftsFollow | src/components/sorting/InsertionSort.jsx:71-89 | every shift step directly follows the compare step at the same position, and its snapshot is the compare snapshot with a[j+1] := a[j] |
| InsertionSort.RunEnds | src/components/sorting/InsertionSort.jsx:167 | the first snapshot is the array the run started from, and the last is that array sorted |
| InsertionSort.Nodes | src/components/sorting/InsertionSort.jsx:25-38 | there is one node per element, with its index and its value, and none is marked as the target |
| InsertionSort.SortedNodesAscending | src/components/sorting/InsertionSort.jsx:35 | while any step is shown, the nodes drawn sorted are ascending |
| InsertionSort.Visualizer.constructor | src/components/sorting/InsertionSort.jsx:12-23 | the initial state: the default array, no steps, the cursor at -1, and sortedUntil 0 |
| InsertionSort.Visualizer.Sort | src/components/sorting/InsertionSort.jsx:109-116 | does nothing while sorting; otherwise stores Run(values) with the cursor at -1 |
| InsertionSort.Visualizer.Show | src/components/sorting/InsertionSort.jsx:123-133 | copies a step; compareIndex is set only for compare and shift steps |
| InsertionSort.Visualizer.Finish | src/components/sorting/InsertionSort.jsx:137-143 | the finishing branch clears both indices, sets sortedUntil to the length and clears sorting |
| InsertionSort.Visualizer.Rewind | src/components/sorting/InsertionSort.jsx:162-169 | going back to before the first step: indices -1, sortedUntil 0, the first snapshot shown |
| InsertionSort.Visualizer.Next | src/components/sorting/InsertionSort.jsx:118-144 | moves the cursor by exactly one and shows that step; the click that lands on the last step shows the finished state, whose array is the source sorted; at the end it does nothing |
| InsertionSort.Visualizer.Previous | src/components/sorting/InsertionSort.jsx:146-170 | from above 0 it shows the step before; from 0 it returns to -1 with the pre-run array; at -1 it does nothing |
| InsertionSort.Visualizer.Add | src/components/sorting/InsertionSort.jsx:219-226 | appends the entered number unless the field is blank or a run is in progress |
| InsertionSort.Visualizer.Reset | src/components/sorting/InsertionSort.jsx:228-240 | restores the default array with no steps, the cursor at -1 and no run |
| BubbleSort.AfterTail | src/components/sorting/BubbleSort.jsx:45-68 | the array a pass leaves has the input's length |
| BubbleSort.BubblePass | src/components/sorting/BubbleSort.jsx:45-68 | pass i records PassTail(a, i, 0) and leaves the array as AfterTail(a, i, 0) |
| BubbleSort.Visit | src/components/sorting/BubbleSort.jsx:46-67 | one inner iteration records its compare step, plus a swap step when a[j] > a[j+1], and hands the rest of the pass the exchanged array |
| BubbleSort.UnfoldSwap | src/components/sorting/BubbleSort.jsx:55-66 | for a pair out of order, the pass records compare then swap and goes on over the exchanged array |
| BubbleSort.UnfoldKeep | src/components/sorting/BubbleSort.jsx:47-55 | for a pair in order, the pass records only compare and goes on over the same array |
| BubbleSort.SwapNeighbours | src/components/sorting/BubbleSort.jsx:57-59 | the three assignments exchange a[j] and a[j+1] |
| BubbleSort.GenerateSteps | src/components/sorting/BubbleSort.jsx:40-72 | the generator returns exactly Run(input) |
| BubbleSort.BubbleStep | src/components/sorting/BubbleSort.jsx:47-66 | compare and swap steps satisfy StepFacts, and the exchange carries the largest element so far one place up |
| BubbleSort.PassTailFacts | src/components/sorting/BubbleSort.jsx:45-68 | every step of the rest of a pass satisfies StepFacts |
| BubbleSort.AfterTailFacts | src/components/sorting/BubbleSort.jsx:44-69 | after pass i, position n-i-1 holds the largest element of a[0..n-i), the suffix from there is in its final place, and the array is a permutation |
| BubbleSort.SweepFacts | src/components/sorting/BubbleSort.jsx:44-69 | every step of passes i..n-2 satisfies StepFacts |
| BubbleSort.RunFacts | src/components/sorting/BubbleSort.jsx:40-72 | every step satisfies StepFacts: a permutation of the input, indices [j, j+1] below n-i, a boundary in [1, n-1], and a final suffix above it |
| BubbleSort.PassTailLast | src/components/sorting/BubbleSort.jsx:45-68 | the last step of a pass works on the pair just below the boundary and leaves it in order |
| BubbleSort.SweepLast | src/components/sorting/BubbleSort.jsx:44-69 | the last step works on positions 0 and 1 and leaves them in order |
| BubbleSort.LastPassSorted | src/components/sorting/BubbleSort.jsx:44-69 | such a step shows the array sorted |
| BubbleSort.RunEndsSorted | src/components/sorting/BubbleSort.jsx:40-72 | the run is empty exactly when n < 2; otherwise it opens by comparing 0 and 1 on the unchanged input, and its last snapshot is the input sorted |
| BubbleSort.RunEnds | src/components/sorting/BubbleSort.jsx:132 | the first snapshot is the array the run started from, and the last is that array sorted |
| BubbleSort.PassTailPaired | src/components/sorting/BubbleSort.jsx:45-68 | the steps of a pass are paired |
| BubbleSort.SweepPaired | src/components/sorting/BubbleSort.jsx:44-69 | the steps of passes i..n-2 are paired |
| BubbleSort.RunPaired | src/components/sorting/BubbleSort.jsx:55-66 | a swap directly follows a compare exactly when that pair is strictly out of order, and its snapshot is the compare snapshot with the pair exchanged; equal neighbours are never swapped |
| BubbleSort.Count | src/components/sorting/BubbleSort.jsx:41 | a count of the steps of one kind never exceeds the number of steps |
| BubbleSort.PairedCounts | src/components/sorting/BubbleSort.jsx:47-66 | in paired steps, compares plus swaps is the length, and there are no more swaps than compares |
| BubbleSort.PassTailCounts | src/components/sorting/BubbleSort.jsx:45-53 | from j on, pass i compares n-i-1-j pairs |
| BubbleSort.SweepCounts | src/components/sorting/BubbleSort.jsx:44-53 | passes i..n-2 make ComparesFrom(n, i) comparisons |
| BubbleSort.RunCounts | src/components/sorting/BubbleSort.jsx:44-66 | n(n-1)/2 comparisons whatever the input, at most as many swaps, and nothing else |
| BubbleSort.NeighboursSorted | src/components/sorting/BubbleSort.jsx:55 | an array with every neighbouring pair in order is sorted |
| BubbleSort.PassTailNoSwap | src/components/sorting/BubbleSort.jsx:55-66 | the rest of a pass swaps nothing exactly when its pairs are in order, and then leaves the array unchanged |
| BubbleSort.SweepOfSorted | src/components/sorting/BubbleSort.jsx:44-69 | passes over a sorted array swap nothing |
| BubbleSort.RunSwapsIffUnsorted | src/components/sorting/BubbleSort.jsx:40-72 | a run swaps nothing exactly when the input is sorted |
| BubbleSort.PassTailBoundary | src/components/sorting/BubbleSort.jsx:45-66 | every step of pass i carries sortedUntil n-i-1 |
| BubbleSort.SweepDescending | src/components/sorting/BubbleSort.jsx:44-69 | the boundary never increases over passes i..n-2 |
| BubbleSort.RunSortedUntil | src/components/sorting/BubbleSort.jsx:44-69 | sortedUntil never increases along the run and stays in [1, n-1] |
| BubbleSort.Nodes | src/components/sorting/BubbleSort.jsx:25-38 | one node per element, drawn sorted exactly when its index is at or above sortedUntil |
| BubbleSort.SortedNodesPlaced | src/components/sorting/BubbleSort.jsx:33 | while a step is shown, every node drawn sorted above the boundary holds its final value |
| BubbleSort.BoundaryNodeEarly | src/components/sorting/BubbleSort.jsx:33-51 | the node at the boundary is drawn sorted before its element has arrived: on [2, 1] the first step draws 1 at position 1 as sorted, below the 2 before it |
| BubbleSort.FinishedNodes | src/components/sorting/BubbleSort.jsx:105 | with sortedUntil 0 every node is drawn sorted and unmarked |
| BubbleSort.Visualizer.constructor | src/components/sorting/BubbleSort.jsx:12-23 | sortedUntil starts at the length of the default array, so no node is drawn sorted |
| BubbleSort.Visualizer.Sort | src/components/sorting/BubbleSort.jsx:74-81 | does nothing while sorting; otherwise stores Run(values) with the cursor at -1 |
| BubbleSort.Visualizer.Show | src/components/sorting/BubbleSort.jsx:88-92 | copies the step's pair, boundary and array |
| BubbleSort.Visualizer.Finish | src/components/sorting/BubbleSort.jsx:102-108 | the finishing branch clears both indices, sets sortedUntil to 0 and clears sorting |
| BubbleSort.Visualizer.Rewind | src/components/sorting/BubbleSort.jsx:127-134 | going back to before the first step: indices -1, the boundary at n, the first snapshot shown |
| BubbleSort.Visualizer.Next | src/components/sorting/BubbleSort.jsx:83-109 | moves the cursor by exactly one and shows that step; the click that lands on the last step shows the finished state, whose array is the source sorted; at the end it does nothing |
| BubbleSort.Visualizer.Previous | src/components/sorting/BubbleSort.jsx:111-135 | from above 0 it shows the step before; from 0 it returns to -1 with the pre-run array and sortedUntil equal to the length of the array shown before the click; at -1 it does nothing |
| BubbleSort.Visualizer.Add | src/components/sorting/BubbleSort.jsx:184-191 | appends the entered number unless the field is blank or a run is in progress |
| BubbleSort.Visualizer.Reset | src/components/sorting/BubbleSort.jsx:193-205 | restores the default array with no steps and no run, and sets sortedUntil to the length of the array shown before the click |
| LinearSearch.ProbesFrom | src/components/searching/LinearSearch.jsx:44-54 | from i on, the loop probes i, i+1, … in order; every probe but the last misses, and the last either hits or is the last index |
| LinearSearch.ProbesOrder | src/components/searching/LinearSearch.jsx:44-58 | the probes are 0, 1, 2, …, and there are IndexOf+1 of them when t is present and n of them when it is absent |
| LinearSearch.Scan | src/components/searching/LinearSearch.jsx:44-58 | the loop probes exactly Probes(a, t, 0) and reports the first occurrence, or -1 |
| LinearSearch.FoundExample | src/components/searching/LinearSearch.jsx:11-53 | on [4,2,7,1,9,5], searching 9 probes 0..4 and finds index 4 |
| LinearSearch.MissingExample | src/components/searching/LinearSearch.jsx:11-58 | on [4,2,7,1,9,5], searching 99 probes all six indices and finds nothing |
| LinearSearch.AppendKeeps | src/components/searching/LinearSearch.jsx:64-65 | appending keeps the existing elements and puts the value at index old-length |
| LinearSearch.RemoveKeeps | src/components/searching/LinearSearch.jsx:73-76 | removal distributes over any split of the array, and changes nothing exactly when the target is absent |
| LinearSearch.Nodes | src/components/searching/LinearSearch.jsx:20-32 | one node per element; the search marks no comparing, sorted or boundary node |
| LinearSearch.SearchedNodes | src/components/searching/LinearSearch.jsx:26-27 | after a search only the first occurrence is highlighted and marked as the target; after a miss no node is |
| LinearSearch.Panel.constructor | src/components/searching/LinearSearch.jsx:11-18 | the panel starts on [4,2,7,1,9,5] with nothing highlighted |
| LinearSearch.Panel.Enter | src/components/searching/LinearSearch.jsx:95 | typing changes only the field |
| LinearSearch.Panel.Search | src/components/searching/LinearSearch.jsx:34-59 | ignored when the field is blank or a search is running; otherwise probes Probes(values, t, 0), ends on IndexOf(values, t), sets found exactly when t is present, and reports the index or the miss |
| LinearSearch.Panel.Add | src/components/searching/LinearSearch.jsx:61-68 | appends the number, reports index old-length and clears the field; ignored when the field is blank or a search is running |
| LinearSearch.Panel.Remove | src/components/searching/LinearSearch.jsx:70-82 | removes every occurrence and reports the first index, or reports the number absent with the array unchanged; clears the field; ignored when the field is blank or a search is running |
| BinarySearch.Mid | src/components/searching/BinarySearch.jsx:56 | floor((left+right)/2) lies in [left, right] and splits the window into halves whose sizes differ by at most one |
| BinarySearch.BisectionStart | src/components/searching/BinarySearch.jsx:55-57 | there are no rounds exactly when the window is empty; otherwise the first round probes the window's middle |
| BinarySearch.BisectionInWindow | src/components/searching/BinarySearch.jsx:55-74 | every round probes the middle of a window inside the starting one |
| BinarySearch.BisectionShrinks | src/components/searching/BinarySearch.jsx:70-74 | each window lies inside the one before and is strictly narrower |
| BinarySearch.ShrinkingCons | src/components/searching/BinarySearch.jsx:70-74 | a window put in front of strictly smaller windows that lie inside it keeps the sequence shrinking |
| BinarySearch.BisectionMisses | src/components/searching/BinarySearch.jsx:63-68 | only the last round can hit |
| BinarySearch.RoundsInRange | src/components/searching/BinarySearch.jsx:52-75 | every probe is a valid index inside [0, n-1], the windows shrink strictly, and every round but the last misses |
| BinarySearch.RoundsBound | src/components/searching/BinarySearch.jsx:55-75 | the search makes at most n rounds, so the loop terminates |
| BinarySearch.WindowsShrink | src/components/searching/BinarySearch.jsx:70-74 | strictly shrinking windows starting from width w number at most w+1 |
| BinarySearch.LocatedSound | src/components/searching/BinarySearch.jsx:63-68 | a reported index holds the target; -1 is reported exactly when the last round missed |
| BinarySearch.HalfDropped | src/components/searching/BinarySearch.jsx:70-74 | on a sorted array the dropped half cannot hold the target |
| BinarySearch.BisectionComplete | src/components/searching/BinarySearch.jsx:55-75 | on a sorted array the search hits exactly when the target is in the starting window |
| BinarySearch.LocatedComplete | src/components/searching/BinarySearch.jsx:55-81 | on a sorted array -1 is reported exactly when the target is absent, and otherwise an index holding it |
| BinarySearch.InitialExample | src/components/searching/BinarySearch.jsx:12-67 | on [1,2,4,5,7,9], searching 5 probes the middles 2, 4 and 3 and finds index 3 |
| BinarySearch.Bisect | src/components/searching/BinarySearch.jsx:52-81 | the loop makes exactly Rounds(a, t) and reports Located(a, t) |
| BinarySearch.BisectionNext | src/components/searching/BinarySearch.jsx:70-74 | a round that misses continues with the half right of the middle when a[mid] < t, and with the half left of it otherwise |
| BinarySearch.Round | src/components/searching/BinarySearch.jsx:56-74 | one iteration probes Mid, hits exactly when a[mid] == t, otherwise moves to the strictly smaller half whose rounds follow, and on a hit leaves an empty window |
| BinarySearch.InsertionIndex | src/components/searching/BinarySearch.jsx:88-93 | the insertion index is the first position whose element is not below the value: everything before it is smaller |
| BinarySearch.Insert | src/components/searching/BinarySearch.jsx:95 | splice grows the array by one, puts the value at p and keeps the other elements in order |
| BinarySearch.InsertionPoint | src/components/searching/BinarySearch.jsx:88-93 | the loop stops at InsertionIndex |
| BinarySearch.InsertionIndexUnique | src/components/searching/BinarySearch.jsx:91 | the three facts about the insertion index determine it |
| BinarySearch.InsertKeepsSorted | src/components/searching/BinarySearch.jsx:88-96 | inserting at the insertion index keeps a sorted array sorted |
| BinarySearch.AddThenSearch | src/components/searching/BinarySearch.jsx:84-104 | a number just added is found by the next search |
| BinarySearch.RemoveThenSearch | src/components/searching/BinarySearch.jsx:106-122 | a number just removed is not found by the next search, and the array stays sorted |
| BinarySearch.Nodes | src/components/searching/BinarySearch.jsx:25-39 | one node per element, with its index and its value |
| BinarySearch.MissedNodes | src/components/searching/BinarySearch.jsx:77-79 | after a miss no node is highlighted, marked as the target or drawn as a boundary |
| BinarySearch.Panel.constructor | src/components/searching/BinarySearch.jsx:12-21 | the panel starts on the sorted [1,2,4,5,7,9] with no index set |
| BinarySearch.Panel.Enter | src/components/searching/BinarySearch.jsx:139 | typing changes only the field |
| BinarySearch.Panel.Search | src/components/searching/BinarySearch.jsx:41-82 | ignored when the field is blank or a search is running; otherwise makes Rounds(values, t) and sets found exactly when t is in the array; when found, it highlights an index holding t and keeps the last window as the boundary; when not, all three indices are -1 |
| BinarySearch.Panel.Add | src/components/searching/BinarySearch.jsx:84-104 | inserts at the insertion index, keeps the array sorted, reports that index and clears the field; ignored when blank or searching |
| BinarySearch.Panel.Remove | src/components/searching/BinarySearch.jsx:106-122 | removes every occurrence and reports the first index, or reports the number absent; keeps the array sorted and clears the field; ignored when blank or searching |
| LinkedList.Enter | src/components/data-structures/LinkedList.jsx:110 | typing changes only the text field: the list and the message line stay |
| LinkedList.Add | src/components/data-structures/LinkedList.jsx:78-84 | appends the number at the tail, keeps the prefix and clears the field; ignored for a blank field |
| LinkedList.RemoveLast | src/components/data-structures/LinkedList.jsx:86-92 | drops exactly the last element; a no-op on an empty list |
| LinkedList.Reset | src/components/data-structures/LinkedList.jsx:94-98 | empties the list and the field, leaving no nodes and no arrows |
| LinkedList.AddThenRemove | src/components/data-structures/LinkedList.jsx:78-92 | removing the tail undoes adding it |
| LinkedList.RemoveThenAdd | src/components/data-structures/LinkedList.jsx:78-92 | adding back the removed tail restores the list |
| LinkedList.Nodes | src/components/data-structures/LinkedList.jsx:28-30 | one node per element, with id equal to its index |
| LinkedList.Edges | src/components/data-structures/LinkedList.jsx:57-61 | max(n-1, 0) arrows, and arrow k goes from node k to node k+1 |
| LinkedList.StepDegrees | src/components/data-structures/LinkedList.jsx:57-61 | arrows from each index to the next give every node at most one arrow out and one arrow in |
| LinkedList.Chain | src/components/data-structures/LinkedList.jsx:57-61 | the arrows form one chain from head to tail: one arrow out of every node but the tail, one arrow into every node but the head |
| LinkedList.AddExtendsChain | src/components/data-structures/LinkedList.jsx:57-84 | adding to a non-empty list adds exactly the arrow from the old tail to the new node |
| LinkedList.RemoveShortensChain | src/components/data-structures/LinkedList.jsx:57-92 | removing the tail of a list of two or more removes exactly the last arrow |
| ArrayComponent.Enter | src/components/data-structures/ArrayComponent.jsx:65 | typing changes only the text field: the array and the message line stay |
| ArrayComponent.Add | src/components/data-structures/ArrayComponent.jsx:37-43 | appends the number, keeps the prefix and clears the field; ignored for a blank field |
| ArrayComponent.RemoveLast | src/components/data-structures/ArrayComponent.jsx:45-51 | drops exactly the last element; a no-op on an empty array |
| ArrayComponent.Reset | src/components/data-structures/ArrayComponent.jsx:53-57 | restores exactly [64,34,25,12,22,11,90] and clears the field |
| ArrayComponent.AddThenRemove | src/components/data-structures/ArrayComponent.jsx:37-51 | removing the last element undoes adding it |
| ArrayComponent.RemoveThenAdd | src/components/data-structures/ArrayComponent.jsx:37-51 | adding back the removed element restores the array |
| ArrayComponent.Nodes | src/components/data-structures/ArrayComponent.jsx:18-29 | one node per element, with id equal to its index and label equal to the element, and every flag false |
| ArrayComponent.AddKeepsNodes | src/components/data-structures/ArrayComponent.jsx:18-43 | adding keeps every drawn node and draws one more for the new element |

## Behaviour of the source that the model makes explicit

**Selection and bubble sort on fewer than two elements.** The generator
records no steps (`RunEndsSorted`). Sort then sets `sorting`. Next never
reaches its finishing branch, because `currentStep === steps.length - 2`
would need -1 == -2. So `sorting` stays set until Reset, and Add and Sort are
ignored until then. The `Next` contracts state exactly this: with no steps,
Next changes nothing.

**Insertion sort's initial step.** It counts one element as sorted even for
an empty array: `sortedUntil` is 1 while the length is 0 (`RunEndsSorted`,
`RunSortedUntil`).

**Bubble sort's boundary.** The boundary node `sortedUntil = n-i-1` is drawn
sorted during pass i. This happens before the pass has carried its element
there (`BoundaryNodeEarly`). Only the nodes strictly above the boundary are
guaranteed final (`SortedNodesPlaced`).

**Bubble sort's length-dependent fields.** Previous from the first step sets
`sortedUntil` to the length of the array shown before the click, and so does
Reset. The source reads `array.length` from the state before its own
`setArray`.

**Finishing on Next.** In selection sort and insertion sort, the finishing
branch sets `sortedUntil` to the length of the array shown before the click.
Bubble sort's finishing branch sets it to 0 and reads no length.

**The searches run atomically.** A search is one atomic update, so the
`searching` flag is clear whenever another handler runs. The guards on
`searching` are kept as in the source.

**Binary search's unchecked precondition.** Binary search assumes a sorted
array and never checks it. The panel's `Valid` invariant proves that the
array stays sorted, because only the sorted insertion and the removal change
it. The completeness lemmas assume `Sorted`. `LocatedSound`, `RoundsInRange`
and `RoundsBound` do not.

## Left out

- **Rendering.** ReactFlow and MUI rendering, node pixel positions, the
  `isMobile` sizing, JSX labels and `ArrayNode` styling are presentation only.
  The model keeps the per-node data: id, value and flags.
- **App.** `App.jsx` is not part of this model; it only routes between tabs.
- **Autoplay.** `handleAutoPlay` in the three sorts is a timer-driven
  `setTimeout` loop whose point is timing. Each of its ticks is the `Next`
  transition, which is modelled.
- **Pauses.** The pauses between probes in both searches are dropped, and a
  search is one atomic update. The intermediate highlights are the returned
  probe sequence.
- **Parsing.** `parseInt` parsing of the text field is not modelled. A field
  holds a number or is blank, and text that parses to `NaN` is not
  represented.
- **Messages.** Message strings are reduced to the `Report` and `Message`
  tags that carry the numbers they quote. The narration text of sort steps is
  not kept.
- **React.** React batching and re-render timing are not modelled. Each
  handler is one atomic update in which later setter calls win.
- **Sort panels' text field.** The field is not kept as state in the sort
  visualizers: `Add` takes the field's content as a parameter. Clearing it is
  not modelled.
- **Step fields.** The `values` pair of a bubble step is not kept, because it
  only feeds the message. It is always the snapshot at the step's two
  indices.
