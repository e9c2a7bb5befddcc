/** The insertion sort visualizer: the step generator, which runs insertion sort
    on a copy of the array and records a snapshot when each key is selected, at
    every comparison and shift, and when the key is inserted; and the playback
    controller that replays those steps. */
module InsertionSort {
  import opened Common

  datatype Kind = Initial | SelectKey | Compare | Shift | Insert

  /** One recorded step. compareIndex is -1 in the steps that have none;
      `snapshot` is the whole array as the step leaves it (the source calls it
      `array`). */
  datatype Step = Step(kind: Kind, currentIndex: int, compareIndex: int, sortedUntil: int, snapshot: seq<int>)

  // ---------------------------------------------------------------------------
  // The run the generator records, as a recursive definition
  // ---------------------------------------------------------------------------

  /** The array once the inner loop, now at position j, has shifted every
      consecutive element greater than `key` one place right and written the
      key into the gap. */
  function Placed(w: seq<int>, j: int, key: int): (r: seq<int>)
    requires -1 <= j && j + 1 < |w|
    ensures |r| == |w|
    decreases j + 1
  {
    if j >= 0 && w[j] > key then Placed(w[j + 1 := w[j]], j - 1, key)
    else w[j + 1 := key]
  }

  /** The steps pass i records from the comparison at position j on, w being
      the array at that point: a compare step and a shift step for every
      element greater than the key, then the insert step. */
  function ShiftSteps(w: seq<int>, i: nat, j: int, key: int): seq<Step>
    requires -1 <= j < i < |w|
    decreases j + 1
  {
    if j >= 0 && w[j] > key then
      var shifted := w[j + 1 := w[j]];
      [Step(Compare, i, j, i, w)] + ([Step(Shift, i, j, i, shifted)] + ShiftSteps(shifted, i, j - 1, key))
    else [Step(Insert, j + 1, -1, i + 1, w[j + 1 := key])]
  }

  /** The steps of pass i over the array a: the key a[i] is selected, then
      shifted into place. */
  function PassSteps(a: seq<int>, i: nat): seq<Step>
    requires 1 <= i < |a|
  {
    [Step(SelectKey, i, -1, i, a)] + ShiftSteps(a, i, i - 1, a[i])
  }

  /** The steps of passes i, i+1, ..., n-1 over the array a. */
  function Sweep(a: seq<int>, i: nat): seq<Step>
    requires 1 <= i
    decreases |a| - i
  {
    if i >= |a| then []
    else PassSteps(a, i) + Sweep(Placed(a, i - 1, a[i]), i + 1)
  }

  /** The steps generated for the array `input`: an initial step that shows
      the array with its first element counted as sorted, then one pass per
      later position. */
  function Run(input: seq<int>): seq<Step>
  {
    [Step(Initial, -1, -1, 1, input)] + Sweep(input, 1)
  }

  // ---------------------------------------------------------------------------
  // The generator
  // ---------------------------------------------------------------------------

  /** Pass i: selects a[i] as the key, shifts the greater elements before it
      one place right, recording a compare and a shift step for each, and
      writes the key into the gap. */
  method InsertKey(a: array<int>, i: nat) returns (recorded: seq<Step>)
    requires 1 <= i < a.Length
    modifies a
    ensures recorded == PassSteps(old(a[..]), i)
    ensures a[..] == Placed(old(a[..]), i - 1, old(a[i]))
  {
    ghost var start := a[..];
    var key := a[i];
    recorded := [Step(SelectKey, i, -1, i, a[..])];
    var j := i - 1;
    while j >= 0 && a[j] > key
      invariant -1 <= j < i
      invariant recorded + ShiftSteps(a[..], i, j, key) == PassSteps(start, i)
      invariant Placed(a[..], j, key) == Placed(start, i - 1, key)
      decreases j
    {
      ghost var before := recorded;
      ghost var w := a[..];
      var compared := Step(Compare, i, j, i, a[..]);
      a[j + 1] := a[j];
      assert a[..] == w[j + 1 := w[j]];
      var shifted := Step(Shift, i, j, i, a[..]);
      recorded := recorded + [compared] + [shifted];
      Assoc(before, [compared], [shifted] + ShiftSteps(a[..], i, j - 1, key));
      Assoc(before + [compared], [shifted], ShiftSteps(a[..], i, j - 1, key));
      j := j - 1;
    }
    ghost var w := a[..];
    a[j + 1] := key;
    assert a[..] == w[j + 1 := key];
    recorded := recorded + [Step(Insert, j + 1, -1, i + 1, a[..])];
  }

  /** Runs insertion sort on a copy of the array, recording the initial step
      and then, for every position from 1 on, the selection of the key, each
      comparison and shift, and the insertion. */
  method GenerateSteps(input: seq<int>) returns (steps: seq<Step>)
    ensures steps == Run(input)
  {
    var a := new int[|input|](k requires 0 <= k < |input| => input[k]);
    assert a[..] == input;
    steps := [Step(Initial, -1, -1, 1, a[..])];
    var i := 1;
    while i < a.Length
      invariant 1 <= i
      invariant steps + Sweep(a[..], i) == Run(input)
    {
      var recorded := InsertKey(a, i);
      Assoc(steps, recorded, Sweep(a[..], i + 1));
      steps := steps + recorded;
      i := i + 1;
    }
    assert steps + [] == steps;
  }

  // ---------------------------------------------------------------------------
  // Where the key lands
  // ---------------------------------------------------------------------------

  /** The gap the key is written into when the inner loop starts at position
      j: just after the nearest element at or below j that is not greater than
      the key, or 0 if there is none. */
  function Gap(a: seq<int>, j: int, key: int): (p: int)
    requires -1 <= j < |a|
    ensures 0 <= p <= j + 1
    decreases j + 1
  {
    if j >= 0 && a[j] > key then Gap(a, j - 1, key) else j + 1
  }

  /** The elements of a[p..i) are greater than the key and the one before them,
      if any, is not: the gap the inner loop stops at. */
  lemma {:induction false} GapStops(a: seq<int>, j: int, key: int)
    requires -1 <= j < |a|
    ensures var p := Gap(a, j, key);
            && (p == 0 || a[p - 1] <= key)
            && forall t :: p <= t <= j ==> a[t] > key
    decreases j + 1
  {
    if j >= 0 && a[j] > key {
      GapStops(a, j - 1, key);
    }
  }

  /** a with its element at i moved to position p <= i. */
  function Inserted(a: seq<int>, i: nat, p: nat): (r: seq<int>)
    requires p <= i < |a|
    ensures |r| == |a| && r[p] == a[i]
    ensures forall t :: 0 <= t < p ==> r[t] == a[t]
    ensures forall t :: p < t <= i ==> r[t] == a[t - 1]
    ensures forall t :: i < t < |a| ==> r[t] == a[t]
    ensures multiset(r) == multiset(a)
  {
    assert a == a[..p] + a[p..i] + [a[i]] + a[i + 1..];
    a[..p] + [a[i]] + a[p..i] + a[i + 1..]
  }

  /** The array while pass i compares at position j: a's elements up to j+1,
      then a[j+1..i) one place up, then a's elements after i. Position j+1
      holds a stale copy of its neighbour (or, before any shift, the key). */
  function Working(a: seq<int>, i: nat, j: int): (w: seq<int>)
    requires -1 <= j < i < |a|
    ensures |w| == |a|
    ensures forall t :: 0 <= t <= j + 1 ==> w[t] == a[t]
    ensures forall t :: j + 2 <= t <= i ==> w[t] == a[t - 1]
    ensures forall t :: i < t < |a| ==> w[t] == a[t]
  {
    a[..j + 2] + a[j + 1..i] + a[i + 1..]
  }

  /** Before the first comparison the array is unchanged. */
  lemma WorkingStart(a: seq<int>, i: nat)
    requires 1 <= i < |a|
    ensures Working(a, i, i - 1) == a
  {
  }

  /** While the loop runs, the array has lost the key and shows the element
      at j+1 twice: its multiset is a's with a[i] replaced by that element.
      Before the first shift, j+1 is i and nothing is lost. */
  lemma WorkingMultiset(a: seq<int>, i: nat, j: int)
    requires -1 <= j < i < |a|
    ensures var w := Working(a, i, j);
            multiset(w) == multiset(a) - multiset{a[i]} + multiset{w[j + 1]}
  {
    var w := Working(a, i, j);
    if j + 1 == i {
      assert w == a;
      assert a[i] in multiset(a);
    } else {
      assert a == a[..j + 2] + a[j + 2..i] + [a[i]] + a[i + 1..];
      assert a[j + 1..i] == [a[j + 1]] + a[j + 2..i];
      assert a[..j + 2] == a[..j + 1] + [a[j + 1]];
    }
  }

  /** One shift moves the loop from position j to j-1. */
  lemma WorkingShifts(a: seq<int>, i: nat, j: int)
    requires 0 <= j < i < |a|
    ensures var w := Working(a, i, j); w[j + 1 := w[j]] == Working(a, i, j - 1)
  {
  }

  /** The inner loop, from position j on, ends with a[i] in the gap
      Gap(a, j, a[i]) and a[gap..i) one place up. */
  lemma {:induction false} PlacedInserts(a: seq<int>, i: nat, j: int)
    requires -1 <= j < i < |a|
    ensures Placed(Working(a, i, j), j, a[i]) == Inserted(a, i, Gap(a, j, a[i]))
    decreases j + 1
  {
    var w := Working(a, i, j);
    if j >= 0 && w[j] > a[i] {
      WorkingShifts(a, i, j);
      PlacedInserts(a, i, j - 1);
    }
  }

  /** The array pass i leaves: the key a[i] moved down to its gap. */
  lemma PassInserts(a: seq<int>, i: nat)
    requires 1 <= i < |a|
    ensures Placed(a, i - 1, a[i]) == Inserted(a, i, Gap(a, i - 1, a[i]))
  {
    WorkingStart(a, i);
    PlacedInserts(a, i, i - 1);
  }

  // ---------------------------------------------------------------------------
  // What the run guarantees
  // ---------------------------------------------------------------------------

  /** The first m elements of a are in ascending order. */
  ghost predicate OrderedBelow(a: seq<int>, m: int)
  {
    forall x, y :: 0 <= x < y < m && y < |a| ==> a[x] <= a[y]
  }

  /** The first m elements of a are the first m of input in ascending order,
      and the elements after them are input's, untouched. */
  ghost predicate Placing(a: seq<int>, input: seq<int>, m: int)
  {
    && 0 <= m <= |a| == |input|
    && OrderedBelow(a, m)
    && multiset(a[..m]) == multiset(input[..m])
    && a[m..] == input[m..]
  }

  lemma PlacingPermutes(a: seq<int>, input: seq<int>, m: int)
    requires Placing(a, input, m)
    ensures multiset(a) == multiset(input)
  {
    assert a == a[..m] + a[m..];
    assert input == input[..m] + input[m..];
  }

  /** Moving a[i] to its gap keeps the first i+1 elements ascending, and no
      element after the key's new position among them equals it, so equal
      elements keep their order. */
  lemma InsertSorts(a: seq<int>, i: nat)
    requires 1 <= i < |a| && OrderedBelow(a, i)
    ensures var p := Gap(a, i - 1, a[i]); var r := Inserted(a, i, p);
            && OrderedBelow(r, i + 1)
            && forall t :: p < t <= i ==> r[p] < r[t]
  {
    var p := Gap(a, i - 1, a[i]);
    var r := Inserted(a, i, p);
    GapStops(a, i - 1, a[i]);
    forall x, y | 0 <= x < y <= i ensures r[x] <= r[y] {
      if y == p && x < p - 1 {
        assert a[x] <= a[p - 1];
      }
    }
  }

  /** Moving a[i] to its gap leaves the first i+1 elements a permutation of
      the input's and the rest untouched. */
  lemma InsertPermutes(a: seq<int>, input: seq<int>, i: nat, p: nat)
    requires p <= i < |a| == |input|
    requires multiset(a[..i]) == multiset(input[..i]) && a[i..] == input[i..]
    ensures var r := Inserted(a, i, p);
            multiset(r[..i + 1]) == multiset(input[..i + 1]) && r[i + 1..] == input[i + 1..]
  {
    var r := Inserted(a, i, p);
    assert r[..i + 1] == a[..p] + [a[i]] + a[p..i];
    assert a[..i] == a[..p] + a[p..i];
    assert input[..i + 1] == input[..i] + [input[i]];
    assert a[i] == a[i..][0];
    assert r[i + 1..] == a[i..][1..];
  }

  /** What every step of a run on `input` satisfies. Every snapshot has the
      input's length. A select-key step for position i shows the first i
      elements sorted and the rest untouched; an insert step shows the first
      sortedUntil elements sorted, the key at currentIndex inside them and only
      greater elements after it there. Compare and shift steps compare with a
      position below the key's, and their first sortedUntil elements stay in
      ascending order. Their snapshot has lost the key (the input's element at
      currentIndex) and shows one element twice: the one after the compared
      position for a compare step, the compared one for a shift step. */
  ghost predicate StepFacts(s: Step, input: seq<int>)
  {
    var n := |input|;
    && |s.snapshot| == n
    && match s.kind
       case Initial => s == Step(Initial, -1, -1, 1, input)
       case SelectKey =>
         && 1 <= s.currentIndex < n && s.compareIndex == -1 && s.sortedUntil == s.currentIndex
         && Placing(s.snapshot, input, s.sortedUntil)
       case Compare =>
         && 0 <= s.compareIndex < s.currentIndex < n && s.sortedUntil == s.currentIndex
         && OrderedBelow(s.snapshot, s.sortedUntil)
         && multiset(s.snapshot) == multiset(input) - multiset{input[s.currentIndex]}
                                    + multiset{s.snapshot[s.compareIndex + 1]}
       case Shift =>
         && 0 <= s.compareIndex < s.currentIndex < n && s.sortedUntil == s.currentIndex
         && OrderedBelow(s.snapshot, s.sortedUntil)
         && s.snapshot[s.compareIndex + 1] == s.snapshot[s.compareIndex]
         && multiset(s.snapshot) == multiset(input) - multiset{input[s.currentIndex]}
                                    + multiset{s.snapshot[s.compareIndex]}
       case Insert =>
         && 0 <= s.currentIndex < s.sortedUntil <= n && s.compareIndex == -1
         && Placing(s.snapshot, input, s.sortedUntil)
         && forall t :: s.currentIndex < t < s.sortedUntil ==> s.snapshot[s.currentIndex] < s.snapshot[t]
  }

  /** What the array pass i leaves satisfies. */
  lemma InsertStepFacts(a: seq<int>, input: seq<int>, i: nat)
    requires 1 <= i < |a| && Placing(a, input, i)
    ensures var p := Gap(a, i - 1, a[i]); var r := Inserted(a, i, p);
            && Placing(r, input, i + 1)
            && forall t :: p < t <= i ==> r[p] < r[t]
  {
    var p := Gap(a, i - 1, a[i]);
    InsertSorts(a, i);
    InsertPermutes(a, input, i, p);
  }

  /** Shifting keeps the first i elements in ascending order, one of them
      shown twice. */
  lemma WorkingOrdered(a: seq<int>, i: nat, j: int)
    requires -1 <= j < i < |a| && OrderedBelow(a, i)
    ensures OrderedBelow(Working(a, i, j), i)
  {
    var w := Working(a, i, j);
    forall x, y | 0 <= x < y < i ensures w[x] <= w[y] {
      var x' := if x <= j + 1 then x else x - 1;
      var y' := if y <= j + 1 then y else y - 1;
      assert w[x] == a[x'] && w[y] == a[y'];
    }
  }

  /** A compare step, and the shift step after it. */
  lemma CompareShiftFacts(a: seq<int>, input: seq<int>, i: nat, j: int)
    requires 0 <= j < i < |a| && Placing(a, input, i)
    ensures var w := Working(a, i, j);
            && StepFacts(Step(Compare, i, j, i, w), input)
            && StepFacts(Step(Shift, i, j, i, w[j + 1 := w[j]]), input)
  {
    PlacingPermutes(a, input, i);
    assert a[i] == a[i..][0] == input[i..][0] == input[i];
    CompareFacts(a, input, i, j);
    ShiftFacts(a, input, i, j);
    WorkingShifts(a, i, j);
  }

  /** The compare step at position j: the prefix stays ascending, and the
      key is lost with a[j+1] shown twice (nothing lost before the first
      shift). */
  lemma CompareFacts(a: seq<int>, input: seq<int>, i: nat, j: int)
    requires 0 <= j < i < |a| == |input| && OrderedBelow(a, i)
    requires multiset(a) == multiset(input) && a[i] == input[i]
    ensures StepFacts(Step(Compare, i, j, i, Working(a, i, j)), input)
  {
    WorkingOrdered(a, i, j);
    WorkingMultiset(a, i, j);
  }

  /** The shift step at position j: a[j] is shown at j and j+1 and the key is
      lost. */
  lemma ShiftFacts(a: seq<int>, input: seq<int>, i: nat, j: int)
    requires 0 <= j < i < |a| == |input| && OrderedBelow(a, i)
    requires multiset(a) == multiset(input) && a[i] == input[i]
    ensures StepFacts(Step(Shift, i, j, i, Working(a, i, j - 1)), input)
  {
    var v := Working(a, i, j - 1);
    WorkingOrdered(a, i, j - 1);
    WorkingMultiset(a, i, j - 1);
    assert v[j + 1] == a[j] == v[j];
  }

  /** The insert step ending the inner loop at position j. */
  lemma InsertCaseFacts(a: seq<int>, input: seq<int>, i: nat, j: int)
    requires 1 <= i < |a| && Placing(a, input, i) && -1 <= j < i
    requires Gap(a, j, a[i]) == Gap(a, i - 1, a[i]) == j + 1
    requires j >= 0 ==> Working(a, i, j)[j] <= a[i]
    ensures StepFacts(Step(Insert, j + 1, -1, i + 1, Working(a, i, j)[j + 1 := a[i]]), input)
  {
    PlacedInserts(a, i, j);
    InsertStepFacts(a, input, i);
    var r := Inserted(a, i, j + 1);
    assert Working(a, i, j)[j + 1 := a[i]] == r;
    assert Placing(r, input, i + 1);
  }

  lemma {:induction false} ShiftStepsFacts(a: seq<int>, input: seq<int>, i: nat, j: int)
    requires 1 <= i < |a| && Placing(a, input, i) && -1 <= j < i
    requires Gap(a, j, a[i]) == Gap(a, i - 1, a[i])
    ensures forall s :: s in ShiftSteps(Working(a, i, j), i, j, a[i]) ==> StepFacts(s, input)
    decreases j + 1
  {
    var w := Working(a, i, j);
    if j >= 0 && w[j] > a[i] {
      CompareShiftFacts(a, input, i, j);
      WorkingShifts(a, i, j);
      ShiftStepsFacts(a, input, i, j - 1);
    } else {
      InsertCaseFacts(a, input, i, j);
    }
  }

  /** The steps of pass i, and the array it leaves for pass i+1. */
  lemma PassFacts(a: seq<int>, input: seq<int>, i: nat)
    requires 1 <= i < |a| && Placing(a, input, i)
    ensures forall s :: s in PassSteps(a, i) ==> StepFacts(s, input)
    ensures Placing(Placed(a, i - 1, a[i]), input, i + 1)
  {
    WorkingStart(a, i);
    ShiftStepsFacts(a, input, i, i - 1);
    PassInserts(a, i);
    InsertStepFacts(a, input, i);
  }

  lemma {:induction false} SweepFacts(a: seq<int>, input: seq<int>, i: nat)
    requires 1 <= i && (i < |a| ==> Placing(a, input, i)) && |a| == |input|
    ensures forall s :: s in Sweep(a, i) ==> StepFacts(s, input)
    decreases |a| - i
  {
    if i < |a| {
      PassFacts(a, input, i);
      SweepFacts(Placed(a, i - 1, a[i]), input, i + 1);
    }
  }

  /** Every step of the run satisfies StepFacts. */
  lemma RunFacts(input: seq<int>)
    ensures forall s :: s in Run(input) ==> StepFacts(s, input)
  {
    SweepFacts(input, input, 1);
  }

  /** The last step of a pass is its insert step. */
  lemma {:induction false} ShiftStepsLast(w: seq<int>, i: nat, j: int, key: int)
    requires -1 <= j < i < |w|
    ensures var t := ShiftSteps(w, i, j, key); t[|t| - 1].kind == Insert && t[|t| - 1].sortedUntil == i + 1
    decreases j + 1
  {
    if j >= 0 && w[j] > key {
      ShiftStepsLast(w[j + 1 := w[j]], i, j - 1, key);
    }
  }

  /** The last step of passes i .. n-1 inserts the last element. */
  lemma {:induction false} SweepLast(a: seq<int>, i: nat)
    requires 1 <= i < |a|
    ensures var t := Sweep(a, i); t != [] && t[|t| - 1].kind == Insert && t[|t| - 1].sortedUntil == |a|
    decreases |a| - i
  {
    ShiftStepsLast(a, i, i - 1, a[i]);
    if i + 1 < |a| {
      SweepLast(Placed(a, i - 1, a[i]), i + 1);
    } else {
      assert Sweep(a, i) == PassSteps(a, i) + [];
    }
  }

  /** The run opens with the initial step on the unchanged input, which
      counts one element as sorted even when the array is empty, and its last
      snapshot is the input sorted ascending. */
  lemma RunEndsSorted(input: seq<int>)
    ensures Run(input) != [] && Run(input)[0] == Step(Initial, -1, -1, 1, input)
    ensures var last := Run(input)[|Run(input)| - 1];
            Sorted(last.snapshot) && multiset(last.snapshot) == multiset(input)
  {
    var last := Run(input)[|Run(input)| - 1];
    if |input| >= 2 {
      SweepLast(input, 1);
      RunFacts(input);
      assert last in Run(input);
      PlacingPermutes(last.snapshot, input, |input|);
    } else {
      assert Sweep(input, 1) == [];
    }
  }

  // ---------------------------------------------------------------------------
  // How many steps of each kind
  // ---------------------------------------------------------------------------

  function Count(steps: seq<Step>, k: Kind): (c: nat)
    ensures c <= |steps|
  {
    if steps == [] then 0 else (if steps[0].kind == k then 1 else 0) + Count(steps[1..], k)
  }

  lemma {:induction false} CountConcat(xs: seq<Step>, ys: seq<Step>, k: Kind)
    ensures Count(xs + ys, k) == Count(xs, k) + Count(ys, k)
  {
    if xs == [] {
      assert xs + ys == ys;
    } else {
      assert (xs + ys)[1..] == xs[1..] + ys;
      CountConcat(xs[1..], ys, k);
    }
  }

  lemma CountOne(s: Step, k: Kind)
    ensures Count([s], k) == if s.kind == k then 1 else 0
  {
    assert [s][1..] == [];
  }

  /** Every step is of one of the five kinds. */
  lemma {:induction false} CountAll(steps: seq<Step>)
    ensures |steps| == Count(steps, Initial) + Count(steps, SelectKey) + Count(steps, Compare)
                       + Count(steps, Shift) + Count(steps, Insert)
  {
    if steps != [] {
      CountAll(steps[1..]);
    }
  }

  /** The gap depends only on the elements at or below j. */
  lemma {:induction false} GapFrame(w: seq<int>, v: seq<int>, j: int, key: int)
    requires -1 <= j < |w| && j < |v|
    requires forall t :: 0 <= t <= j ==> w[t] == v[t]
    ensures Gap(w, j, key) == Gap(v, j, key)
    decreases j + 1
  {
    if j >= 0 {
      GapFrame(w, v, j - 1, key);
    }
  }

  /** How many steps of kind k a pass records from a comparison on, when it
      moves m elements. */
  function ShiftTally(k: Kind, m: nat): nat
  {
    match k
    case Compare => m
    case Shift => m
    case Insert => 1
    case _ => 0
  }

  /** From position j on, a pass records one compare and one shift step for
      each element it moves, and one insert step. */
  lemma {:induction false} ShiftStepsCount(w: seq<int>, i: nat, j: int, key: int, k: Kind)
    requires -1 <= j < i < |w|
    ensures Count(ShiftSteps(w, i, j, key), k) == ShiftTally(k, j + 1 - Gap(w, j, key))
    decreases j + 1
  {
    if j >= 0 && w[j] > key {
      var shifted := w[j + 1 := w[j]];
      var c := Step(Compare, i, j, i, w);
      var sh := Step(Shift, i, j, i, shifted);
      var rest := ShiftSteps(shifted, i, j - 1, key);
      assert ShiftSteps(w, i, j, key) == [c] + ([sh] + rest);
      ShiftStepsCount(shifted, i, j - 1, key, k);
      GapFrame(shifted, w, j - 1, key);
      CountConcat([sh], rest, k);
      CountConcat([c], [sh] + rest, k);
      CountOne(c, k);
      CountOne(sh, k);
    } else {
      CountOne(Step(Insert, j + 1, -1, i + 1, w[j + 1 := key]), k);
    }
  }

  /** The number of elements passes i .. n-1 move one place right. */
  function Moves(a: seq<int>, i: nat): nat
    requires 1 <= i
    decreases |a| - i
  {
    if i >= |a| then 0 else (i - Gap(a, i - 1, a[i])) + Moves(Placed(a, i - 1, a[i]), i + 1)
  }

  /** How many steps of kind k passes record when they are `passes` many and
      move `moves` elements in all. */
  function SweepTally(k: Kind, passes: nat, moves: nat): nat
  {
    match k
    case SelectKey => passes
    case Insert => passes
    case Compare => moves
    case Shift => moves
    case Initial => 0
  }

  /** Pass i records one compare/shift pair for each of the consecutive
      elements just below position i that are greater than the key a[i]. */
  lemma PassCounts(a: seq<int>, i: nat)
    requires 1 <= i < |a|
    ensures var k := i - Gap(a, i - 1, a[i]);
            && Count(PassSteps(a, i), Compare) == Count(PassSteps(a, i), Shift) == k
            && (forall t :: i - k <= t < i ==> a[t] > a[i])
            && (k < i ==> a[i - k - 1] <= a[i])
  {
    var t := ShiftSteps(a, i, i - 1, a[i]);
    var first := Step(SelectKey, i, -1, i, a);
    ShiftStepsCount(a, i, i - 1, a[i], Compare);
    ShiftStepsCount(a, i, i - 1, a[i], Shift);
    GapStops(a, i - 1, a[i]);
    CountConcat([first], t, Compare);
    CountConcat([first], t, Shift);
  }

  lemma {:induction false} SweepCount(a: seq<int>, i: nat, k: Kind)
    requires 1 <= i
    ensures Count(Sweep(a, i), k) == SweepTally(k, if i < |a| then |a| - i else 0, Moves(a, i))
    decreases |a| - i
  {
    if i < |a| {
      var first := Step(SelectKey, i, -1, i, a);
      var tail := ShiftSteps(a, i, i - 1, a[i]);
      var rest := Sweep(Placed(a, i - 1, a[i]), i + 1);
      ShiftStepsCount(a, i, i - 1, a[i], k);
      SweepCount(Placed(a, i - 1, a[i]), i + 1, k);
      CountConcat([first], tail, k);
      CountConcat(PassSteps(a, i), rest, k);
    }
  }

  /** One initial step; one select-key and one insert step per position from
      1 on; one compare and one shift step per element moved, so the run has
      1 + 2 * (passes + compare steps) steps. */
  lemma RunCounts(input: seq<int>)
    ensures var t := Run(input); var passes := if |input| < 2 then 0 else |input| - 1;
            && Count(t, Initial) == 1
            && Count(t, SelectKey) == Count(t, Insert) == passes
            && Count(t, Compare) == Count(t, Shift) == Moves(input, 1)
            && |t| == 1 + 2 * passes + 2 * Count(t, Compare)
  {
    var first := Step(Initial, -1, -1, 1, input);
    var t := Sweep(input, 1);
    SweepCount(input, 1, Initial);
    SweepCount(input, 1, SelectKey);
    SweepCount(input, 1, Insert);
    SweepCount(input, 1, Compare);
    SweepCount(input, 1, Shift);
    CountConcat([first], t, Initial);
    CountConcat([first], t, SelectKey);
    CountConcat([first], t, Insert);
    CountConcat([first], t, Compare);
    CountConcat([first], t, Shift);
    CountAll(Run(input));
  }

  // ---------------------------------------------------------------------------
  // The sorted boundary only moves forward
  // ---------------------------------------------------------------------------

  ghost predicate Ascending(steps: seq<Step>)
  {
    forall k1, k2 :: 0 <= k1 <= k2 < |steps| ==> steps[k1].sortedUntil <= steps[k2].sortedUntil
  }

  lemma AscendingConcat(xs: seq<Step>, ys: seq<Step>, b: int)
    requires Ascending(xs) && Ascending(ys)
    requires forall s :: s in xs ==> s.sortedUntil <= b
    requires forall s :: s in ys ==> b <= s.sortedUntil
    ensures Ascending(xs + ys)
  {
    var t := xs + ys;
    forall k1, k2 | 0 <= k1 <= k2 < |t| ensures t[k1].sortedUntil <= t[k2].sortedUntil {
      if k1 < |xs| && |xs| <= k2 {
        assert t[k1] in xs && t[k2] == ys[k2 - |xs|] && ys[k2 - |xs|] in ys;
      } else if |xs| <= k1 {
        assert t[k1] == ys[k1 - |xs|] && t[k2] == ys[k2 - |xs|];
      }
    }
  }

  lemma {:induction false} ShiftStepsAscending(w: seq<int>, i: nat, j: int, key: int)
    requires -1 <= j < i < |w|
    ensures Ascending(ShiftSteps(w, i, j, key))
    ensures forall s :: s in ShiftSteps(w, i, j, key) ==> i <= s.sortedUntil <= i + 1
    decreases j + 1
  {
    if j >= 0 && w[j] > key {
      var shifted := w[j + 1 := w[j]];
      var sh := Step(Shift, i, j, i, shifted);
      var rest := ShiftSteps(shifted, i, j - 1, key);
      ShiftStepsAscending(shifted, i, j - 1, key);
      AscendingConcat([sh], rest, i);
      AscendingConcat([Step(Compare, i, j, i, w)], [sh] + rest, i);
    }
  }

  lemma {:induction false} SweepAscending(a: seq<int>, i: nat)
    requires 1 <= i
    ensures Ascending(Sweep(a, i))
    ensures forall s :: s in Sweep(a, i) ==> i <= s.sortedUntil <= |a|
    decreases |a| - i
  {
    if i < |a| {
      ShiftStepsAscending(a, i, i - 1, a[i]);
      AscendingConcat([Step(SelectKey, i, -1, i, a)], ShiftSteps(a, i, i - 1, a[i]), i);
      SweepAscending(Placed(a, i - 1, a[i]), i + 1);
      AscendingConcat(PassSteps(a, i), Sweep(Placed(a, i - 1, a[i]), i + 1), i + 1);
    }
  }

  /** sortedUntil starts at 1, never decreases along the run and never
      exceeds n (or 1 for the empty array). */
  lemma RunSortedUntil(input: seq<int>)
    ensures Ascending(Run(input))
    ensures forall s :: s in Run(input) ==> 1 <= s.sortedUntil <= if |input| == 0 then 1 else |input|
  {
    SweepAscending(input, 1);
    AscendingConcat([Step(Initial, -1, -1, 1, input)], Sweep(input, 1), 1);
  }

  // ---------------------------------------------------------------------------
  // Shifts
  // ---------------------------------------------------------------------------

  /** Step s2 shifts the element step s1 compared one place right. */
  ghost predicate ShiftOf(s1: Step, s2: Step)
  {
    && s1.kind == Compare && s2.currentIndex == s1.currentIndex && s2.compareIndex == s1.compareIndex
    && 0 <= s1.compareIndex && s1.compareIndex + 1 < |s1.snapshot|
    && s2.snapshot == s1.snapshot[s1.compareIndex + 1 := s1.snapshot[s1.compareIndex]]
  }

  /** Every shift step directly follows the compare step whose element it
      moves. */
  ghost predicate ShiftsFollow(steps: seq<Step>)
  {
    && (steps != [] ==> steps[0].kind != Shift)
    && forall k :: 1 <= k < |steps| && steps[k].kind == Shift ==> ShiftOf(steps[k - 1], steps[k])
  }

  lemma ShiftsFollowConcat(xs: seq<Step>, ys: seq<Step>)
    requires ShiftsFollow(xs) && ShiftsFollow(ys)
    ensures ShiftsFollow(xs + ys)
  {
    var t := xs + ys;
    forall k | 1 <= k < |t| && t[k].kind == Shift ensures ShiftOf(t[k - 1], t[k]) {
      if k < |xs| {
        assert t[k - 1] == xs[k - 1] && t[k] == xs[k];
      } else if k > |xs| {
        assert t[k - 1] == ys[k - 1 - |xs|] && t[k] == ys[k - |xs|];
      }
    }
  }

  lemma {:induction false} ShiftStepsFollow(w: seq<int>, i: nat, j: int, key: int)
    requires -1 <= j < i < |w|
    ensures ShiftsFollow(ShiftSteps(w, i, j, key))
    decreases j + 1
  {
    if j >= 0 && w[j] > key {
      var shifted := w[j + 1 := w[j]];
      var c := Step(Compare, i, j, i, w);
      var sh := Step(Shift, i, j, i, shifted);
      var rest := ShiftSteps(shifted, i, j - 1, key);
      ShiftStepsFollow(shifted, i, j - 1, key);
      ShiftsFollowConcat([c, sh], rest);
      assert [c] + ([sh] + rest) == [c, sh] + rest;
    }
  }

  lemma {:induction false} SweepShiftsFollow(a: seq<int>, i: nat)
    requires 1 <= i
    ensures ShiftsFollow(Sweep(a, i))
    decreases |a| - i
  {
    if i < |a| {
      ShiftStepsFollow(a, i, i - 1, a[i]);
      ShiftsFollowConcat([Step(SelectKey, i, -1, i, a)], ShiftSteps(a, i, i - 1, a[i]));
      SweepShiftsFollow(Placed(a, i - 1, a[i]), i + 1);
      ShiftsFollowConcat(PassSteps(a, i), Sweep(Placed(a, i - 1, a[i]), i + 1));
    }
  }

  /** In the whole run, every shift step directly follows the compare step of
      the same position and shows its array with that element copied one
      place right. */
  lemma RunShiftsFollow(input: seq<int>)
    ensures ShiftsFollow(Run(input))
  {
    SweepShiftsFollow(input, 1);
    ShiftsFollowConcat([Step(Initial, -1, -1, 1, input)], Sweep(input, 1));
  }

  /** The ends of a recorded run, as the playback controller uses them. */
  lemma RunEnds(steps: seq<Step>, input: seq<int>)
    requires steps == Run(input)
    ensures steps != [] && steps[0].snapshot == input
    ensures Sorted(steps[|steps| - 1].snapshot) && multiset(steps[|steps| - 1].snapshot) == multiset(input)
  {
    RunEndsSorted(input);
  }

  // ---------------------------------------------------------------------------
  // The diagram
  // ---------------------------------------------------------------------------

  /** One node per element: highlighted at currentIndex, comparing at
      compareIndex, sorted below sortedUntil. */
  function Nodes(values: seq<int>, currentIndex: int, compareIndex: int, sortedUntil: int): (r: seq<Node>)
    ensures |r| == |values|
    ensures forall k :: 0 <= k < |r| ==> r[k].id == k && r[k].value == values[k] && !r[k].target
  {
    seq(|values|, k requires 0 <= k < |values| =>
      Node(k, values[k], k == currentIndex, k == compareIndex, false, k < sortedUntil, false))
  }

  /** While any step of a run is shown, the nodes drawn as sorted hold values
      in ascending order. */
  lemma SortedNodesAscending(input: seq<int>, s: Step)
    requires s in Run(input)
    ensures var ns := Nodes(s.snapshot, s.currentIndex, s.compareIndex, s.sortedUntil);
            forall x, y :: 0 <= x < y < |ns| && ns[y].sorted ==> ns[x].value <= ns[y].value
  {
    RunFacts(input);
  }

  // ---------------------------------------------------------------------------
  // Playback
  // ---------------------------------------------------------------------------

  /** The component's state. Each handler is one atomic update in which a
      later assignment to a field overrides an earlier one. */
  class Visualizer {
    var values: seq<int>
    var currentIndex: int
    var compareIndex: int
    var sortedUntil: int
    var sorting: bool
    var steps: seq<Step>
    var currentStep: int
    /** The array the current steps were generated from. */
    ghost var source: seq<int>

    /** No steps, or the steps generated from `source`; the cursor is on one
        of them or before the first. */
    ghost predicate Valid()
      reads this
    {
      (steps == [] || steps == Run(source)) && -1 <= currentStep < |steps|
    }

    /** The render fields show step s; compareIndex is copied for compare and
        shift steps only. */
    ghost predicate Shows(s: Step)
      reads this
    {
      && values == s.snapshot && currentIndex == s.currentIndex && sortedUntil == s.sortedUntil
      && compareIndex == (if s.kind == Compare || s.kind == Shift then s.compareIndex else -1)
    }

    /** What the component draws. */
    function View(): seq<Node>
      reads this
    {
      Nodes(values, currentIndex, compareIndex, sortedUntil)
    }

    constructor()
      ensures Valid() && values == DefaultArray && steps == [] && currentStep == -1 && !sorting
      ensures currentIndex == -1 && compareIndex == -1 && sortedUntil == 0
    {
      values := DefaultArray;
      currentIndex, compareIndex, sortedUntil := -1, -1, 0;
      sorting := false;
      steps, currentStep := [], -1;
      source := [];
    }

    /** Sort: ignored while a run is in progress; otherwise generates the steps
        for the current array and puts the cursor before the first. */
    method Sort()
      requires Valid()
      modifies this
      ensures Valid()
      ensures old(sorting) ==> unchanged(this)
      ensures !old(sorting) ==> sorting && source == old(values) && steps == Run(old(values)) && currentStep == -1
      ensures values == old(values) && currentIndex == old(currentIndex) && compareIndex == old(compareIndex)
      ensures sortedUntil == old(sortedUntil)
    {
      if sorting {
        return;
      }
      sorting := true;
      steps := GenerateSteps(values);
      source := values;
      currentStep := -1;
    }

    /** Copies step s into the render fields. */
    method Show(s: Step)
      modifies this
      ensures Shows(s)
      ensures steps == old(steps) && source == old(source) && currentStep == old(currentStep) && sorting == old(sorting)
    {
      currentIndex, sortedUntil, values := s.currentIndex, s.sortedUntil, s.snapshot;
      compareIndex := if s.kind == Compare || s.kind == Shift then s.compareIndex else -1;
    }

    /** The end of a run: no index marked, the first n positions drawn sorted,
        the run no longer in progress. */
    method Finish(n: int)
      modifies this
      ensures currentIndex == -1 && compareIndex == -1 && sortedUntil == n && !sorting
      ensures values == old(values) && steps == old(steps) && source == old(source) && currentStep == old(currentStep)
    {
      currentIndex, compareIndex := -1, -1;
      sortedUntil := n;
      sorting := false;
    }

    /** Back to before the first step: no index marked, nothing drawn sorted,
        the array `first` shown. */
    method Rewind(first: seq<int>)
      modifies this
      ensures currentStep == -1 && currentIndex == -1 && compareIndex == -1 && sortedUntil == 0
      ensures values == first && steps == old(steps) && source == old(source) && sorting == old(sorting)
    {
      currentStep := -1;
      currentIndex, compareIndex := -1, -1;
      sortedUntil := 0;
      values := first;
    }

    /** Next: shows the following step. The click that lands on the last step
        then clears both indices, marks the whole array (of the length it had
        before the click) sorted and ends the run; the array it shows is the
        input sorted. */
    method Next()
      requires Valid()
      modifies this
      ensures Valid() && steps == old(steps) && source == old(source)
      ensures old(currentStep) >= |steps| - 1 ==> unchanged(this)
      ensures old(currentStep) < |steps| - 1 ==> currentStep == old(currentStep) + 1
      ensures old(currentStep) < |steps| - 2 ==> Shows(steps[currentStep]) && sorting == old(sorting)
      ensures old(currentStep) == |steps| - 2 ==>
                && values == steps[currentStep].snapshot && !sorting
                && currentIndex == -1 && compareIndex == -1 && sortedUntil == |old(values)|
                && Sorted(values) && multiset(values) == multiset(source)
    {
      var n := |values|;
      var cur := currentStep;
      if currentStep < |steps| - 1 {
        currentStep := currentStep + 1;
        Show(steps[currentStep]);
      }
      if cur == |steps| - 2 {
        Finish(n);
        RunEnds(steps, source);
      }
    }

    /** Previous: shows the preceding step; from the first step it returns to
        the state before the run, showing the array the steps start from. */
    method Previous()
      requires Valid()
      modifies this
      ensures Valid() && steps == old(steps) && source == old(source) && sorting == old(sorting)
      ensures old(currentStep) == -1 ==> unchanged(this)
      ensures old(currentStep) > 0 ==> currentStep == old(currentStep) - 1 && Shows(steps[currentStep])
      ensures old(currentStep) == 0 ==>
                && currentStep == -1 && values == source
                && currentIndex == -1 && compareIndex == -1 && sortedUntil == 0
    {
      if currentStep > 0 {
        currentStep := currentStep - 1;
        Show(steps[currentStep]);
      } else if currentStep == 0 {
        RunEnds(steps, source);
        Rewind(steps[0].snapshot);
      }
    }

    /** Add: appends the entered number, unless the field is blank or a run is
        in progress. */
    method Add(x: Input)
      requires Valid()
      modifies this
      ensures Valid()
      ensures x.Entered? && !old(sorting) ==> values == old(values) + [x.value]
      ensures !(x.Entered? && !old(sorting)) ==> values == old(values)
      ensures steps == old(steps) && source == old(source) && currentStep == old(currentStep) && sorting == old(sorting)
      ensures currentIndex == old(currentIndex) && compareIndex == old(compareIndex) && sortedUntil == old(sortedUntil)
    {
      if x.Entered? && !sorting {
        values := values + [x.value];
      }
    }

    /** Reset: back to the default array with no steps and no run. */
    method Reset()
      requires Valid()
      modifies this
      ensures Valid() && values == DefaultArray && steps == [] && currentStep == -1 && !sorting
      ensures currentIndex == -1 && compareIndex == -1 && sortedUntil == 0
    {
      values := DefaultArray;
      currentIndex, compareIndex, sortedUntil := -1, -1, 0;
      steps, currentStep := [], -1;
      sorting := false;
    }
  }
}
