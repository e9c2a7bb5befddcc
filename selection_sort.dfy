/** The selection sort visualizer: the step generator, which runs selection sort
    on a copy of the array and records a snapshot at every comparison and
    exchange, and the playback controller that replays those steps. */
module SelectionSort {
  import opened Common

  datatype Kind = StartPass | Compare | NewMin | Swap | NoSwap

  /** One recorded step. The source sets compareIndex on compare steps only;
      here the other kinds hold -1 there. `snapshot` is the whole array as the
      step leaves it (the source calls it `array`). */
  datatype Step = Step(kind: Kind, currentIndex: int, compareIndex: int, minIndex: int,
                       sortedUntil: int, snapshot: seq<int>)

  // ---------------------------------------------------------------------------
  // The run the generator records, as a recursive definition
  // ---------------------------------------------------------------------------

  /** The step closing pass i once m is the position of the pass's minimum:
      an exchange of positions i and m, or a record that none is needed. */
  function Closing(a: seq<int>, i: nat, m: nat): (r: Step)
    requires i < |a| && m < |a|
    ensures r.currentIndex == i && r.minIndex == m && r.sortedUntil == i + 1
    ensures |r.snapshot| == |a| && multiset(r.snapshot) == multiset(a)
    ensures r.kind == Swap || r.kind == NoSwap
  {
    if m != i then Step(Swap, i, -1, m, i + 1, Exchanged(a, i, m))
    else Step(NoSwap, i, -1, m, i + 1, a)
  }

  /** Where the running minimum ends up once positions j .. |a|-1 have been
      compared with it, starting from position m. */
  function MinFrom(a: seq<int>, j: nat, m: nat): (r: nat)
    requires m < |a|
    ensures r < |a|
    ensures r == m || j <= r
    decreases |a| - j
  {
    if j >= |a| then m
    else MinFrom(a, j + 1, if a[j] < a[m] then j else m)
  }

  /** The steps pass i records from the comparison of position j onwards, when
      m is the running minimum: a compare step per position, a new-minimum step
      after each comparison that finds a smaller element, then the closing
      step. */
  function PassTail(a: seq<int>, i: nat, j: nat, m: nat): seq<Step>
    requires i <= m < |a| && i <= j
    decreases |a| - j
  {
    if j >= |a| then [Closing(a, i, m)]
    else
      var c := Step(Compare, i, j, m, i, a);
      if a[j] < a[m] then [c] + ([Step(NewMin, i, -1, j, i, a)] + PassTail(a, i, j + 1, j))
      else [c] + PassTail(a, i, j + 1, m)
  }

  /** The array after pass i. */
  function AfterPass(a: seq<int>, i: nat): seq<int>
    requires i < |a|
  {
    Closing(a, i, MinFrom(a, i + 1, i)).snapshot
  }

  /** The steps of pass i over the array a. */
  function PassSteps(a: seq<int>, i: nat): seq<Step>
    requires i < |a|
  {
    [Step(StartPass, i, -1, i, i, a)] + PassTail(a, i, i + 1, i)
  }

  /** The steps of passes i, i+1, ..., n-2 over the array a. */
  function Sweep(a: seq<int>, i: nat): seq<Step>
    decreases |a| - i
  {
    if i + 1 >= |a| then []
    else PassSteps(a, i) + Sweep(AfterPass(a, i), i + 1)
  }

  /** The steps generated for the array `input`. */
  function Run(input: seq<int>): seq<Step>
  {
    Sweep(input, 0)
  }

  // ---------------------------------------------------------------------------
  // The generator
  // ---------------------------------------------------------------------------

  /** The inner loop of pass i: records the start of the pass and every
      comparison and new minimum, and finds the first smallest element of
      a[i..]. The array is not changed. */
  method ScanPass(a: array<int>, i: nat) returns (minIdx: nat, recorded: seq<Step>)
    requires i < a.Length - 1
    ensures minIdx == MinFrom(a[..], i + 1, i)
    ensures recorded + [Closing(a[..], i, minIdx)] == PassSteps(a[..], i)
  {
    ghost var s := a[..];
    minIdx := i;
    recorded := [Step(StartPass, i, -1, minIdx, i, a[..])];
    for j := i + 1 to a.Length
      invariant i <= minIdx < a.Length
      invariant MinFrom(s, j, minIdx) == MinFrom(s, i + 1, i)
      invariant recorded + PassTail(s, i, j, minIdx) == PassSteps(s, i)
    {
      ghost var before := recorded;
      var c := Step(Compare, i, j, minIdx, i, a[..]);
      recorded := recorded + [c];
      if a[j] < a[minIdx] {
        minIdx := j;
        var found := Step(NewMin, i, -1, minIdx, i, a[..]);
        recorded := recorded + [found];
        Assoc(before, [c], [found] + PassTail(s, i, j + 1, j));
        Assoc(before + [c], [found], PassTail(s, i, j + 1, j));
      } else {
        Assoc(before, [c], PassTail(s, i, j + 1, minIdx));
      }
    }
  }

  /** Pass i of the outer loop: the scan, then the exchange of the minimum
      into position i (or the record that it is already there). */
  method Pass(a: array<int>, i: nat) returns (recorded: seq<Step>)
    requires i < a.Length - 1
    modifies a
    ensures recorded == PassSteps(old(a[..]), i)
    ensures a[..] == AfterPass(old(a[..]), i)
  {
    ghost var start := a[..];
    var minIdx;
    minIdx, recorded := ScanPass(a, i);
    if minIdx != i {
      a[i], a[minIdx] := a[minIdx], a[i];
      assert a[..] == Exchanged(start, i, minIdx);
      recorded := recorded + [Step(Swap, i, -1, minIdx, i + 1, a[..])];
    } else {
      recorded := recorded + [Step(NoSwap, i, -1, minIdx, i + 1, a[..])];
    }
  }

  /** Runs selection sort on a copy of the array, recording a step at the
      start of every pass, at every comparison, at every new minimum and at
      the exchange (or non-exchange) closing the pass. */
  method GenerateSteps(input: seq<int>) returns (steps: seq<Step>)
    ensures steps == Run(input)
  {
    var a := new int[|input|](k requires 0 <= k < |input| => input[k]);
    assert a[..] == input;
    steps := [];
    var i := 0;
    while i < a.Length - 1
      invariant i <= a.Length
      invariant steps + Sweep(a[..], i) == Run(input)
    {
      ghost var start := a[..];
      var recorded := Pass(a, i);
      Assoc(steps, recorded, Sweep(a[..], i + 1));
      steps := steps + recorded;
      i := i + 1;
    }
    assert steps + [] == steps;
  }

  // ---------------------------------------------------------------------------
  // What the run guarantees
  // ---------------------------------------------------------------------------

  /** The first `m` elements are ascending and none exceeds an element after them. */
  ghost predicate Settled(a: seq<int>, m: int)
  {
    && 0 <= m <= |a|
    && (forall x, y :: 0 <= x < y < m ==> a[x] <= a[y])
    && (forall x, y :: 0 <= x < m <= y < |a| ==> a[x] <= a[y])
  }

  /** Position m holds the first smallest element of a[lo..hi). */
  ghost predicate FirstMin(a: seq<int>, lo: int, hi: int, m: int)
  {
    && 0 <= lo <= m < hi <= |a|
    && (forall t :: lo <= t < hi ==> a[m] <= a[t])
    && (forall t :: lo <= t < m ==> a[m] < a[t])
  }

  /** What every step of a run on `input` satisfies: its snapshot is a
      permutation of the input whose first sortedUntil elements are settled,
      sortedUntil is i in the steps of pass i before its exchange and i+1 from
      the exchange on, and the running minimum is the first smallest element
      of the part of the pass examined so far. */
  ghost predicate StepFacts(s: Step, input: seq<int>)
  {
    var n := |input|;
    && |s.snapshot| == n
    && multiset(s.snapshot) == multiset(input)
    && 0 <= s.currentIndex < n - 1
    && Settled(s.snapshot, s.sortedUntil)
    && match s.kind
       case StartPass =>
         s.compareIndex == -1 && s.minIndex == s.currentIndex && s.sortedUntil == s.currentIndex
       case Compare =>
         && s.currentIndex < s.compareIndex < n && s.sortedUntil == s.currentIndex
         && FirstMin(s.snapshot, s.currentIndex, s.compareIndex, s.minIndex)
       case NewMin =>
         && s.compareIndex == -1 && s.sortedUntil == s.currentIndex && s.currentIndex < s.minIndex
         && FirstMin(s.snapshot, s.currentIndex, s.minIndex + 1, s.minIndex)
       case Swap =>
         s.compareIndex == -1 && s.sortedUntil == s.currentIndex + 1 && s.currentIndex < s.minIndex < n
       case NoSwap =>
         s.compareIndex == -1 && s.sortedUntil == s.currentIndex + 1 && s.minIndex == s.currentIndex
  }

  /** The strict comparison keeps the first smallest element: the running
      minimum ends at the first smallest element of the whole of a[i..]. */
  lemma {:induction false} MinFromFinds(a: seq<int>, i: nat, j: nat, m: nat)
    requires i < j <= |a| && FirstMin(a, i, j, m)
    ensures FirstMin(a, i, |a|, MinFrom(a, j, m))
    decreases |a| - j
  {
    if j < |a| {
      if a[j] < a[m] {
        MinFromFinds(a, i, j + 1, j);
      } else {
        MinFromFinds(a, i, j + 1, m);
      }
    }
  }

  /** Exchanging the first minimum of the unsettled part into position i
      settles one more element. */
  lemma SwapMinSettles(a: seq<int>, i: nat, m: nat)
    requires Settled(a, i) && FirstMin(a, i, |a|, m)
    ensures Settled(Closing(a, i, m).snapshot, i + 1)
  {
    var b := Closing(a, i, m).snapshot;
    forall x, y | 0 <= x < i + 1 <= y < |b| ensures b[x] <= b[y] {
      if y == m { assert b[y] == a[i]; }
      if x < i { assert b[x] == a[x]; }
    }
  }

  /** The compare step at position j, and the new-minimum step it may lead to. */
  lemma ScanStepFacts(a: seq<int>, input: seq<int>, i: nat, j: nat, m: nat)
    requires |a| == |input| && multiset(a) == multiset(input) && i < |a| - 1
    requires Settled(a, i) && i < j < |a| && FirstMin(a, i, j, m)
    ensures StepFacts(Step(Compare, i, j, m, i, a), input)
    ensures a[j] < a[m] ==> FirstMin(a, i, j + 1, j) && StepFacts(Step(NewMin, i, -1, j, i, a), input)
    ensures a[j] >= a[m] ==> FirstMin(a, i, j + 1, m)
  {
  }

  /** The step closing pass i once m is the first smallest element of a[i..]. */
  lemma ClosingFacts(a: seq<int>, input: seq<int>, i: nat, m: nat)
    requires |a| == |input| && multiset(a) == multiset(input) && i < |a| - 1
    requires Settled(a, i) && FirstMin(a, i, |a|, m)
    ensures StepFacts(Closing(a, i, m), input)
  {
    SwapMinSettles(a, i, m);
  }

  lemma {:induction false} PassTailFacts(a: seq<int>, input: seq<int>, i: nat, j: nat, m: nat)
    requires |a| == |input| && multiset(a) == multiset(input) && i < |a| - 1
    requires Settled(a, i) && i < j <= |a| && FirstMin(a, i, j, m)
    ensures forall s :: s in PassTail(a, i, j, m) ==> StepFacts(s, input)
    decreases |a| - j
  {
    if j == |a| {
      ClosingFacts(a, input, i, m);
    } else {
      ScanStepFacts(a, input, i, j, m);
      if a[j] < a[m] {
        PassTailFacts(a, input, i, j + 1, j);
      } else {
        PassTailFacts(a, input, i, j + 1, m);
      }
    }
  }

  lemma {:induction false} SweepFacts(a: seq<int>, input: seq<int>, i: nat)
    requires |a| == |input| && multiset(a) == multiset(input) && Settled(a, i)
    ensures forall s :: s in Sweep(a, i) ==> StepFacts(s, input)
    decreases |a| - i
  {
    if i + 1 < |a| {
      var m := MinFrom(a, i + 1, i);
      PassTailFacts(a, input, i, i + 1, i);
      MinFromFinds(a, i, i + 1, i);
      SwapMinSettles(a, i, m);
      SweepFacts(AfterPass(a, i), input, i + 1);
    }
  }

  /** Every step of the run satisfies StepFacts: in particular every snapshot
      is a permutation of the input and its settled prefix is sorted. */
  lemma RunFacts(input: seq<int>)
    ensures forall s :: s in Run(input) ==> StepFacts(s, input)
  {
    SweepFacts(input, input, 0);
  }

  /** The last step of a pass is its closing step. */
  lemma {:induction false} PassTailLast(a: seq<int>, i: nat, j: nat, m: nat)
    requires i <= m < |a| && i <= j
    ensures var t := PassTail(a, i, j, m); t != [] && t[|t| - 1] == Closing(a, i, MinFrom(a, j, m))
    decreases |a| - j
  {
    if j < |a| {
      if a[j] < a[m] {
        PassTailLast(a, i, j + 1, j);
      } else {
        PassTailLast(a, i, j + 1, m);
      }
    }
  }

  /** The last step of passes i .. n-2 closes pass n-2. */
  lemma {:induction false} SweepLast(a: seq<int>, i: nat)
    requires i + 1 < |a|
    ensures var t := Sweep(a, i);
            t != [] && t[|t| - 1].currentIndex == |a| - 2 && t[|t| - 1].sortedUntil == |a| - 1
    decreases |a| - i
  {
    PassTailLast(a, i, i + 1, i);
    if i + 2 < |a| {
      SweepLast(AfterPass(a, i), i + 1);
    } else {
      assert Sweep(a, i) == PassSteps(a, i) + [];
    }
  }

  /** Settling all but the last element sorts the array. */
  lemma SettledSorted(a: seq<int>)
    requires |a| >= 1 && Settled(a, |a| - 1)
    ensures Sorted(a)
  {
  }

  /** The run is empty exactly for arrays of fewer than two elements;
      otherwise it starts a pass at position 0 on the unchanged input and its
      last snapshot is the input sorted ascending. */
  lemma RunEndsSorted(input: seq<int>)
    ensures Run(input) == [] <==> |input| < 2
    ensures Run(input) != [] ==> Run(input)[0] == Step(StartPass, 0, -1, 0, 0, input)
    ensures Run(input) != [] ==>
              var last := Run(input)[|Run(input)| - 1];
              Sorted(last.snapshot) && multiset(last.snapshot) == multiset(input)
  {
    if |input| >= 2 {
      SweepLast(input, 0);
      RunFacts(input);
      var last := Run(input)[|Run(input)| - 1];
      assert last in Run(input);
      SettledSorted(last.snapshot);
    }
  }

  // ---------------------------------------------------------------------------
  // Which step follows which
  // ---------------------------------------------------------------------------

  /** A compare step whose compared element is strictly below the running
      minimum. */
  ghost predicate FindsSmaller(s: Step)
  {
    && s.kind == Compare
    && 0 <= s.compareIndex < |s.snapshot| && 0 <= s.minIndex < |s.snapshot|
    && s.snapshot[s.compareIndex] < s.snapshot[s.minIndex]
  }

  /** A new-minimum step comes exactly after each compare step that finds a
      smaller element, takes the compared position as the new minimum, and
      shows the same array. */
  ghost predicate MinsFollow(steps: seq<Step>)
  {
    && (forall k :: 0 <= k < |steps| ==>
          (steps[k].kind == NewMin <==> 0 < k && FindsSmaller(steps[k - 1])))
    && (forall k :: 0 < k < |steps| && steps[k].kind == NewMin ==>
          steps[k].minIndex == steps[k - 1].compareIndex && steps[k].snapshot == steps[k - 1].snapshot)
  }

  lemma MinsFollowConcat(xs: seq<Step>, ys: seq<Step>)
    requires MinsFollow(xs) && MinsFollow(ys)
    requires xs != [] ==> !FindsSmaller(xs[|xs| - 1])
    ensures MinsFollow(xs + ys)
  {
    var t := xs + ys;
    forall k | 0 <= k < |t|
      ensures t[k].kind == NewMin <==> 0 < k && FindsSmaller(t[k - 1])
      ensures 0 < k && t[k].kind == NewMin ==>
                t[k].minIndex == t[k - 1].compareIndex && t[k].snapshot == t[k - 1].snapshot
    {
      if k < |xs| {
        assert t[k] == xs[k];
        if 0 < k { assert t[k - 1] == xs[k - 1]; }
      } else if k == |xs| {
        assert t[k] == ys[0];
        if 0 < k { assert t[k - 1] == xs[|xs| - 1]; }
      } else {
        assert t[k] == ys[k - |xs|] && t[k - 1] == ys[k - 1 - |xs|];
      }
    }
  }

  lemma {:induction false} PassTailMinsFollow(a: seq<int>, i: nat, j: nat, m: nat)
    requires i <= m < |a| && i <= j
    ensures MinsFollow(PassTail(a, i, j, m))
    decreases |a| - j
  {
    if j >= |a| {
      assert MinsFollow([Closing(a, i, m)]);
    } else {
      var c := Step(Compare, i, j, m, i, a);
      if a[j] < a[m] {
        var found := Step(NewMin, i, -1, j, i, a);
        PassTailMinsFollow(a, i, j + 1, j);
        assert [c] + [found] == [c, found];
        assert MinsFollow([c, found]);
        MinsFollowConcat([c, found], PassTail(a, i, j + 1, j));
        assert [c] + ([found] + PassTail(a, i, j + 1, j)) == [c, found] + PassTail(a, i, j + 1, j);
      } else {
        PassTailMinsFollow(a, i, j + 1, m);
        assert MinsFollow([c]);
        MinsFollowConcat([c], PassTail(a, i, j + 1, m));
      }
    }
  }

  lemma {:induction false} SweepMinsFollow(a: seq<int>, i: nat)
    ensures MinsFollow(Sweep(a, i))
    decreases |a| - i
  {
    if i + 1 < |a| {
      var start := Step(StartPass, i, -1, i, i, a);
      assert MinsFollow([start]);
      PassTailMinsFollow(a, i, i + 1, i);
      MinsFollowConcat([start], PassTail(a, i, i + 1, i));
      PassTailLast(a, i, i + 1, i);
      SweepMinsFollow(AfterPass(a, i), i + 1);
      var p := PassSteps(a, i);
      assert p[|p| - 1] == Closing(a, i, MinFrom(a, i + 1, i));
      MinsFollowConcat(p, Sweep(AfterPass(a, i), i + 1));
    }
  }

  /** In the whole run a new-minimum step comes exactly after each compare
      step whose element is strictly below the running minimum (so equal
      elements never replace it), and records the compared position as the
      new minimum. */
  lemma RunMinsFollow(input: seq<int>)
    ensures MinsFollow(Run(input))
  {
    SweepMinsFollow(input, 0);
  }

  // ---------------------------------------------------------------------------
  // How many steps of each kind
  // ---------------------------------------------------------------------------

  function Count(steps: seq<Step>, k: Kind): (c: nat)
    ensures c <= |steps|
  {
    if steps == [] then 0 else (if steps[0].kind == k then 1 else 0) + Count(steps[1..], k)
  }

  lemma {:induction false} CountConcat(xs: seq<Step>, ys: seq<Step>, k: Kind)
    ensures Count(xs + ys, k) == Count(xs, k) + Count(ys, k)
  {
    if xs == [] {
      assert xs + ys == ys;
    } else {
      assert (xs + ys)[1..] == xs[1..] + ys;
      CountConcat(xs[1..], ys, k);
    }
  }

  /** Counting over a sequence that starts with one given step. */
  lemma CountCons(x: Step, ys: seq<Step>)
    ensures forall k :: Count([x] + ys, k) == (if x.kind == k then 1 else 0) + Count(ys, k)
  {
    assert ([x] + ys)[0] == x && ([x] + ys)[1..] == ys;
  }

  /** From position j on, pass i records one compare step per remaining
      position and exactly one closing step. */
  lemma {:induction false} PassTailCounts(a: seq<int>, i: nat, j: nat, m: nat)
    requires i <= m < |a| && i <= j <= |a|
    ensures Count(PassTail(a, i, j, m), Compare) == |a| - j
    ensures Count(PassTail(a, i, j, m), StartPass) == 0
    ensures Count(PassTail(a, i, j, m), Swap) + Count(PassTail(a, i, j, m), NoSwap) == 1
    decreases |a| - j
  {
    if j == |a| {
      CountCons(Closing(a, i, m), []);
    } else if a[j] < a[m] {
      var c, n := Step(Compare, i, j, m, i, a), Step(NewMin, i, -1, j, i, a);
      var rest := PassTail(a, i, j + 1, j);
      assert PassTail(a, i, j, m) == [c] + ([n] + rest);
      PassTailCounts(a, i, j + 1, j);
      CountCons(n, rest);
      CountCons(c, [n] + rest);
    } else {
      var c := Step(Compare, i, j, m, i, a);
      var rest := PassTail(a, i, j + 1, m);
      assert PassTail(a, i, j, m) == [c] + rest;
      PassTailCounts(a, i, j + 1, m);
      CountCons(c, rest);
    }
  }

  /** Passes i .. n-2 are not yet made once i passes are done. */
  function PassesLeft(n: int, i: nat): nat
  {
    if i + 1 >= n then 0 else n - 1 - i
  }

  lemma {:induction false} SweepCounts(a: seq<int>, i: nat)
    requires i <= |a|
    ensures Count(Sweep(a, i), StartPass) == PassesLeft(|a|, i)
    ensures Count(Sweep(a, i), Swap) + Count(Sweep(a, i), NoSwap) == PassesLeft(|a|, i)
    ensures Count(Sweep(a, i), Compare) == ComparesFrom(|a|, i)
    decreases |a| - i
  {
    if i + 1 < |a| {
      var first := Step(StartPass, i, -1, i, i, a);
      var tail := PassTail(a, i, i + 1, i);
      var rest := Sweep(AfterPass(a, i), i + 1);
      PassTailCounts(a, i, i + 1, i);
      SweepCounts(AfterPass(a, i), i + 1);
      CountConcat([first], tail, StartPass);
      CountConcat([first], tail, Swap);
      CountConcat([first], tail, NoSwap);
      CountConcat([first], tail, Compare);
      CountConcat(PassSteps(a, i), rest, StartPass);
      CountConcat(PassSteps(a, i), rest, Swap);
      CountConcat(PassSteps(a, i), rest, NoSwap);
      CountConcat(PassSteps(a, i), rest, Compare);
      assert |AfterPass(a, i)| == |a|;
    }
  }

  /** The step count is predictable: n-1 passes for n >= 2 elements, each
      with one start and one closing step, and n(n-1)/2 comparisons in all. */
  lemma RunCounts(input: seq<int>)
    ensures Count(Run(input), StartPass) == (if |input| < 2 then 0 else |input| - 1)
    ensures Count(Run(input), Swap) + Count(Run(input), NoSwap) == (if |input| < 2 then 0 else |input| - 1)
    ensures 2 * Count(Run(input), Compare) == |input| * (|input| - 1)
  {
    var n := |input|;
    SweepCounts(input, 0);
    ComparesFromTotal(n, 0);
    assert Count(Run(input), Compare) == ComparesFrom(n, 0);
    assert (n - 0) * (n - 0 - 1) == n * (n - 1);
  }

  // ---------------------------------------------------------------------------
  // The sorted boundary only moves forward
  // ---------------------------------------------------------------------------

  ghost predicate Ascending(steps: seq<Step>)
  {
    forall k1, k2 :: 0 <= k1 <= k2 < |steps| ==> steps[k1].sortedUntil <= steps[k2].sortedUntil
  }

  lemma AscendingConcat(xs: seq<Step>, ys: seq<Step>, b: int)
    requires Ascending(xs) && Ascending(ys)
    requires forall s :: s in xs ==> s.sortedUntil <= b
    requires forall s :: s in ys ==> b <= s.sortedUntil
    ensures Ascending(xs + ys)
  {
    var t := xs + ys;
    forall k1, k2 | 0 <= k1 <= k2 < |t| ensures t[k1].sortedUntil <= t[k2].sortedUntil {
      if k1 < |xs| && |xs| <= k2 {
        assert t[k1] in xs && t[k2] == ys[k2 - |xs|] && ys[k2 - |xs|] in ys;
      } else if |xs| <= k1 {
        assert t[k1] == ys[k1 - |xs|] && t[k2] == ys[k2 - |xs|];
      }
    }
  }

  lemma {:induction false} PassTailAscending(a: seq<int>, i: nat, j: nat, m: nat)
    requires i <= m < |a| && i <= j
    ensures Ascending(PassTail(a, i, j, m))
    ensures forall s :: s in PassTail(a, i, j, m) ==> i <= s.sortedUntil <= i + 1
    decreases |a| - j
  {
    if j < |a| {
      var c := Step(Compare, i, j, m, i, a);
      if a[j] < a[m] {
        var found := Step(NewMin, i, -1, j, i, a);
        PassTailAscending(a, i, j + 1, j);
        AscendingConcat([found], PassTail(a, i, j + 1, j), i);
        AscendingConcat([c], [found] + PassTail(a, i, j + 1, j), i);
      } else {
        PassTailAscending(a, i, j + 1, m);
        AscendingConcat([c], PassTail(a, i, j + 1, m), i);
      }
    }
  }

  lemma {:induction false} SweepAscending(a: seq<int>, i: nat)
    ensures Ascending(Sweep(a, i))
    ensures forall s :: s in Sweep(a, i) ==> i <= s.sortedUntil
    decreases |a| - i
  {
    if i + 1 < |a| {
      PassTailAscending(a, i, i + 1, i);
      AscendingConcat([Step(StartPass, i, -1, i, i, a)], PassTail(a, i, i + 1, i), i);
      SweepAscending(AfterPass(a, i), i + 1);
      AscendingConcat(PassSteps(a, i), Sweep(AfterPass(a, i), i + 1), i + 1);
    }
  }

  /** sortedUntil never decreases along the run and never exceeds n-1. */
  lemma RunSortedUntil(input: seq<int>)
    ensures Ascending(Run(input))
    ensures forall s :: s in Run(input) ==> 0 <= s.sortedUntil <= |input| - 1
  {
    SweepAscending(input, 0);
    RunFacts(input);
  }

  /** The ends of a recorded run, as the playback controller uses them. */
  lemma RunEnds(steps: seq<Step>, input: seq<int>)
    requires steps == Run(input) && steps != []
    ensures steps[0].snapshot == input
    ensures Sorted(steps[|steps| - 1].snapshot) && multiset(steps[|steps| - 1].snapshot) == multiset(input)
  {
    RunEndsSorted(input);
  }

  // ---------------------------------------------------------------------------
  // The diagram
  // ---------------------------------------------------------------------------

  /** One node per element: highlighted at currentIndex, comparing at
      compareIndex, the target at minIndex, sorted below sortedUntil. */
  function Nodes(values: seq<int>, currentIndex: int, compareIndex: int, minIndex: int, sortedUntil: int): (r: seq<Node>)
    ensures |r| == |values|
    ensures forall k :: 0 <= k < |r| ==> r[k].id == k && r[k].value == values[k]
  {
    seq(|values|, k requires 0 <= k < |values| =>
      Node(k, values[k], k == currentIndex, k == compareIndex, k == minIndex, k < sortedUntil, false))
  }

  /** While a step is shown, the nodes drawn as sorted hold the smallest
      elements in ascending order. */
  lemma SortedNodesSettled(input: seq<int>, s: Step)
    requires s in Run(input)
    ensures var ns := Nodes(s.snapshot, s.currentIndex, if s.kind == Compare then s.compareIndex else -1,
                            s.minIndex, s.sortedUntil);
            forall x, y :: 0 <= x < y < |ns| && ns[x].sorted ==> ns[x].value <= ns[y].value
  {
    RunFacts(input);
  }

  /** Once the run is finished every node is drawn sorted and none is marked. */
  lemma FinishedNodes(values: seq<int>)
    ensures forall nd :: nd in Nodes(values, -1, -1, -1, |values|) ==>
              nd.sorted && !nd.highlighted && !nd.comparing && !nd.target
  {
  }

  // ---------------------------------------------------------------------------
  // Playback
  // ---------------------------------------------------------------------------

  /** The component's state. Each handler is one atomic update in which a
      later assignment to a field overrides an earlier one. */
  class Visualizer {
    var values: seq<int>
    var currentIndex: int
    var compareIndex: int
    var minIndex: int
    var sortedUntil: int
    var sorting: bool
    var steps: seq<Step>
    var currentStep: int
    /** The array the current steps were generated from. */
    ghost var source: seq<int>

    ghost predicate Valid()
      reads this
    {
      steps == Run(source) && -1 <= currentStep < |steps|
    }

    /** The render fields show step s; compareIndex is copied for compare
        steps only. */
    ghost predicate Shows(s: Step)
      reads this
    {
      && values == s.snapshot && currentIndex == s.currentIndex && minIndex == s.minIndex
      && sortedUntil == s.sortedUntil && compareIndex == (if s.kind == Compare then s.compareIndex else -1)
    }

    /** What the component draws. */
    function View(): seq<Node>
      reads this
    {
      Nodes(values, currentIndex, compareIndex, minIndex, sortedUntil)
    }

    constructor()
      ensures Valid() && values == DefaultArray && steps == [] && currentStep == -1 && !sorting
      ensures currentIndex == -1 && compareIndex == -1 && minIndex == -1 && sortedUntil == 0
    {
      values := DefaultArray;
      currentIndex, compareIndex, minIndex, sortedUntil := -1, -1, -1, 0;
      sorting := false;
      steps, currentStep := [], -1;
      source := [];
    }

    /** Sort: ignored while a run is in progress; otherwise generates the steps
        for the current array and puts the cursor before the first. */
    method Sort()
      requires Valid()
      modifies this
      ensures Valid()
      ensures old(sorting) ==> unchanged(this)
      ensures !old(sorting) ==> sorting && source == old(values) && steps == Run(old(values)) && currentStep == -1
      ensures values == old(values) && currentIndex == old(currentIndex) && compareIndex == old(compareIndex)
      ensures minIndex == old(minIndex) && sortedUntil == old(sortedUntil)
    {
      if sorting {
        return;
      }
      sorting := true;
      steps := GenerateSteps(values);
      source := values;
      currentStep := -1;
    }

    /** Copies step s into the render fields (the source's setter calls for
        currentIndex, minIndex, sortedUntil, array and compareIndex). */
    method Show(s: Step)
      modifies this
      ensures Shows(s)
      ensures steps == old(steps) && source == old(source) && currentStep == old(currentStep) && sorting == old(sorting)
    {
      currentIndex, minIndex, sortedUntil, values := s.currentIndex, s.minIndex, s.sortedUntil, s.snapshot;
      compareIndex := if s.kind == Compare then s.compareIndex else -1;
    }

    /** The end of a run: no index marked, the first n positions drawn sorted,
        the run no longer in progress. */
    method Finish(n: int)
      modifies this
      ensures currentIndex == -1 && compareIndex == -1 && minIndex == -1 && sortedUntil == n && !sorting
      ensures values == old(values) && steps == old(steps) && source == old(source) && currentStep == old(currentStep)
    {
      currentIndex, compareIndex, minIndex := -1, -1, -1;
      sortedUntil := n;
      sorting := false;
    }

    /** Back to before the first step: no index marked, nothing drawn sorted,
        the array `first` shown. */
    method Rewind(first: seq<int>)
      modifies this
      ensures currentStep == -1 && currentIndex == -1 && compareIndex == -1 && minIndex == -1 && sortedUntil == 0
      ensures values == first && steps == old(steps) && source == old(source) && sorting == old(sorting)
    {
      currentStep := -1;
      currentIndex, compareIndex, minIndex := -1, -1, -1;
      sortedUntil := 0;
      values := first;
    }

    /** Next: shows the following step. The click that lands on the last step
        then clears the three indices, marks the whole array (of the length it
        had before the click) sorted and ends the run; the array it shows is
        the input sorted. */
    method Next()
      requires Valid()
      modifies this
      ensures Valid() && steps == old(steps) && source == old(source)
      ensures old(currentStep) >= |steps| - 1 ==> unchanged(this)
      ensures old(currentStep) < |steps| - 1 ==> currentStep == old(currentStep) + 1
      ensures old(currentStep) < |steps| - 2 ==> Shows(steps[currentStep]) && sorting == old(sorting)
      ensures old(currentStep) == |steps| - 2 ==>
                && values == steps[currentStep].snapshot && !sorting
                && currentIndex == -1 && compareIndex == -1 && minIndex == -1 && sortedUntil == |old(values)|
                && Sorted(values) && multiset(values) == multiset(source)
    {
      var n := |values|;
      var cur := currentStep;
      if currentStep < |steps| - 1 {
        currentStep := currentStep + 1;
        Show(steps[currentStep]);
      }
      if cur == |steps| - 2 {
        Finish(n);
        RunEnds(steps, source);
      }
    }

    /** Previous: shows the preceding step; from the first step it returns to
        the state before the run, showing the array the steps start from. */
    method Previous()
      requires Valid()
      modifies this
      ensures Valid() && steps == old(steps) && source == old(source) && sorting == old(sorting)
      ensures old(currentStep) == -1 ==> unchanged(this)
      ensures old(currentStep) > 0 ==> currentStep == old(currentStep) - 1 && Shows(steps[currentStep])
      ensures old(currentStep) == 0 ==>
                && currentStep == -1 && values == source
                && currentIndex == -1 && compareIndex == -1 && minIndex == -1 && sortedUntil == 0
    {
      if currentStep > 0 {
        currentStep := currentStep - 1;
        Show(steps[currentStep]);
      } else if currentStep == 0 {
        RunEnds(steps, source);
        Rewind(steps[0].snapshot);
      }
    }

    /** Add: appends the entered number, unless the field is blank or a run is
        in progress. */
    method Add(x: Input)
      requires Valid()
      modifies this
      ensures Valid()
      ensures x.Entered? && !old(sorting) ==> values == old(values) + [x.value]
      ensures !(x.Entered? && !old(sorting)) ==> values == old(values)
      ensures steps == old(steps) && source == old(source) && currentStep == old(currentStep) && sorting == old(sorting)
      ensures currentIndex == old(currentIndex) && compareIndex == old(compareIndex)
      ensures minIndex == old(minIndex) && sortedUntil == old(sortedUntil)
    {
      if x.Entered? && !sorting {
        values := values + [x.value];
      }
    }

    /** Reset: back to the default array with no steps and no run. */
    method Reset()
      requires Valid()
      modifies this
      ensures Valid() && values == DefaultArray && steps == [] && currentStep == -1 && !sorting
      ensures currentIndex == -1 && compareIndex == -1 && minIndex == -1 && sortedUntil == 0
    {
      values := DefaultArray;
      currentIndex, compareIndex, minIndex, sortedUntil := -1, -1, -1, 0;
      steps, currentStep := [], -1;
      sorting := false;
      source := [];
    }
  }
}
