/** The bubble sort visualizer: the step generator, which runs bubble sort on a
    copy of the array and records a snapshot at every comparison of neighbours
    and after every exchange; and the playback controller that replays those
    steps. */
module BubbleSort {
  import opened Common

  datatype Kind = Compare | Swap

  /** One recorded step: the neighbouring positions left and left+1 (the
      source's `indices` pair), the boundary sortedUntil (positions from it on
      are drawn sorted) and the whole array as the step leaves it. */
  datatype Step = Step(kind: Kind, left: int, right: int, sortedUntil: int, snapshot: seq<int>)

  // ---------------------------------------------------------------------------
  // The run the generator records, as a recursive definition
  // ---------------------------------------------------------------------------

  /** The steps pass i records from position j on over the array a: a compare
      step for each neighbouring pair below n-i, and a swap step after it when
      the pair is out of order. */
  function PassTail(a: seq<int>, i: nat, j: nat): seq<Step>
    decreases |a| - i - j
  {
    if j >= |a| - i - 1 then []
    else
      var c := Step(Compare, j, j + 1, |a| - i - 1, a);
      if a[j] > a[j + 1] then
        var b := Exchanged(a, j, j + 1);
        [c] + ([Step(Swap, j, j + 1, |a| - i - 1, b)] + PassTail(b, i, j + 1))
      else [c] + PassTail(a, i, j + 1)
  }

  /** The array pass i leaves once it has gone on from position j. */
  function AfterTail(a: seq<int>, i: nat, j: nat): (r: seq<int>)
    ensures |r| == |a|
    decreases |a| - i - j
  {
    if j >= |a| - i - 1 then a
    else if a[j] > a[j + 1] then AfterTail(Exchanged(a, j, j + 1), i, j + 1)
    else AfterTail(a, i, j + 1)
  }

  /** The steps of passes i .. n-2 over the array a. */
  function Sweep(a: seq<int>, i: nat): seq<Step>
    decreases |a| - i
  {
    if i + 1 >= |a| then []
    else PassTail(a, i, 0) + Sweep(AfterTail(a, i, 0), i + 1)
  }

  /** The steps generated for the array `input`. */
  function Run(input: seq<int>): seq<Step>
  {
    Sweep(input, 0)
  }

  // ---------------------------------------------------------------------------
  // The generator
  // ---------------------------------------------------------------------------

  /** Pass i: compares each neighbouring pair below n-i and exchanges it when
      it is out of order, recording a step for each comparison and exchange. */
  method BubblePass(a: array<int>, i: nat) returns (recorded: seq<Step>)
    modifies a
    ensures recorded == PassTail(old(a[..]), i, 0)
    ensures a[..] == AfterTail(old(a[..]), i, 0)
  {
    ghost var start := a[..];
    recorded := [];
    var j := 0;
    while j < a.Length - i - 1
      invariant recorded + PassTail(a[..], i, j) == PassTail(start, i, 0)
      invariant AfterTail(a[..], i, j) == AfterTail(start, i, 0)
    {
      var visited := Visit(a, i, j);
      Assoc(recorded, visited, PassTail(a[..], i, j + 1));
      recorded := recorded + visited;
      j := j + 1;
    }
  }

  /** One iteration of pass i at position j: the compare step, and the
      exchange with its step when a[j] > a[j+1]. */
  method Visit(a: array<int>, i: nat, j: nat) returns (visited: seq<Step>)
    requires j < a.Length - i - 1
    modifies a
    ensures visited + PassTail(a[..], i, j + 1) == PassTail(old(a[..]), i, j)
    ensures AfterTail(a[..], i, j + 1) == AfterTail(old(a[..]), i, j)
  {
    ghost var w := a[..];
    var c := Step(Compare, j, j + 1, a.Length - i - 1, a[..]);
    if a[j] > a[j + 1] {
      UnfoldSwap(w, i, j);
      SwapNeighbours(a, j);
      visited := [c, Step(Swap, j, j + 1, a.Length - i - 1, a[..])];
    } else {
      UnfoldKeep(w, i, j);
      visited := [c];
    }
  }

  /** PassTail and AfterTail at a pair out of order: the compare step, the
      swap step, and the rest of the pass over the exchanged array. */
  lemma UnfoldSwap(a: seq<int>, i: nat, j: nat)
    requires j < |a| - i - 1 && a[j] > a[j + 1]
    ensures PassTail(a, i, j) == [Step(Compare, j, j + 1, |a| - i - 1, a),
                                  Step(Swap, j, j + 1, |a| - i - 1, Exchanged(a, j, j + 1))]
                                 + PassTail(Exchanged(a, j, j + 1), i, j + 1)
    ensures AfterTail(a, i, j) == AfterTail(Exchanged(a, j, j + 1), i, j + 1)
  {
    Assoc([Step(Compare, j, j + 1, |a| - i - 1, a)], [Step(Swap, j, j + 1, |a| - i - 1, Exchanged(a, j, j + 1))],
          PassTail(Exchanged(a, j, j + 1), i, j + 1));
  }

  /** PassTail and AfterTail at a pair in order: the compare step and the
      rest of the pass over the same array. */
  lemma UnfoldKeep(a: seq<int>, i: nat, j: nat)
    requires j < |a| - i - 1 && a[j] <= a[j + 1]
    ensures PassTail(a, i, j) == [Step(Compare, j, j + 1, |a| - i - 1, a)] + PassTail(a, i, j + 1)
    ensures AfterTail(a, i, j) == AfterTail(a, i, j + 1)
  {
  }

  /** Exchanges a[j] and a[j+1]. */
  method SwapNeighbours(a: array<int>, j: nat)
    requires j + 1 < a.Length
    modifies a
    ensures a[..] == Exchanged(old(a[..]), j, j + 1)
  {
    var temp := a[j];
    a[j] := a[j + 1];
    a[j + 1] := temp;
  }

  /** Runs bubble sort on a copy of the array, recording every comparison and
      every exchange. */
  method GenerateSteps(input: seq<int>) returns (steps: seq<Step>)
    ensures steps == Run(input)
  {
    var a := new int[|input|](k requires 0 <= k < |input| => input[k]);
    assert a[..] == input;
    steps := [];
    var i := 0;
    while i < a.Length - 1
      invariant steps + Sweep(a[..], i) == Run(input)
    {
      var recorded := BubblePass(a, i);
      Assoc(steps, recorded, Sweep(a[..], i + 1));
      steps := steps + recorded;
      i := i + 1;
    }
    assert steps + [] == steps;
  }

  // ---------------------------------------------------------------------------
  // What the run guarantees
  // ---------------------------------------------------------------------------

  /** The elements from position m on are ascending and none is smaller than
      an element before m: they are in their final places. */
  ghost predicate InPlaceFrom(a: seq<int>, m: int)
  {
    && 0 <= m <= |a|
    && (forall x, y :: m <= x < y < |a| ==> a[x] <= a[y])
    && (forall x, y :: 0 <= x < m <= y < |a| ==> a[x] <= a[y])
  }

  /** a[j] is the largest of a[0..j]. */
  ghost predicate LargestAt(a: seq<int>, j: int)
  {
    0 <= j < |a| && forall t :: 0 <= t < j ==> a[t] <= a[j]
  }

  /** What every step of a run on `input` satisfies: its snapshot is a
      permutation of the input; it works on positions left and left+1, both
      at or below the boundary sortedUntil, which lies between 1 and n-1; the
      elements above the boundary are in their final places; and the largest
      element seen so far in the pass sits at the compared position (or, after
      an exchange, at the right one of the pair, now strictly larger than the
      left). */
  ghost predicate StepFacts(s: Step, input: seq<int>)
  {
    var n := |input|;
    && |s.snapshot| == n && multiset(s.snapshot) == multiset(input)
    && 0 <= s.left && s.right == s.left + 1 <= s.sortedUntil < n
    && InPlaceFrom(s.snapshot, s.sortedUntil + 1)
    && match s.kind
       case Compare => LargestAt(s.snapshot, s.left)
       case Swap => LargestAt(s.snapshot, s.right) && s.snapshot[s.left] < s.snapshot[s.right]
  }

  /** One step of pass i at position j: the compare step, and the exchange
      that carries the larger of the pair one place up. */
  lemma BubbleStep(a: seq<int>, input: seq<int>, i: nat, j: nat)
    requires |a| == |input| && multiset(a) == multiset(input)
    requires j + 1 <= |a| - i - 1 && InPlaceFrom(a, |a| - i) && LargestAt(a, j)
    ensures StepFacts(Step(Compare, j, j + 1, |a| - i - 1, a), input)
    ensures a[j] > a[j + 1] ==>
              var b := Exchanged(a, j, j + 1);
              && StepFacts(Step(Swap, j, j + 1, |a| - i - 1, b), input)
              && InPlaceFrom(b, |a| - i) && LargestAt(b, j + 1)
    ensures a[j] <= a[j + 1] ==> LargestAt(a, j + 1)
  {
  }

  lemma {:induction false} PassTailFacts(a: seq<int>, input: seq<int>, i: nat, j: nat)
    requires |a| == |input| && multiset(a) == multiset(input)
    requires j <= |a| - i - 1 && InPlaceFrom(a, |a| - i) && LargestAt(a, j)
    ensures forall s :: s in PassTail(a, i, j) ==> StepFacts(s, input)
    decreases |a| - i - j
  {
    if j < |a| - i - 1 {
      BubbleStep(a, input, i, j);
      if a[j] > a[j + 1] {
        PassTailFacts(Exchanged(a, j, j + 1), input, i, j + 1);
      } else {
        PassTailFacts(a, input, i, j + 1);
      }
    }
  }

  /** A pass leaves the largest element of a[0..n-i) at position n-i-1, so
      one more element is in its final place, and permutes the array. */
  lemma {:induction false} AfterTailFacts(a: seq<int>, i: nat, j: nat)
    requires j <= |a| - i - 1 && InPlaceFrom(a, |a| - i) && LargestAt(a, j)
    ensures InPlaceFrom(AfterTail(a, i, j), |a| - i - 1)
    ensures multiset(AfterTail(a, i, j)) == multiset(a)
    decreases |a| - i - j
  {
    if j < |a| - i - 1 {
      BubbleStep(a, a, i, j);
      if a[j] > a[j + 1] {
        AfterTailFacts(Exchanged(a, j, j + 1), i, j + 1);
      } else {
        AfterTailFacts(a, i, j + 1);
      }
    }
  }

  lemma {:induction false} SweepFacts(a: seq<int>, input: seq<int>, i: nat)
    requires |a| == |input| && multiset(a) == multiset(input) && i <= |a| && InPlaceFrom(a, |a| - i)
    ensures forall s :: s in Sweep(a, i) ==> StepFacts(s, input)
    decreases |a| - i
  {
    if i + 1 < |a| {
      PassTailFacts(a, input, i, 0);
      AfterTailFacts(a, i, 0);
      SweepFacts(AfterTail(a, i, 0), input, i + 1);
    }
  }

  /** Every step of the run satisfies StepFacts. */
  lemma RunFacts(input: seq<int>)
    ensures forall s :: s in Run(input) ==> StepFacts(s, input)
  {
    SweepFacts(input, input, 0);
  }

  /** The last step of pass i works on the pair just below the boundary and
      leaves that pair in order. */
  lemma {:induction false} PassTailLast(a: seq<int>, i: nat, j: nat)
    requires j < |a| - i - 1
    ensures var t := PassTail(a, i, j); var last := t[|t| - 1];
            && t != [] && last.left == |a| - i - 2 && last.right == |a| - i - 1 && last.sortedUntil == |a| - i - 1
            && last.snapshot == AfterTail(a, i, j) && last.snapshot[last.left] <= last.snapshot[last.right]
    decreases |a| - i - j
  {
    var c := Step(Compare, j, j + 1, |a| - i - 1, a);
    if a[j] > a[j + 1] {
      var b := Exchanged(a, j, j + 1);
      var sw := Step(Swap, j, j + 1, |a| - i - 1, b);
      var rest := PassTail(b, i, j + 1);
      assert PassTail(a, i, j) == [c] + ([sw] + rest);
      if j + 1 < |a| - i - 1 {
        PassTailLast(b, i, j + 1);
      } else {
        assert rest == [] && AfterTail(b, i, j + 1) == b;
      }
    } else {
      var rest := PassTail(a, i, j + 1);
      assert PassTail(a, i, j) == [c] + rest;
      if j + 1 < |a| - i - 1 {
        PassTailLast(a, i, j + 1);
      } else {
        assert rest == [] && AfterTail(a, i, j + 1) == a;
      }
    }
  }

  /** The last step of passes i .. n-2 is one of pass n-2, on positions 0 and
      1, and leaves them in order. */
  lemma {:induction false} SweepLast(a: seq<int>, i: nat)
    requires i + 1 < |a|
    ensures var t := Sweep(a, i); var last := t[|t| - 1];
            && t != [] && last.left == 0 && last.sortedUntil == 1
            && |last.snapshot| == |a| && last.snapshot[0] <= last.snapshot[1]
    decreases |a| - i
  {
    PassTailLast(a, i, 0);
    if i + 2 < |a| {
      SweepLast(AfterTail(a, i, 0), i + 1);
    } else {
      assert Sweep(a, i) == PassTail(a, i, 0) + [];
    }
  }

  /** A step of the last pass that leaves its pair in order shows the array
      sorted. */
  lemma LastPassSorted(s: Step, input: seq<int>)
    requires StepFacts(s, input) && s.left == 0 && s.sortedUntil == 1
    requires s.snapshot[0] <= s.snapshot[1]
    ensures Sorted(s.snapshot)
  {
  }

  /** The run is empty exactly for arrays of fewer than two elements;
      otherwise it starts by comparing positions 0 and 1 of the unchanged
      input, and its last snapshot is the input sorted ascending. */
  lemma RunEndsSorted(input: seq<int>)
    ensures Run(input) == [] <==> |input| < 2
    ensures Run(input) != [] ==> Run(input)[0] == Step(Compare, 0, 1, |input| - 1, input)
    ensures Run(input) != [] ==>
              var last := Run(input)[|Run(input)| - 1];
              Sorted(last.snapshot) && multiset(last.snapshot) == multiset(input)
  {
    if |input| >= 2 {
      var t := Run(input);
      SweepLast(input, 0);
      RunFacts(input);
      assert t[|t| - 1] in t;
      LastPassSorted(t[|t| - 1], input);
      assert t[0] == PassTail(input, 0, 0)[0];
    }
  }

  /** The ends of a recorded run, as the playback controller uses them. */
  lemma RunEnds(steps: seq<Step>, input: seq<int>)
    requires steps == Run(input) && steps != []
    ensures steps[0].snapshot == input
    ensures Sorted(steps[|steps| - 1].snapshot) && multiset(steps[|steps| - 1].snapshot) == multiset(input)
  {
    RunEndsSorted(input);
  }

  // ---------------------------------------------------------------------------
  // Exchanges follow the comparisons that call for them
  // ---------------------------------------------------------------------------

  /** The compared pair is out of order. */
  ghost predicate OutOfOrder(s: Step)
  {
    0 <= s.left && s.left + 1 < |s.snapshot| && s.snapshot[s.left] > s.snapshot[s.left + 1]
  }

  /** Step s2 is a swap step exchanging the pair step s1 compared. */
  ghost predicate SwapOf(s1: Step, s2: Step)
  {
    && s1.kind == Compare && s2.kind == Swap
    && s2.left == s1.left && s2.right == s1.right && s2.sortedUntil == s1.sortedUntil
    && 0 <= s1.left && s1.left + 1 < |s1.snapshot| && s1.right == s1.left + 1
    && s2.snapshot == Exchanged(s1.snapshot, s1.left, s1.left + 1)
  }

  /** Steps come as compare steps, each directly followed by the swap step
      exchanging its pair exactly when that pair is out of order. */
  ghost predicate Paired(steps: seq<Step>)
    decreases |steps|
  {
    steps == [] ||
    (steps[0].kind == Compare &&
     if OutOfOrder(steps[0]) then |steps| >= 2 && SwapOf(steps[0], steps[1]) && Paired(steps[2..])
     else Paired(steps[1..]))
  }

  lemma {:induction false} PairedConcat(xs: seq<Step>, ys: seq<Step>)
    requires Paired(xs) && Paired(ys)
    ensures Paired(xs + ys)
    decreases |xs|
  {
    if xs == [] {
      assert xs + ys == ys;
    } else if OutOfOrder(xs[0]) {
      PairedConcat(xs[2..], ys);
      assert (xs + ys)[2..] == xs[2..] + ys;
    } else {
      PairedConcat(xs[1..], ys);
      assert (xs + ys)[1..] == xs[1..] + ys;
    }
  }

  lemma {:induction false} PassTailPaired(a: seq<int>, i: nat, j: nat)
    ensures Paired(PassTail(a, i, j))
    decreases |a| - i - j
  {
    if j < |a| - i - 1 {
      var c := Step(Compare, j, j + 1, |a| - i - 1, a);
      var t := PassTail(a, i, j);
      if a[j] > a[j + 1] {
        var b := Exchanged(a, j, j + 1);
        var sw := Step(Swap, j, j + 1, |a| - i - 1, b);
        PassTailPaired(b, i, j + 1);
        assert t == [c] + ([sw] + PassTail(b, i, j + 1));
        assert t[0] == c && t[1] == sw && t[2..] == PassTail(b, i, j + 1);
        assert OutOfOrder(c) && SwapOf(c, sw);
      } else {
        PassTailPaired(a, i, j + 1);
        assert t == [c] + PassTail(a, i, j + 1);
        assert t[0] == c && t[1..] == PassTail(a, i, j + 1);
        assert !OutOfOrder(c);
      }
    }
  }

  lemma {:induction false} SweepPaired(a: seq<int>, i: nat)
    ensures Paired(Sweep(a, i))
    decreases |a| - i
  {
    if i + 1 < |a| {
      PassTailPaired(a, i, 0);
      SweepPaired(AfterTail(a, i, 0), i + 1);
      PairedConcat(PassTail(a, i, 0), Sweep(AfterTail(a, i, 0), i + 1));
    }
  }

  /** In the whole run a swap step follows a compare step exactly when the
      compared pair is out of order (strictly greater on the left, so equal
      neighbours are never exchanged), and shows that pair exchanged. */
  lemma RunPaired(input: seq<int>)
    ensures Paired(Run(input))
  {
    SweepPaired(input, 0);
  }

  // ---------------------------------------------------------------------------
  // How many steps of each kind
  // ---------------------------------------------------------------------------

  /** The number of steps of kind k. */
  function Count(steps: seq<Step>, k: Kind): (c: nat)
    ensures c <= |steps|
  {
    if steps == [] then 0 else (if steps[0].kind == k then 1 else 0) + Count(steps[1..], k)
  }

  lemma {:induction false} CountConcat(xs: seq<Step>, ys: seq<Step>, k: Kind)
    ensures Count(xs + ys, k) == Count(xs, k) + Count(ys, k)
  {
    if xs == [] {
      assert xs + ys == ys;
    } else {
      assert (xs + ys)[1..] == xs[1..] + ys;
      CountConcat(xs[1..], ys, k);
    }
  }

  /** In paired steps every step is a comparison or the exchange after one, so
      there are never more exchanges than comparisons. */
  lemma {:induction false} PairedCounts(steps: seq<Step>)
    requires Paired(steps)
    ensures Count(steps, Compare) + Count(steps, Swap) == |steps|
    ensures Count(steps, Swap) <= Count(steps, Compare)
    decreases |steps|
  {
    if steps != [] {
      if OutOfOrder(steps[0]) {
        PairedCounts(steps[2..]);
        assert steps[1..][1..] == steps[2..];
      } else {
        PairedCounts(steps[1..]);
      }
    }
  }

  /** Pass i makes one comparison for each neighbouring pair from j up to the
      boundary n-i-1. */
  lemma {:induction false} PassTailCounts(a: seq<int>, i: nat, j: nat)
    requires j <= |a| - i - 1
    ensures Count(PassTail(a, i, j), Compare) == |a| - i - 1 - j
    decreases |a| - i - j
  {
    if j < |a| - i - 1 {
      var c := Step(Compare, j, j + 1, |a| - i - 1, a);
      if a[j] > a[j + 1] {
        var b := Exchanged(a, j, j + 1);
        var sw := Step(Swap, j, j + 1, |a| - i - 1, b);
        PassTailCounts(b, i, j + 1);
        assert PassTail(a, i, j) == [c] + ([sw] + PassTail(b, i, j + 1));
        CountConcat([c], [sw] + PassTail(b, i, j + 1), Compare);
        CountConcat([sw], PassTail(b, i, j + 1), Compare);
      } else {
        PassTailCounts(a, i, j + 1);
        CountConcat([c], PassTail(a, i, j + 1), Compare);
      }
    }
  }

  lemma {:induction false} SweepCounts(a: seq<int>, i: nat)
    ensures Count(Sweep(a, i), Compare) == ComparesFrom(|a|, i)
    decreases |a| - i
  {
    if i + 1 < |a| {
      PassTailCounts(a, i, 0);
      SweepCounts(AfterTail(a, i, 0), i + 1);
      CountConcat(PassTail(a, i, 0), Sweep(AfterTail(a, i, 0), i + 1), Compare);
    }
  }

  /** The run compares n(n-1)/2 pairs whatever the input, and exchanges at
      most as many; every step is one or the other. */
  lemma RunCounts(input: seq<int>)
    ensures 2 * Count(Run(input), Compare) == |input| * (|input| - 1)
    ensures Count(Run(input), Swap) <= Count(Run(input), Compare)
    ensures |Run(input)| == Count(Run(input), Compare) + Count(Run(input), Swap)
  {
    SweepCounts(input, 0);
    ComparesFromTotal(|input|, 0);
    RunPaired(input);
    PairedCounts(Run(input));
  }

  // ---------------------------------------------------------------------------
  // No exchange at all exactly when the input is already sorted
  // ---------------------------------------------------------------------------

  /** Each element is at most its right neighbour. */
  lemma {:induction false} NeighboursSorted(a: seq<int>)
    requires forall x :: 0 <= x < |a| - 1 ==> a[x] <= a[x + 1]
    ensures Sorted(a)
    decreases |a|
  {
    if |a| > 1 {
      var init := a[..|a| - 1];
      NeighboursSorted(init);
      forall x, y | 0 <= x < y < |a| ensures a[x] <= a[y] {
        if y < |a| - 1 {
          assert a[x] == init[x] && a[y] == init[y];
        } else if x < y - 1 {
          assert a[x] == init[x] && a[y - 1] == init[y - 1];
        }
      }
    }
  }

  /** The rest of pass i from j exchanges nothing exactly when the pairs from
      j up to the boundary are in order, and then leaves the array as it is. */
  lemma {:induction false} PassTailNoSwap(a: seq<int>, i: nat, j: nat)
    ensures Count(PassTail(a, i, j), Swap) == 0 <==> forall x :: j <= x < |a| - i - 1 ==> a[x] <= a[x + 1]
    ensures Count(PassTail(a, i, j), Swap) == 0 ==> AfterTail(a, i, j) == a
    decreases |a| - i - j
  {
    if j < |a| - i - 1 {
      var c := Step(Compare, j, j + 1, |a| - i - 1, a);
      if a[j] > a[j + 1] {
        var b := Exchanged(a, j, j + 1);
        var sw := Step(Swap, j, j + 1, |a| - i - 1, b);
        assert PassTail(a, i, j) == [c] + ([sw] + PassTail(b, i, j + 1));
        CountConcat([c], [sw] + PassTail(b, i, j + 1), Swap);
        CountConcat([sw], PassTail(b, i, j + 1), Swap);
      } else {
        PassTailNoSwap(a, i, j + 1);
        CountConcat([c], PassTail(a, i, j + 1), Swap);
      }
    }
  }

  lemma {:induction false} SweepOfSorted(a: seq<int>, i: nat)
    requires Sorted(a)
    ensures Count(Sweep(a, i), Swap) == 0
    decreases |a| - i
  {
    if i + 1 < |a| {
      PassTailNoSwap(a, i, 0);
      SweepOfSorted(a, i + 1);
      CountConcat(PassTail(a, i, 0), Sweep(a, i + 1), Swap);
    }
  }

  /** The run exchanges nothing exactly when the input is already sorted
      (all comparisons are still made: the generator has no early exit). */
  lemma RunSwapsIffUnsorted(input: seq<int>)
    ensures Count(Run(input), Swap) == 0 <==> Sorted(input)
  {
    if Sorted(input) {
      SweepOfSorted(input, 0);
    } else if |input| >= 2 {
      PassTailNoSwap(input, 0, 0);
      CountConcat(PassTail(input, 0, 0), Sweep(AfterTail(input, 0, 0), 1), Swap);
      if Count(PassTail(input, 0, 0), Swap) == 0 {
        NeighboursSorted(input);
      }
    }
  }

  // ---------------------------------------------------------------------------
  // The sorted boundary only moves down
  // ---------------------------------------------------------------------------

  ghost predicate Descending(steps: seq<Step>)
  {
    forall k1, k2 :: 0 <= k1 <= k2 < |steps| ==> steps[k2].sortedUntil <= steps[k1].sortedUntil
  }

  lemma DescendingConcat(xs: seq<Step>, ys: seq<Step>, b: int)
    requires Descending(ys)
    requires forall s :: s in xs ==> s.sortedUntil == b
    requires forall s :: s in ys ==> s.sortedUntil <= b
    ensures Descending(xs + ys)
  {
    var t := xs + ys;
    forall k1, k2 | 0 <= k1 <= k2 < |t| ensures t[k2].sortedUntil <= t[k1].sortedUntil {
      if k2 < |xs| {
        assert t[k1] in xs && t[k2] in xs;
      } else if k1 < |xs| {
        assert t[k1] in xs && t[k2] == ys[k2 - |xs|] && ys[k2 - |xs|] in ys;
      } else {
        assert t[k1] == ys[k1 - |xs|] && t[k2] == ys[k2 - |xs|];
      }
    }
  }

  /** Every step of pass i carries the boundary n-i-1. */
  lemma {:induction false} PassTailBoundary(a: seq<int>, i: nat, j: nat)
    ensures forall s :: s in PassTail(a, i, j) ==> s.sortedUntil == |a| - i - 1
    decreases |a| - i - j
  {
    if j < |a| - i - 1 {
      if a[j] > a[j + 1] {
        PassTailBoundary(Exchanged(a, j, j + 1), i, j + 1);
      } else {
        PassTailBoundary(a, i, j + 1);
      }
    }
  }

  lemma {:induction false} SweepDescending(a: seq<int>, i: nat)
    ensures Descending(Sweep(a, i))
    ensures forall s :: s in Sweep(a, i) ==> s.sortedUntil <= |a| - i - 1
    decreases |a| - i
  {
    if i + 1 < |a| {
      PassTailBoundary(a, i, 0);
      SweepDescending(AfterTail(a, i, 0), i + 1);
      DescendingConcat(PassTail(a, i, 0), Sweep(AfterTail(a, i, 0), i + 1), |a| - i - 1);
    }
  }

  /** sortedUntil never increases along the run and stays between 1 and
      n-1. */
  lemma RunSortedUntil(input: seq<int>)
    ensures Descending(Run(input))
    ensures forall s :: s in Run(input) ==> 1 <= s.sortedUntil <= |input| - 1
  {
    SweepDescending(input, 0);
    RunFacts(input);
  }

  // ---------------------------------------------------------------------------
  // The diagram
  // ---------------------------------------------------------------------------

  /** One node per element: highlighted at currentIndex, comparing at
      compareIndex, sorted from sortedUntil on. */
  function Nodes(values: seq<int>, currentIndex: int, compareIndex: int, sortedUntil: int): (r: seq<Node>)
    ensures |r| == |values|
    ensures forall k :: 0 <= k < |r| ==> r[k].id == k && r[k].value == values[k]
    ensures forall k :: 0 <= k < |r| ==> (r[k].sorted <==> k >= sortedUntil) && !r[k].target
  {
    seq(|values|, k requires 0 <= k < |values| =>
      Node(k, values[k], k == currentIndex, k == compareIndex, false, k >= sortedUntil, false))
  }

  /** While a step is shown, every node drawn sorted above the boundary holds
      its final value: those nodes are ascending and none is smaller than a
      node before it. */
  lemma SortedNodesPlaced(input: seq<int>, s: Step)
    requires s in Run(input)
    ensures var ns := Nodes(s.snapshot, s.left, s.right, s.sortedUntil);
            forall x, y :: 0 <= x < y < |ns| && ns[y].sorted && y != s.sortedUntil ==> ns[x].value <= ns[y].value
  {
    RunFacts(input);
  }

  /** The node at the boundary itself is drawn sorted before the pass has
      carried its element there: on [2, 1] the first step draws position 1,
      holding 1, as sorted, below the 2 before it. */
  lemma BoundaryNodeEarly()
    ensures var s := Run([2, 1])[0];
            var ns := Nodes(s.snapshot, s.left, s.right, s.sortedUntil);
            |ns| == 2 && ns[1].sorted && ns[0].value > ns[1].value
  {
    RunEndsSorted([2, 1]);
  }

  /** Once the run is finished every node is drawn sorted and none is marked. */
  lemma FinishedNodes(values: seq<int>)
    ensures forall nd :: nd in Nodes(values, -1, -1, 0) ==> nd.sorted && !nd.highlighted && !nd.comparing
  {
  }

  // ---------------------------------------------------------------------------
  // Playback
  // ---------------------------------------------------------------------------

  /** The component's state. Each handler is one atomic update in which a
      later assignment to a field overrides an earlier one. */
  class Visualizer {
    var values: seq<int>
    var currentIndex: int
    var compareIndex: int
    var sortedUntil: int
    var sorting: bool
    var steps: seq<Step>
    var currentStep: int
    /** The array the current steps were generated from. */
    ghost var source: seq<int>

    ghost predicate Valid()
      reads this
    {
      steps == Run(source) && -1 <= currentStep < |steps|
    }

    /** The render fields show step s: its pair, its boundary, its array. */
    ghost predicate Shows(s: Step)
      reads this
    {
      values == s.snapshot && currentIndex == s.left && compareIndex == s.right && sortedUntil == s.sortedUntil
    }

    /** What the component draws. */
    function View(): seq<Node>
      reads this
    {
      Nodes(values, currentIndex, compareIndex, sortedUntil)
    }

    /** The initial state: the boundary is the length of the default array, so
        no node is drawn sorted. */
    constructor()
      ensures Valid() && values == DefaultArray && steps == [] && currentStep == -1 && !sorting
      ensures currentIndex == -1 && compareIndex == -1 && sortedUntil == |DefaultArray|
    {
      values := DefaultArray;
      currentIndex, compareIndex, sortedUntil := -1, -1, |DefaultArray|;
      sorting := false;
      steps, currentStep := [], -1;
      source := [];
    }

    /** Sort: ignored while a run is in progress; otherwise generates the steps
        for the current array and puts the cursor before the first. */
    method Sort()
      requires Valid()
      modifies this
      ensures Valid()
      ensures old(sorting) ==> unchanged(this)
      ensures !old(sorting) ==> sorting && source == old(values) && steps == Run(old(values)) && currentStep == -1
      ensures values == old(values) && currentIndex == old(currentIndex) && compareIndex == old(compareIndex)
      ensures sortedUntil == old(sortedUntil)
    {
      if sorting {
        return;
      }
      sorting := true;
      steps := GenerateSteps(values);
      source := values;
      currentStep := -1;
    }

    /** Copies step s into the render fields. */
    method Show(s: Step)
      modifies this
      ensures Shows(s)
      ensures steps == old(steps) && source == old(source) && currentStep == old(currentStep) && sorting == old(sorting)
    {
      currentIndex, compareIndex, sortedUntil, values := s.left, s.right, s.sortedUntil, s.snapshot;
    }

    /** The end of a run: no index marked, the whole array drawn sorted, the
        run no longer in progress. */
    method Finish()
      modifies this
      ensures currentIndex == -1 && compareIndex == -1 && sortedUntil == 0 && !sorting
      ensures values == old(values) && steps == old(steps) && source == old(source) && currentStep == old(currentStep)
    {
      currentIndex, compareIndex, sortedUntil := -1, -1, 0;
      sorting := false;
    }

    /** Back to before the first step: no index marked, the boundary at n,
        the array `first` shown. */
    method Rewind(first: seq<int>, n: int)
      modifies this
      ensures currentStep == -1 && currentIndex == -1 && compareIndex == -1 && sortedUntil == n
      ensures values == first && steps == old(steps) && source == old(source) && sorting == old(sorting)
    {
      currentStep := -1;
      currentIndex, compareIndex, sortedUntil := -1, -1, n;
      values := first;
    }

    /** Next: shows the following step. The click that lands on the last step
        then clears both indices, draws every node sorted and ends the run;
        the array it shows is the input sorted. */
    method Next()
      requires Valid()
      modifies this
      ensures Valid() && steps == old(steps) && source == old(source)
      ensures old(currentStep) >= |steps| - 1 ==> unchanged(this)
      ensures old(currentStep) < |steps| - 1 ==> currentStep == old(currentStep) + 1
      ensures old(currentStep) < |steps| - 2 ==> Shows(steps[currentStep]) && sorting == old(sorting)
      ensures old(currentStep) == |steps| - 2 ==>
                && values == steps[currentStep].snapshot && !sorting
                && currentIndex == -1 && compareIndex == -1 && sortedUntil == 0
                && Sorted(values) && multiset(values) == multiset(source)
    {
      var cur := currentStep;
      if currentStep < |steps| - 1 {
        currentStep := currentStep + 1;
        Show(steps[currentStep]);
      }
      if cur == |steps| - 2 {
        Finish();
        RunEnds(steps, source);
      }
    }

    /** Previous: shows the preceding step; from the first step it returns to
        the state before the run, showing the array the steps start from with
        the boundary at the length of the array shown before the click. */
    method Previous()
      requires Valid()
      modifies this
      ensures Valid() && steps == old(steps) && source == old(source) && sorting == old(sorting)
      ensures old(currentStep) == -1 ==> unchanged(this)
      ensures old(currentStep) > 0 ==> currentStep == old(currentStep) - 1 && Shows(steps[currentStep])
      ensures old(currentStep) == 0 ==>
                && currentStep == -1 && values == source
                && currentIndex == -1 && compareIndex == -1 && sortedUntil == |old(values)|
    {
      if currentStep > 0 {
        currentStep := currentStep - 1;
        Show(steps[currentStep]);
      } else if currentStep == 0 {
        RunEnds(steps, source);
        Rewind(steps[0].snapshot, |values|);
      }
    }

    /** Add: appends the entered number, unless the field is blank or a run is
        in progress. */
    method Add(x: Input)
      requires Valid()
      modifies this
      ensures Valid()
      ensures x.Entered? && !old(sorting) ==> values == old(values) + [x.value]
      ensures !(x.Entered? && !old(sorting)) ==> values == old(values)
      ensures steps == old(steps) && source == old(source) && currentStep == old(currentStep) && sorting == old(sorting)
      ensures currentIndex == old(currentIndex) && compareIndex == old(compareIndex) && sortedUntil == old(sortedUntil)
    {
      if x.Entered? && !sorting {
        values := values + [x.value];
      }
    }

    /** Reset: back to the default array with no steps and no run; the
        boundary becomes the length of the array shown before the click. */
    method Reset()
      requires Valid()
      modifies this
      ensures Valid() && values == DefaultArray && steps == [] && currentStep == -1 && !sorting
      ensures currentIndex == -1 && compareIndex == -1 && sortedUntil == |old(values)|
    {
      sortedUntil := |values|;
      values := DefaultArray;
      currentIndex, compareIndex := -1, -1;
      steps, currentStep := [], -1;
      sorting := false;
      source := [];
    }
  }
}
