/** The binary search panel: a search that halves a window [left, right] of
    the array until it finds the number or the window is empty, an insertion
    that keeps the array sorted, and a removal of every occurrence of a
    number. */
module BinarySearch {
  import opened Common

  /** The array the panel starts with. */
  const InitialArray: seq<int> := [1, 2, 4, 5, 7, 9]

  /** One round of the search loop: the window and its middle index. */
  datatype Probe = Probe(left: int, right: int, mid: int)

  // ---------------------------------------------------------------------------
  // The search
  // ---------------------------------------------------------------------------

  /** The rounds the search makes on the window [left, right]: it probes the
      middle, stops when the middle holds t, and otherwise goes on to the half
      to the right of the middle when a[mid] < t, to the half to the left of
      it when not. */
  function Bisection(a: seq<int>, t: int, left: int, right: int): seq<Probe>
    requires 0 <= left <= right + 1 <= |a|
    decreases right - left + 1
  {
    if left > right then []
    else
      var mid := Mid(left, right);
      if a[mid] == t then [Probe(left, right, mid)]
      else if a[mid] < t then [Probe(left, right, mid)] + Bisection(a, t, mid + 1, right)
      else [Probe(left, right, mid)] + Bisection(a, t, left, mid - 1)
  }

  /** Math.floor((left + right) / 2) for a non-empty window: left + right is
      not negative there, so Dafny's division rounds down as Math.floor does. */
  function Mid(left: int, right: int): (mid: int)
    requires 0 <= left <= right
    ensures left <= mid <= right && right - mid <= mid - left + 1 && mid - left <= right - mid
  {
    (left + right) / 2
  }

  /** The rounds of a search over the whole array. */
  function Rounds(a: seq<int>, t: int): seq<Probe>
  {
    Bisection(a, t, 0, |a| - 1)
  }

  /** The last round's middle holds t. */
  predicate Hit(a: seq<int>, t: int, probes: seq<Probe>)
  {
    probes != [] && 0 <= probes[|probes| - 1].mid < |a| && a[probes[|probes| - 1].mid] == t
  }

  /** The index the search reports: the last middle when it holds t, else
      -1. */
  function Located(a: seq<int>, t: int): (r: int)
  {
    var p := Rounds(a, t);
    if Hit(a, t, p) then p[|p| - 1].mid else -1
  }

  /** Every round probes the middle of its window, which lies inside
      [left, right]. */
  ghost predicate InWindow(probes: seq<Probe>, left: int, right: int)
  {
    forall p :: p in probes ==> 0 <= left <= p.left <= p.mid <= p.right <= right && p.mid == Mid(p.left, p.right)
  }

  /** Each window lies inside the one before and is strictly narrower. */
  ghost predicate Shrinking(probes: seq<Probe>)
  {
    forall k :: 0 < k < |probes| ==>
      && probes[k - 1].left <= probes[k].left && probes[k].right <= probes[k - 1].right
      && probes[k].right - probes[k].left < probes[k - 1].right - probes[k - 1].left
  }

  /** Every round but the last misses. */
  ghost predicate MissesBeforeLast(a: seq<int>, t: int, probes: seq<Probe>)
  {
    forall k :: 0 <= k < |probes| - 1 ==> 0 <= probes[k].mid < |a| && a[probes[k].mid] != t
  }

  /** The rounds on [left, right] start from it; there are none exactly when
      it is empty. */
  lemma BisectionStart(a: seq<int>, t: int, left: int, right: int)
    requires 0 <= left <= right + 1 <= |a|
    ensures Bisection(a, t, left, right) == [] <==> left > right
    ensures Bisection(a, t, left, right) != [] ==>
              Bisection(a, t, left, right)[0] == Probe(left, right, Mid(left, right))
  {
  }

  /** The rounds on [left, right] stay inside it. */
  lemma {:induction false} BisectionInWindow(a: seq<int>, t: int, left: int, right: int)
    requires 0 <= left <= right + 1 <= |a|
    ensures InWindow(Bisection(a, t, left, right), left, right)
    decreases right - left + 1
  {
    if left <= right {
      var mid := Mid(left, right);
      if a[mid] < t {
        BisectionInWindow(a, t, mid + 1, right);
      } else if a[mid] > t {
        BisectionInWindow(a, t, left, mid - 1);
      }
    }
  }

  /** The window shrinks from round to round. */
  lemma {:induction false} BisectionShrinks(a: seq<int>, t: int, left: int, right: int)
    requires 0 <= left <= right + 1 <= |a|
    ensures Shrinking(Bisection(a, t, left, right))
    decreases right - left + 1
  {
    if left <= right {
      var mid := Mid(left, right);
      if a[mid] < t {
        BisectionShrinks(a, t, mid + 1, right);
        BisectionStart(a, t, mid + 1, right);
        ShrinkingCons(Probe(left, right, mid), Bisection(a, t, mid + 1, right));
      } else if a[mid] > t {
        BisectionShrinks(a, t, left, mid - 1);
        BisectionStart(a, t, left, mid - 1);
        ShrinkingCons(Probe(left, right, mid), Bisection(a, t, left, mid - 1));
      }
    }
  }

  /** A window put in front of shrinking windows that lie strictly inside
      it. */
  lemma ShrinkingCons(first: Probe, rest: seq<Probe>)
    requires Shrinking(rest)
    requires rest != [] ==> first.left <= rest[0].left && rest[0].right <= first.right
                            && rest[0].right - rest[0].left < first.right - first.left
    ensures Shrinking([first] + rest)
  {
    var p := [first] + rest;
    forall k | 0 < k < |p|
      ensures p[k - 1].left <= p[k].left && p[k].right <= p[k - 1].right
      ensures p[k].right - p[k].left < p[k - 1].right - p[k - 1].left
    {
      if k > 1 {
        assert p[k - 1] == rest[k - 2] && p[k] == rest[k - 1];
      }
    }
  }

  /** Only the last round can hit. */
  lemma {:induction false} BisectionMisses(a: seq<int>, t: int, left: int, right: int)
    requires 0 <= left <= right + 1 <= |a|
    ensures MissesBeforeLast(a, t, Bisection(a, t, left, right))
    decreases right - left + 1
  {
    if left <= right {
      var mid := Mid(left, right);
      if a[mid] < t {
        BisectionMisses(a, t, mid + 1, right);
        MissesCons(a, t, Probe(left, right, mid), Bisection(a, t, mid + 1, right));
      } else if a[mid] > t {
        BisectionMisses(a, t, left, mid - 1);
        MissesCons(a, t, Probe(left, right, mid), Bisection(a, t, left, mid - 1));
      }
    }
  }

  lemma MissesCons(a: seq<int>, t: int, first: Probe, rest: seq<Probe>)
    requires MissesBeforeLast(a, t, rest) && 0 <= first.mid < |a| && a[first.mid] != t
    ensures MissesBeforeLast(a, t, [first] + rest)
  {
    var p := [first] + rest;
    forall k | 0 <= k < |p| - 1 ensures 0 <= p[k].mid < |a| && a[p[k].mid] != t {
      if k > 0 {
        assert p[k] == rest[k - 1];
      }
    }
  }

  /** Every probed index is valid and every window lies inside the array;
      the windows shrink strictly from round to round; and every round but
      the last misses. */
  lemma RoundsInRange(a: seq<int>, t: int)
    ensures InWindow(Rounds(a, t), 0, |a| - 1) && Shrinking(Rounds(a, t)) && MissesBeforeLast(a, t, Rounds(a, t))
  {
    BisectionInWindow(a, t, 0, |a| - 1);
    BisectionShrinks(a, t, 0, |a| - 1);
    BisectionMisses(a, t, 0, |a| - 1);
  }

  /** Since the window shrinks, the search stops after at most n rounds. */
  lemma RoundsBound(a: seq<int>, t: int)
    ensures |Rounds(a, t)| <= |a|
  {
    var p := Rounds(a, t);
    if p != [] {
      BisectionStart(a, t, 0, |a| - 1);
      BisectionInWindow(a, t, 0, |a| - 1);
      BisectionShrinks(a, t, 0, |a| - 1);
      forall k | 0 <= k < |p| ensures p[k].left <= p[k].right {
        assert p[k] in p;
      }
      WindowsShrink(p, |a| - 1);
    }
  }

  /** Windows that shrink strictly from a first one of width at most w
      number at most w + 1. */
  lemma {:induction false} WindowsShrink(p: seq<Probe>, w: int)
    requires p != [] && p[0].right - p[0].left <= w
    requires forall k :: 0 <= k < |p| ==> p[k].left <= p[k].right
    requires forall k :: 0 < k < |p| ==> p[k].right - p[k].left < p[k - 1].right - p[k - 1].left
    ensures |p| <= w + 1
    decreases |p|
  {
    if |p| > 1 {
      WindowsShrink(p[1..], w - 1);
    }
  }

  /** The reported index holds t; it is -1 exactly when the last round
      missed (or there was none). */
  lemma LocatedSound(a: seq<int>, t: int)
    ensures Located(a, t) != -1 ==> 0 <= Located(a, t) < |a| && a[Located(a, t)] == t
    ensures Located(a, t) == -1 <==> !Hit(a, t, Rounds(a, t))
  {
    BisectionInWindow(a, t, 0, |a| - 1);
    var p := Rounds(a, t);
    if p != [] {
      assert p[|p| - 1] in p;
    }
  }

  lemma HitAfter(a: seq<int>, t: int, first: Probe, rest: seq<Probe>)
    ensures Hit(a, t, [first] + rest) == if rest == [] then 0 <= first.mid < |a| && a[first.mid] == t else Hit(a, t, rest)
  {
    if rest != [] {
      assert ([first] + rest)[|rest|] == rest[|rest| - 1];
    }
  }

  /** Some position of the window [left, right] holds t. */
  ghost predicate Within(a: seq<int>, t: int, left: int, right: int)
  {
    exists k :: left <= k <= right && 0 <= k < |a| && a[k] == t
  }

  /** On a sorted array the half the search drops cannot hold t. */
  lemma HalfDropped(a: seq<int>, t: int, left: int, right: int, mid: int)
    requires Sorted(a) && 0 <= left <= mid <= right < |a| && a[mid] != t
    ensures a[mid] < t ==> (Within(a, t, left, right) <==> Within(a, t, mid + 1, right))
    ensures a[mid] > t ==> (Within(a, t, left, right) <==> Within(a, t, left, mid - 1))
  {
    if Within(a, t, left, right) {
      var k :| left <= k <= right && 0 <= k < |a| && a[k] == t;
      if a[mid] < t {
        assert mid < k;
      } else {
        assert k < mid;
      }
    }
  }

  /** On a sorted array the window always holds every occurrence of t, so the
      search hits exactly when t is in the window it starts from. */
  lemma {:induction false} BisectionComplete(a: seq<int>, t: int, left: int, right: int)
    requires Sorted(a) && 0 <= left <= right + 1 <= |a|
    ensures Hit(a, t, Bisection(a, t, left, right)) <==> Within(a, t, left, right)
    decreases right - left + 1
  {
    if left <= right {
      var mid := Mid(left, right);
      var first := Probe(left, right, mid);
      if a[mid] == t {
        assert Bisection(a, t, left, right) == [first];
        assert Hit(a, t, [first]);
        assert left <= mid <= right && a[mid] == t;
      } else {
        HalfDropped(a, t, left, right, mid);
        var l', r' := if a[mid] < t then mid + 1 else left, if a[mid] < t then right else mid - 1;
        var rest := Bisection(a, t, l', r');
        assert Bisection(a, t, left, right) == [first] + rest;
        assert Within(a, t, left, right) == Within(a, t, l', r');
        BisectionComplete(a, t, l', r');
        BisectionStart(a, t, l', r');
        HitAfter(a, t, first, rest);
        assert Hit(a, t, [first] + rest) == (rest != [] && Hit(a, t, rest));
      }
    }
  }

  /** On a sorted array the search reports -1 exactly when t is absent, and
      otherwise an index holding t. */
  lemma LocatedComplete(a: seq<int>, t: int)
    requires Sorted(a)
    ensures Located(a, t) == -1 <==> t !in a
    ensures Located(a, t) != -1 ==> 0 <= Located(a, t) < |a| && a[Located(a, t)] == t
  {
    BisectionComplete(a, t, 0, |a| - 1);
    LocatedSound(a, t);
    if t in a {
      var k :| 0 <= k < |a| && a[k] == t;
      assert Within(a, t, 0, |a| - 1);
    }
  }

  /** Searching 5 in the initial array probes the middles 2, 4 and 3 and
      finds it at index 3. */
  lemma InitialExample()
    ensures Rounds(InitialArray, 5) == [Probe(0, 5, 2), Probe(3, 5, 4), Probe(3, 3, 3)]
    ensures Located(InitialArray, 5) == 3
  {
    var a := InitialArray;
    assert Bisection(a, 5, 3, 3) == [Probe(3, 3, 3)];
    assert Bisection(a, 5, 3, 5) == [Probe(3, 5, 4)] + Bisection(a, 5, 3, 3);
    assert Bisection(a, 5, 0, 5) == [Probe(0, 5, 2)] + Bisection(a, 5, 3, 5);
  }

  /** The search loop without its pauses: returns the rounds it makes and the
      index it reports. */
  method Bisect(a: seq<int>, t: int) returns (probes: seq<Probe>, index: int)
    ensures probes == Rounds(a, t)
    ensures index == Located(a, t)
  {
    var left, right := 0, |a| - 1;
    probes := [];
    while left <= right
      invariant 0 <= left <= right + 1 <= |a|
      invariant probes + Bisection(a, t, left, right) == Rounds(a, t)
      invariant probes != [] ==> 0 <= probes[|probes| - 1].mid < |a| && a[probes[|probes| - 1].mid] != t
      decreases right - left
    {
      var mid, hit, left', right' := Round(a, t, left, right);
      var rest := if hit then [] else Bisection(a, t, left', right');
      Assoc(probes, [Probe(left, right, mid)], rest);
      probes := probes + [Probe(left, right, mid)];
      if hit {
        assert probes + [] == probes;
        return probes, mid;
      }
      left, right := left', right';
    }
    assert probes + [] == probes;
    index := -1;
  }

  /** A round that misses goes on with the half on t's side of the middle. */
  lemma BisectionNext(a: seq<int>, t: int, left: int, right: int)
    requires 0 <= left <= right < |a| && a[Mid(left, right)] != t
    ensures var mid := Mid(left, right);
            && (a[mid] < t ==> Bisection(a, t, left, right) == [Probe(left, right, mid)] + Bisection(a, t, mid + 1, right))
            && (a[mid] > t ==> Bisection(a, t, left, right) == [Probe(left, right, mid)] + Bisection(a, t, left, mid - 1))
  {
  }

  /** One round of the search loop on a non-empty window: the middle it
      probes, whether that holds t, and the window left for the next round.
      On a miss that is the half on t's side of the middle; on a hit the
      search stops there, and the window returned is empty. */
  method Round(a: seq<int>, t: int, left: int, right: int) returns (mid: int, hit: bool, left': int, right': int)
    requires 0 <= left <= right < |a|
    ensures mid == Mid(left, right) && left <= mid <= right && (hit <==> a[mid] == t)
    ensures 0 <= left' <= right' + 1 <= |a| && right' - left' < right - left
    ensures hit ==> left' == right' + 1
    ensures hit ==> Bisection(a, t, left, right) == [Probe(left, right, mid)]
    ensures !hit ==> Bisection(a, t, left, right) == [Probe(left, right, mid)] + Bisection(a, t, left', right')
  {
    mid := Mid(left, right);
    hit := a[mid] == t;
    if hit {
      left', right' := mid, mid - 1;
    } else if a[mid] < t {
      left', right' := mid + 1, right;
      BisectionNext(a, t, left, right);
    } else {
      left', right' := left, mid - 1;
      BisectionNext(a, t, left, right);
    }
  }

  // ---------------------------------------------------------------------------
  // Sorted insertion
  // ---------------------------------------------------------------------------

  /** The first index whose element is not below v, or n when there is
      none. */
  function InsertionIndex(a: seq<int>, v: int): (p: nat)
    ensures p <= |a|
    ensures forall k :: 0 <= k < p ==> a[k] < v
    ensures p < |a| ==> v <= a[p]
  {
    if |a| == 0 || v <= a[0] then 0 else 1 + InsertionIndex(a[1..], v)
  }

  /** `a` with v spliced in at position p. */
  function Insert(a: seq<int>, p: nat, v: int): (r: seq<int>)
    requires p <= |a|
    ensures |r| == |a| + 1 && r[p] == v && r[..p] == a[..p] && r[p + 1..] == a[p..]
    ensures multiset(r) == multiset(a) + multiset{v}
  {
    assert a == a[..p] + a[p..];
    a[..p] + [v] + a[p..]
  }

  /** The loop that advances the insertion index past every element below
      v. */
  method InsertionPoint(a: seq<int>, v: int) returns (p: nat)
    ensures p == InsertionIndex(a, v)
  {
    p := 0;
    while p < |a| && a[p] < v
      invariant p <= |a|
      invariant forall k :: 0 <= k < p ==> a[k] < v
    {
      p := p + 1;
    }
    InsertionIndexUnique(a, v, p);
  }

  /** The three facts InsertionIndex ensures determine it. */
  lemma InsertionIndexUnique(a: seq<int>, v: int, p: nat)
    requires p <= |a| && (forall k :: 0 <= k < p ==> a[k] < v) && (p < |a| ==> v <= a[p])
    ensures p == InsertionIndex(a, v)
  {
    var q := InsertionIndex(a, v);
  }

  /** Inserting at the insertion index keeps a sorted array sorted. */
  lemma InsertKeepsSorted(a: seq<int>, v: int)
    requires Sorted(a)
    ensures Sorted(Insert(a, InsertionIndex(a, v), v))
  {
    var p := InsertionIndex(a, v);
    var r := Insert(a, p, v);
    forall x, y | 0 <= x < y < |r| ensures r[x] <= r[y] {
      if y < p {
        assert r[x] == a[x] && r[y] == a[y];
      } else if y == p {
        assert r[x] == a[x];
      } else if x < p {
        assert r[x] == a[x] && r[y] == a[y - 1];
      } else if x == p {
        assert r[y] == a[y - 1];
      } else {
        assert r[x] == a[x - 1] && r[y] == a[y - 1];
      }
    }
  }

  /** A number just added is found by the next search. */
  lemma AddThenSearch(a: seq<int>, v: int)
    requires Sorted(a)
    ensures var r := Insert(a, InsertionIndex(a, v), v); Located(r, v) != -1 && r[Located(r, v)] == v
  {
    var r := Insert(a, InsertionIndex(a, v), v);
    InsertKeepsSorted(a, v);
    LocatedComplete(r, v);
  }

  /** A number just removed is not found by the next search, and removal
      keeps the array sorted. */
  lemma RemoveThenSearch(a: seq<int>, t: int)
    requires Sorted(a)
    ensures Sorted(RemoveAll(a, t)) && Located(RemoveAll(a, t), t) == -1
  {
    RemoveAllKeepsSorted(a, t);
    LocatedComplete(RemoveAll(a, t), t);
  }

  // ---------------------------------------------------------------------------
  // The diagram
  // ---------------------------------------------------------------------------

  /** One node per element: highlighted at currentIndex, marked as the target
      when it is the highlighted one, the search has succeeded and its value is
      the number in the text field, and marked as a boundary at leftIndex and
      rightIndex while both are set. */
  function Nodes(values: seq<int>, currentIndex: int, leftIndex: int, rightIndex: int, field: Input, found: bool): (r: seq<Node>)
    ensures |r| == |values|
    ensures forall k :: 0 <= k < |r| ==> r[k].id == k && r[k].value == values[k]
    ensures forall k :: 0 <= k < |r| ==> !r[k].comparing && !r[k].sorted
  {
    seq(|values|, k requires 0 <= k < |values| =>
      Node(k, values[k], k == currentIndex, false,
           field.Entered? && values[k] == field.value && k == currentIndex && found, false,
           (k == leftIndex || k == rightIndex) && leftIndex != -1 && rightIndex != -1))
  }

  /** After a failed search no node is highlighted, marked or drawn as a
      boundary. */
  lemma MissedNodes(values: seq<int>, field: Input)
    ensures forall nd :: nd in Nodes(values, -1, -1, -1, field, false) ==>
              !nd.highlighted && !nd.target && !nd.boundary
  {
  }

  // ---------------------------------------------------------------------------
  // The panel
  // ---------------------------------------------------------------------------

  /** The panel's state. The search is one atomic update: its pauses are not
      modelled, so no other handler runs while `searching` is set. */
  class Panel {
    var values: seq<int>
    /** The text field. */
    var field: Input
    var currentIndex: int
    var leftIndex: int
    var rightIndex: int
    var found: bool
    var searching: bool
    var report: Report

    /** The array stays sorted: it starts sorted and only the sorted
        insertion and the removal change it. */
    ghost predicate Valid()
      reads this
    {
      Sorted(values)
    }

    constructor()
      ensures Valid() && values == InitialArray && field == Blank && !found && !searching && report == Silent
      ensures currentIndex == -1 && leftIndex == -1 && rightIndex == -1
    {
      values := InitialArray;
      field := Blank;
      currentIndex, leftIndex, rightIndex := -1, -1, -1;
      found, searching := false, false;
      report := Silent;
    }

    /** What the panel draws. */
    function View(): seq<Node>
      reads this
    {
      Nodes(values, currentIndex, leftIndex, rightIndex, field, found)
    }

    /** Typing into the text field. */
    method Enter(x: Input)
      requires Valid()
      modifies this
      ensures Valid() && field == x
      ensures values == old(values) && currentIndex == old(currentIndex) && found == old(found)
      ensures leftIndex == old(leftIndex) && rightIndex == old(rightIndex)
      ensures searching == old(searching) && report == old(report)
    {
      field := x;
    }

    /** Search: ignored when the field is blank or a search is running;
        otherwise makes the rounds of the search and ends either on the index
        found, with the last window as boundary, or with nothing highlighted
        and no boundary; found exactly when the number is in the array. */
    method Search() returns (probes: seq<Probe>)
      requires Valid()
      modifies this
      ensures Valid() && values == old(values) && field == old(field)
      ensures old(field).Blank? || old(searching) ==>
                && probes == [] && currentIndex == old(currentIndex) && found == old(found)
                && leftIndex == old(leftIndex) && rightIndex == old(rightIndex)
                && searching == old(searching) && report == old(report)
      ensures old(field).Entered? && !old(searching) ==>
                var t := old(field).value;
                && probes == Rounds(values, t) && !searching
                && (found <==> t in values)
                && (found ==> && currentIndex == Located(values, t)
                              && 0 <= currentIndex < |values| && values[currentIndex] == t
                              && leftIndex == probes[|probes| - 1].left && rightIndex == probes[|probes| - 1].right
                              && report == FoundAt(t, currentIndex))
                && (!found ==> currentIndex == -1 && leftIndex == -1 && rightIndex == -1 && report == Missing(t))
    {
      probes := [];
      if field.Blank? || searching {
        return;
      }
      searching, found, currentIndex, report := true, false, -1, Silent;
      leftIndex, rightIndex := 0, |values| - 1;
      var t := field.value;
      var index;
      probes, index := Bisect(values, t);
      LocatedComplete(values, t);
      if index != -1 {
        var last := probes[|probes| - 1];
        currentIndex, leftIndex, rightIndex := index, last.left, last.right;
        found, report := true, FoundAt(t, index);
      } else {
        currentIndex, leftIndex, rightIndex := -1, -1, -1;
        report := Missing(t);
      }
      searching := false;
    }

    /** Add: inserts the number before the first element not below it, so the
        array stays sorted, reports that index and clears the field; ignored
        when the field is blank or a search is running. */
    method Add()
      requires Valid()
      modifies this
      ensures Valid()
      ensures currentIndex == old(currentIndex) && found == old(found) && searching == old(searching)
      ensures leftIndex == old(leftIndex) && rightIndex == old(rightIndex)
      ensures old(field).Blank? || old(searching) ==> values == old(values) && field == old(field) && report == old(report)
      ensures old(field).Entered? && !old(searching) ==>
                var v := old(field).value;
                && values == Insert(old(values), InsertionIndex(old(values), v), v) && field == Blank
                && report == AddedAt(v, InsertionIndex(old(values), v))
    {
      if field.Entered? && !searching {
        var v := field.value;
        var p := InsertionPoint(values, v);
        InsertKeepsSorted(values, v);
        values := Insert(values, p, v);
        report := AddedAt(v, p);
        field := Blank;
      }
    }

    /** Remove: deletes every occurrence of the number and reports the index
        of the first one, or reports it absent and leaves the array as it is;
        clears the field. Ignored when the field is blank or a search is
        running. */
    method Remove()
      requires Valid()
      modifies this
      ensures Valid()
      ensures currentIndex == old(currentIndex) && found == old(found) && searching == old(searching)
      ensures leftIndex == old(leftIndex) && rightIndex == old(rightIndex)
      ensures old(field).Blank? || old(searching) ==> values == old(values) && field == old(field) && report == old(report)
      ensures old(field).Entered? && !old(searching) ==>
                var t := old(field).value;
                && values == RemoveAll(old(values), t) && field == Blank
                && report == (if t in old(values) then RemovedFrom(t, IndexOf(old(values), t)) else Absent(t))
    {
      if field.Entered? && !searching {
        var t := field.value;
        var index := IndexOf(values, t);
        if index != -1 {
          RemoveAllKeepsSorted(values, t);
          values := RemoveAll(values, t);
          report := RemovedFrom(t, index);
        } else {
          report := Absent(t);
        }
        field := Blank;
      }
    }
  }
}
