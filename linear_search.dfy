/** The linear search panel: a search that probes the array from the left and
    stops at the first match, and the edits that append a value and remove
    every occurrence of one. */
module LinearSearch {
  import opened Common

  /** The array the panel starts with. */
  const InitialArray: seq<int> := [4, 2, 7, 1, 9, 5]

  // ---------------------------------------------------------------------------
  // The search
  // ---------------------------------------------------------------------------

  /** The indices the search highlights, from position i on: each index in
      turn, up to and including the first that holds t. */
  function Probes(a: seq<int>, t: int, i: nat): seq<int>
    decreases |a| - i
  {
    if i >= |a| then []
    else if a[i] == t then [i]
    else [i] + Probes(a, t, i + 1)
  }

  /** The probes from i are i, i+1, ... in order; each but the last misses,
      and the last either holds t or is the last index. */
  lemma {:induction false} ProbesFrom(a: seq<int>, t: int, i: nat)
    requires i <= |a|
    ensures var p := Probes(a, t, i);
            && i + |p| <= |a| && (|p| == 0 <==> i == |a|)
            && (forall k :: 0 <= k < |p| ==> p[k] == i + k)
            && (forall k :: i <= k < i + |p| - 1 ==> a[k] != t)
            && (|p| > 0 ==> a[i + |p| - 1] == t || i + |p| == |a|)
    decreases |a| - i
  {
    if i < |a| && a[i] != t {
      ProbesFrom(a, t, i + 1);
      assert Probes(a, t, i) == [i] + Probes(a, t, i + 1);
    }
  }

  /** The search probes 0, 1, 2, ...: it stops at the first index holding t,
      and probes all n indices only when t is absent (or first found at the
      last one). */
  lemma ProbesOrder(a: seq<int>, t: int)
    ensures var p := Probes(a, t, 0);
            && (forall k :: 0 <= k < |p| ==> p[k] == k)
            && |p| == (if t in a then IndexOf(a, t) + 1 else |a|)
  {
    ProbesFrom(a, t, 0);
    var p := Probes(a, t, 0);
    if t in a {
      var r := IndexOf(a, t);
      assert 0 <= r < |a| && a[r] == t;
      assert r >= |p| - 1;
    } else if |p| > 0 {
      assert a[|p| - 1] in a;
    }
  }

  /** The search loop without its pauses: returns the indices it highlights
      in turn and the index it reports, -1 when t is not found. */
  method Scan(a: seq<int>, t: int) returns (probes: seq<int>, index: int)
    ensures probes == Probes(a, t, 0)
    ensures index == IndexOf(a, t)
  {
    probes := [];
    var i := 0;
    while i < |a|
      invariant 0 <= i <= |a|
      invariant probes + Probes(a, t, i) == Probes(a, t, 0)
      invariant forall k :: 0 <= k < i ==> a[k] != t
    {
      probes := probes + [i];
      if a[i] == t {
        assert Probes(a, t, i) == [i];
        return probes, i;
      }
      assert Probes(a, t, i) == [i] + Probes(a, t, i + 1);
      Assoc(probes[..|probes| - 1], [i], Probes(a, t, i + 1));
      i := i + 1;
    }
    assert probes + [] == probes;
    index := -1;
  }

  /** Searching 9 in the initial array probes indices 0 to 4 and finds it at
      4. */
  lemma FoundExample()
    ensures Probes(InitialArray, 9, 0) == [0, 1, 2, 3, 4] && IndexOf(InitialArray, 9) == 4
  {
    assert InitialArray[4] == 9;
    ProbesOrder(InitialArray, 9);
  }

  /** Searching 99 in the initial array probes all six indices and does not
      find it. */
  lemma MissingExample()
    ensures Probes(InitialArray, 99, 0) == [0, 1, 2, 3, 4, 5] && IndexOf(InitialArray, 99) == -1
  {
    ProbesOrder(InitialArray, 99);
  }

  // ---------------------------------------------------------------------------
  // The edits
  // ---------------------------------------------------------------------------

  /** Appending keeps every element where it was and puts v at the old
      length. */
  lemma AppendKeeps(a: seq<int>, v: int)
    ensures var r := a + [v];
            |r| == |a| + 1 && r[..|a|] == a && r[|a|] == v && multiset(r) == multiset(a) + multiset{v}
  {
    assert (a + [v])[..|a|] == a;
  }

  /** Removing t takes out every occurrence and only those: nothing else is
      lost and the rest keep their order; an absent t changes nothing. */
  lemma RemoveKeeps(a: seq<int>, t: int, i: nat)
    requires i <= |a|
    ensures RemoveAll(a, t) == RemoveAll(a[..i], t) + RemoveAll(a[i..], t)
    ensures IndexOf(a, t) == -1 <==> RemoveAll(a, t) == a
  {
    assert a == a[..i] + a[i..];
    RemoveAllDistributes(a[..i], a[i..], t);
    if IndexOf(a, t) != -1 {
      assert t in a && t !in RemoveAll(a, t);
    }
  }

  // ---------------------------------------------------------------------------
  // The diagram
  // ---------------------------------------------------------------------------

  /** One node per element: highlighted at currentIndex, and marked as the
      target when it is the highlighted one, the search has succeeded and its
      value is the number in the text field. */
  function Nodes(values: seq<int>, currentIndex: int, field: Input, found: bool): (r: seq<Node>)
    ensures |r| == |values|
    ensures forall k :: 0 <= k < |r| ==> r[k].id == k && r[k].value == values[k]
    ensures forall k :: 0 <= k < |r| ==> !r[k].comparing && !r[k].sorted && !r[k].boundary
  {
    seq(|values|, k requires 0 <= k < |values| =>
      Node(k, values[k], k == currentIndex, false,
           field.Entered? && values[k] == field.value && k == currentIndex && found, false, false))
  }

  /** After a successful search for t exactly the node at the first
      occurrence of t is highlighted and marked as the target; after a failed
      one no node is. */
  lemma SearchedNodes(values: seq<int>, t: int)
    ensures var i := IndexOf(values, t);
            var ns := Nodes(values, i, Entered(t), i != -1);
            forall k :: 0 <= k < |ns| ==> (ns[k].target <==> k == i) && (ns[k].highlighted <==> k == i)
  {
  }

  // ---------------------------------------------------------------------------
  // The panel
  // ---------------------------------------------------------------------------

  /** The panel's state. The search is one atomic update: its pauses are not
      modelled, so no other handler runs while `searching` is set. */
  class Panel {
    var values: seq<int>
    /** The text field. */
    var field: Input
    var currentIndex: int
    var found: bool
    var searching: bool
    var report: Report

    constructor()
      ensures values == InitialArray && field == Blank && currentIndex == -1 && !found && !searching
      ensures report == Silent
    {
      values := InitialArray;
      field := Blank;
      currentIndex, found, searching := -1, false, false;
      report := Silent;
    }

    /** What the panel draws. */
    function View(): seq<Node>
      reads this
    {
      Nodes(values, currentIndex, field, found)
    }

    /** Typing into the text field. */
    method Enter(x: Input)
      modifies this
      ensures field == x
      ensures values == old(values) && currentIndex == old(currentIndex) && found == old(found)
      ensures searching == old(searching) && report == old(report)
    {
      field := x;
    }

    /** Search: ignored when the field is blank or a search is running;
        otherwise highlights the indices in turn and ends on the first one
        holding the number (found), or with nothing highlighted (not found).
        The array and the field are kept. */
    method Search() returns (probes: seq<int>)
      modifies this
      ensures values == old(values) && field == old(field)
      ensures old(field).Blank? || old(searching) ==>
                probes == [] && currentIndex == old(currentIndex) && found == old(found)
                && searching == old(searching) && report == old(report)
      ensures old(field).Entered? && !old(searching) ==>
                var t := old(field).value;
                && probes == Probes(values, t, 0)
                && currentIndex == IndexOf(values, t) && (found <==> t in values) && !searching
                && report == (if found then FoundAt(t, currentIndex) else Missing(t))
    {
      probes := [];
      if field.Blank? || searching {
        return;
      }
      searching, found, currentIndex, report := true, false, -1, Silent;
      var t := field.value;
      var index;
      probes, index := Scan(values, t);
      if index != -1 {
        currentIndex, found, report := index, true, FoundAt(t, index);
      } else {
        currentIndex, report := -1, Missing(t);
      }
      searching := false;
    }

    /** Add: appends the number at the end, reports the index it lands at,
        and clears the field; ignored when the field is blank or a search is
        running. */
    method Add()
      modifies this
      ensures currentIndex == old(currentIndex) && found == old(found) && searching == old(searching)
      ensures old(field).Blank? || old(searching) ==> values == old(values) && field == old(field) && report == old(report)
      ensures old(field).Entered? && !old(searching) ==>
                && values == old(values) + [old(field).value] && field == Blank
                && report == AddedAt(old(field).value, |old(values)|)
    {
      if field.Entered? && !searching {
        report := AddedAt(field.value, |values|);
        values := values + [field.value];
        field := Blank;
      }
    }

    /** Remove: deletes every occurrence of the number and reports the index
        of the first one, or reports it absent and leaves the array as it is;
        clears the field. Ignored when the field is blank or a search is
        running. */
    method Remove()
      modifies this
      ensures currentIndex == old(currentIndex) && found == old(found) && searching == old(searching)
      ensures old(field).Blank? || old(searching) ==> values == old(values) && field == old(field) && report == old(report)
      ensures old(field).Entered? && !old(searching) ==>
                var t := old(field).value;
                && values == RemoveAll(old(values), t) && field == Blank
                && report == (if t in old(values) then RemovedFrom(t, IndexOf(old(values), t)) else Absent(t))
    {
      if field.Entered? && !searching {
        var t := field.value;
        var index := IndexOf(values, t);
        if index != -1 {
          values := RemoveAll(values, t);
          report := RemovedFrom(t, index);
        } else {
          report := Absent(t);
        }
        field := Blank;
      }
    }
  }
}
