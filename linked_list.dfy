/** The linked-list demo: a list of numbers that grows at the tail and shrinks
    from the tail, drawn as one node per element joined head to tail by
    arrows. Every handler replaces the whole state, so the demo is a set of
    functions from one state to the next. */
module LinkedList {
  import opened Common

  /** The message line, reduced to what it says. */
  datatype Message = Quiet | Added(value: int) | RemovedLast | Cleared

  /** The demo's state: the list, the text field and the message line. */
  datatype Demo = Demo(list: seq<int>, field: Input, result: Message)

  /** The demo starts with an empty list. */
  const Initial: Demo := Demo([], Blank, Quiet)

  /** Typing into the text field. */
  function Enter(d: Demo, x: Input): (r: Demo)
    ensures r.field == x && r.list == d.list && r.result == d.result
  {
    d.(field := x)
  }

  /** Add Node: appends the number at the tail and clears the field; ignored
      when the field is blank. */
  function Add(d: Demo): (r: Demo)
    ensures d.field.Blank? ==> r == d
    ensures d.field.Entered? ==>
              && |r.list| == |d.list| + 1 && r.list[..|d.list|] == d.list
              && r.list[|d.list|] == d.field.value
              && r.field == Blank && r.result == Added(d.field.value)
  {
    if d.field.Entered? then Demo(d.list + [d.field.value], Blank, Added(d.field.value))
    else d
  }

  /** Remove Last: drops the tail element and leaves the field alone; ignored
      when the list is empty. */
  function RemoveLast(d: Demo): (r: Demo)
    ensures |d.list| == 0 ==> r == d
    ensures |d.list| > 0 ==>
              && |r.list| == |d.list| - 1 && d.list == r.list + [d.list[|d.list| - 1]]
              && r.field == d.field && r.result == RemovedLast
  {
    if |d.list| > 0 then d.(list := d.list[..|d.list| - 1], result := RemovedLast)
    else d
  }

  /** Reset: empties the list and the field. */
  function Reset(d: Demo): (r: Demo)
    ensures r.list == [] && r.field == Blank && r.result == Cleared
    ensures Nodes(r.list) == [] && Edges(r.list) == []
  {
    Demo([], Blank, Cleared)
  }

  /** Removing the tail undoes adding it. */
  lemma AddThenRemove(d: Demo)
    requires d.field.Entered?
    ensures RemoveLast(Add(d)).list == d.list
  {
    assert (d.list + [d.field.value])[..|d.list|] == d.list;
  }

  /** Adding back the element just removed restores the list. */
  lemma RemoveThenAdd(d: Demo)
    requires |d.list| > 0
    ensures Add(Enter(RemoveLast(d), Entered(d.list[|d.list| - 1]))).list == d.list
  {
    assert d.list[..|d.list| - 1] + [d.list[|d.list| - 1]] == d.list;
  }

  // ---------------------------------------------------------------------------
  // The diagram
  // ---------------------------------------------------------------------------

  /** A node of the diagram: its id is its index, its label the element. */
  datatype Cell = Cell(id: nat, value: int)

  /** An arrow from one node to another, named by their ids. */
  datatype Edge = Edge(source: nat, target: nat)

  /** One node per element. */
  function Nodes(list: seq<int>): (r: seq<Cell>)
    ensures |r| == |list|
    ensures forall k :: 0 <= k < |r| ==> r[k].id == k && r[k].value == list[k]
  {
    seq(|list|, k requires 0 <= k < |list| => Cell(k, list[k]))
  }

  /** One arrow per element but the last, from that element's node to the
      next one. */
  function Edges(list: seq<int>): (r: seq<Edge>)
    ensures |r| == if |list| == 0 then 0 else |list| - 1
    ensures forall k :: 0 <= k < |r| ==> r[k] == Edge(k, k + 1)
  {
    var n := if |list| == 0 then 0 else |list| - 1;
    seq(n, k requires 0 <= k < n => Edge(k, k + 1))
  }

  /** How many arrows leave node k. */
  function OutDegree(edges: seq<Edge>, k: int): nat
  {
    if edges == [] then 0
    else OutDegree(edges[..|edges| - 1], k) + (if edges[|edges| - 1].source == k then 1 else 0)
  }

  /** How many arrows enter node k. */
  function InDegree(edges: seq<Edge>, k: int): nat
  {
    if edges == [] then 0
    else InDegree(edges[..|edges| - 1], k) + (if edges[|edges| - 1].target == k then 1 else 0)
  }

  /** Arrows that go from each index to the next: node k has one arrow out
      when it is not past the end of the chain, and one arrow in when it is
      neither the head nor past the end. */
  lemma {:induction false} StepDegrees(edges: seq<Edge>, k: int)
    requires forall j :: 0 <= j < |edges| ==> edges[j] == Edge(j, j + 1)
    ensures OutDegree(edges, k) == if 0 <= k < |edges| then 1 else 0
    ensures InDegree(edges, k) == if 1 <= k <= |edges| then 1 else 0
  {
    if edges != [] {
      var m := |edges| - 1;
      var front := edges[..m];
      assert forall j :: 0 <= j < |front| ==> front[j] == edges[j];
      StepDegrees(front, k);
      assert edges[m] == Edge(m, m + 1);
    }
  }

  /** The arrows form a single chain from the head to the tail: every node
      but the tail has exactly one arrow out, every node but the head exactly
      one arrow in, the tail none out and the head none in. */
  lemma Chain(list: seq<int>, k: nat)
    requires k < |list|
    ensures OutDegree(Edges(list), k) == if k < |list| - 1 then 1 else 0
    ensures InDegree(Edges(list), k) == if k > 0 then 1 else 0
  {
    StepDegrees(Edges(list), k);
  }

  /** Adding a node to a non-empty list adds exactly one arrow, from the old
      tail to the new node; the arrows already drawn stay. */
  lemma AddExtendsChain(d: Demo)
    requires d.field.Entered? && |d.list| > 0
    ensures Edges(Add(d).list) == Edges(d.list) + [Edge(|d.list| - 1, |d.list|)]
  {
  }

  /** Removing the tail of a list of two or more removes exactly the last
      arrow. */
  lemma RemoveShortensChain(d: Demo)
    requires |d.list| > 1
    ensures Edges(RemoveLast(d).list) + [Edge(|d.list| - 2, |d.list| - 1)] == Edges(d.list)
  {
  }
}
