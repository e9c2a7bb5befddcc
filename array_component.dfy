/** The array demo: an array that grows at the end, shrinks from the end and
    resets to the default array, drawn as one plain node per element. Every
    handler replaces the whole state, so the demo is a set of functions from
    one state to the next. */
module ArrayComponent {
  import opened Common

  /** The message line, reduced to what it says. */
  datatype Message = Quiet | Added(value: int) | RemovedLast | Restored

  /** The demo's state: the array, the text field and the message line. */
  datatype Demo = Demo(values: seq<int>, field: Input, result: Message)

  /** The demo starts with the default array. */
  const Initial: Demo := Demo(DefaultArray, Blank, Quiet)

  /** Typing into the text field. */
  function Enter(d: Demo, x: Input): (r: Demo)
    ensures r.field == x && r.values == d.values && r.result == d.result
  {
    d.(field := x)
  }

  /** Add: appends the number at the end and clears the field; ignored when
      the field is blank. */
  function Add(d: Demo): (r: Demo)
    ensures d.field.Blank? ==> r == d
    ensures d.field.Entered? ==>
              && |r.values| == |d.values| + 1 && r.values[..|d.values|] == d.values
              && r.values[|d.values|] == d.field.value
              && r.field == Blank && r.result == Added(d.field.value)
  {
    if d.field.Entered? then Demo(d.values + [d.field.value], Blank, Added(d.field.value))
    else d
  }

  /** Remove: drops the last element and leaves the field alone; ignored when
      the array is empty. */
  function RemoveLast(d: Demo): (r: Demo)
    ensures |d.values| == 0 ==> r == d
    ensures |d.values| > 0 ==>
              && |r.values| == |d.values| - 1 && d.values == r.values + [d.values[|d.values| - 1]]
              && r.field == d.field && r.result == RemovedLast
  {
    if |d.values| > 0 then d.(values := d.values[..|d.values| - 1], result := RemovedLast)
    else d
  }

  /** Reset: back to the seven-element default array, with the field
      cleared, whatever came before. */
  function Reset(d: Demo): (r: Demo)
    ensures r.values == [64, 34, 25, 12, 22, 11, 90] && r.field == Blank && r.result == Restored
    ensures r.values == Initial.values && |Nodes(r.values)| == 7
  {
    Demo(DefaultArray, Blank, Restored)
  }

  /** Removing the last element undoes adding it. */
  lemma AddThenRemove(d: Demo)
    requires d.field.Entered?
    ensures RemoveLast(Add(d)).values == d.values
  {
    assert (d.values + [d.field.value])[..|d.values|] == d.values;
  }

  /** Adding back the element just removed restores the array. */
  lemma RemoveThenAdd(d: Demo)
    requires |d.values| > 0
    ensures Add(Enter(RemoveLast(d), Entered(d.values[|d.values| - 1]))).values == d.values
  {
    assert d.values[..|d.values| - 1] + [d.values[|d.values| - 1]] == d.values;
  }

  /** One node per element, labelled with it and never highlighted, compared
      or marked sorted. */
  function Nodes(values: seq<int>): (r: seq<Node>)
    ensures |r| == |values|
    ensures forall k :: 0 <= k < |r| ==> r[k].id == k && r[k].value == values[k]
    ensures forall k :: 0 <= k < |r| ==> !r[k].highlighted && !r[k].comparing && !r[k].sorted
  {
    seq(|values|, k requires 0 <= k < |values| => Node(k, values[k], false, false, false, false, false))
  }

  /** Adding keeps every node already drawn and draws one more for the new
      element. */
  lemma AddKeepsNodes(d: Demo)
    requires d.field.Entered?
    ensures var r := Nodes(Add(d).values);
            r == Nodes(d.values) + [Node(|d.values|, d.field.value, false, false, false, false, false)]
  {
  }
}
