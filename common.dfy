/** Definitions shared by the visualizer's components: the number typed into a
    component's text field, the seed array, the node descriptor handed to the
    diagram, and the array operations several components use. */
module Common {

  /** The text field a component reads a number from: left blank (the handlers
      do nothing), or holding a number. */
  datatype Input = Blank | Entered(value: int)

  /** The array the three sort visualizers and the array demo start from and
      return to on Reset. */
  const DefaultArray: seq<int> := [64, 34, 25, 12, 22, 11, 90]

  /** Node descriptor for the diagram: id is the element's position and value
      the element itself; a flag a component does not set is false. */
  datatype Node = Node(id: nat, value: int, highlighted: bool, comparing: bool, target: bool, sorted: bool, boundary: bool)

  /** The message line of the search panels, reduced to the numbers it quotes:
      nothing yet, a value found at an index, a value not found, a value added
      at an index, a value removed from the index of its first occurrence, a
      value to remove that is absent. */
  datatype Report = Silent | FoundAt(target: int, index: int) | Missing(target: int)
                  | AddedAt(value: int, index: int) | RemovedFrom(target: int, index: int) | Absent(target: int)

  predicate Sorted(s: seq<int>)
  {
    forall x, y :: 0 <= x < y < |s| ==> s[x] <= s[y]
  }

  /** `a` with positions i and j exchanged. */
  function Exchanged(a: seq<int>, i: nat, j: nat): (r: seq<int>)
    requires i < |a| && j < |a|
    ensures |r| == |a| && r[i] == a[j] && r[j] == a[i]
    ensures forall k :: 0 <= k < |a| && k != i && k != j ==> r[k] == a[k]
    ensures multiset(r) == multiset(a)
  {
    a[i := a[j]][j := a[i]]
  }

  /** Array.prototype.indexOf: the first position holding t, or -1. */
  function IndexOf(a: seq<int>, t: int): (r: int)
    ensures -1 <= r < |a|
    ensures r == -1 <==> t !in a
    ensures r >= 0 ==> a[r] == t && forall k :: 0 <= k < r ==> a[k] != t
  {
    if |a| == 0 then -1
    else if a[0] == t then 0
    else
      var r := IndexOf(a[1..], t);
      assert t in a[1..] ==> t in a;
      assert forall x :: x in a && x != a[0] ==> x in a[1..];
      if r == -1 then -1 else r + 1
  }

  /** The filter `a.filter(x => x !== t)`: every occurrence of t removed. */
  function RemoveAll(a: seq<int>, t: int): (r: seq<int>)
    ensures t !in r
    ensures forall x :: x in r <==> x in a && x != t
    ensures multiset(r) == multiset(a)[t := 0]
    ensures t !in a ==> r == a
  {
    if |a| == 0 then []
    else
      assert a == [a[0]] + a[1..];
      (if a[0] == t then [] else [a[0]]) + RemoveAll(a[1..], t)
  }

  /** Filtering distributes over concatenation, so the elements that stay keep
      their relative order. */
  lemma {:induction false} RemoveAllDistributes(a: seq<int>, b: seq<int>, t: int)
    ensures RemoveAll(a + b, t) == RemoveAll(a, t) + RemoveAll(b, t)
  {
    if |a| == 0 {
      assert a + b == b;
    } else {
      var head := if a[0] == t then [] else [a[0]];
      assert (a + b)[0] == a[0] && (a + b)[1..] == a[1..] + b;
      RemoveAllDistributes(a[1..], b, t);
      assert RemoveAll(a + b, t) == head + RemoveAll(a[1..] + b, t);
      assert RemoveAll(a, t) == head + RemoveAll(a[1..], t);
      Assoc(head, RemoveAll(a[1..], t), RemoveAll(b, t));
    }
  }

  /** Removing every occurrence of a value keeps a sorted array sorted. */
  lemma {:induction false} RemoveAllKeepsSorted(a: seq<int>, t: int)
    requires Sorted(a)
    ensures Sorted(RemoveAll(a, t))
  {
    if |a| > 0 {
      RemoveAllKeepsSorted(a[1..], t);
      var rest := RemoveAll(a[1..], t);
      var r := RemoveAll(a, t);
      if a[0] != t {
        assert r == [a[0]] + rest;
        forall x, y | 0 <= x < y < |r| ensures r[x] <= r[y] {
          if x == 0 {
            assert r[y] == rest[y - 1] && rest[y - 1] in a[1..];
          } else {
            assert r[x] == rest[x - 1] && r[y] == rest[y - 1];
          }
        }
      } else {
        assert r == rest;
      }
    }
  }

  /** Concatenation is associative; the generators' loop invariants regroup
      "steps so far + steps still to come" with it. */
  lemma Assoc<T>(a: seq<T>, b: seq<T>, c: seq<T>)
    ensures (a + b) + c == a + (b + c)
  {
  }

  /** Comparisons made by passes i .. n-2 of a sort whose pass k makes n-1-k
      of them. */
  function ComparesFrom(n: int, i: nat): nat
    decreases n - i
  {
    if i + 1 >= n then 0 else (n - 1 - i) + ComparesFrom(n, i + 1)
  }

  lemma {:induction false} ComparesFromTotal(n: int, i: nat)
    requires i <= n
    ensures 2 * ComparesFrom(n, i) == (n - i) * (n - i - 1)
    decreases n - i
  {
    if i + 1 < n {
      ComparesFromTotal(n, i + 1);
      var d := n - i;
      assert 2 * (d - 1) + (d - 1) * (d - 2) == d * (d - 1);
    }
  }
}
