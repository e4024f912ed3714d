/** Doubly linked lists of distinct nodes, as sequences. */
module Lists {

  ghost predicate NoRepeats<T>(list: seq<T>) {
    forall i, j :: 0 <= i < j < |list| ==> list[i] != list[j]
  }

  /** RemoveEntryList. */
  function Without<T(==)>(list: seq<T>, x: T): seq<T> {
    if list == [] then [] else if list[0] == x then list[1..] else [list[0]] + Without(list[1..], x)
  }

  lemma {:induction false} WithoutFacts<T>(list: seq<T>, x: T)
    requires NoRepeats(list)
    ensures NoRepeats(Without(list, x))
    ensures forall y :: y in Without(list, x) <==> y in list && y != x
    ensures |Without(list, x)| == if x in list then |list| - 1 else |list|
  {
    if list != [] {
      WithoutFacts(list[1..], x);
      assert forall y :: y in list <==> y == list[0] || y in list[1..];
      assert list[0] !in list[1..];
    }
  }
}
