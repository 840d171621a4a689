/** The expectations of honlib/tests/data_structures/test_linked_list.py:
    each method builds a fresh list, makes the test's calls and returns what
    the test inspects. */
module ScenarioRuns {
  import opened Wrappers
  import opened LinkedLists

  /** Appending 1, 2, 3 to a linked list links all three, in order. */
  method LinkedListInOrder() returns (r: seq<Option<int>>)
    ensures r == [Some(1), Some(2), Some(3)]
  {
    var ll := new LinkedList<int>();
    ll.Append(Some(1));
    ll.Append(Some(2));
    ll.Append(Some(3));
    r := ll.ToTuple();
  }

  /** Appending 1, 2, 3 to a doubly linked list and walking it backwards
      yields 3, 2, 1. */
  method DoublyLinkedListBackwards() returns (r: Result<seq<Option<int>>>)
    ensures r == Ok([Some(3), Some(2), Some(1)])
  {
    var dl := new DoublyLinkedList<int>();
    dl.Append(Some(1));
    dl.Append(Some(2));
    dl.Append(Some(3));
    assert dl.prev[0] == NoPrev && dl.list.values == [Some(1), Some(2), Some(3)];
    r := dl.Reversed();
    assert r.Ok? && |r.value| == 3;
    assert r.value[0] == Some(3) && r.value[1] == Some(2) && r.value[2] == Some(1);
    assert r.value == [Some(3), Some(2), Some(1)];
  }
}
