/** honlib/data_structures/linked_list.py: a sentinel-headed chain of values
    that skips a value equal to the last one, and a doubly linked variant
    that can be walked backwards along `prev` links.

    The nodes after the sentinel are kept as the sequence `values`, in chain
    order; node 0 is the sentinel and node k >= 1 holds `values[k-1]`.
    `first` never moves away from the sentinel, so every node is live. A
    node's value may itself be None: only the sentinel's None is implicit. */
module LinkedLists {
  import opened Wrappers

  /** `s` backwards. */
  function Reverse<T>(s: seq<T>): (r: seq<T>)
    ensures |r| == |s|
    ensures forall i :: 0 <= i < |s| ==> r[i] == s[|s| - 1 - i]
  {
    if s == [] then [] else Reverse(s[1..]) + [s[0]]
  }

  /** `LinkedList`. */
  class LinkedList<T(==)> {
    /** The values of the nodes after the sentinel, in chain order. */
    var values: seq<Option<T>>

    /** A fresh list holds only its sentinel. */
    constructor ()
      ensures values == [] && ToTuple() == [] && !IsNonEmpty() && LastValue() == None
      ensures NoRepeats()
    {
      values := [];
    }

    /** `__iter__` and `to_tuple`: the values of the nodes after the
        sentinel, oldest first. */
    function ToTuple(): (r: seq<Option<T>>)
      reads this
      ensures |r| == |values| && forall i :: 0 <= i < |r| ==> r[i] == values[i]
    {
      values
    }

    /** `__bool__`, i.e. `first != last`. */
    function IsNonEmpty(): (b: bool)
      reads this
      ensures b <==> ToTuple() != []
    {
      values != []
    }

    /** `get_last_value`: the value at `last`, the sentinel's None when the
        list is empty. */
    function LastValue(): (r: Option<T>)
      reads this
      ensures values == [] ==> r == None
      ensures values != [] ==> r == values[|values| - 1]
    {
      if values == [] then None else values[|values| - 1]
    }

    /** `append`: link a node holding `v` unless `v` equals the value at
        `last`; so None is never linked into an empty list, and no two
        neighbouring values are equal once they are. */
    method Append(v: Option<T>)
      modifies this
      ensures values == if v != old(LastValue()) then old(values) + [v] else old(values)
      ensures LastValue() == v
      ensures IsNonEmpty() <==> old(IsNonEmpty()) || v.Some?
      ensures old(NoRepeats()) ==> NoRepeats()
    {
      if v != LastValue() {
        values := values + [v];
      }
    }

    /** No value equals its predecessor, the first one counting the
        sentinel's None as its predecessor. */
    ghost predicate NoRepeats()
      reads this
    {
      (values != [] ==> values[0].Some?) &&
      forall i :: 0 < i < |values| ==> values[i] != values[i - 1]
    }

    /** `clear`: a fresh sentinel becomes both `first` and `last`. */
    method Clear()
      modifies this
      ensures values == [] && ToTuple() == [] && !IsNonEmpty() && LastValue() == None
      ensures NoRepeats()
    {
      values := [];
    }
  }

  /** What a node's `prev` attribute holds: a node, None, or nothing at all
      (a plain `Node`, which `clear` uses for the new sentinel, has no
      `prev` attribute). */
  datatype Prev = NoAttribute | NoPrev | PrevNode(k: nat)

  /** `DoublyLinkedList`: the list with a `prev` link per node. */
  class DoublyLinkedList<T(==)> {
    const list: LinkedList<T>
    /** `prev[k]` is the `prev` attribute of node `k`. */
    var prev: seq<Prev>

    /** Every node after the sentinel points back at its predecessor; the
        sentinel has no predecessor. */
    ghost predicate Valid()
      reads this, list
    {
      |prev| == |list.values| + 1 &&
      !prev[0].PrevNode? &&
      forall k :: 0 < k < |prev| ==> prev[k] == PrevNode(k - 1)
    }

    /** The sentinel comes from `node_class`, so it has a `prev` of None. */
    constructor ()
      ensures Valid() && fresh(list) && list.values == [] && prev == [NoPrev]
    {
      list := new LinkedList();
      prev := [NoPrev];
    }

    /** `append`: as the list's `append`, and the new node's `prev` is the
        old `last`. */
    method Append(v: Option<T>)
      requires Valid()
      modifies this, list
      ensures Valid() && prev[0] == old(prev[0])
      ensures list.values == if v != old(list.LastValue()) then old(list.values) + [v] else old(list.values)
      ensures list.LastValue() == v
      ensures old(list.NoRepeats()) ==> list.NoRepeats()
    {
      if v != list.LastValue() {
        prev := prev + [PrevNode(|list.values|)];
        list.values := list.values + [v];
      }
    }

    /** The inherited `clear`: its new sentinel is a plain `Node`, without a
        `prev` attribute. */
    method Clear()
      requires Valid()
      modifies this, list
      ensures Valid() && list.values == [] && prev == [NoAttribute]
    {
      list.Clear();
      prev := [NoAttribute];
    }

    /** `__reversed__`: walk from `last` along `prev` while there is one,
        yielding each node before stepping back. The sentinel is never
        yielded. When the sentinel came from `clear`, reading its `prev`
        raises AttributeError, after every other node has been yielded. */
    method Reversed() returns (r: Result<seq<Option<T>>>)
      requires Valid()
      ensures r.Err? <==> prev[0] == NoAttribute
      ensures r.Ok? ==> |r.value| == |list.values|
      ensures r.Ok? ==> forall i :: 0 <= i < |r.value| ==> r.value[i] == list.values[|list.values| - 1 - i]
    {
      var node: nat := |list.values|;
      var yielded: seq<Option<T>> := [];
      while prev[node].PrevNode?
        invariant Valid() && node <= |list.values|
        invariant |yielded| == |list.values| - node
        invariant forall i :: 0 <= i < |yielded| ==> yielded[i] == list.values[|list.values| - 1 - i]
        decreases node
      {
        yielded := yielded + [list.values[node - 1]];
        node := prev[node].k;
      }
      if prev[node].NoAttribute? {
        return Err("AttributeError: 'Node' object has no attribute 'prev'");
      }
      return Ok(yielded);
    }
  }

  /** Reversing the chain and reversing its `to_tuple` agree, and reversing
      again restores `to_tuple`. */
  lemma ReversedIsToTupleBackwards<T>(values: seq<Option<T>>, yielded: seq<Option<T>>)
    requires |yielded| == |values|
    requires forall i :: 0 <= i < |yielded| ==> yielded[i] == values[|values| - 1 - i]
    ensures yielded == Reverse(values) && Reverse(yielded) == values
  {
  }
}
