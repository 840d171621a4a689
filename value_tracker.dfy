/** The base value tracker of honlib/value_tracker.py: a sentinel-headed chain
    of (time, value) nodes with `first` and `last` pointers, and the pruning
    rule that the windowed variants apply to it.

    The chain is kept as the sequence `entries` of the nodes after the
    sentinel, oldest first, and `first` is a node index: node 0 is the
    sentinel (time -inf, value None) and node k >= 1 is `entries[k-1]`.
    `last` is node `|entries|`. Iteration starts at `first.next`, so the live
    entries are `entries[first..]`; advancing `first` hides a node without
    removing it, which is how the windowed trackers forget old data. */
module ValueTrackers {
  import opened Wrappers

  /** One node after the sentinel: value `v` took effect at time `t`. */
  datatype Entry<V> = Entry(t: int, v: V)

  /** Timestamps never decrease along the chain. The source leaves this to
      its callers; the window guarantees below assume it. */
  ghost predicate Chronological<V>(es: seq<Entry<V>>) {
    forall i, j :: 0 <= i < j < |es| ==> es[i].t <= es[j].t
  }

  /** No value equals the one before it, as `append` guarantees. */
  ghost predicate NoAdjacentRepeats<V>(es: seq<Entry<V>>) {
    forall i :: 0 < i < |es| ==> es[i].v != es[i - 1].v
  }

  /** The time of node `k`: -inf for the sentinel. */
  function NodeTime<V>(es: seq<Entry<V>>, k: nat): Time
    requires k <= |es|
  {
    if k == 0 then MinusInfinity else At(es[k - 1].t)
  }

  /** Node `k` is older than `maxAge` at time `t` (`t - node.t > max_age`);
      the sentinel, at -inf, always is. */
  predicate Stale<V>(es: seq<Entry<V>>, k: nat, t: int, maxAge: int)
    requires k <= |es|
  {
    k == 0 || t - es[k - 1].t > maxAge
  }

  /** The condition of the pruning loop with `first` at node `k`: there is a
      next node, and both it and node `k` are stale. */
  predicate CanAdvance<V>(es: seq<Entry<V>>, k: nat, t: int, maxAge: int)
    requires k <= |es|
  {
    k < |es| && Stale(es, k, t, maxAge) && Stale(es, k + 1, t, maxAge)
  }

  /** The node at which the pruning loop leaves `first` when it starts at
      node `k`. */
  function PruneFrom<V>(es: seq<Entry<V>>, k: nat, t: int, maxAge: int): (r: nat)
    requires k <= |es|
    ensures k <= r <= |es|
    decreases |es| - k
  {
    if CanAdvance(es, k, t, maxAge) then PruneFrom(es, k + 1, t, maxAge) else k
  }

  /** Pruning stops at the first node, from `k` on, where the loop condition
      fails: every node it passes was stale and had a stale successor (so an
      entry is hidden only when `t - e.t > maxAge`), and where it stops either
      there is no next node or one of the two is still within `maxAge`. */
  lemma {:induction false} PruneFromStopsAtFirstFailure<V>(es: seq<Entry<V>>, k: nat, t: int, maxAge: int)
    requires k <= |es|
    ensures var r := PruneFrom(es, k, t, maxAge);
      (forall j :: k <= j < r ==> CanAdvance(es, j, t, maxAge) && t - es[j].t > maxAge)
      && !CanAdvance(es, r, t, maxAge)
    decreases |es| - k
  {
    if CanAdvance(es, k, t, maxAge) {
      PruneFromStopsAtFirstFailure(es, k + 1, t, maxAge);
    }
  }

  /** The window guarantee: with chronological timestamps, every entry still
      visible after pruning at time `t` is at most `maxAge` old. */
  lemma PrunedEntriesAreFresh<V>(es: seq<Entry<V>>, k: nat, t: int, maxAge: int)
    requires k <= |es| && Chronological(es)
    ensures forall i :: PruneFrom(es, k, t, maxAge) <= i < |es| ==> t - es[i].t <= maxAge
  {
    var r := PruneFrom(es, k, t, maxAge);
    PruneFromStopsAtFirstFailure(es, k, t, maxAge);
    forall i | r <= i < |es|
      ensures t - es[i].t <= maxAge
    {
      if Stale(es, r, t, maxAge) {
        assert es[r].t <= es[i].t;
      } else {
        assert es[r - 1].t <= es[i].t;
      }
    }
  }

  /** `ValueTracker`: the chain with its `first` pointer. `last` is implicit:
      it is always node `|entries|`. */
  class ValueTracker<V(==)> {
    /** The nodes after the sentinel, oldest first. */
    var entries: seq<Entry<V>>
    /** The node `first` points to (0 is the sentinel). */
    var first: nat

    ghost predicate Valid()
      reads this
    {
      first <= |entries|
    }

    /** A fresh tracker holds only its sentinel. */
    constructor ()
      ensures Valid() && entries == [] && first == 0
      ensures ToTuple() == [] && !IsNonEmpty() && LastValue() == None
    {
      entries := [];
      first := 0;
    }

    /** `__iter__` and `to_tuple`: the nodes after `first`, in chain order;
        the node at `first` itself is never yielded. */
    function ToTuple(): (r: seq<Entry<V>>)
      reads this
      requires Valid()
      ensures |r| == |entries| - first
      ensures forall i :: 0 <= i < |r| ==> r[i] == entries[first + i]
    {
      entries[first..]
    }

    /** `__bool__`, i.e. `first != last`: true exactly when iteration yields
        something. */
    function IsNonEmpty(): (b: bool)
      reads this
      requires Valid()
      ensures b <==> ToTuple() != []
    {
      first != |entries|
    }

    /** `get_last_value`: the value at `last`, None at the sentinel. It is
        the value of the latest node even when pruning has hidden it. */
    function LastValue(): (r: Option<V>)
      reads this
      ensures r.None? <==> entries == []
      ensures r.Some? ==> r.value == entries[|entries| - 1].v
    {
      if entries == [] then None else Some(entries[|entries| - 1].v)
    }

    /** A timestamp no earlier than the last node's, as callers must supply. */
    predicate Admits(t: int)
      reads this
    {
      entries == [] || entries[|entries| - 1].t <= t
    }

    /** The linking step every append shares: a new node after `last`, which
        becomes `last`. */
    method Link(t: int, v: V)
      requires Valid()
      modifies this
      ensures Valid() && first == old(first)
      ensures entries == old(entries) + [Entry(t, v)]
      ensures ToTuple() == old(ToTuple()) + [Entry(t, v)]
      ensures old(Chronological(entries)) && old(Admits(t)) ==> Chronological(entries)
    {
      entries := entries + [Entry(t, v)];
    }

    /** `append`: link `(t, v)` unless `v` equals the value at `last`, even
        when that node is already hidden by pruning. */
    method Append(t: int, v: V)
      requires Valid()
      modifies this
      ensures Valid() && first == old(first)
      ensures entries == if Some(v) != old(LastValue()) then old(entries) + [Entry(t, v)] else old(entries)
      ensures ToTuple() == if Some(v) != old(LastValue()) then old(ToTuple()) + [Entry(t, v)] else old(ToTuple())
      ensures LastValue() == Some(v)
      ensures IsNonEmpty() <==> old(IsNonEmpty()) || Some(v) != old(LastValue())
      ensures old(Chronological(entries)) && old(Admits(t)) ==> Chronological(entries)
      ensures old(NoAdjacentRepeats(entries)) ==> NoAdjacentRepeats(entries) && NoAdjacentRepeats(ToTuple())
    {
      if Some(v) != LastValue() {
        Link(t, v);
      }
    }

    /** `clear`: a fresh sentinel becomes both `first` and `last`. */
    method Clear()
      requires Valid()
      modifies this
      ensures Valid() && entries == [] && first == 0
      ensures ToTuple() == [] && !IsNonEmpty() && LastValue() == None
    {
      entries := [];
      first := 0;
    }

    /** The base `tick` does nothing. */
    method Tick(t: int)
    {
    }

    /** The loop of the windowed `tick`: advance `first` while both it and
        `first.next` are older than `maxAge` at time `t`. Only `first` moves,
        and only forward, so what stays visible is a suffix of what was. */
    method Prune(t: int, maxAge: int)
      requires Valid()
      modifies this`first
      ensures Valid() && entries == old(entries) && LastValue() == old(LastValue())
      ensures first == PruneFrom(entries, old(first), t, maxAge)
      ensures ToTuple() == old(ToTuple())[first - old(first)..]
    {
      while first < |entries| && Stale(entries, first, t, maxAge) && t - entries[first].t > maxAge
        invariant old(first) <= first <= |entries|
        invariant PruneFrom(entries, first, t, maxAge) == PruneFrom(entries, old(first), t, maxAge)
        decreases |entries| - first
      {
        first := first + 1;
      }
    }
  }
}
