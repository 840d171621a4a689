/** `WindowedValueTracker` of honlib/value_tracker.py: a value tracker with a
    mandatory `max_age` whose every append ticks a clock, and whose `tick`
    hides the nodes that the window has left behind, keeping one stale node
    as the boundary whose value the median still uses. */
module WindowedValueTrackers {
  import opened Wrappers
  import opened Ordering
  import opened ValueTrackers
  import opened TimeWeighted

  /** `x` is the largest value among `es`. */
  ghost predicate IsLargestValue(x: real, es: seq<Entry<real>>) {
    (exists i :: 0 <= i < |es| && es[i].v == x) && forall i :: 0 <= i < |es| ==> es[i].v <= x
  }

  /** `x` is the smallest value among `es`. */
  ghost predicate IsSmallestValue(x: real, es: seq<Entry<real>>) {
    (exists i :: 0 <= i < |es| && es[i].v == x) && forall i :: 0 <= i < |es| ==> x <= es[i].v
  }

  class WindowedValueTracker {
    /** The chain, with `append`, `clear`, `to_tuple`, `__bool__` and
        `get_last_value` inherited from the base tracker. */
    const base: ValueTracker<real>
    const maxAge: int
    /** `self.t`: the time of the latest append or tick. */
    var now: Time

    ghost predicate Valid()
      reads this, base
    {
      base.Valid() && ClockCovers(base.entries, now)
    }

    constructor (maxAge: int)
      ensures Valid() && fresh(base) && this.maxAge == maxAge
      ensures now == MinusInfinity && base.entries == [] && base.first == 0
    {
      base := new ValueTracker();
      this.maxAge := maxAge;
      now := MinusInfinity;
    }

    /** `append`: the base append, then `tick(t)`, also when the value was a
        repeat and nothing was linked. */
    method Append(t: int, v: real)
      requires Valid()
      modifies this, base
      ensures Valid() && now == At(t)
      ensures base.entries == if Some(v) != old(base.LastValue()) then old(base.entries) + [Entry(t, v)] else old(base.entries)
      ensures base.first == PruneFrom(base.entries, old(base.first), t, maxAge)
      ensures base.LastValue() == Some(v)
      ensures old(Chronological(base.entries)) && old(base.Admits(t)) ==>
        Chronological(base.entries) && forall i :: base.first <= i < |base.entries| ==> t - base.entries[i].t <= maxAge
    {
      base.Append(t, v);
      Tick(t);
    }

    /** `tick`: set the clock and advance `first` past every node that is
        stale together with its successor. Nothing is linked or unlinked;
        what stays visible is a suffix of what was, and with chronological
        timestamps every visible entry is at most `maxAge` old. */
    method Tick(t: int)
      requires base.Valid()
      modifies this, base
      ensures Valid() && now == At(t)
      ensures base.entries == old(base.entries) && base.LastValue() == old(base.LastValue())
      ensures base.first == PruneFrom(base.entries, old(base.first), t, maxAge)
      ensures base.ToTuple() == old(base.ToTuple())[base.first - old(base.first)..]
      ensures Chronological(base.entries) ==> forall i :: base.first <= i < |base.entries| ==> t - base.entries[i].t <= maxAge
    {
      base.Prune(t, maxAge);
      now := At(t);
      if Chronological(base.entries) {
        PrunedEntriesAreFresh(base.entries, old(base.first), t, maxAge);
      }
    }

    /** The inherited `clear`; the clock keeps its value. */
    method Clear()
      requires Valid()
      modifies base
      ensures Valid() && base.ToTuple() == [] && !base.IsNonEmpty() && base.LastValue() == None
    {
      base.Clear();
    }

    /** `max`: the largest live value; -inf when nothing is live. The hidden
        boundary node does not take part. */
    method Max() returns (mx: Extended)
      requires Valid()
      ensures mx.NegInf? <==> base.ToTuple() == []
      ensures !mx.PosInf?
      ensures mx.Finite? ==> IsLargestValue(mx.x, base.ToTuple())
    {
      mx := NegInf;
      var node := base.first;
      while node < |base.entries|
        invariant base.first <= node <= |base.entries|
        invariant mx.NegInf? <==> node == base.first
        invariant !mx.PosInf?
        invariant mx.Finite? ==> exists i :: base.first <= i < node && base.entries[i].v == mx.x
        invariant forall i :: base.first <= i < node ==> Finite(base.entries[i].v).Below(mx)
        decreases |base.entries| - node
      {
        mx := mx.Max(Finite(base.entries[node].v));
        node := node + 1;
      }
      if mx.Finite? {
        var i :| base.first <= i < node && base.entries[i].v == mx.x;
        assert base.ToTuple()[i - base.first].v == mx.x;
      }
    }

    /** `min`: the smallest live value; +inf when nothing is live. */
    method Min() returns (mn: Extended)
      requires Valid()
      ensures mn.PosInf? <==> base.ToTuple() == []
      ensures !mn.NegInf?
      ensures mn.Finite? ==> IsSmallestValue(mn.x, base.ToTuple())
    {
      mn := PosInf;
      var node := base.first;
      while node < |base.entries|
        invariant base.first <= node <= |base.entries|
        invariant mn.PosInf? <==> node == base.first
        invariant !mn.NegInf?
        invariant mn.Finite? ==> exists i :: base.first <= i < node && base.entries[i].v == mn.x
        invariant forall i :: base.first <= i < node ==> mn.Below(Finite(base.entries[i].v))
        decreases |base.entries| - node
      {
        mn := mn.Min(Finite(base.entries[node].v));
        node := node + 1;
      }
      if mn.Finite? {
        var i :| base.first <= i < node && base.entries[i].v == mn.x;
        assert base.ToTuple()[i - base.first].v == mn.x;
      }
    }

    /** `median`: tally, per value, the time it was in effect between `t0`
        and the clock (the boundary node's value from `t0` on, skipping empty
        intervals and the values None and 0), then walk the values in
        ascending order and return the first whose running total passes
        `max_age / 2`, or the midpoint with the next value when the total
        lands on it exactly; None when the walk ends without returning. */
    method Median() returns (r: Option<real>)
      requires Valid()
      ensures var w := Tally(Credits(base.entries, base.first, maxAge, now));
        IsMedian(Sorted(w.Keys), w, maxAge, r)
    {
      var summations := Summations();
      var sortedPrices := Sorted(summations.Keys);
      r := Walk(sortedPrices, summations, maxAge);
    }

    /** The first half of `median`: the `summations` dict. */
    method Summations() returns (summations: map<real, int>)
      requires Valid()
      ensures summations == Tally(Credits(base.entries, base.first, maxAge, now))
    {
      var es := base.entries;
      var first := base.first;
      summations := map[];
      var current := first;
      var t0 := NodeTime(es, first).Max(NodeTime(es, |es|).Minus(maxAge));
      var v0 := NodeValue(es, current);
      while current < |es|
        invariant first <= current <= |es|
        invariant t0 == IntervalStart(es, first, maxAge, current)
        invariant v0 == NodeValue(es, current)
        invariant summations == Tally(CreditsBefore(es, first, maxAge, now, current))
        decreases |es| - current
      {
        var newT := es[current].t;
        assert IntervalEnd(es, current, now) == At(newT);
        TallyStep(es, first, maxAge, now, current);
        if v0.Some? && v0.value != 0.0 {
          var timeSpent := newT - t0.t;
          if timeSpent != 0 {
            summations := Add(summations, (v0.value, timeSpent));
          }
        }
        assert summations == Tally(CreditsBefore(es, first, maxAge, now, current + 1));
        current := current + 1;
        t0 := At(newT);
        v0 := Some(es[current - 1].v);
      }
      assert IntervalEnd(es, current, now) == now;
      TallyStep(es, first, maxAge, now, current);
      if v0.Some? && v0.value != 0.0 {
        var timeSpent := now.t - t0.t;
        if timeSpent != 0 {
          summations := Add(summations, (v0.value, timeSpent));
        }
      }
    }
  }

  /** The second half of `median`: walk the values in the ascending order
      `sortedPrices`, accumulating their times in `c`. */
  method Walk(sortedPrices: seq<real>, summations: map<real, int>, maxAge: int) returns (r: Option<real>)
    requires forall x :: x in sortedPrices ==> x in summations
    ensures IsMedian(sortedPrices, summations, maxAge, r)
  {
    var c := 0;
    for i := 0 to |sortedPrices|
      invariant c == Prefix(sortedPrices, summations, i)
      invariant forall j :: 0 <= j < i ==> !StopsAt(sortedPrices, summations, maxAge, j)
    {
      var price := sortedPrices[i];
      c := c + summations[price];
      assert c == Prefix(sortedPrices, summations, i + 1);
      if 2 * c > maxAge {
        StopsFirstAt(sortedPrices, summations, maxAge, i);
        return Some(price);
      } else if 2 * c == maxAge {
        if i < |sortedPrices| - 1 {
          StopsFirstAt(sortedPrices, summations, maxAge, i);
          return Some(0.5 * (price + sortedPrices[i + 1]));
        }
      }
    }
    return None;
  }
}
