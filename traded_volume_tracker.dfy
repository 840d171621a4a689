/** `TradedVolumeTracker` of honlib/value_tracker.py: a chain whose values
    are the price-to-size maps of traded volume, appended without the
    equality check of the base tracker and pruned by the windowed rule when
    a `max_age` is set. */
module TradedVolumeTrackers {
  import opened Wrappers
  import opened Ordering
  import opened ValueTrackers

  /** A node's value: traded size per price. */
  type Volume = map<real, real>

  /** Every map in `es` has at least one price. */
  ghost predicate AllTraded(es: seq<Entry<Volume>>) {
    forall i :: 0 <= i < |es| ==> es[i].v != map[]
  }

  /** `x` is a price of one of the maps in `es`, and no price in them is
      higher. */
  ghost predicate IsHighestPrice(x: real, es: seq<Entry<Volume>>) {
    (exists i :: 0 <= i < |es| && x in es[i].v) &&
    forall i, p :: 0 <= i < |es| && p in es[i].v ==> p <= x
  }

  /** `x` is a price of one of the maps in `es`, and no price in them is
      lower. */
  ghost predicate IsLowestPrice(x: real, es: seq<Entry<Volume>>) {
    (exists i :: 0 <= i < |es| && x in es[i].v) &&
    forall i, p :: 0 <= i < |es| && p in es[i].v ==> x <= p
  }

  /** `min(min(node.v) for node in ...)`: the lowest price over a non-empty
      run of non-empty maps. */
  function LowestPrice(es: seq<Entry<Volume>>): (x: real)
    requires es != [] && AllTraded(es)
    ensures IsLowestPrice(x, es)
    decreases |es|
  {
    var here := Least(es[0].v.Keys);
    if |es| == 1 then here
    else
      var rest := LowestPrice(es[1..]);
      assert forall i, p :: 1 <= i < |es| && p in es[i].v ==> p in es[1..][i - 1].v;
      if here <= rest then here else rest
  }

  /** `max_age` switches pruning on only when it is truthy: neither None
      nor 0. */
  predicate Prunes(maxAge: Option<int>) {
    maxAge.Some? && maxAge.value != 0
  }

  class TradedVolumeTracker {
    /** The chain, with `clear`, `to_tuple` and `__bool__` inherited from the
        base tracker. */
    const base: ValueTracker<Volume>
    const maxAge: Option<int>

    /** Only non-empty maps are ever linked. */
    ghost predicate Valid()
      reads this, base
    {
      base.Valid() && AllTraded(base.entries)
    }

    constructor (maxAge: Option<int>)
      ensures Valid() && fresh(base) && this.maxAge == maxAge
      ensures base.entries == [] && base.first == 0
    {
      base := new ValueTracker();
      this.maxAge := maxAge;
    }

    /** `append`: link the `diff` map unless it is empty, with no comparison
        against the last value, then `tick(t)`. */
    method Append(t: int, diff: Volume)
      requires Valid()
      modifies base
      ensures Valid()
      ensures base.entries == if diff != map[] then old(base.entries) + [Entry(t, diff)] else old(base.entries)
      ensures base.first == if Prunes(maxAge) then PruneFrom(base.entries, old(base.first), t, maxAge.value) else old(base.first)
      ensures Prunes(maxAge) && old(Chronological(base.entries)) && old(base.Admits(t)) ==>
        Chronological(base.entries) && forall i :: base.first <= i < |base.entries| ==> t - base.entries[i].t <= maxAge.value
    {
      if diff != map[] {
        base.Link(t, diff);
      }
      Tick(t);
    }

    /** `tick`: the windowed pruning rule when `max_age` is truthy, nothing
        otherwise. */
    method Tick(t: int)
      requires Valid()
      modifies base
      ensures Valid() && base.entries == old(base.entries)
      ensures base.first == if Prunes(maxAge) then PruneFrom(base.entries, old(base.first), t, maxAge.value) else old(base.first)
      ensures Prunes(maxAge) && Chronological(base.entries) ==>
        forall i :: base.first <= i < |base.entries| ==> t - base.entries[i].t <= maxAge.value
    {
      if Prunes(maxAge) {
        base.Prune(t, maxAge.value);
        if Chronological(base.entries) {
          PrunedEntriesAreFresh(base.entries, old(base.first), t, maxAge.value);
        }
      }
    }

    /** The inherited `clear`. */
    method Clear()
      requires Valid()
      modifies base
      ensures Valid() && base.ToTuple() == [] && !base.IsNonEmpty()
      ensures base.entries == [] && base.first == 0 && base.LastValue() == None
    {
      base.Clear();
    }

    /** `max`: the highest price traded in the live window; -inf when
        nothing is live. */
    method Max() returns (mx: Extended)
      requires Valid()
      ensures mx.NegInf? <==> base.ToTuple() == []
      ensures !mx.PosInf?
      ensures mx.Finite? ==> IsHighestPrice(mx.x, base.ToTuple())
    {
      mx := NegInf;
      var node := base.first;
      while node < |base.entries|
        invariant base.first <= node <= |base.entries|
        invariant mx.NegInf? <==> node == base.first
        invariant !mx.PosInf?
        invariant mx.Finite? ==> exists i :: base.first <= i < node && mx.x in base.entries[i].v
        invariant forall i, p :: base.first <= i < node && p in base.entries[i].v ==> Finite(p).Below(mx)
        decreases |base.entries| - node
      {
        var top := Greatest(base.entries[node].v.Keys);
        mx := mx.Max(Finite(top));
        node := node + 1;
      }
      if mx.Finite? {
        var i :| base.first <= i < node && mx.x in base.entries[i].v;
        assert mx.x in base.ToTuple()[i - base.first].v;
        forall j, p | 0 <= j < |base.ToTuple()| && p in base.ToTuple()[j].v
          ensures p <= mx.x
        {
          assert base.ToTuple()[j] == base.entries[base.first + j];
          assert Finite(p).Below(mx);
        }
      }
    }

    /** `min`: the lowest price traded in the live window; +inf when nothing
        is live. */
    function Min(): (mn: Extended)
      reads this, base
      requires Valid()
      ensures mn.PosInf? <==> base.ToTuple() == []
      ensures !mn.NegInf?
      ensures mn.Finite? ==> IsLowestPrice(mn.x, base.ToTuple())
    {
      if base.IsNonEmpty() then
        assert AllTraded(base.ToTuple()) by {
          forall i | 0 <= i < |base.ToTuple()|
            ensures base.ToTuple()[i].v != map[]
          {
            assert base.ToTuple()[i] == base.entries[base.first + i];
          }
        }
        Finite(LowestPrice(base.ToTuple()))
      else PosInf
    }
  }
}
