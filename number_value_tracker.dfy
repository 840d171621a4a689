/** `NumberValueTracker` of honlib/value_tracker.py: a value tracker over
    numbers with a view of the live entries as consecutive differences. */
module NumberValueTrackers {
  import opened ValueTrackers

  /** `ds` is the difference view of `es`: same timestamps, the first value
      diffed against 0 and each later one against its predecessor. */
  ghost predicate IsDiffView(ds: seq<Entry<real>>, es: seq<Entry<real>>) {
    |ds| == |es| &&
    (forall i :: 0 <= i < |ds| ==> ds[i].t == es[i].t) &&
    (|ds| > 0 ==> ds[0].v == es[0].v) &&
    (forall i :: 0 < i < |ds| ==> ds[i].v == es[i].v - es[i - 1].v)
  }

  /** The sum of the first `n` differences. */
  function RunningSum(ds: seq<Entry<real>>, n: nat): real
    requires n <= |ds|
  {
    if n == 0 then 0.0 else RunningSum(ds, n - 1) + ds[n - 1].v
  }

  /** Nothing is lost by the difference view: summing the differences up to
      an entry gives back that entry's value. */
  lemma {:induction false} DiffViewRecoversValues(ds: seq<Entry<real>>, es: seq<Entry<real>>, n: nat)
    requires IsDiffView(ds, es) && 0 < n <= |es|
    ensures RunningSum(ds, n) == es[n - 1].v
  {
    if n > 1 {
      DiffViewRecoversValues(ds, es, n - 1);
    }
  }

  /** A `ValueTracker` of numbers; it inherits `append`, `clear`, `to_tuple`
      and the no-op `tick` from the base, here reached through `base`. */
  class NumberValueTracker {
    const base: ValueTracker<real>

    ghost predicate Valid()
      reads this, base
    {
      base.Valid()
    }

    constructor ()
      ensures Valid() && fresh(base) && base.ToTuple() == [] && base.LastValue().None?
    {
      base := new ValueTracker();
    }

    /** `to_tuple_of_diffs`: one `(t, v_i - v_{i-1})` pair per live entry,
        the first against 0. */
    method ToTupleOfDiffs() returns (r: seq<Entry<real>>)
      requires Valid()
      ensures IsDiffView(r, base.ToTuple())
    {
      var node := base.first;
      var priorV := 0.0;
      r := [];
      while node < |base.entries|
        invariant base.first <= node <= |base.entries|
        invariant |r| == node - base.first
        invariant priorV == if node == base.first then 0.0 else base.entries[node - 1].v
        invariant forall i :: 0 <= i < |r| ==> r[i].t == base.entries[base.first + i].t
        invariant |r| > 0 ==> r[0].v == base.entries[base.first].v
        invariant forall i :: 0 < i < |r| ==> r[i].v == base.entries[base.first + i].v - base.entries[base.first + i - 1].v
        decreases |base.entries| - node
      {
        node := node + 1;
        r := r + [Entry(base.entries[node - 1].t, base.entries[node - 1].v - priorV)];
        priorV := base.entries[node - 1].v;
      }
    }
  }
}
