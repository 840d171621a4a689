/** The time-weighted median of `WindowedValueTracker.median`
    (honlib/value_tracker.py), stated over the chain of a tracker: which
    interval of time is credited to which value, the per-value totals, and
    the walk over the values in ascending order that picks the median. */
module TimeWeighted {
  import opened Wrappers
  import opened ValueTrackers
  import opened Ordering

  /** The value of node `k`: None for the sentinel. */
  function NodeValue(es: seq<Entry<real>>, k: nat): Option<real>
    requires k <= |es|
  {
    if k == 0 then None else Some(es[k - 1].v)
  }

  /** `t0` of the median: `max(first.t, last.t - max_age)`. */
  function WindowStart(es: seq<Entry<real>>, first: nat, maxAge: int): Time
    requires first <= |es|
  {
    NodeTime(es, first).Max(NodeTime(es, |es|).Minus(maxAge))
  }

  /** Where the interval of node `k` begins: `t0` for the node at `first`,
      the node's own time for every later node. */
  function IntervalStart(es: seq<Entry<real>>, first: nat, maxAge: int, k: nat): Time
    requires first <= k <= |es|
  {
    if k == first then WindowStart(es, first, maxAge) else NodeTime(es, k)
  }

  /** Where the interval of node `k` ends: at the next node's time, or at the
      tracker's clock `now` (`self.t`) for the last node. */
  function IntervalEnd(es: seq<Entry<real>>, k: nat, now: Time): Time
    requires k <= |es|
  {
    if k < |es| then At(es[k].t) else now
  }

  /** The clock is -inf only while the chain has no node after its sentinel,
      as every append ticks it. */
  predicate ClockCovers(es: seq<Entry<real>>, now: Time) {
    now.MinusInfinity? ==> es == []
  }

  /** What node `k` adds to the tally: its value and the length of its
      interval, or nothing when the value is falsy (None or 0) or the
      interval is empty. */
  function Credit(es: seq<Entry<real>>, first: nat, maxAge: int, now: Time, k: nat): Option<(real, int)>
    requires first <= k <= |es| && ClockCovers(es, now)
  {
    match NodeValue(es, k)
    case None => None
    case Some(v) =>
      if v == 0.0 then None
      else
        var d := IntervalEnd(es, k, now).t - IntervalStart(es, first, maxAge, k).t;
        if d == 0 then None else Some((v, d))
  }

  /** The credits of nodes `first` to `k - 1`, in chain order. */
  function CreditsBefore(es: seq<Entry<real>>, first: nat, maxAge: int, now: Time, k: nat): seq<(real, int)>
    requires first <= k <= |es| + 1 && ClockCovers(es, now)
    decreases k - first
  {
    if k == first then []
    else
      CreditsBefore(es, first, maxAge, now, k - 1) +
      match Credit(es, first, maxAge, now, k - 1)
      case None => []
      case Some(c) => [c]
  }

  /** All credits of the live window: nodes `first` to `last`. */
  function Credits(es: seq<Entry<real>>, first: nat, maxAge: int, now: Time): seq<(real, int)>
    requires first <= |es| && ClockCovers(es, now)
  {
    CreditsBefore(es, first, maxAge, now, |es| + 1)
  }

  /** `summations[v] = summations.get(v, 0) + d`. */
  function Add(m: map<real, int>, c: (real, int)): map<real, int> {
    m[c.0 := (if c.0 in m then m[c.0] else 0) + c.1]
  }

  /** The `summations` dict built from a list of credits, left to right. */
  function Tally(cs: seq<(real, int)>): map<real, int> {
    if cs == [] then map[] else Add(Tally(cs[..|cs| - 1]), cs[|cs| - 1])
  }

  /** One more node adds its credit, if any, to the tally. */
  lemma TallyStep(es: seq<Entry<real>>, first: nat, maxAge: int, now: Time, k: nat)
    requires first <= k <= |es| && ClockCovers(es, now)
    ensures Tally(CreditsBefore(es, first, maxAge, now, k + 1)) ==
      match Credit(es, first, maxAge, now, k)
      case None => Tally(CreditsBefore(es, first, maxAge, now, k))
      case Some(c) => Add(Tally(CreditsBefore(es, first, maxAge, now, k)), c)
  {
    var prev := CreditsBefore(es, first, maxAge, now, k);
    var cs := CreditsBefore(es, first, maxAge, now, k + 1);
    match Credit(es, first, maxAge, now, k)
    case None =>
      assert cs == prev;
    case Some(c) =>
      assert cs == prev + [c];
      assert cs[..|cs| - 1] == prev;
  }

  /** The total time credited to value `x`. */
  function TimeCredited(cs: seq<(real, int)>, x: real): int {
    if cs == [] then 0
    else TimeCredited(cs[..|cs| - 1], x) + (if cs[|cs| - 1].0 == x then cs[|cs| - 1].1 else 0)
  }

  /** The total time credited to all values. */
  function TotalCredited(cs: seq<(real, int)>): int {
    if cs == [] then 0 else TotalCredited(cs[..|cs| - 1]) + cs[|cs| - 1].1
  }

  /** The tally has a key for exactly the values that were credited some
      interval, and holds for each the total time credited to it. */
  lemma {:induction false} TallyIsTimePerValue(cs: seq<(real, int)>)
    ensures forall x :: x in Tally(cs) <==> exists i :: 0 <= i < |cs| && cs[i].0 == x
    ensures forall x :: TimeCredited(cs, x) == if x in Tally(cs) then Tally(cs)[x] else 0
  {
    if cs != [] {
      var init := cs[..|cs| - 1];
      var c := cs[|cs| - 1];
      TallyIsTimePerValue(init);
      assert Tally(cs) == Add(Tally(init), c);
      forall x
        ensures x in Tally(cs) <==> exists i :: 0 <= i < |cs| && cs[i].0 == x
      {
        if x in Tally(cs) && x != c.0 {
          assert x in Tally(init);
          var i :| 0 <= i < |init| && init[i].0 == x;
          assert cs[i].0 == x;
        }
        if exists i :: 0 <= i < |cs| && cs[i].0 == x {
          var i :| 0 <= i < |cs| && cs[i].0 == x;
          if i < |init| {
            assert init[i].0 == x;
          }
        }
      }
    }
  }

  /** Every node from `first` to `last` holds a value other than None and 0. */
  ghost predicate NonZeroFrom(es: seq<Entry<real>>, first: nat) {
    forall i :: 0 <= i < |es| && first <= i + 1 ==> es[i].v != 0.0
  }

  /** Node `k`'s interval ends where node `k + 1`'s begins. */
  lemma IntervalsMeet(es: seq<Entry<real>>, first: nat, maxAge: int, now: Time, k: nat)
    requires first <= k < |es| && ClockCovers(es, now)
    ensures IntervalEnd(es, k, now) == IntervalStart(es, first, maxAge, k + 1)
  {
  }

  /** The intervals tile the window: when every live value is non-zero, the
      credited time adds up to the time from the first credited node to the
      clock, i.e. from `t0` when `first` is a real node, from the first node's
      own time when `first` is the sentinel. */
  lemma {:induction false} CreditsCoverWindow(es: seq<Entry<real>>, first: nat, maxAge: int, now: Time)
    requires first <= |es| && es != [] && now.At?
    requires NonZeroFrom(es, first)
    ensures TotalCredited(Credits(es, first, maxAge, now)) ==
      now.t - (if first == 0 then es[0].t else WindowStart(es, first, maxAge).t)
  {
    CoveredUpTo(es, first, maxAge, now, |es| + 1);
  }

  /** One more node adds the length of its interval to the credited time. */
  lemma CreditStep(es: seq<Entry<real>>, first: nat, maxAge: int, now: Time, j: nat)
    requires first <= j <= |es| && 0 < j && now.At? && es[j - 1].v != 0.0
    ensures IntervalStart(es, first, maxAge, j).At? && IntervalEnd(es, j, now).At?
    ensures TotalCredited(CreditsBefore(es, first, maxAge, now, j + 1)) ==
      TotalCredited(CreditsBefore(es, first, maxAge, now, j)) +
      (IntervalEnd(es, j, now).t - IntervalStart(es, first, maxAge, j).t)
  {
    var prev := CreditsBefore(es, first, maxAge, now, j);
    var cs := CreditsBefore(es, first, maxAge, now, j + 1);
    assert NodeValue(es, j) == Some(es[j - 1].v);
    match Credit(es, first, maxAge, now, j)
    case None =>
      assert cs == prev;
    case Some(c) =>
      assert cs == prev + [c];
      assert cs[..|cs| - 1] == prev;
  }

  lemma {:induction false} CoveredUpTo(es: seq<Entry<real>>, first: nat, maxAge: int, now: Time, k: nat)
    requires first < k <= |es| + 1 && es != [] && now.At?
    requires NonZeroFrom(es, first)
    ensures IntervalEnd(es, k - 1, now).At?
    ensures TotalCredited(CreditsBefore(es, first, maxAge, now, k)) ==
      IntervalEnd(es, k - 1, now).t - (if first == 0 then es[0].t else WindowStart(es, first, maxAge).t)
    decreases k
  {
    var j := k - 1;
    var start := if first == 0 then es[0].t else WindowStart(es, first, maxAge).t;
    if j == 0 {
      assert CreditsBefore(es, first, maxAge, now, k) == [];
    } else {
      assert es[j - 1].v != 0.0;
      CreditStep(es, first, maxAge, now, j);
      var here := IntervalEnd(es, j, now).t - IntervalStart(es, first, maxAge, j).t;
      if j > first {
        CoveredUpTo(es, first, maxAge, now, j);
        IntervalsMeet(es, first, maxAge, now, j - 1);
        assert TotalCredited(CreditsBefore(es, first, maxAge, now, j)) == IntervalStart(es, first, maxAge, j).t - start;
      } else {
        assert IntervalStart(es, first, maxAge, j).t == start;
      }
      assert TotalCredited(CreditsBefore(es, first, maxAge, now, k)) ==
        TotalCredited(CreditsBefore(es, first, maxAge, now, j)) + here;
    }
  }

  /** The running total `c` after the first `n` values of `keys`. */
  function Prefix(keys: seq<real>, w: map<real, int>, n: nat): int
    requires n <= |keys|
  {
    if n == 0 then 0 else Prefix(keys, w, n - 1) + (if keys[n - 1] in w then w[keys[n - 1]] else 0)
  }

  /** The walk returns at index `i`: its running total exceeds the split
      `max_age / 2`, or equals it and another value follows. */
  predicate StopsAt(keys: seq<real>, w: map<real, int>, maxAge: int, i: nat)
    requires i < |keys|
  {
    var c := Prefix(keys, w, i + 1);
    2 * c > maxAge || (2 * c == maxAge && i < |keys| - 1)
  }

  /** What the walk returns at index `i`: the value itself, or the midpoint
      with the next value when the total sits exactly on the split. */
  function AnswerAt(keys: seq<real>, w: map<real, int>, maxAge: int, i: nat): real
    requires i < |keys| && StopsAt(keys, w, maxAge, i)
  {
    if 2 * Prefix(keys, w, i + 1) > maxAge then keys[i] else 0.5 * (keys[i] + keys[i + 1])
  }

  /** `r` is the time-weighted median of the tally `w` walked in the order
      `keys`: the answer at the first index where the walk returns, or None
      when it returns nowhere. */
  ghost predicate IsMedian(keys: seq<real>, w: map<real, int>, maxAge: int, r: Option<real>) {
    match r
    case None => forall i :: 0 <= i < |keys| ==> !StopsAt(keys, w, maxAge, i)
    case Some(x) =>
      exists i :: 0 <= i < |keys| && StopsAt(keys, w, maxAge, i) &&
        (forall j :: 0 <= j < i ==> !StopsAt(keys, w, maxAge, j)) &&
        x == AnswerAt(keys, w, maxAge, i)
  }

  /** The walk returns at the first index where it can. */
  lemma StopsFirstAt(keys: seq<real>, w: map<real, int>, maxAge: int, i: nat)
    requires i < |keys| && StopsAt(keys, w, maxAge, i)
    requires forall j :: 0 <= j < i ==> !StopsAt(keys, w, maxAge, j)
    ensures IsMedian(keys, w, maxAge, Some(AnswerAt(keys, w, maxAge, i)))
  {
  }
}
