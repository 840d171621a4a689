/** The windowed expectations of honlib/tests/test_value_tracker.py, stated
    over the specification functions of the median: the chain the three
    appends leave behind, the tally of time per value, and the median it
    determines. */
module Scenarios {
  import opened Wrappers
  import opened Ordering
  import opened ValueTrackers
  import opened TimeWeighted
  import opened TradedVolumeTrackers
  import opened NumberValueTrackers
  import opened WindowedValueTrackers

  /** Appending `(0, 2), (6, 3), (10, 4)` with `max_age = 10` leaves `first`
      at the sentinel; value 2 holds for 6 of the 10 units and value 3 for
      4. */
  lemma TallyOfLongestHeld()
    ensures var es := [Entry(0, 2.0), Entry(6, 3.0), Entry(10, 4.0)];
      PruneFrom(es, PruneFrom(es[..2], PruneFrom(es[..1], 0, 0, 10), 6, 10), 10, 10) == 0 &&
      Tally(Credits(es, 0, 10, At(10))) == map[2.0 := 6, 3.0 := 4]
  {
    CreditsOfLongestHeld();
    var cs := [(2.0, 6), (3.0, 4)];
    assert cs[..1] == [(2.0, 6)] && [(2.0, 6)][..0] == [];
    assert Tally([(2.0, 6)]) == map[2.0 := 6];
    assert Tally(cs) == Add(map[2.0 := 6], (3.0, 4));
  }

  /** The first two nodes are credited 6 and 4 units; the newest node's
      interval is empty. */
  lemma CreditsOfLongestHeld()
    ensures var es := [Entry(0, 2.0), Entry(6, 3.0), Entry(10, 4.0)];
      PruneFrom(es, PruneFrom(es[..2], PruneFrom(es[..1], 0, 0, 10), 6, 10), 10, 10) == 0 &&
      Credits(es, 0, 10, At(10)) == [(2.0, 6), (3.0, 4)]
  {
    var es := [Entry(0, 2.0), Entry(6, 3.0), Entry(10, 4.0)];
    assert WindowStart(es, 0, 10) == At(0);
    assert Credit(es, 0, 10, At(10), 0) == None;
    assert Credit(es, 0, 10, At(10), 1) == Some((2.0, 6));
    assert Credit(es, 0, 10, At(10), 2) == Some((3.0, 4));
    assert Credit(es, 0, 10, At(10), 3) == None;
    assert CreditsBefore(es, 0, 10, At(10), 1) == [];
    assert CreditsBefore(es, 0, 10, At(10), 2) == [(2.0, 6)];
    assert CreditsBefore(es, 0, 10, At(10), 3) == [(2.0, 6), (3.0, 4)];
  }

  /** With that tally, 2 holds for more than half the window: the median is
      2. */
  lemma MedianOfLongestHeld()
    ensures IsMedian(Sorted({2.0, 3.0}), map[2.0 := 6, 3.0 := 4], 10, Some(2.0))
  {
    SortedUnique([2.0, 3.0], Sorted({2.0, 3.0}));
    assert StopsAt([2.0, 3.0], map[2.0 := 6, 3.0 := 4], 10, 0);
  }

  /** Appending `(0, 2), (5, 3), (10, 3)` links only two nodes, and each
      value holds for 5 units. */
  lemma TallyWhenSplitEqually()
    ensures var es := [Entry(0, 2.0), Entry(5, 3.0)];
      PruneFrom(es, PruneFrom(es, PruneFrom(es[..1], 0, 0, 10), 5, 10), 10, 10) == 0 &&
      Tally(Credits(es, 0, 10, At(10))) == map[2.0 := 5, 3.0 := 5]
  {
    var es := [Entry(0, 2.0), Entry(5, 3.0)];
    CreditsWhenSplitEqually();
    var cs := [(2.0, 5), (3.0, 5)];
    assert cs[..1] == [(2.0, 5)] && [(2.0, 5)][..0] == [];
    assert Tally([(2.0, 5)]) == map[2.0 := 5];
    assert Tally(cs) == Add(map[2.0 := 5], (3.0, 5));
  }

  /** The two nodes are credited 5 units each. */
  lemma CreditsWhenSplitEqually()
    ensures var es := [Entry(0, 2.0), Entry(5, 3.0)];
      PruneFrom(es, PruneFrom(es, PruneFrom(es[..1], 0, 0, 10), 5, 10), 10, 10) == 0 &&
      Credits(es, 0, 10, At(10)) == [(2.0, 5), (3.0, 5)]
  {
    var es := [Entry(0, 2.0), Entry(5, 3.0)];
    assert WindowStart(es, 0, 10) == At(-5);
    assert Credit(es, 0, 10, At(10), 0) == None;
    assert Credit(es, 0, 10, At(10), 1) == Some((2.0, 5));
    assert Credit(es, 0, 10, At(10), 2) == Some((3.0, 5));
    assert CreditsBefore(es, 0, 10, At(10), 1) == [];
    assert CreditsBefore(es, 0, 10, At(10), 2) == [(2.0, 5)];
  }

  /** With that tally the running total lands exactly on half the window
      at 2, and 3 follows: the median is the midpoint 2.5. */
  lemma MedianWhenSplitEqually()
    ensures IsMedian(Sorted({2.0, 3.0}), map[2.0 := 5, 3.0 := 5], 10, Some(2.5))
  {
    SortedUnique([2.0, 3.0], Sorted({2.0, 3.0}));
    assert StopsAt([2.0, 3.0], map[2.0 := 5, 3.0 := 5], 10, 0);
  }

  /** Appending `(5, 3), (10, 3)` links one node, credited 5 of the 10
      units: the running total reaches the split only at the last value, so
      there is no median. */
  lemma NoMedianWithoutEnoughData()
    ensures var es := [Entry(5, 3.0)];
      PruneFrom(es, PruneFrom(es, 0, 5, 10), 10, 10) == 0 &&
      Tally(Credits(es, 0, 10, At(10))) == map[3.0 := 5] &&
      IsMedian(Sorted({3.0}), map[3.0 := 5], 10, None)
  {
    var es := [Entry(5, 3.0)];
    assert CreditsBefore(es, 0, 10, At(10), 1) == [];
    assert Credits(es, 0, 10, At(10)) == [(3.0, 5)];
    SortedUnique([3.0], Sorted({3.0}));
  }

  /** Appending `(10, 2), (20, 3), (30, 4)` with `max_age = 10` hides the
      first node; ticking at 40 and 50 hides one more each time. */
  lemma WindowMovesWithTheClock()
    ensures var es := [Entry(10, 2.0), Entry(20, 3.0), Entry(30, 4.0)];
      PruneFrom(es, PruneFrom(es[..2], PruneFrom(es[..1], 0, 10, 10), 20, 10), 30, 10) == 1 &&
      PruneFrom(es, 1, 40, 10) == 2 &&
      PruneFrom(es, 2, 50, 10) == 3
  {
  }

  /** Traded volume with `max_age = 100`: after the appends at 100, 101 and
      201 the live maps are those of 101 and 201, with prices from 7.2 to
      7.8; the append at 202 hides 101, leaving prices from 7.4 to 7.8;
      the tick at 302 hides 201. */
  lemma TradedVolumeWindow()
    ensures var es := [Entry(100, map[7.2 := 19.0]), Entry(101, map[7.2 := 1.0, 7.4 := 1.23]),
                       Entry(201, map[7.4 := 18.77, 7.8 := 1.23]), Entry(202, map[7.4 := 20.0, 7.8 := 1.23])];
      var at100 := PruneFrom(es[..1], 0, 100, 100);
      var at101 := PruneFrom(es[..2], at100, 101, 100);
      var at201 := PruneFrom(es[..3], at101, 201, 100);
      at100 == 0 && at101 == 0 &&
      IsLowestPrice(7.2, es[..2]) && IsHighestPrice(7.4, es[..2]) &&
      at201 == 1 &&
      IsLowestPrice(7.2, es[1..3]) && IsHighestPrice(7.8, es[1..3]) &&
      PruneFrom(es, at201, 202, 100) == 2 &&
      IsLowestPrice(7.4, es[2..]) && IsHighestPrice(7.8, es[2..]) &&
      PruneFrom(es, 2, 302, 100) == 3 &&
      IsLowestPrice(7.4, es[3..]) && IsHighestPrice(7.8, es[3..])
  {
    var es := [Entry(100, map[7.2 := 19.0]), Entry(101, map[7.2 := 1.0, 7.4 := 1.23]),
               Entry(201, map[7.4 := 18.77, 7.8 := 1.23]), Entry(202, map[7.4 := 20.0, 7.8 := 1.23])];
    assert PruneFrom(es[..1], 0, 100, 100) == 0;
    assert PruneFrom(es[..2], 0, 101, 100) == 0;
    assert PruneFrom(es[..3], 1, 201, 100) == 1;
    assert PruneFrom(es, 2, 202, 100) == 2;
    assert PruneFrom(es, 3, 302, 100) == 3;
    assert es[..2][0].v.Keys == {7.2} && es[..2][1].v.Keys == {7.2, 7.4};
    assert 7.2 in es[..2][0].v && 7.4 in es[..2][1].v;
    var live := es[1..3];
    assert live[0].v.Keys == {7.2, 7.4} && live[1].v.Keys == {7.4, 7.8};
    assert 7.2 in live[0].v && 7.8 in live[1].v;
    assert es[2..][0].v.Keys == {7.4, 7.8} && es[2..][1].v.Keys == {7.4, 7.8};
    assert 7.4 in es[2..][0].v && 7.8 in es[2..][0].v;
    assert es[3..][0].v.Keys == {7.4, 7.8};
    assert 7.4 in es[3..][0].v && 7.8 in es[3..][0].v;
  }

  /** With `max_age = 10`, after the appends at 10, 20 and 30 the live values
      are 3 and 4: the largest is 4 and the smallest is 3. */
  lemma WindowedExtremes()
    ensures var es := [Entry(10, 2.0), Entry(20, 3.0), Entry(30, 4.0)];
      forall x :: (IsLargestValue(x, es[1..]) <==> x == 4.0) && (IsSmallestValue(x, es[1..]) <==> x == 3.0)
  {
    var es := [Entry(10, 2.0), Entry(20, 3.0), Entry(30, 4.0)];
    assert es[1..][0].v == 3.0 && es[1..][1].v == 4.0;
  }

  /** Appending `(1, 2), (2, 2), (3, 4)` leaves `(1, 2), (3, 4)`, whose only
      difference view is `(1, 2), (3, 2)`. */
  lemma DiffsOfTwoValues()
    ensures forall ds: seq<Entry<real>> :: IsDiffView(ds, [Entry(1, 2.0), Entry(3, 4.0)]) <==> ds == [Entry(1, 2.0), Entry(3, 2.0)]
  {
    var es := [Entry(1, 2.0), Entry(3, 4.0)];
    forall ds: seq<Entry<real>> | IsDiffView(ds, es)
      ensures ds == [Entry(1, 2.0), Entry(3, 2.0)]
    {
      assert ds[0].t == 1 && ds[0].v == 2.0;
      assert ds[1].t == 3 && ds[1].v == 2.0;
    }
  }
}
