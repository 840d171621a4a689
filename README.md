# honlib value trackers and linked lists in Dafny

This project models two files of honlib.

`honlib/value_tracker.py` keeps time-ordered histories of a changing value. A
tracker is a singly linked chain of `(t, v)` nodes. The chain has a sentinel
at time -inf and two pointers, `first` and `last`:

- `append` links a new node after `last`, unless the value equals the one at
  `last`.
- `clear` installs a fresh sentinel.
- Iteration yields every node after `first`.

There are three variants.

- `NumberValueTracker` adds a view of consecutive differences.
- `WindowedValueTracker` has a clock, `self.t`. Its `tick` advances `first`
  while both the node at `first` and the node after it are older than
  `max_age`. The last stale node stays behind, hidden, as the window's
  boundary. On top of this chain it computes `max`, `min` and a
  time-weighted `median`.
- `TradedVolumeTracker` stores price-to-size maps. It uses the same pruning
  rule, switched off when `max_age` is falsy, and its `min`/`max` range over
  prices.

`honlib/data_structures/linked_list.py` is the same sentinel chain without
timestamps. Its doubly linked variant can be walked backwards along `prev`
links.

How the model represents this:

- A chain is the sequence `entries` of nodes after the sentinel, plus the
  node index `first`. Node 0 is the sentinel, and node k is `entries[k-1]`.
  `last` is always node `|entries|`, so the live entries are
  `entries[first..]`. Pruning only moves `first`. Nothing is unlinked, and
  the dedup check keeps reading the value at `last` even when that node is
  hidden.
- Each subclass holds its base tracker in a `base` field and calls it where
  the source calls `super()`. The pruning loop, which the source writes
  twice, is one method, `ValueTrackers.ValueTracker.Prune`.
- Timestamps are `int`s and values are `real`s. `-inf` is `Time.MinusInfinity`,
  and the infinities returned by `min`/`max` are `Extended.NegInf`/`PosInf`.
- The median is specified by `TimeWeighted`, with these pieces:
  - `Credit`: the interval of time each node is credited with.
  - `Tally`: the `summations` dict those credits build.
  - `Prefix`/`StopsAt`/`AnswerAt`: the walk over the sorted values.
  - `IsMedian`: what the walk returns.

  `max_age / 2` is compared as `2 * c` against `max_age`. For integers this
  is the same test.

The windowed tracker keeps an invariant, `ClockCovers`: the clock is -inf
only while no node has been linked. So the final interval of `median` is
finite whenever its value is truthy. On a never-ticked tracker the source
computes `-inf - (-inf)` (NaN), but the falsy sentinel value makes it skip
that interval. The model returns None there, as the source does.

Behaviour of the code worth noting:

- The median has no "fewer than two live entries" rule. A single live value
  that covers more than half the window is the median.
- Timestamps are not checked to increase. The window guarantee is stated
  conditionally, under `Chronological`.
- `median` takes no time argument. It uses the clock of the latest `append`
  or `tick`.
- `TradedVolumeTracker.max` does not skip empty maps. It never meets one,
  because `append` links only non-empty maps.

## Model

| member | source | states |
|---|---|---|
| Wrappers.Time.Max | honlib/value_tracker.py:159 | `max(first.t, last.t - max_age)`: one of the two, finite if either is, and no smaller than a finite operand |
| Wrappers.Extended.Max | honlib/value_tracker.py:139-144 | Python's `max` with the infinities: one of the operands, and both are below it |
| Wrappers.Extended.Min | honlib/value_tracker.py:146-151 | Python's `min` with the infinities: one of the operands, and it is below both |
| Ordering.Least | honlib/value_tracker.py:111-117 | `min` of a non-empty collection: a member, no larger than any member |
| Ordering.Greatest | honlib/value_tracker.py:103-109 | `max` of a non-empty collection: a member, no smaller than any member |
| Ordering.Sorted | honlib/value_tracker.py:178 | `sorted(summations)`: strictly ascending, the same elements, each once |
| Ordering.SortedUnique | honlib/value_tracker.py:178 | two strictly ascending sequences with the same elements are equal, so `sorted` has one possible answer |
| ValueTrackers.PruneFrom | honlib/value_tracker.py:130-137 | where the pruning loop leaves `first`: never before where it started, never past `last` |
| ValueTrackers.PruneFromStopsAtFirstFailure | honlib/value_tracker.py:130-137 | the loop passes a node only when it and its successor are both stale, so a node is hidden only if `t - node.t > max_age`; it stops where the loop condition first fails |
| ValueTrackers.PrunedEntriesAreFresh | honlib/value_tracker.py:130-137 | with non-decreasing timestamps, every entry still visible after pruning at `t` has `t - e.t <= max_age` |
| ValueTrackers.ValueTracker.constructor | honlib/value_tracker.py:21-24 | a new tracker holds only its sentinel: empty `to_tuple`, falsy, last value None |
| ValueTrackers.ValueTracker.ToTuple | honlib/value_tracker.py:40-47 | iteration yields exactly the nodes after `first`, in chain order, never the node at `first` |
| ValueTrackers.ValueTracker.IsNonEmpty | honlib/value_tracker.py:26-27 | `first != last` holds exactly when `to_tuple` is non-empty |
| ValueTrackers.ValueTracker.LastValue | honlib/value_tracker.py:49-50 | None exactly when nothing was linked since the last `clear`; otherwise the value of the newest node, hidden or not |
| ValueTrackers.ValueTracker.Link | honlib/value_tracker.py:82-85 | linking a node after `last` adds it to the end of `to_tuple`, keeps `first`, and keeps timestamps in order when the new one is no earlier |
| ValueTrackers.ValueTracker.Append | honlib/value_tracker.py:29-33 | the node is linked exactly when `v` differs from the value at `last`; either way the last value becomes `v`; afterwards the tracker is truthy exactly when it was before or it linked; order and the absence of adjacent repeats are preserved |
| ValueTrackers.ValueTracker.Clear | honlib/value_tracker.py:35-38 | whatever the tracker held, it is left empty and falsy with last value None |
| ValueTrackers.ValueTracker.Prune | honlib/value_tracker.py:130-137 | only `first` moves, to `PruneFrom` of where it was; the new `to_tuple` is a suffix of the old one and the value at `last` is unchanged |
| NumberValueTrackers.DiffViewRecoversValues | honlib/value_tracker.py:58-66 | the difference view loses nothing: summing the first n differences gives the n-th live value |
| NumberValueTrackers.NumberValueTracker.constructor | honlib/value_tracker.py:21-24 | a new tracker is empty with last value None |
| NumberValueTrackers.NumberValueTracker.ToTupleOfDiffs | honlib/value_tracker.py:58-66 | one pair per live entry with the same timestamps; the first value is diffed against 0, every later one against its predecessor |
| TimeWeighted.TallyStep | honlib/value_tracker.py:162-175 | one more node adds its credit, if it has one, to `summations` |
| TimeWeighted.TallyIsTimePerValue | honlib/value_tracker.py:154-176 | `summations` has a key for exactly the values that were credited some interval, and maps each to the total time credited to it |
| TimeWeighted.IntervalsMeet | honlib/value_tracker.py:163-171 | each node's interval ends where the next node's begins, so the intervals leave no gap |
| TimeWeighted.CreditStep | honlib/value_tracker.py:163-175 | a node with a non-zero value adds the length of its interval to the credited time |
| TimeWeighted.CoveredUpTo | honlib/value_tracker.py:154-176 | with non-zero values, the time credited up to a node is the time from the start of the window to that node's interval end |
| TimeWeighted.CreditsCoverWindow | honlib/value_tracker.py:154-176 | with non-zero values, the credited time adds up to the whole span from `t0` (or from the first node, when `first` is the sentinel) to the clock |
| TimeWeighted.StopsFirstAt | honlib/value_tracker.py:178-187 | returning at the first index where the walk can return gives the median |
| WindowedValueTrackers.WindowedValueTracker.constructor | honlib/value_tracker.py:121-124 | a new tracker is empty with its clock at -inf |
| WindowedValueTrackers.WindowedValueTracker.Append | honlib/value_tracker.py:126-128 | the base append followed by a tick at `t`, even when nothing was linked: the clock becomes `t`, `first` moves to `PruneFrom`, the last value is `v`, and with in-order timestamps every live entry is at most `max_age` old |
| WindowedValueTrackers.WindowedValueTracker.Tick | honlib/value_tracker.py:130-137 | sets the clock, keeps every node and the last value, leaves a suffix of the old `to_tuple`, and with in-order timestamps every live entry is at most `max_age` old |
| WindowedValueTrackers.WindowedValueTracker.Clear | honlib/value_tracker.py:35-38 | the inherited `clear`: empty, falsy, last value None, clock invariant kept |
| WindowedValueTrackers.WindowedValueTracker.Max | honlib/value_tracker.py:139-144 | -inf exactly when nothing is live; otherwise a live value no smaller than any live value (the hidden boundary node does not count) |
| WindowedValueTrackers.WindowedValueTracker.Min | honlib/value_tracker.py:146-151 | +inf exactly when nothing is live; otherwise a live value no larger than any live value |
| WindowedValueTrackers.WindowedValueTracker.Median | honlib/value_tracker.py:153-187 | the time-weighted median of the window: the walk over the tally's values in ascending order returns at its first stopping point, or None |
| WindowedValueTrackers.WindowedValueTracker.Summations | honlib/value_tracker.py:154-176 | the `summations` loop builds exactly the tally of the credits of the nodes from `first` to `last`, the final interval ending at the clock |
| WindowedValueTrackers.Walk | honlib/value_tracker.py:178-187 | the walk returns the value whose running total first exceeds `max_age / 2`, or the midpoint with the next value when the total first equals it, or None when neither happens |
| TradedVolumeTrackers.LowestPrice | honlib/value_tracker.py:113 | the lowest price over non-empty maps: a price of one of them and no higher than any |
| TradedVolumeTrackers.TradedVolumeTracker.constructor | honlib/value_tracker.py:70-72 | a new tracker is empty |
| TradedVolumeTrackers.TradedVolumeTracker.Append | honlib/value_tracker.py:74-86 | the map is linked exactly when it is non-empty, with no comparison against the last value, then the tracker ticks at `t` |
| TradedVolumeTrackers.TradedVolumeTracker.Tick | honlib/value_tracker.py:88-101 | nothing moves unless `max_age` is truthy; then `first` moves to `PruneFrom`, and with in-order timestamps every live entry is at most `max_age` old |
| TradedVolumeTrackers.TradedVolumeTracker.Clear | honlib/value_tracker.py:35-38 | the inherited `clear` discards the chain: `first` is back at the sentinel, the tracker is empty and falsy, and its last value is None |
| TradedVolumeTrackers.TradedVolumeTracker.Max | honlib/value_tracker.py:103-109 | -inf exactly when nothing is live; otherwise a price in a live map, no lower than any live price |
| TradedVolumeTrackers.TradedVolumeTracker.Min | honlib/value_tracker.py:111-117 | +inf exactly when nothing is live; otherwise a price in a live map, no higher than any live price |
| LinkedLists.Reverse | honlib/data_structures/linked_list.py:67-72 | the reverse order: the same length, element i taken from the other end |
| LinkedLists.LinkedList.constructor | honlib/data_structures/linked_list.py:14-17 | a new list holds only its sentinel: empty, falsy, last value None |
| LinkedLists.LinkedList.ToTuple | honlib/data_structures/linked_list.py:33-40 | iteration yields the value of every node after the sentinel, in insertion order, never the sentinel |
| LinkedLists.LinkedList.IsNonEmpty | honlib/data_structures/linked_list.py:19-20 | truthy exactly when `to_tuple` is non-empty |
| LinkedLists.LinkedList.LastValue | honlib/data_structures/linked_list.py:42-43 | the most recently linked value, or None when the list is empty |
| LinkedLists.LinkedList.Append | honlib/data_structures/linked_list.py:22-26 | `v` goes on the end exactly when it differs from the last value; afterwards the last value is `v`; the list is truthy exactly when it was or `v` is not None (0 included); no adjacent repeats are created |
| LinkedLists.LinkedList.Clear | honlib/data_structures/linked_list.py:28-31 | whatever the list held, it is left empty, falsy, last value None |
| LinkedLists.DoublyLinkedList.constructor | honlib/data_structures/linked_list.py:14-17 | the sentinel comes from `node_class`, so its `prev` is None |
| LinkedLists.DoublyLinkedList.Append | honlib/data_structures/linked_list.py:60-65 | forwards the same as the list's `append`; the new node's `prev` is the old `last`, so every node points back at its predecessor |
| LinkedLists.DoublyLinkedList.Clear | honlib/data_structures/linked_list.py:28-31 | the inherited `clear` empties the list and installs a sentinel without a `prev` attribute |
| LinkedLists.DoublyLinkedList.Reversed | honlib/data_structures/linked_list.py:67-72 | fails exactly when the sentinel came from `clear`; otherwise yields the values from `last` back to the first node, the reverse of `to_tuple`, without the sentinel |
| LinkedLists.ReversedIsToTupleBackwards | honlib/data_structures/linked_list.py:67-72 | what `reversed` yields is `Reverse(to_tuple)`, and reversing it again gives `to_tuple` |
| Scenarios.CreditsOfLongestHeld | honlib/tests/test_value_tracker.py:159-167 | appends `(0,2),(6,3),(10,4)`, `max_age` 10: value 2 is credited 6 units, value 3 is credited 4, and the newest node gets nothing |
| Scenarios.TallyOfLongestHeld | honlib/tests/test_value_tracker.py:159-167 | appends `(0,2),(6,3),(10,4)`, `max_age` 10: `first` stays at the sentinel and the tally is `{2: 6, 3: 4}` |
| Scenarios.MedianOfLongestHeld | honlib/tests/test_value_tracker.py:159-167 | with the tally `{2: 6, 3: 4}` the median is 2 |
| Scenarios.CreditsWhenSplitEqually | honlib/tests/test_value_tracker.py:169-177 | appends `(0,2),(5,3),(10,3)`: each of the two linked nodes is credited 5 units |
| Scenarios.TallyWhenSplitEqually | honlib/tests/test_value_tracker.py:169-177 | appends `(0,2),(5,3),(10,3)`: two nodes linked, tally `{2: 5, 3: 5}` |
| Scenarios.MedianWhenSplitEqually | honlib/tests/test_value_tracker.py:169-177 | with the tally `{2: 5, 3: 5}` the median is the midpoint 2.5 |
| Scenarios.NoMedianWithoutEnoughData | honlib/tests/test_value_tracker.py:188-195 | appends `(5,3),(10,3)`: tally `{3: 5}` and no median |
| Scenarios.WindowMovesWithTheClock | honlib/tests/test_value_tracker.py:115-137 | appends `(10,2),(20,3),(30,4)`, `max_age` 10: the first node is hidden, then one more at each of `tick(40)` and `tick(50)` |
| Scenarios.TradedVolumeWindow | honlib/tests/test_value_tracker.py:64-111 | `max_age` 100: which nodes stay live after each append and tick, and the price range of the live maps (100 and 101: 7.2 to 7.4; 101 and 201: 7.2 to 7.8; 201 and 202: 7.4 to 7.8; 202 alone: 7.4 to 7.8) |
| Scenarios.WindowedExtremes | honlib/tests/test_value_tracker.py:139-157 | after the appends at 10, 20 and 30 with `max_age` 10, the live values are 3 and 4: the largest is 4 and the smallest is 3, and no other value qualifies |
| Scenarios.DiffsOfTwoValues | honlib/tests/test_value_tracker.py:52-61 | the live entries `(1,2),(3,4)` have exactly one difference view, `(1,2),(3,2)` |
| ScenarioRuns.LinkedListInOrder | honlib/tests/data_structures/test_linked_list.py:40-49 | appending 1, 2, 3 to a linked list gives `to_tuple` `(1, 2, 3)` |
| ScenarioRuns.DoublyLinkedListBackwards | honlib/tests/data_structures/test_linked_list.py:95-106 | appending 1, 2, 3 to a doubly linked list and reversing it yields 3, 2, 1 |

## Left out

- `__repr__` of the nodes is debug output only, and is not modelled.
- Floating point is not modelled. Values are exact reals and timestamps are integers. The float infinities become `Time.MinusInfinity` and `Extended.NegInf`/`PosInf`.
- `__iter__` is a generator. Its laziness is not modelled: iteration is the sequence `ToTuple` of the live entries.
- Node identity and garbage collection of hidden nodes are not modelled. Hidden nodes stay in `entries` before `first`, which is what the source's dedup against `last` also observes.
- ValueTrackers.ValueTracker.Append: values are never None, so appending None to a value tracker (a no-op on an empty tracker, a linked None node otherwise) is not modelled. The linked lists do take None values.
- ValueTrackers.ValueTracker.Tick: the base `tick` does nothing and has no contract.
- TradedVolumeTrackers.TradedVolumeTracker.Append: takes the `diff` map itself. The `{"diff": ...}` wrapper, and the KeyError a missing key would raise, are not modelled.
- TradedVolumeTrackers.TradedVolumeTracker.Min: the generator's `if node.v` filter is not modelled. Every linked map is non-empty, so it never filters anything, and the ValueError that `min` of an all-filtered generator raises cannot happen.
- TradedVolumeTrackers.TradedVolumeTracker.Tick: `max_age` is `None` or an integer. A float `max_age` is not modelled.
- WindowedValueTrackers.WindowedValueTracker.Tick: the freshness guarantee is stated only for chronological timestamps. The source never checks timestamp order, and with out-of-order timestamps it promises nothing.
- WindowedValueTrackers.WindowedValueTracker.Tick: the clock is set after the pruning loop rather than before. The two touch disjoint state, so the order does not change the result.
- LinkedLists.DoublyLinkedList.Reversed: the generator yields every node before the AttributeError that a cleared list raises. The model returns only the error, without the values yielded before it.
- LinkedLists.DoublyLinkedList.Append: the source's `prev` is a node reference. The model stores it as the index of the node it points to.
- `NumberValueTracker`, `TradedVolumeTracker` and `WindowedValueTracker` inherit from `ValueTracker`. The model composes them over a `base` tracker instead. Inherited methods that a subclass does not override (`to_tuple`, `__bool__`, `get_last_value`, and `append` for `NumberValueTracker`) are called on `base`.
- The tests are not modelled as operations. Most of their expectations are stated as the `Scenarios` lemmas over the specification functions; the linked-list ones are the `ScenarioRuns` methods, which drive the classes. The repeat-dropping example of honlib/tests/test_value_tracker.py:41-49 has no scenario of its own; `ValueTrackers.ValueTracker.Append` states the rule it relies on. The reversed-list test asserts `result[1].v == 1` (honlib/tests/data_structures/test_linked_list.py:106), which contradicts the code, so it is not used. The test at honlib/tests/test_value_tracker.py:179 is shadowed by a later test of the same name, and only the later one is stated.
