/** Python's built-in `min`, `max` and `sorted` over the keys of a dict of
    real numbers, as the trackers use them. */
module Ordering {

  predicate StrictlyIncreasing(s: seq<real>) {
    forall i, j :: 0 <= i < j < |s| ==> s[i] < s[j]
  }

  /** Set extensionality, spelled out for the solver. */
  lemma NoElementsMeansEmpty(s: set<real>)
    requires forall y :: y !in s
    ensures s == {}
  {
    assert forall y :: y in s <==> y in {};
  }

  lemma HasElement(s: set<real>)
    requires s != {}
    ensures exists y :: y in s
  {
    if forall y :: y !in s {
      NoElementsMeansEmpty(s);
      assert false;
    }
  }

  lemma {:induction false} HasLeast(s: set<real>)
    requires s != {}
    ensures exists m :: m in s && forall x :: x in s ==> m <= x
    decreases |s|
  {
    HasElement(s);
    var y :| y in s;
    var rest := s - {y};
    if rest == {} {
      forall x | x in s
        ensures y <= x
      {
        assert x !in rest;
      }
    } else {
      HasLeast(rest);
      var m :| m in rest && forall x :: x in rest ==> m <= x;
      var least := if y < m then y else m;
      forall x | x in s
        ensures least <= x
      {
        if x != y {
          assert x in rest;
        }
      }
      assert least in s;
    }
  }

  lemma {:induction false} HasGreatest(s: set<real>)
    requires s != {}
    ensures exists m :: m in s && forall x :: x in s ==> x <= m
    decreases |s|
  {
    HasElement(s);
    var y :| y in s;
    var rest := s - {y};
    if rest == {} {
      forall x | x in s
        ensures x <= y
      {
        assert x !in rest;
      }
    } else {
      HasGreatest(rest);
      var m :| m in rest && forall x :: x in rest ==> x <= m;
      var greatest := if m < y then y else m;
      forall x | x in s
        ensures x <= greatest
      {
        if x != y {
          assert x in rest;
        }
      }
      assert greatest in s;
    }
  }

  /** `min(s)` of a non-empty collection. */
  function Least(s: set<real>): (m: real)
    requires s != {}
    ensures m in s && forall x :: x in s ==> m <= x
  {
    HasLeast(s);
    var m :| m in s && forall x :: x in s ==> m <= x;
    m
  }

  /** `max(s)` of a non-empty collection. */
  function Greatest(s: set<real>): (m: real)
    requires s != {}
    ensures m in s && forall x :: x in s ==> x <= m
  {
    HasGreatest(s);
    var m :| m in s && forall x :: x in s ==> x <= m;
    m
  }

  /** `sorted(s)`: the elements of `s`, each once, in ascending order. */
  function Sorted(s: set<real>): (r: seq<real>)
    ensures StrictlyIncreasing(r)
    ensures |r| == |s|
    ensures forall x :: x in r <==> x in s
    decreases |s|
  {
    if s == {} then []
    else
      var m := Least(s);
      var rest := Sorted(s - {m});
      assert forall x :: x in rest ==> m < x;
      [m] + rest
  }

  lemma HeadIn(a: seq<real>)
    requires a != []
    ensures a[0] in a
  {
  }

  lemma HeadIsLeast(a: seq<real>)
    requires a != [] && StrictlyIncreasing(a)
    ensures forall x :: x in a ==> a[0] <= x
  {
  }

  lemma TailElements(a: seq<real>)
    requires a != [] && StrictlyIncreasing(a)
    ensures forall x :: x in a[1..] <==> x in a && x != a[0]
  {
  }

  /** Two ascending sequences without repeats that hold the same elements are
      the same sequence, so `Sorted` is the only possible answer. */
  lemma {:induction false} SortedUnique(a: seq<real>, b: seq<real>)
    requires StrictlyIncreasing(a) && StrictlyIncreasing(b)
    requires forall x :: x in a <==> x in b
    ensures a == b
    decreases |a|
  {
    if a == [] {
      if b != [] {
        HeadIn(b);
        assert false;
      }
    } else if b == [] {
      HeadIn(a);
      assert false;
    } else {
      HeadIn(a);
      HeadIn(b);
      HeadIsLeast(a);
      HeadIsLeast(b);
      assert a[0] == b[0];
      TailElements(a);
      TailElements(b);
      SortedUnique(a[1..], b[1..]);
      assert a == [a[0]] + a[1..] && b == [b[0]] + b[1..];
    }
  }
}
