/**
  Extremes and ascending listings of finite sets: timestamps (a `TreeMap`
  key order, `max(LocalDateTime::compareTo)`) and currency codes
  (`sorted()` on strings).
 */
module Ordering {
  import Text

  predicate Increasing(s: seq<int>) {
    forall i, j :: 0 <= i < j < |s| ==> s[i] < s[j]
  }

  predicate IncreasingStrings(s: seq<string>) {
    forall i, j :: 0 <= i < j < |s| ==> Text.Less(s[i], s[j])
  }

  predicate IsLeast(s: set<int>, m: int) {
    m in s && forall x :: x in s ==> m <= x
  }

  predicate IsGreatest(s: set<int>, m: int) {
    m in s && forall x :: x in s ==> x <= m
  }

  /**
    A non-empty set of integers has an element to pick. Stated separately
    because a bare `var y :| y in s` on `s != {}` is not discharged without it.
   */
  lemma Inhabited(s: set<int>)
    requires s != {}
    ensures exists y :: y in s
  {
    if forall y :: y !in s {
      assert false;
    }
  }

  lemma {:induction false} LeastExists(s: set<int>)
    requires s != {}
    ensures exists m :: IsLeast(s, m)
    decreases |s|
  {
    Inhabited(s);
    var y :| y in s;
    if s == {y} {
      assert IsLeast(s, y);
    } else {
      var rest := s - {y};
      LeastExists(rest);
      var m :| IsLeast(rest, m);
      assert forall z :: z in s ==> z == y || z in rest;
      if y < m {
        assert IsLeast(s, y);
      } else {
        assert IsLeast(s, m);
      }
    }
  }

  lemma {:induction false} GreatestExists(s: set<int>)
    requires s != {}
    ensures exists m :: IsGreatest(s, m)
    decreases |s|
  {
    Inhabited(s);
    var y :| y in s;
    if s == {y} {
      assert IsGreatest(s, y);
    } else {
      var rest := s - {y};
      GreatestExists(rest);
      var m :| IsGreatest(rest, m);
      assert forall z :: z in s ==> z == y || z in rest;
      if m < y {
        assert IsGreatest(s, y);
      } else {
        assert IsGreatest(s, m);
      }
    }
  }

  function MinOf(s: set<int>): (m: int)
    requires s != {}
    ensures m in s
    ensures forall x :: x in s ==> m <= x
  {
    LeastExists(s);
    var m :| IsLeast(s, m);
    m
  }

  function MaxOf(s: set<int>): (m: int)
    requires s != {}
    ensures m in s
    ensures forall x :: x in s ==> x <= m
  {
    GreatestExists(s);
    var m :| IsGreatest(s, m);
    m
  }

  /** The elements of `s` in ascending order, each once. */
  function SortInts(s: set<int>): (r: seq<int>)
    ensures Increasing(r)
    ensures forall x :: x in r <==> x in s
    ensures |r| == |s|
    decreases |s|
  {
    if s == {} then []
    else
      var m := MinOf(s);
      [m] + SortInts(s - {m})
  }

  predicate IsLeastString(s: set<string>, m: string) {
    m in s && forall x :: x in s && x != m ==> Text.Less(m, x)
  }

  lemma {:induction false} LeastStringExists(s: set<string>)
    requires s != {}
    ensures exists m :: IsLeastString(s, m)
    decreases |s|
  {
    var y :| y in s;
    if s == {y} {
      assert IsLeastString(s, y);
    } else {
      var rest := s - {y};
      LeastStringExists(rest);
      var m :| IsLeastString(rest, m);
      assert forall z :: z in s ==> z == y || z in rest;
      Text.LessTotal(y, m);
      if Text.Less(y, m) {
        forall z | z in rest && z != m
          ensures Text.Less(y, z)
        {
          Text.LessTransitive(y, m, z);
        }
        assert IsLeastString(s, y);
      } else {
        assert IsLeastString(s, m);
      }
    }
  }

  lemma LeastStringUnique(s: set<string>, a: string, b: string)
    requires IsLeastString(s, a) && IsLeastString(s, b)
    ensures a == b
  {
    if a != b {
      Text.LessAsymmetric(a, b);
    }
  }

  /** The least string of a non-empty set under `Text.Less`. */
  function MinString(s: set<string>): (m: string)
    requires s != {}
    ensures m in s
    ensures forall x :: x in s && x != m ==> Text.Less(m, x)
  {
    LeastStringExists(s);
    forall a, b | IsLeastString(s, a) && IsLeastString(s, b)
      ensures a == b
    {
      LeastStringUnique(s, a, b);
    }
    var m :| IsLeastString(s, m);
    m
  }

  /** The elements of `s` in ascending `Text.Less` order, each once. */
  function SortStrings(s: set<string>): (r: seq<string>)
    ensures IncreasingStrings(r)
    ensures forall x :: x in r <==> x in s
    ensures |r| == |s|
    decreases |s|
  {
    if s == {} then []
    else
      var m := MinString(s);
      var rest := SortStrings(s - {m});
      assert forall j :: 0 <= j < |rest| ==> rest[j] in s - {m};
      [m] + rest
  }
}
