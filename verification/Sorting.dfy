/** Sorting by a key. Callers learn only that the result is sorted and has the same elements, so
    nothing depends on how ties are broken. */
module Sorting {

  ghost predicate Ascending<T>(s: seq<(real, T)>) {
    forall i, j | 0 <= i < j < |s| :: s[i].0 <= s[j].0
  }

  method InsertKeyed<T>(s: seq<(real, T)>, x: (real, T)) returns (r: seq<(real, T)>)
    requires Ascending(s)
    ensures Ascending(r) && multiset(r) == multiset(s) + multiset{x}
  {
    var i := 0;
    while i < |s| && s[i].0 <= x.0
      invariant 0 <= i <= |s|
      invariant forall j | 0 <= j < i :: s[j].0 <= x.0
    {
      i := i + 1;
    }
    r := s[..i] + [x] + s[i..];
    OneMore(s, i, x);
  }

  lemma OneMore<T>(s: seq<T>, i: nat, x: T)
    requires i <= |s|
    ensures multiset(s[..i] + [x] + s[i..]) == multiset(s) + multiset{x}
  {
    assert s == s[..i] + s[i..];
  }

  method SortKeyed<T>(s: seq<(real, T)>) returns (r: seq<(real, T)>)
    ensures Ascending(r) && multiset(r) == multiset(s)
    ensures |r| == |s| && forall x :: x in r <==> x in s
  {
    r := [];
    for i := 0 to |s|
      invariant Ascending(r) && multiset(r) == multiset(s[..i])
    {
      r := InsertKeyed(r, s[i]);
      assert s[..i + 1] == s[..i] + [s[i]];
    }
    assert s[..|s|] == s;
    assert |r| == |multiset(r)| && |s| == |multiset(s)|;
    assert forall x :: x in r <==> x in multiset(r);
  }

  function Values<T>(s: seq<(real, T)>): (r: seq<T>)
    ensures |r| == |s|
  {
    seq(|s|, i requires 0 <= i < |s| => s[i].1)
  }

  function WithoutAt<T>(t: seq<T>, i: nat): seq<T>
    requires i < |t|
  {
    t[..i] + t[i + 1..]
  }

  lemma TakenOut<T>(t: seq<T>, i: nat)
    requires i < |t|
    ensures multiset(t) == multiset(WithoutAt(t, i)) + multiset{t[i]}
  {
    assert t == t[..i] + [t[i]] + t[i + 1..];
  }

  lemma ValuesWithout<T>(t: seq<(real, T)>, i: nat)
    requires i < |t|
    ensures Values(WithoutAt(t, i)) == WithoutAt(Values(t), i)
  {
  }

  lemma SameRest<T>(a: multiset<T>, b: multiset<T>, x: T)
    requires a + multiset{x} == b + multiset{x}
    ensures a == b
  {
    assert a == a + multiset{x} - multiset{x};
    assert b == b + multiset{x} - multiset{x};
  }

  /** Rearranging the pairs rearranges the values. */
  lemma {:induction false} ValuesRearranged<T>(s: seq<(real, T)>, t: seq<(real, T)>)
    requires multiset(s) == multiset(t)
    ensures multiset(Values(s)) == multiset(Values(t))
    decreases |s|
  {
    hide Values, WithoutAt;
    if s == [] {
      assert |multiset(t)| == |t|;
    } else {
      assert s[0] in multiset(t);
      var i :| 0 <= i < |t| && t[i] == s[0];
      TakenOut(s, 0);
      TakenOut(t, i);
      SameRest(multiset(WithoutAt(s, 0)), multiset(WithoutAt(t, i)), s[0]);
      ShorterByOne(s, 0);
      ValuesRearranged(WithoutAt(s, 0), WithoutAt(t, i));
      ValuesWithout(s, 0);
      ValuesWithout(t, i);
      ValueAt(s, 0);
      ValueAt(t, i);
      TakenOut(Values(s), 0);
      TakenOut(Values(t), i);
    }
  }

  lemma ShorterByOne<T>(s: seq<T>, i: nat)
    requires i < |s|
    ensures |WithoutAt(s, i)| == |s| - 1
  {
  }

  lemma ValueAt<T>(s: seq<(real, T)>, i: nat)
    requires i < |s|
    ensures Values(s)[i] == s[i].1
  {
  }
}
