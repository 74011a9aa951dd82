/** Python's `list.sort()` on a list of strings: ascending by code point, a prefix first. */
module Sorting {

  /** `a <= b` on Python strings */
  predicate LexLe(a: string, b: string) {
    if |a| == 0 then true
    else if |b| == 0 then false
    else if a[0] != b[0] then a[0] < b[0]
    else LexLe(a[1..], b[1..])
  }

  lemma {:induction false} LexLeReflexive(a: string)
    ensures LexLe(a, a)
  {
    if |a| > 0 {
      LexLeReflexive(a[1..]);
    }
  }

  lemma {:induction false} LexLeTotal(a: string, b: string)
    ensures LexLe(a, b) || LexLe(b, a)
  {
    if |a| > 0 && |b| > 0 && a[0] == b[0] {
      LexLeTotal(a[1..], b[1..]);
    }
  }

  lemma {:induction false} LexLeAntisymmetric(a: string, b: string)
    requires LexLe(a, b) && LexLe(b, a)
    ensures a == b
  {
    if |a| > 0 && |b| > 0 {
      LexLeAntisymmetric(a[1..], b[1..]);
      assert a == [a[0]] + a[1..] && b == [b[0]] + b[1..];
    }
  }

  lemma {:induction false} LexLeTransitive(a: string, b: string, c: string)
    requires LexLe(a, b) && LexLe(b, c)
    ensures LexLe(a, c)
  {
    if |a| > 0 && |b| > 0 && |c| > 0 && a[0] == b[0] && b[0] == c[0] {
      LexLeTransitive(a[1..], b[1..], c[1..]);
    }
  }

  predicate Sorted(s: seq<string>) {
    forall i, j :: 0 <= i < j < |s| ==> LexLe(s[i], s[j])
  }

  /** An element that does not exceed the head of a sorted list can go in front. */
  lemma SortedInFront(x: string, s: seq<string>)
    requires Sorted(s) && |s| > 0 && LexLe(x, s[0])
    ensures Sorted([x] + s)
  {
    var r := [x] + s;
    forall i, j | 0 <= i < j < |r|
      ensures LexLe(r[i], r[j])
    {
      assert r[j] == s[j - 1];
      if i == 0 {
        if j > 1 {
          LexLeTransitive(x, s[0], s[j - 1]);
        }
      } else {
        assert r[i] == s[i - 1];
      }
    }
  }

  /** The head of a sorted list stays in front of the rest with a larger element put in. */
  lemma SortedBehind(x: string, s: seq<string>, rest: seq<string>)
    requires Sorted(s) && |s| > 0 && !LexLe(x, s[0])
    requires Sorted(rest) && multiset(rest) == multiset(s[1..]) + multiset{x}
    ensures Sorted([s[0]] + rest)
  {
    LexLeTotal(x, s[0]);
    forall j | 0 <= j < |rest|
      ensures LexLe(s[0], rest[j])
    {
      assert rest[j] in multiset(rest);
      assert rest[j] == x || rest[j] in s[1..];
    }
    var r := [s[0]] + rest;
    forall i, j | 0 <= i < j < |r|
      ensures LexLe(r[i], r[j])
    {
      assert r[j] == rest[j - 1];
      if i > 0 {
        assert r[i] == rest[i - 1];
      }
    }
  }

  /** Puts `x` in front of the first element it does not exceed. */
  function Insert(x: string, s: seq<string>): (r: seq<string>)
    ensures multiset(r) == multiset(s) + multiset{x}
    ensures Sorted(s) ==> Sorted(r)
  {
    if |s| == 0 then [x]
    else if LexLe(x, s[0]) then
      assert Sorted(s) ==> Sorted([x] + s) by {
        if Sorted(s) {
          SortedInFront(x, s);
        }
      }
      [x] + s
    else
      var rest := Insert(x, s[1..]);
      assert s == [s[0]] + s[1..];
      assert Sorted(s) ==> Sorted([s[0]] + rest) by {
        if Sorted(s) {
          SortedBehind(x, s, rest);
        }
      }
      [s[0]] + rest
  }

  /** The sorted arrangement of `s`. */
  function Sort(s: seq<string>): (r: seq<string>)
    ensures Sorted(r)
    ensures multiset(r) == multiset(s)
  {
    if |s| == 0 then []
    else
      assert s == [s[0]] + s[1..];
      Insert(s[0], Sort(s[1..]))
  }

  /** The first element of a sorted list does not exceed any of its elements. */
  lemma SortedFirstIsLeast(a: seq<string>, x: string)
    requires Sorted(a) && x in a
    ensures LexLe(a[0], x)
  {
    var i :| 0 <= i < |a| && a[i] == x;
    if i == 0 {
      LexLeReflexive(x);
    }
  }

  /** Lists with the same elements and the same head have tails with the same elements. */
  lemma SameTails(a: seq<string>, b: seq<string>)
    requires |a| > 0 && |b| > 0 && a[0] == b[0]
    requires multiset(a) == multiset(b)
    ensures multiset(a[1..]) == multiset(b[1..])
  {
    assert a == [a[0]] + a[1..];
    assert b == [b[0]] + b[1..];
    forall e
      ensures multiset(a[1..])[e] == multiset(b[1..])[e]
    {
      assert multiset(a)[e] == multiset{a[0]}[e] + multiset(a[1..])[e];
      assert multiset(b)[e] == multiset{a[0]}[e] + multiset(b[1..])[e];
    }
  }

  /** Two sorted lists with the same elements are the same list: sorting leaves no
      freedom, so the sorted buffer does not depend on the order it was filled in. */
  lemma {:induction false} SortedUnique(a: seq<string>, b: seq<string>)
    requires Sorted(a) && Sorted(b)
    requires multiset(a) == multiset(b)
    ensures a == b
  {
    assert |a| == |multiset(a)| == |multiset(b)| == |b|;
    if |a| > 0 {
      assert a[0] in multiset(b) && b[0] in multiset(a);
      SortedFirstIsLeast(b, a[0]);
      SortedFirstIsLeast(a, b[0]);
      LexLeAntisymmetric(a[0], b[0]);
      SameTails(a, b);
      SortedUnique(a[1..], b[1..]);
      assert a == [a[0]] + a[1..] && b == [b[0]] + b[1..];
    }
  }

  /** Sorting forgets the order of its input. */
  lemma SortPermutationInvariant(s: seq<string>, u: seq<string>)
    requires multiset(s) == multiset(u)
    ensures Sort(s) == Sort(u)
  {
    SortedUnique(Sort(s), Sort(u));
  }
}
