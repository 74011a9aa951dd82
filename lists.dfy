/** Lists built by appending, one element at a time, what each input element
    contributes; and why such a list does not depend on the input's order beyond
    a permutation. */
module Lists {

  /** The list that appending `f(x)` for each `x` of `s` in turn builds. */
  function FlatMap<A, B>(f: A -> seq<B>, s: seq<A>): seq<B> {
    if |s| == 0 then [] else FlatMap(f, s[..|s| - 1]) + f(s[|s| - 1])
  }

  lemma {:induction false} FlatMapAppend<A, B>(f: A -> seq<B>, a: seq<A>, b: seq<A>)
    ensures FlatMap(f, a + b) == FlatMap(f, a) + FlatMap(f, b)
  {
    if |b| == 0 {
      assert a + b == a;
    } else {
      var ab := a + b;
      assert ab[..|ab| - 1] == a + b[..|b| - 1];
      assert ab[|ab| - 1] == b[|b| - 1];
      FlatMapAppend(f, a, b[..|b| - 1]);
    }
  }

  /** An element's contribution is part of the list, and everything in the list is
      some element's contribution. */
  lemma {:induction false} FlatMapMembers<A, B>(f: A -> seq<B>, s: seq<A>, y: B)
    ensures y in FlatMap(f, s) <==> exists i :: 0 <= i < |s| && y in f(s[i])
  {
    if |s| > 0 {
      var pre := s[..|s| - 1];
      FlatMapMembers(f, pre, y);
      assert forall i :: 0 <= i < |pre| ==> pre[i] == s[i];
      if exists i :: 0 <= i < |s| && y in f(s[i]) {
        var i :| 0 <= i < |s| && y in f(s[i]);
        if i < |pre| {
          assert y in f(pre[i]);
        }
      }
    }
  }

  predicate Distinct<A(==)>(s: seq<A>) {
    forall i, j :: 0 <= i < j < |s| ==> s[i] != s[j]
  }

  /** In a list without repetitions every element occurs once. */
  lemma {:induction false} DistinctCount<A>(s: seq<A>, x: A)
    requires Distinct(s)
    ensures multiset(s)[x] == if x in s then 1 else 0
  {
    if |s| > 0 {
      var pre := s[..|s| - 1];
      assert s == pre + [s[|s| - 1]];
      assert Distinct(pre);
      DistinctCount(pre, x);
      if x == s[|s| - 1] {
        assert x !in pre;
      }
    }
  }

  /** A list without repetitions whose elements all equal `x`, and that holds `x`, is `[x]`. */
  lemma OnlyElement<A>(s: seq<A>, x: A)
    requires Distinct(s) && x in s
    requires forall y :: y in s ==> y == x
    ensures s == [x]
  {
    forall y
      ensures multiset(s)[y] == multiset{x}[y]
    {
      DistinctCount(s, y);
    }
    assert multiset(s) == multiset{x};
    assert |s| == |multiset(s)| == 1;
    assert s[0] in s;
  }

  /** Two lists without repetitions that hold the same elements are permutations
      of each other. */
  lemma DistinctSameElements<A>(s1: seq<A>, s2: seq<A>)
    requires Distinct(s1) && Distinct(s2)
    requires forall x :: x in s1 <==> x in s2
    ensures multiset(s1) == multiset(s2)
  {
    forall x
      ensures multiset(s1)[x] == multiset(s2)[x]
    {
      DistinctCount(s1, x);
      DistinctCount(s2, x);
    }
  }

  /** Taking one element out of a list leaves the rest of its multiset. */
  lemma RemoveAt<A>(s: seq<A>, i: nat)
    requires i < |s|
    ensures multiset(s) == multiset(s[..i] + s[i + 1..]) + multiset{s[i]}
  {
    assert s == s[..i] + [s[i]] + s[i + 1..];
  }

  lemma Cancel<A>(a: multiset<A>, b: multiset<A>, x: A)
    requires a + multiset{x} == b + multiset{x}
    ensures a == b
  {
    forall y
      ensures a[y] == b[y]
    {
      assert (a + multiset{x})[y] == (b + multiset{x})[y];
    }
  }

  /** A one-element list contributes what its element does. */
  lemma FlatMapSingle<A, B>(f: A -> seq<B>, x: A)
    ensures FlatMap(f, [x]) == f(x)
  {
    assert [x][..0] == [];
  }

  /** Moving one element to the end moves its contribution, up to order. */
  lemma MoveToEnd<A, B>(f: A -> seq<B>, before: seq<A>, x: A, after: seq<A>)
    ensures multiset(FlatMap(f, before + ([x] + after)))
         == multiset(FlatMap(f, before + after)) + multiset(f(x))
  {
    FlatMapAppend(f, before, [x] + after);
    FlatMapAppend(f, [x], after);
    FlatMapSingle(f, x);
    FlatMapAppend(f, before, after);
    var a, b, c := FlatMap(f, before), f(x), FlatMap(f, after);
    assert multiset(a + (b + c)) == multiset(a) + multiset(b) + multiset(c);
  }

  /** Permuting the input permutes the contributions: the built list has the same
      elements with the same multiplicities. */
  lemma {:induction false} FlatMapPermutation<A, B>(f: A -> seq<B>, s1: seq<A>, s2: seq<A>)
    requires multiset(s1) == multiset(s2)
    ensures multiset(FlatMap(f, s1)) == multiset(FlatMap(f, s2))
  {
    if |s1| == 0 {
      assert |s2| == |multiset(s2)| == 0;
    } else {
      var x := s1[|s1| - 1];
      var pre := s1[..|s1| - 1];
      assert s1 == pre + [x];
      assert x in multiset(s2);
      var i :| 0 <= i < |s2| && s2[i] == x;
      var rest := s2[..i] + s2[i + 1..];
      RemoveAt(s2, i);
      Cancel(multiset(pre), multiset(rest), x);
      FlatMapPermutation(f, pre, rest);
      assert s2 == s2[..i] + ([x] + s2[i + 1..]);
      MoveToEnd(f, s2[..i], x, s2[i + 1..]);
    }
  }
}
