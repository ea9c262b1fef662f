/** Sequences: their ends, mapping and filtering, and what the last two do not depend on; and the sizes of sets. */
module Sequences {
  /** All but the last element. */
  function Past<A>(s: seq<A>): seq<A>
    requires s != []
  {
    s[..|s| - 1]
  }

  function Last<A>(s: seq<A>): A
    requires s != []
  {
    s[|s| - 1]
  }

  /** `iter().map(f).collect()`. */
  function Map<A, B>(f: A -> B, s: seq<A>): (t: seq<B>)
    ensures |t| == |s| && forall i :: 0 <= i < |s| ==> t[i] == f(s[i])
  {
    seq(|s|, i requires 0 <= i < |s| => f(s[i]))
  }

  /** The elements that satisfy `p`, in order. */
  function Filter<A(!new)>(p: A -> bool, s: seq<A>): (t: seq<A>)
    ensures forall x :: x in t <==> x in s && p(x)
  {
    if s == [] then []
    else if p(s[0]) then [s[0]] + Filter(p, s[1..])
    else Filter(p, s[1..])
  }

  lemma MapAppend<A, B>(f: A -> B, a: seq<A>, b: seq<A>)
    ensures Map(f, a + b) == Map(f, a) + Map(f, b)
  {
  }

  lemma MapOfMap<A(!new), B, C>(f: A -> B, g: B -> C, k: A -> C, s: seq<A>)
    requires forall x :: g(f(x)) == k(x)
    ensures Map(g, Map(f, s)) == Map(k, s)
  {
  }

  /** Filtering what was mapped is mapping what passes the same test before. */
  lemma {:induction false} FilterOfMap<A(!new), B(!new)>(f: A -> B, p: B -> bool, g: A -> bool, s: seq<A>)
    requires forall x :: p(f(x)) == g(x)
    ensures Filter(p, Map(f, s)) == Map(f, Filter(g, s))
  {
    if s != [] {
      FilterOfMap(f, p, g, s[1..]);
      assert Map(f, s)[1..] == Map(f, s[1..]);
      if g(s[0]) {
        MapAppend(f, [s[0]], Filter(g, s[1..]));
      }
    }
  }

  lemma {:induction false} FilterAppend<A(!new)>(p: A -> bool, a: seq<A>, b: seq<A>)
    ensures Filter(p, a + b) == Filter(p, a) + Filter(p, b)
  {
    if a == [] {
      assert a + b == b;
    } else {
      FilterAppend(p, a[1..], b);
      assert (a + b)[1..] == a[1..] + b;
    }
  }

  lemma FilterOne<A(!new)>(p: A -> bool, x: A)
    ensures Filter(p, [x]) == if p(x) then [x] else []
  {
    assert Filter(p, [x][1..]) == [];
  }

  lemma TakeOneAway<A>(a: multiset<A>, b: multiset<A>, x: A)
    requires multiset{x} + a == multiset{x} + b
    ensures a == b
  {
    assert a == multiset{x} + a - multiset{x};
    assert b == multiset{x} + b - multiset{x};
  }

  /** Finding the first element of one sequence in another with the same elements. */
  lemma SameFirst<A>(a: seq<A>, b: seq<A>) returns (i: nat)
    requires a != [] && multiset(a) == multiset(b)
    ensures i < |b| && b == b[..i] + [a[0]] + b[i + 1..]
    ensures multiset(a[1..]) == multiset(b[..i] + b[i + 1..])
  {
    assert a[0] in multiset(a);
    i :| 0 <= i < |b| && b[i] == a[0];
    assert a == [a[0]] + a[1..];
    assert b == b[..i] + [a[0]] + b[i + 1..];
    TakeOneAway(multiset(a[1..]), multiset(b[..i] + b[i + 1..]), a[0]);
  }

  /** Mapping does not depend on the order of the elements, up to the order of the results. */
  lemma {:induction false} MapPermuted<A, B>(f: A -> B, a: seq<A>, b: seq<A>)
    requires multiset(a) == multiset(b)
    ensures multiset(Map(f, a)) == multiset(Map(f, b))
    decreases |a|
  {
    if a == [] {
      assert |multiset(b)| == 0;
    } else {
      var i := SameFirst(a, b);
      MapPermuted(f, a[1..], b[..i] + b[i + 1..]);
      MapAppend(f, b[..i] + [a[0]], b[i + 1..]);
      MapAppend(f, b[..i], [a[0]]);
      MapAppend(f, b[..i], b[i + 1..]);
      assert Map(f, a) == [f(a[0])] + Map(f, a[1..]);
      assert Map(f, [a[0]]) == [f(a[0])];
    }
  }

  lemma {:induction false} FilterPermuted<A(!new)>(p: A -> bool, a: seq<A>, b: seq<A>)
    requires multiset(a) == multiset(b)
    ensures multiset(Filter(p, a)) == multiset(Filter(p, b))
    decreases |a|
  {
    if a == [] {
      assert |multiset(b)| == 0;
    } else {
      var i := SameFirst(a, b);
      FilterPermuted(p, a[1..], b[..i] + b[i + 1..]);
      FilterAppend(p, b[..i] + [a[0]], b[i + 1..]);
      FilterAppend(p, b[..i], [a[0]]);
      FilterAppend(p, b[..i], b[i + 1..]);
      assert [a[0]][1..] == [];
    }
  }

  lemma TwiceCounts<A>(s: seq<A>, i: nat, j: nat)
    requires i < j < |s| && s[i] == s[j]
    ensures multiset(s)[s[i]] >= 2
  {
    assert s == s[..i] + [s[i]] + s[i + 1..j] + [s[j]] + s[j + 1..];
  }

  ghost predicate Distinct<A>(s: seq<A>) {
    forall i, j :: 0 <= i < j < |s| ==> s[i] != s[j]
  }

  /** Two sequences without repetition that hold the same elements are permutations of each other. */
  lemma SameMembers<A(!new)>(a: seq<A>, b: seq<A>)
    requires Distinct(a) && Distinct(b)
    requires forall x :: x in a <==> x in b
    ensures multiset(a) == multiset(b)
  {
    forall x | x in multiset(a) + multiset(b)
      ensures multiset(a)[x] == multiset(b)[x]
    {
      DistinctCount(a, x);
      DistinctCount(b, x);
    }
  }

  lemma DistinctCount<A>(s: seq<A>, x: A)
    requires Distinct(s)
    ensures multiset(s)[x] == if x in s then 1 else 0
  {
    if x in s {
      var i :| 0 <= i < |s| && s[i] == x;
      assert s == s[..i] + [x] + s[i + 1..];
      assert x !in s[..i] && x !in s[i + 1..];
    }
  }

  lemma {:induction false} SubsetCount<T>(a: set<T>, b: set<T>)
    requires a <= b
    ensures |a| <= |b|
  {
    if a != {} {
      var x :| x in a;
      SubsetCount(a - {x}, b - {x});
    }
  }
}
