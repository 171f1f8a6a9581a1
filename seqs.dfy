/**
 * Order-preserving selection from a sequence: the meaning given here to a
 * query `filter(...).all()` over the rows of a table.
 */
module Seqs {

  /** The elements of `s` that satisfy `p`, in their original order, each
      as many times as it occurs in `s`. */
  function Filter<T(!new)>(s: seq<T>, p: T -> bool): (r: seq<T>)
    ensures |r| <= |s|
    ensures forall x :: x in r <==> x in s && p(x)
  {
    if s == [] then []
    else
      var rest := Filter(s[1..], p);
      assert s == [s[0]] + s[1..];
      if p(s[0]) then [s[0]] + rest else rest
  }

  /** Filtering keeps each element that satisfies `p` exactly as many times
      as it occurs in `s`, and no other element. */
  lemma {:induction false} FilterCounts<T(!new)>(s: seq<T>, p: T -> bool)
    ensures forall x :: multiset(Filter(s, p))[x] == if p(x) then multiset(s)[x] else 0
  {
    if s != [] {
      FilterCounts(s[1..], p);
      assert s == [s[0]] + s[1..];
      assert multiset(s) == multiset{s[0]} + multiset(s[1..]);
    }
  }

  /** Filtering a concatenation filters each part. */
  lemma {:induction false} FilterAppend<T(!new)>(a: seq<T>, b: seq<T>, p: T -> bool)
    ensures Filter(a + b, p) == Filter(a, p) + Filter(b, p)
  {
    if a == [] {
      assert a + b == b;
    } else {
      var x, rest := a[0], a[1..];
      assert a == [x] + rest;
      assert a + b == [x] + (rest + b);
      var head := if p(x) then [x] else [];
      calc {
        Filter(a + b, p);
        { FilterCons(x, rest + b, p); }
        head + Filter(rest + b, p);
        { FilterAppend(rest, b, p); }
        head + (Filter(rest, p) + Filter(b, p));
        (head + Filter(rest, p)) + Filter(b, p);
        { FilterCons(x, rest, p); }
        Filter(a, p) + Filter(b, p);
      }
    }
  }

  /** One unfolding of `Filter` at the head of a sequence. */
  lemma FilterCons<T(!new)>(x: T, s: seq<T>, p: T -> bool)
    ensures Filter([x] + s, p) == (if p(x) then [x] else []) + Filter(s, p)
  {
    assert ([x] + s)[0] == x && ([x] + s)[1..] == s;
  }

  /** When no element of `s` satisfies `p`, filtering keeps nothing. */
  lemma {:induction false} NoneMatch<T(!new)>(s: seq<T>, p: T -> bool)
    requires forall i :: 0 <= i < |s| ==> !p(s[i])
    ensures Filter(s, p) == []
  {
    if s != [] {
      NoneMatch(s[1..], p);
    }
  }

  /** When every element of `s` satisfies `p`, filtering keeps all of `s`. */
  lemma {:induction false} FilterAll<T(!new)>(s: seq<T>, p: T -> bool)
    requires forall i :: 0 <= i < |s| ==> p(s[i])
    ensures Filter(s, p) == s
  {
    if s != [] {
      FilterAll(s[1..], p);
    }
  }

  /** Two predicates that agree on `s` select the same elements of it. */
  lemma {:induction false} FilterCongruent<T(!new)>(s: seq<T>, p: T -> bool, q: T -> bool)
    requires forall i :: 0 <= i < |s| ==> p(s[i]) == q(s[i])
    ensures Filter(s, p) == Filter(s, q)
  {
    if s != [] {
      FilterCongruent(s[1..], p, q);
    }
  }

  /** Narrowing a filter so that it drops an element it used to keep makes
      the result strictly shorter. */
  lemma {:induction false} FilterShrinks<T(!new)>(s: seq<T>, wide: T -> bool, narrow: T -> bool, i: nat)
    requires forall q :: narrow(q) ==> wide(q)
    requires i < |s| && wide(s[i]) && !narrow(s[i])
    ensures |Filter(s, narrow)| < |Filter(s, wide)|
  {
    FilterNarrower(s[1..], wide, narrow);
    if i > 0 {
      FilterShrinks(s[1..], wide, narrow, i - 1);
    }
  }

  /** Narrowing a filter never lengthens the result. */
  lemma {:induction false} FilterNarrower<T(!new)>(s: seq<T>, wide: T -> bool, narrow: T -> bool)
    requires forall q :: narrow(q) ==> wide(q)
    ensures |Filter(s, narrow)| <= |Filter(s, wide)|
  {
    if s != [] {
      FilterNarrower(s[1..], wide, narrow);
    }
  }
}
