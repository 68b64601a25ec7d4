/** Subsequences: what a chain of `filter` calls leaves of a list. */
module Subsequences {

  /** `a` is obtained from `b` by deleting elements, keeping the order of the
      rest. */
  ghost predicate IsSubsequence<T>(a: seq<T>, b: seq<T>)
    decreases |b|
  {
    a == [] || (b != [] && ((a[0] == b[0] && IsSubsequence(a[1..], b[1..])) || IsSubsequence(a, b[1..])))
  }

  /** A subsequence is no longer than the sequence it was taken from and holds
      nothing that sequence does not. */
  lemma {:induction false} SubsequenceIsSmaller<T>(a: seq<T>, b: seq<T>)
    requires IsSubsequence(a, b)
    ensures |a| <= |b|
    ensures forall x :: x in a ==> x in b
    decreases |b|
  {
    if a != [] {
      if a[0] == b[0] && IsSubsequence(a[1..], b[1..]) {
        SubsequenceIsSmaller(a[1..], b[1..]);
        assert a == [a[0]] + a[1..];
      } else {
        SubsequenceIsSmaller(a, b[1..]);
      }
    }
  }

  /** Deleting from a subsequence gives a subsequence. */
  lemma {:induction false} SubsequenceTransitive<T>(a: seq<T>, b: seq<T>, c: seq<T>)
    requires IsSubsequence(a, b) && IsSubsequence(b, c)
    ensures IsSubsequence(a, c)
    decreases |c|
  {
    if a != [] {
      if b[0] == c[0] && IsSubsequence(b[1..], c[1..]) {
        if a[0] == b[0] && IsSubsequence(a[1..], b[1..]) {
          SubsequenceTransitive(a[1..], b[1..], c[1..]);
        } else {
          SubsequenceTransitive(a, b[1..], c[1..]);
        }
      } else {
        SubsequenceTransitive(a, b, c[1..]);
      }
    }
  }

  /** Prepending the same element to both sides keeps the relation. */
  lemma ConsSubsequence<T>(x: T, a: seq<T>, b: seq<T>)
    requires IsSubsequence(a, b)
    ensures IsSubsequence([x] + a, [x] + b)
  {
    assert ([x] + a)[1..] == a && ([x] + b)[1..] == b;
  }

  /** Prepending an element to the larger side keeps the relation. */
  lemma SkipSubsequence<T>(x: T, a: seq<T>, b: seq<T>)
    requires IsSubsequence(a, b)
    ensures IsSubsequence(a, [x] + b)
  {
    assert ([x] + b)[1..] == b;
  }

  /** A subsequence holds every element at most as often as the sequence it
      was taken from. */
  lemma {:induction false} SubsequenceMultiset<T>(a: seq<T>, b: seq<T>)
    requires IsSubsequence(a, b)
    ensures multiset(a) <= multiset(b)
    decreases |b|
  {
    if a != [] {
      assert b == [b[0]] + b[1..];
      if a[0] == b[0] && IsSubsequence(a[1..], b[1..]) {
        SubsequenceMultiset(a[1..], b[1..]);
        assert a == [a[0]] + a[1..];
      } else {
        SubsequenceMultiset(a, b[1..]);
      }
    }
  }

  /** One step of a filter: when `a` is a subsequence of `s` that holds
      every element `keep` accepts exactly as often as `s` does and no other
      element, an accepted head of `s` must be the head of `a`, and a rejected
      head is skipped; the rest of `a` is then such a filter of the rest of
      `s`. */
  lemma KeepsExactlyStep<T>(a: seq<T>, s: seq<T>, keep: T -> bool)
    requires s != [] && IsSubsequence(a, s)
    requires forall x :: multiset(a)[x] == if keep(x) then multiset(s)[x] else 0
    ensures keep(s[0]) ==>
              && a != [] && a[0] == s[0] && IsSubsequence(a[1..], s[1..])
              && forall x :: multiset(a[1..])[x] == if keep(x) then multiset(s[1..])[x] else 0
    ensures !keep(s[0]) ==>
              && IsSubsequence(a, s[1..])
              && forall x :: multiset(a)[x] == if keep(x) then multiset(s[1..])[x] else 0
  {
    var x, rest := s[0], s[1..];
    assert s == [x] + rest;
    if keep(x) {
      assert multiset(a)[x] == multiset(rest)[x] + 1;
      assert a != [];
      if !(a[0] == x && IsSubsequence(a[1..], rest)) {
        SubsequenceMultiset(a, rest);
        assert false;
      }
      assert a == [a[0]] + a[1..];
      forall y
        ensures multiset(a[1..])[y] == if keep(y) then multiset(rest)[y] else 0
      {
        assert multiset(a)[y] == multiset(a[1..])[y] + (if y == x then 1 else 0);
      }
    } else {
      if a != [] {
        assert a[0] in multiset(a);
      }
      forall y
        ensures multiset(a)[y] == if keep(y) then multiset(rest)[y] else 0
      {
        assert multiset(s)[y] == multiset(rest)[y] + (if y == x then 1 else 0);
      }
    }
  }

  /** Order and multiplicities determine what a filter leaves: two
      subsequences of `s` that both hold every element `keep` accepts exactly
      as often as `s` does, and no other element, are equal. */
  lemma {:induction false} FilterResultIsUnique<T>(a1: seq<T>, a2: seq<T>, s: seq<T>, keep: T -> bool)
    requires IsSubsequence(a1, s) && IsSubsequence(a2, s)
    requires forall x :: multiset(a1)[x] == if keep(x) then multiset(s)[x] else 0
    requires forall x :: multiset(a2)[x] == if keep(x) then multiset(s)[x] else 0
    ensures a1 == a2
    decreases |s|
  {
    if s != [] {
      KeepsExactlyStep(a1, s, keep);
      KeepsExactlyStep(a2, s, keep);
      if keep(s[0]) {
        var b1, b2 := a1[1..], a2[1..];
        FilterResultIsUnique(b1, b2, s[1..], keep);
        assert a1 == [s[0]] + b1 && a2 == [s[0]] + b2;
      } else {
        FilterResultIsUnique(a1, a2, s[1..], keep);
      }
    }
  }
}
