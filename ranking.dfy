/** The candidates a search index returns, and the ordering the search action
    puts them in: a sort by score, highest first, with a comparator that
    subtracts scores. JavaScript's array sort is stable, so candidates with
    equal scores keep the order the index returned them in. */
module Ranking {
  import opened Wrappers

  /** One search hit: its identifier, its relevance score and the metadata
      stored with it, which may be missing. */
  datatype Candidate<M> = Candidate(id: string, score: real, metadata: Option<M>)

  /** Scores never increase from left to right. */
  ghost predicate Descending<M>(s: seq<Candidate<M>>)
  {
    forall i, j :: 0 <= i < j < |s| ==> s[i].score >= s[j].score
  }

  /** The candidates of `s` whose score is exactly `v`, in their order in `s`. */
  function WithScore<M>(s: seq<Candidate<M>>, v: real): (r: seq<Candidate<M>>)
    ensures |r| <= |s|
    ensures forall k :: 0 <= k < |r| ==> r[k].score == v
  {
    if s == [] then []
    else if s[0].score == v then [s[0]] + WithScore(s[1..], v)
    else WithScore(s[1..], v)
  }

  /** No candidate of `s` scores higher than `b`. */
  ghost predicate AtMost<M>(s: seq<Candidate<M>>, b: real)
  {
    forall k :: 0 <= k < |s| ==> s[k].score <= b
  }

  /** Places `c` in front of the first candidate of `s` that does not score
      higher than it. */
  function Insert<M>(c: Candidate<M>, s: seq<Candidate<M>>): (r: seq<Candidate<M>>)
    ensures multiset(r) == multiset{c} + multiset(s)
    ensures |r| == |s| + 1
  {
    if s == [] || c.score >= s[0].score then [c] + s
    else
      assert s == [s[0]] + s[1..];
      [s[0]] + Insert(c, s[1..])
  }

  /** Inserting a candidate that scores at most `b` into a list that scores at
      most `b` gives a list that scores at most `b`. */
  lemma {:induction false} InsertAtMost<M>(c: Candidate<M>, s: seq<Candidate<M>>, b: real)
    requires c.score <= b && AtMost(s, b)
    ensures AtMost(Insert(c, s), b)
  {
    if s != [] && c.score < s[0].score {
      InsertAtMost(c, s[1..], b);
    }
  }

  /** Inserting into a sorted list keeps it sorted. */
  lemma {:induction false} InsertDescending<M>(c: Candidate<M>, s: seq<Candidate<M>>)
    requires Descending(s)
    ensures Descending(Insert(c, s))
  {
    if s != [] && c.score < s[0].score {
      var rest := Insert(c, s[1..]);
      InsertDescending(c, s[1..]);
      InsertAtMost(c, s[1..], s[0].score);
      var r := [s[0]] + rest;
      forall i, j | 0 <= i < j < |r|
        ensures r[i].score >= r[j].score
      {
        if i > 0 {
          assert r[i] == rest[i - 1] && r[j] == rest[j - 1];
        } else {
          assert r[j] == rest[j - 1];
        }
      }
    }
  }

  /** The index's candidates, highest score first; an insertion sort that
      places each candidate before the equal-scored ones that came after it
      in the input, which makes it stable. */
  function SortByScore<M>(s: seq<Candidate<M>>): (r: seq<Candidate<M>>)
    ensures Descending(r)
    ensures multiset(r) == multiset(s)
    ensures |r| == |s|
  {
    if s == [] then []
    else
      assert s == [s[0]] + s[1..];
      InsertDescending(s[0], SortByScore(s[1..]));
      Insert(s[0], SortByScore(s[1..]))
  }

  /** Inserting `c` adds it at the front of its own score class and leaves
      every other score class alone: it only passes candidates that score
      strictly higher. */
  lemma {:induction false} InsertScoreClass<M>(c: Candidate<M>, s: seq<Candidate<M>>, v: real)
    ensures WithScore(Insert(c, s), v) == if c.score == v then [c] + WithScore(s, v) else WithScore(s, v)
  {
    if s == [] || c.score >= s[0].score {
      assert Insert(c, s)[1..] == s;
    } else {
      InsertScoreClass(c, s[1..], v);
      assert Insert(c, s)[1..] == Insert(c, s[1..]);
    }
  }

  /** The sort is stable: the candidates with any given score appear in the
      sorted list in exactly the order the index returned them. */
  lemma {:induction false} SortIsStable<M>(s: seq<Candidate<M>>, v: real)
    ensures WithScore(SortByScore(s), v) == WithScore(s, v)
  {
    if s != [] {
      SortIsStable(s[1..], v);
      InsertScoreClass(s[0], SortByScore(s[1..]), v);
    }
  }

  /** The sort keeps exactly the candidates the index returned. */
  lemma SortKeepsCandidates<M>(s: seq<Candidate<M>>, c: Candidate<M>)
    ensures c in SortByScore(s) <==> c in s
  {
    assert c in multiset(SortByScore(s)) <==> c in multiset(s);
  }

  /** The first candidate of a sorted list has the highest score of all. */
  lemma FirstIsBest<M>(s: seq<Candidate<M>>)
    requires Descending(s) && s != []
    ensures forall k :: 0 <= k < |s| ==> s[k].score <= s[0].score
  {
    forall k | 0 < k < |s|
      ensures s[k].score <= s[0].score
    {
      assert 0 < k;
    }
  }

  /** A list that is already ranked is left exactly as it is. */
  lemma {:induction false} SortKeepsRankedList<M>(s: seq<Candidate<M>>)
    requires Descending(s)
    ensures SortByScore(s) == s
  {
    if s != [] {
      SortKeepsRankedList(s[1..]);
      assert s == [s[0]] + s[1..];
    }
  }
}
