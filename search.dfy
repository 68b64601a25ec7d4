/** The `search` server action: it validates the submitted query, asks the
    search index for up to 20 candidates, ranks them by score, keeps those
    that pass the two-tier relevance rule, and answers with the metadata of
    the survivors or with an error message.

    The index is a parameter: a function from the query text and the result
    limit to either the candidates it returns or the value it throws. */
module SearchAction {
  import opened Wrappers
  import opened Ranking
  import opened Subsequences

  /** What a form field can hold: text, or an uploaded file. */
  datatype FormEntry = TextEntry(text: string) | FileEntry

  /** What the index call produces: candidates, or a thrown value. */
  datatype Fetch<M> = Fetched(results: seq<Candidate<M>>) | Threw(exception: Thrown)

  /** The action's answer: exactly one of the data list and the error
      message. */
  datatype SearchResponse<M> = Data(data: seq<M>) | Error(error: string)

  const NoQueryMessage: string := "Please enter a search query"

  /** The number of candidates requested from the index. */
  const ResultLimit: nat := 20

  /** The three constants of the two-tier rule: a score at or above `strong`
      always survives; a score at or above `minimum` survives when it is also
      at least `fraction` times the top score. */
  datatype Thresholds = Thresholds(strong: real, minimum: real, fraction: real)

  /** The values the action uses: a strong threshold of 0.6, a minimum of 0.4
      and a relative fraction of 0.75. */
  const SourceThresholds: Thresholds := Thresholds(0.6, 0.4, 0.75)

  /** The query, if the `search` field holds one: a missing field, an uploaded
      file and the empty string (which is falsy) are all rejected. */
  function QueryOf(field: Option<FormEntry>): (q: Option<string>)
    ensures q.Some? <==> (field.Some? && field.value.TextEntry? && field.value.text != "")
    ensures q.Some? ==> q.value == field.value.text && q.value != ""
  {
    match field
    case Some(TextEntry(text)) => if text == "" then None else Some(text)
    case _ => None
  }

  /** The score of the best candidate of a sorted list, or 0 when there is
      none. */
  function TopScore<M>(sorted: seq<Candidate<M>>): (r: real)
    ensures sorted == [] ==> r == 0.0
    ensures sorted != [] ==> exists k :: 0 <= k < |sorted| && sorted[k].score == r
    ensures Descending(sorted) ==> forall k :: 0 <= k < |sorted| ==> sorted[k].score <= r
  {
    if |sorted| > 0 then sorted[0].score else 0.0
  }

  /** After ranking, the top score is the highest score retrieved, and the
      score of one of the candidates; with no candidates it is 0. */
  lemma TopScoreIsBest<M>(results: seq<Candidate<M>>)
    ensures results == [] ==> TopScore(SortByScore(results)) == 0.0
    ensures forall c :: c in results ==> c.score <= TopScore(SortByScore(results))
    ensures results != [] ==> exists c :: c in results && c.score == TopScore(SortByScore(results))
  {
    var sorted := SortByScore(results);
    if results != [] {
      FirstIsBest(sorted);
      SortKeepsCandidates(results, sorted[0]);
      forall c | c in results
        ensures c.score <= TopScore(sorted)
      {
        SortKeepsCandidates(results, c);
      }
    }
  }

  /** The relative threshold: the given fraction of the top score. For a
      fraction between 0 and 1 and a non-negative top score it lies between 0
      and the top score. */
  function RelativeThreshold(t: Thresholds, top: real): (r: real)
    ensures 0.0 <= t.fraction && 0.0 <= top ==> 0.0 <= r
    ensures t.fraction <= 1.0 && 0.0 <= top ==> r <= top
    ensures t.fraction == 0.0 || top == 0.0 ==> r == 0.0
  {
    top * t.fraction
  }

  /** The two-tier rule for one score, given the top score. For thresholds
      whose minimum does not exceed the strong threshold it has three bands: at
      or above strong a score always survives, below minimum it never does,
      and in between it survives exactly when it reaches the relative
      threshold. */
  predicate Keeps(t: Thresholds, top: real, score: real): (r: bool)
    ensures score >= t.strong ==> r
    ensures t.minimum <= t.strong && score < t.minimum ==> !r
    ensures t.minimum <= score < t.strong ==> (r <==> score >= t.fraction * top)
  {
    score >= t.strong || (score >= t.minimum && score >= RelativeThreshold(t, top))
  }

  /** The candidates of `s` that the two-tier rule keeps, in their order. */
  function ApplyThresholds<M>(t: Thresholds, top: real, s: seq<Candidate<M>>): (r: seq<Candidate<M>>)
    ensures |r| <= |s|
    ensures forall k :: 0 <= k < |r| ==> Keeps(t, top, r[k].score)
  {
    if s == [] then []
    else
      assert s == [s[0]] + s[1..];
      if Keeps(t, top, s[0].score) then [s[0]] + ApplyThresholds(t, top, s[1..])
      else ApplyThresholds(t, top, s[1..])
  }

  /** Each candidate's metadata, missing or not. */
  function Metadata<M>(s: seq<Candidate<M>>): (r: seq<Option<M>>)
    ensures |r| == |s|
    ensures forall k :: 0 <= k < |s| ==> r[k] == s[k].metadata
  {
    if s == [] then [] else [s[0].metadata] + Metadata(s[1..])
  }

  /** Each value wrapped as a present one. */
  function Wrapped<M>(r: seq<M>): (w: seq<Option<M>>)
    ensures |w| == |r|
    ensures forall k :: 0 <= k < |r| ==> w[k] == Some(r[k])
  {
    if r == [] then [] else [Some(r[0])] + Wrapped(r[1..])
  }

  /** Drops the missing values (the falsy ones) and unwraps the rest: every
      present value is kept, as often as it occurs and in its order. */
  function Present<M>(s: seq<Option<M>>): (r: seq<M>)
    ensures |r| <= |s|
    ensures forall k :: 0 <= k < |r| ==> Some(r[k]) in s
    ensures forall k :: 0 <= k < |s| && s[k].Some? ==> s[k].value in r
  {
    if s == [] then []
    else
      assert s == [s[0]] + s[1..];
      match s[0]
      case Some(m) => [m] + Present(s[1..])
      case None => Present(s[1..])
  }

  /** Dropping the missing values keeps every present value as often as it
      occurs and in its order. */
  lemma {:induction false} PresentIsFilter<M>(s: seq<Option<M>>)
    ensures forall m :: multiset(Present(s))[m] == multiset(s)[Some(m)]
    ensures IsSubsequence(Wrapped(Present(s)), s)
  {
    if s != [] {
      PresentIsFilter(s[1..]);
      assert s == [s[0]] + s[1..];
      var rest := Present(s[1..]);
      if s[0].Some? {
        assert Present(s) == [s[0].value] + rest;
        assert Wrapped([s[0].value] + rest) == [s[0]] + Wrapped(rest) by {
          assert ([s[0].value] + rest)[1..] == rest;
        }
        ConsSubsequence(s[0], Wrapped(rest), s[1..]);
      } else {
        SkipSubsequence(s[0], Wrapped(rest), s[1..]);
      }
    }
  }

  /** Wrapping puts each value in as often as it occurs, and no missing
      value. */
  lemma {:induction false} WrappedCounts<M>(r: seq<M>)
    ensures forall o :: multiset(Wrapped(r))[o] == if o.Some? then multiset(r)[o.value] else 0
  {
    if r != [] {
      WrappedCounts(r[1..]);
      assert r == [r[0]] + r[1..];
      assert Wrapped(r) == [Some(r[0])] + Wrapped(r[1..]);
    }
  }

  /** Order and multiplicities pin the result down: a list whose values, in
      order, form a subsequence of `s` and that holds every present value as
      often as `s` does is exactly what dropping the missing values gives. */
  lemma PresentDetermined<M>(s: seq<Option<M>>, r: seq<M>)
    requires IsSubsequence(Wrapped(r), s)
    requires forall m :: multiset(r)[m] == multiset(s)[Some(m)]
    ensures r == Present(s)
  {
    var p := Present(s);
    PresentIsFilter(s);
    WrappedCounts(r);
    WrappedCounts(p);
    FilterResultIsUnique(Wrapped(r), Wrapped(p), s, (o: Option<M>) => o.Some?);
    assert |r| == |p|;
    forall k | 0 <= k < |r|
      ensures r[k] == p[k]
    {
      assert Wrapped(r)[k] == Wrapped(p)[k];
    }
  }

  /** The data the action returns for the candidates the index produced. */
  function Relevant<M>(t: Thresholds, results: seq<Candidate<M>>): (r: seq<M>)
    ensures |r| <= |results|
  {
    var sorted := SortByScore(results);
    Present(Metadata(ApplyThresholds(t, TopScore(sorted), sorted)))
  }

  /** The action with its thresholds as a parameter. */
  function SearchWith<M>(t: Thresholds, field: Option<FormEntry>, index: (string, nat) -> Fetch<M>): (r: SearchResponse<M>)
    ensures QueryOf(field).None? ==> r == Error(NoQueryMessage)
    ensures QueryOf(field).Some? && index(QueryOf(field).value, ResultLimit).Threw? ==>
              r == Error(MessageOf(index(QueryOf(field).value, ResultLimit).exception))
    ensures QueryOf(field).Some? && index(QueryOf(field).value, ResultLimit).Fetched? ==>
              r == Data(Relevant(t, index(QueryOf(field).value, ResultLimit).results))
  {
    match QueryOf(field)
    case None => Error(NoQueryMessage)
    case Some(query) =>
      match index(query, ResultLimit)
      case Threw(e) => Error(MessageOf(e))
      case Fetched(results) => Data(Relevant(t, results))
  }

  /** The action as written, with its own thresholds. */
  function Search<M>(field: Option<FormEntry>, index: (string, nat) -> Fetch<M>): (r: SearchResponse<M>)
    ensures r.Error? <==> QueryOf(field).None? || index(QueryOf(field).value, ResultLimit).Threw?
  {
    SearchWith(SourceThresholds, field, index)
  }

  // ---------------------------------------------------------------------
  // Query validation and error results

  /** Without a usable query the action answers with the fixed message, and
      the index is never consulted: any two indexes give the same answer. */
  lemma NoQueryNoSearch<M>(field: Option<FormEntry>, index1: (string, nat) -> Fetch<M>, index2: (string, nat) -> Fetch<M>)
    requires field.None? || field == Some(FileEntry) || field == Some(TextEntry(""))
    ensures Search(field, index1) == Search(field, index2) == Error(NoQueryMessage)
  {
  }

  /** A failing index call surfaces its message, or "Unknown error" for a
      thrown value that is not an `Error`. */
  lemma IndexFailureIsReported<M>(query: string, index: (string, nat) -> Fetch<M>)
    requires query != "" && index(query, ResultLimit).Threw?
    ensures var e := index(query, ResultLimit).exception;
            Search(Some(TextEntry(query)), index) ==
              Error(if e.ErrorObject? then e.message else UnknownError)
  {
  }

  /** With a query, the answer depends only on what the index returns for
      that query and the limit of 20. */
  lemma AnswerDependsOnlyOnFetch<M>(query: string, index1: (string, nat) -> Fetch<M>, index2: (string, nat) -> Fetch<M>)
    requires query != "" && index1(query, ResultLimit) == index2(query, ResultLimit)
    ensures Search(Some(TextEntry(query)), index1) == Search(Some(TextEntry(query)), index2)
  {
  }

  // ---------------------------------------------------------------------
  // The threshold rule

  /** The same for the action's own constants: 0.6 and above always
      survives, below 0.4 never does, and in between a score survives exactly
      when it reaches 75% of the top score. */
  lemma SourceBands(top: real, score: real)
    ensures score >= 0.6 ==> Keeps(SourceThresholds, top, score)
    ensures score < 0.4 ==> !Keeps(SourceThresholds, top, score)
    ensures 0.4 <= score < 0.6 ==> (Keeps(SourceThresholds, top, score) <==> score >= 0.75 * top)
  {
  }

  /** The best candidate survives exactly when it reaches the minimum: the
      relative threshold never rejects it, because it is its own top score. */
  lemma TopSurvivesIffAboveMinimum<M>(t: Thresholds, sorted: seq<Candidate<M>>)
    requires sorted != []
    requires 0.0 <= t.minimum <= t.strong && 0.0 <= t.fraction <= 1.0
    ensures Keeps(t, TopScore(sorted), sorted[0].score) <==> sorted[0].score >= t.minimum
  {
    var top := sorted[0].score;
    if top >= t.minimum {
      assert top * t.fraction <= top * 1.0 by {
        assert top >= 0.0;
      }
    }
  }

  /** The same, with the action's constants and for the list as the action
      ranks it. */
  lemma BestSurvivesIffAtLeastMinimum<M>(results: seq<Candidate<M>>)
    requires results != []
    ensures var sorted := SortByScore(results);
            Keeps(SourceThresholds, TopScore(sorted), sorted[0].score) <==> sorted[0].score >= 0.4
  {
    TopSurvivesIffAboveMinimum(SourceThresholds, SortByScore(results));
  }

  /** A candidate survives the threshold exactly when it is in the list and
      the rule keeps its score. */
  lemma {:induction false} ApplyThresholdsMembers<M>(t: Thresholds, top: real, s: seq<Candidate<M>>, c: Candidate<M>)
    ensures c in ApplyThresholds(t, top, s) <==> c in s && Keeps(t, top, c.score)
  {
    if s != [] {
      ApplyThresholdsMembers(t, top, s[1..], c);
      assert s == [s[0]] + s[1..];
    }
  }

  /** Filtering keeps the order: the survivors are a subsequence of the
      ranked list. */
  lemma {:induction false} ApplyThresholdsIsSubsequence<M>(t: Thresholds, top: real, s: seq<Candidate<M>>)
    ensures IsSubsequence(ApplyThresholds(t, top, s), s)
  {
    if s != [] {
      ApplyThresholdsIsSubsequence(t, top, s[1..]);
      assert s == [s[0]] + s[1..];
      if Keeps(t, top, s[0].score) {
        ConsSubsequence(s[0], ApplyThresholds(t, top, s[1..]), s[1..]);
      } else {
        SkipSubsequence(s[0], ApplyThresholds(t, top, s[1..]), s[1..]);
      }
    }
  }

  /** Filtering keeps multiplicities: a candidate the rule keeps survives as
      often as it occurs, and any other candidate not at all. So survivors
      are not deduplicated. */
  lemma {:induction false} ApplyThresholdsCounts<M>(t: Thresholds, top: real, s: seq<Candidate<M>>)
    ensures forall c :: multiset(ApplyThresholds(t, top, s))[c] ==
                          if Keeps(t, top, c.score) then multiset(s)[c] else 0
  {
    if s != [] {
      ApplyThresholdsCounts(t, top, s[1..]);
      assert s == [s[0]] + s[1..];
    }
  }

  /** Order and multiplicities pin the survivors down: a subsequence of the
      ranked list that holds every kept candidate as often as the list does,
      and nothing else, is the filter's result. */
  lemma ApplyThresholdsDetermined<M>(t: Thresholds, top: real, s: seq<Candidate<M>>, a: seq<Candidate<M>>)
    requires IsSubsequence(a, s)
    requires forall c :: multiset(a)[c] == if Keeps(t, top, c.score) then multiset(s)[c] else 0
    ensures a == ApplyThresholds(t, top, s)
  {
    ApplyThresholdsIsSubsequence(t, top, s);
    ApplyThresholdsCounts(t, top, s);
    FilterResultIsUnique(a, ApplyThresholds(t, top, s), s, (c: Candidate<M>) => Keeps(t, top, c.score));
  }

  /** Thresholds `t2` are at least as strict as `t1`: no lower strong or
      minimum threshold and the same relative fraction. */
  predicate Stricter(t2: Thresholds, t1: Thresholds)
  {
    t2.strong >= t1.strong && t2.minimum >= t1.minimum && t2.fraction == t1.fraction
  }

  /** Raising the thresholds never lets a new candidate through: the stricter
      survivors are a subsequence of the laxer ones. */
  lemma {:induction false} ApplyThresholdsMonotone<M>(t1: Thresholds, t2: Thresholds, top: real, s: seq<Candidate<M>>)
    requires Stricter(t2, t1)
    ensures IsSubsequence(ApplyThresholds(t2, top, s), ApplyThresholds(t1, top, s))
  {
    if s != [] {
      ApplyThresholdsMonotone(t1, t2, top, s[1..]);
      var a, b := ApplyThresholds(t2, top, s[1..]), ApplyThresholds(t1, top, s[1..]);
      if Keeps(t2, top, s[0].score) {
        ConsSubsequence(s[0], a, b);
      } else if Keeps(t1, top, s[0].score) {
        SkipSubsequence(s[0], a, b);
      }
    }
  }

  // ---------------------------------------------------------------------
  // Projection to metadata

  /** Projecting and dropping missing metadata keeps subsequences. */
  lemma {:induction false} PresentMetadataKeepsSubsequence<M>(a: seq<Candidate<M>>, b: seq<Candidate<M>>)
    requires IsSubsequence(a, b)
    ensures IsSubsequence(Present(Metadata(a)), Present(Metadata(b)))
    decreases |b|
  {
    if a == [] {
    } else if a[0] == b[0] && IsSubsequence(a[1..], b[1..]) {
      PresentMetadataKeepsSubsequence(a[1..], b[1..]);
      assert Metadata(a) == [a[0].metadata] + Metadata(a[1..]);
      assert Metadata(b) == [b[0].metadata] + Metadata(b[1..]);
      assert Metadata(a)[1..] == Metadata(a[1..]) && Metadata(b)[1..] == Metadata(b[1..]);
      if a[0].metadata.Some? {
        ConsSubsequence(a[0].metadata.value, Present(Metadata(a[1..])), Present(Metadata(b[1..])));
      }
    } else {
      PresentMetadataKeepsSubsequence(a, b[1..]);
      assert Metadata(b) == [b[0].metadata] + Metadata(b[1..]);
      assert Metadata(b)[1..] == Metadata(b[1..]);
      if b[0].metadata.Some? {
        SkipSubsequence(b[0].metadata.value, Present(Metadata(a)), Present(Metadata(b[1..])));
      }
    }
  }

  /** The candidates of `s` that have metadata, in their order. */
  function WithMetadata<M>(s: seq<Candidate<M>>): (r: seq<Candidate<M>>)
    ensures forall k :: 0 <= k < |r| ==> r[k].metadata.Some?
  {
    if s == [] then []
    else if s[0].metadata.Some? then [s[0]] + WithMetadata(s[1..])
    else WithMetadata(s[1..])
  }

  /** The metadata of candidates that all have some. */
  function MetadataValues<M>(s: seq<Candidate<M>>): (r: seq<M>)
    requires forall k :: 0 <= k < |s| ==> s[k].metadata.Some?
    ensures |r| == |s|
    ensures forall k :: 0 <= k < |s| ==> s[k].metadata == Some(r[k])
  {
    if s == [] then [] else [s[0].metadata.value] + MetadataValues(s[1..])
  }

  /** Every candidate with metadata is kept as often as it occurs. */
  lemma {:induction false} WithMetadataCounts<M>(s: seq<Candidate<M>>)
    ensures forall c :: multiset(WithMetadata(s))[c] == if c.metadata.Some? then multiset(s)[c] else 0
  {
    if s != [] {
      WithMetadataCounts(s[1..]);
      assert s == [s[0]] + s[1..];
    }
  }

  /** Mapping to metadata and then dropping the missing values is the same
      as first dropping the candidates without metadata. */
  lemma {:induction false} PresentMetadataIsWithMetadata<M>(s: seq<Candidate<M>>)
    ensures Present(Metadata(s)) == MetadataValues(WithMetadata(s))
  {
    if s != [] {
      PresentMetadataIsWithMetadata(s[1..]);
      assert Metadata(s) == [s[0].metadata] + Metadata(s[1..]);
      assert Metadata(s)[1..] == Metadata(s[1..]);
    }
  }

  lemma {:induction false} WithMetadataIsSubsequence<M>(s: seq<Candidate<M>>)
    ensures IsSubsequence(WithMetadata(s), s)
  {
    if s != [] {
      WithMetadataIsSubsequence(s[1..]);
      assert s == [s[0]] + s[1..];
      if s[0].metadata.Some? {
        ConsSubsequence(s[0], WithMetadata(s[1..]), s[1..]);
      } else {
        SkipSubsequence(s[0], WithMetadata(s[1..]), s[1..]);
      }
    }
  }

  /** A subsequence of a sorted list is sorted. */
  lemma {:induction false} SubsequenceOfDescending<M>(a: seq<Candidate<M>>, b: seq<Candidate<M>>)
    requires IsSubsequence(a, b) && Descending(b)
    ensures Descending(a)
    decreases |b|
  {
    if a != [] {
      if a[0] == b[0] && IsSubsequence(a[1..], b[1..]) {
        SubsequenceOfDescending(a[1..], b[1..]);
        SubsequenceIsSmaller(a[1..], b[1..]);
        forall i, j | 0 <= i < j < |a|
          ensures a[i].score >= a[j].score
        {
          assert a[j] == a[1..][j - 1];
          if i > 0 {
            assert a[i] == a[1..][i - 1];
          } else {
            assert a[1..][j - 1] in b[1..];
            var k :| 0 <= k < |b[1..]| && b[1..][k] == a[j];
            assert b[k + 1] == a[j];
          }
        }
      } else {
        SubsequenceOfDescending(a, b[1..]);
      }
    }
  }

  // ---------------------------------------------------------------------
  // The data returned

  /** A metadata value is returned exactly when some retrieved candidate
      carries it and passes the threshold rule against the top score. In
      particular every returned item comes from the retrieved set, and a
      candidate without metadata contributes nothing. */
  lemma RelevantMembers<M>(t: Thresholds, results: seq<Candidate<M>>, m: M)
    ensures m in Relevant(t, results) <==>
            exists c :: c in results && c.metadata == Some(m) &&
                        Keeps(t, TopScore(SortByScore(results)), c.score)
  {
    var sorted := SortByScore(results);
    var top := TopScore(sorted);
    var kept := ApplyThresholds(t, top, sorted);
    if m in Relevant(t, results) {
      assert Some(m) in Metadata(kept);
      var k :| 0 <= k < |kept| && Metadata(kept)[k] == Some(m);
      ApplyThresholdsMembers(t, top, sorted, kept[k]);
      SortKeepsCandidates(results, kept[k]);
    }
    if exists c :: c in results && c.metadata == Some(m) && Keeps(t, top, c.score) {
      var c :| c in results && c.metadata == Some(m) && Keeps(t, top, c.score);
      SortKeepsCandidates(results, c);
      ApplyThresholdsMembers(t, top, sorted, c);
      var k :| 0 <= k < |kept| && kept[k] == c;
      assert Metadata(kept)[k] == Some(m);
    }
  }

  /** The surviving candidates that have metadata, in ranked order: the
      candidates whose metadata the action returns. */
  function Shown<M>(t: Thresholds, results: seq<Candidate<M>>): seq<Candidate<M>>
  {
    var sorted := SortByScore(results);
    WithMetadata(ApplyThresholds(t, TopScore(sorted), sorted))
  }

  /** The shown candidates keep the ranked order and all have metadata. */
  lemma ShownInOrder<M>(t: Thresholds, results: seq<Candidate<M>>)
    ensures IsSubsequence(Shown(t, results), SortByScore(results))
    ensures Descending(Shown(t, results))
    ensures forall k :: 0 <= k < |Shown(t, results)| ==> Shown(t, results)[k].metadata.Some?
  {
    var sorted := SortByScore(results);
    var kept := ApplyThresholds(t, TopScore(sorted), sorted);
    WithMetadataIsSubsequence(kept);
    ApplyThresholdsIsSubsequence(t, TopScore(sorted), sorted);
    SubsequenceTransitive(Shown(t, results), kept, sorted);
    SubsequenceOfDescending(Shown(t, results), sorted);
  }

  /** Every retrieved candidate that has metadata and passes the rule is shown
      as often as the index returned it; no other candidate is shown. */
  lemma ShownCounts<M>(t: Thresholds, results: seq<Candidate<M>>)
    ensures forall c :: multiset(Shown(t, results))[c] ==
                          if c.metadata.Some? && Keeps(t, TopScore(SortByScore(results)), c.score)
                          then multiset(results)[c] else 0
  {
    var sorted := SortByScore(results);
    var kept := ApplyThresholds(t, TopScore(sorted), sorted);
    ApplyThresholdsCounts(t, TopScore(sorted), sorted);
    WithMetadataCounts(kept);
    assert multiset(sorted) == multiset(results);
  }

  /** The data is the metadata of the shown candidates, one item per
      candidate. */
  lemma RelevantIsShownMetadata<M>(t: Thresholds, results: seq<Candidate<M>>)
    ensures forall k :: 0 <= k < |Shown(t, results)| ==> Shown(t, results)[k].metadata.Some?
    ensures Relevant(t, results) == MetadataValues(Shown(t, results))
  {
    var sorted := SortByScore(results);
    ShownInOrder(t, results);
    PresentMetadataIsWithMetadata(ApplyThresholds(t, TopScore(sorted), sorted));
  }

  /** The data is the metadata of a list of candidates that is a subsequence
      of the ranked list (so its scores do not increase) and that holds every
      retrieved candidate with metadata that passes the rule exactly as often
      as the index returned it, and no other candidate. Two survivors that
      carry the same metadata therefore both contribute an item: the data is
      not deduplicated. */
  lemma RelevantInRankOrder<M>(t: Thresholds, results: seq<Candidate<M>>)
    ensures exists shown: seq<Candidate<M>> ::
              && IsSubsequence(shown, SortByScore(results))
              && Descending(shown)
              && (forall c :: multiset(shown)[c] ==
                               if c.metadata.Some? && Keeps(t, TopScore(SortByScore(results)), c.score)
                               then multiset(results)[c] else 0)
              && (forall k :: 0 <= k < |shown| ==> shown[k].metadata.Some?)
              && Relevant(t, results) == MetadataValues(shown)
  {
    ShownInOrder(t, results);
    ShownCounts(t, results);
    RelevantIsShownMetadata(t, results);
    var shown := Shown(t, results);
    assert IsSubsequence(shown, SortByScore(results));
  }

  /** Raising the strong or the minimum threshold never enlarges the data:
      what the stricter rule returns is a subsequence of what the laxer rule
      returns, so it is no longer and holds nothing new. */
  lemma RelevantMonotone<M>(t1: Thresholds, t2: Thresholds, results: seq<Candidate<M>>)
    requires Stricter(t2, t1)
    ensures IsSubsequence(Relevant(t2, results), Relevant(t1, results))
    ensures |Relevant(t2, results)| <= |Relevant(t1, results)|
    ensures forall m :: m in Relevant(t2, results) ==> m in Relevant(t1, results)
  {
    var sorted := SortByScore(results);
    var top := TopScore(sorted);
    ApplyThresholdsMonotone(t1, t2, top, sorted);
    PresentMetadataKeepsSubsequence(ApplyThresholds(t2, top, sorted), ApplyThresholds(t1, top, sorted));
    SubsequenceIsSmaller(Relevant(t2, results), Relevant(t1, results));
  }

  /** The same law for the whole action: for a fixed index, stricter
      thresholds never return an item the laxer ones do not, and errors are
      unaffected. */
  lemma SearchMonotone<M>(t1: Thresholds, t2: Thresholds, field: Option<FormEntry>, index: (string, nat) -> Fetch<M>)
    requires Stricter(t2, t1)
    ensures SearchWith(t2, field, index).Error? <==> SearchWith(t1, field, index).Error?
    ensures SearchWith(t2, field, index).Error? ==> SearchWith(t2, field, index) == SearchWith(t1, field, index)
    ensures SearchWith(t2, field, index).Data? ==>
              IsSubsequence(SearchWith(t2, field, index).data, SearchWith(t1, field, index).data)
  {
    if QueryOf(field).Some? && index(QueryOf(field).value, ResultLimit).Fetched? {
      RelevantMonotone(t1, t2, index(QueryOf(field).value, ResultLimit).results);
    }
  }

  // ---------------------------------------------------------------------
  // Worked examples

  /** An index that returns nothing gives an empty data list, not an error. */
  lemma EmptyRetrievalIsEmptyData<M>(query: string, index: (string, nat) -> Fetch<M>)
    requires query != "" && index(query, ResultLimit) == Fetched([])
    ensures Search(Some(TextEntry(query)), index) == Data([])
  {
  }

  /** A lone candidate scoring 0.55 is below the strong threshold but is its
      own top score, so it survives. */
  lemma LoneModerateMatchSurvives<M>(id: string, m: M)
    ensures Relevant(SourceThresholds, [Candidate(id, 0.55, Some(m))]) == [m]
  {
    var s := [Candidate(id, 0.55, Some(m))];
    assert SortByScore(s) == s;
    assert ApplyThresholds(SourceThresholds, 0.55, s) == s;
  }

  /** For candidates that arrive already ranked, the data is computed from
      them as they are. */
  lemma RelevantOfRanked<M>(t: Thresholds, s: seq<Candidate<M>>)
    requires Descending(s)
    ensures Relevant(t, s) == Present(Metadata(ApplyThresholds(t, TopScore(s), s)))
  {
    SortKeepsRankedList(s);
  }

  /** The threshold step for scores 0.9, 0.7, 0.5 and 0.2: the top score is
      0.9, so the relative threshold is 0.675; 0.9 and 0.7 survive as strong
      matches, 0.5 is under the relative threshold and 0.2 under the minimum. */
  lemma ScenarioSurvivors<M>(a: Candidate<M>, b: Candidate<M>, c: Candidate<M>, d: Candidate<M>)
    requires a.score == 0.9 && b.score == 0.7 && c.score == 0.5 && d.score == 0.2
    ensures Descending([a, b, c, d])
    ensures Relevant(SourceThresholds, [a, b, c, d]) == Present(Metadata([a, b]))
  {
    var sorted := [a, b, c, d];
    assert sorted[1..] == [b, c, d] && sorted[2..] == [c, d] && sorted[3..] == [d];
    assert ApplyThresholds(SourceThresholds, 0.9, [d]) == [];
    assert ApplyThresholds(SourceThresholds, 0.9, [c, d]) == [];
    assert ApplyThresholds(SourceThresholds, TopScore(sorted), sorted) == [a, b];
    RelevantOfRanked(SourceThresholds, sorted);
  }

  lemma PresentMetadataOfPair<M>(a: Candidate<M>, b: Candidate<M>, m1: M, m2: M)
    requires a.metadata == Some(m1) && b.metadata == Some(m2)
    ensures Present(Metadata([a, b])) == [m1, m2]
  {
    assert Metadata([a, b]) == [Some(m1), Some(m2)] by {
      assert [a, b][1..] == [b];
    }
    assert [Some(m1), Some(m2)][1..] == [Some(m2)];
    assert Present([Some(m2)]) == [m2];
  }

  /** Scores 0.9, 0.7, 0.5 and 0.2 keep exactly the first two. */
  lemma ScenarioKeepsTwoStrongMatches<M>(m1: M, m2: M, m3: M, m4: M)
    ensures Relevant(SourceThresholds,
              [Candidate("a", 0.9, Some(m1)), Candidate("b", 0.7, Some(m2)),
               Candidate("c", 0.5, Some(m3)), Candidate("d", 0.2, Some(m4))]) == [m1, m2]
  {
    var a, b, c, d := Candidate("a", 0.9, Some(m1)), Candidate("b", 0.7, Some(m2)),
                      Candidate("c", 0.5, Some(m3)), Candidate("d", 0.2, Some(m4));
    ScenarioSurvivors(a, b, c, d);
    PresentMetadataOfPair(a, b, m1, m2);
  }

  /** Two survivors that carry the same metadata both contribute it: the data
      is not deduplicated. */
  lemma DuplicateMetadataIsKept<M>(m: M)
    ensures Relevant(SourceThresholds,
              [Candidate("a", 0.9, Some(m)), Candidate("b", 0.8, Some(m))]) == [m, m]
  {
    var a, b := Candidate("a", 0.9, Some(m)), Candidate("b", 0.8, Some(m));
    assert SortByScore([b]) == [b];
    assert SortByScore([a, b]) == [a, b];
    assert ApplyThresholds(SourceThresholds, 0.9, [a, b]) == [a, b];
    PresentMetadataOfPair(a, b, m, m);
  }

  /** A candidate without metadata is dropped even when it scores highest,
      although its score still sets the top score. */
  lemma MissingMetadataIsDropped<M>(m: M)
    ensures Relevant(SourceThresholds,
              [Candidate("x", 0.5, Some(m)), Candidate("y", 0.95, None)]) == []
  {
    var x, y := Candidate("x", 0.5, Some(m)), Candidate("y", 0.95, None);
    assert SortByScore([y]) == [y];
    assert SortByScore([x, y]) == [y, x];
    assert ApplyThresholds(SourceThresholds, 0.95, [y, x]) == [y];
  }
}
