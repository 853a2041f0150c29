/**
 * The question feed's filter: a case-insensitive search of title and
 * content, combined with a tag filter in which any selected tag held by the
 * question lets it through.
 */
module QuestionList {
  import opened Text
  import opened ClientData

  /** The lower-cased title or the lower-cased content contains the lower-cased query. */
  predicate MatchesSearch(q: Question, query: string)
  {
    Contains(Lower(q.title), Lower(query)) || Contains(Lower(q.content), Lower(query))
  }

  /** No tag is selected, or some selected tag is one of the question's tags. */
  predicate MatchesTags(q: Question, selectedTags: seq<string>)
  {
    |selectedTags| == 0 || exists t :: t in selectedTags && t in q.tags
  }

  /**
   * `matchesSearch && matchesTags`. An empty query leaves only the tag test,
   * and an empty selection leaves only the search.
   */
  predicate Passes(q: Question, query: string, selectedTags: seq<string>): (b: bool)
    ensures b ==> MatchesSearch(q, query) && MatchesTags(q, selectedTags)
    ensures query == "" ==> (b <==> MatchesTags(q, selectedTags))
    ensures |selectedTags| == 0 ==> (b <==> MatchesSearch(q, query))
  {
    EmptyQueryMatchesAll(q);
    MatchesSearch(q, query) && MatchesTags(q, selectedTags)
  }

  /**
   * `filteredQuestions`: the questions that pass, in their original order.
   * Every question that passes is kept, as often as it is listed, and
   * nothing else is.
   */
  function FilteredQuestions(questions: seq<Question>, query: string, selectedTags: seq<string>)
    : (r: seq<Question>)
    ensures forall i :: 0 <= i < |r| ==> Passes(r[i], query, selectedTags)
    ensures forall q :: q in questions && Passes(q, query, selectedTags) ==> q in r
    ensures forall q :: multiset(r)[q] == if Passes(q, query, selectedTags) then multiset(questions)[q] else 0
    ensures Subsequence(r, questions)
    decreases |questions|
  {
    if questions == [] then []
    else
      var rest := FilteredQuestions(questions[1..], query, selectedTags);
      assert questions == [questions[0]] + questions[1..];
      assert multiset(questions) == multiset([questions[0]]) + multiset(questions[1..]);
      if Passes(questions[0], query, selectedTags) then
        var r := [questions[0]] + rest;
        assert r[1..] == rest;
        assert forall i :: 1 <= i < |r| ==> r[i] == rest[i - 1];
        r
      else
        SubsequenceSkip(rest, questions);
        rest
  }

  /** Skipping the first element of the longer list keeps a subsequence. */
  lemma SubsequenceSkip<T>(a: seq<T>, b: seq<T>)
    requires b != [] && Subsequence(a, b[1..])
    ensures Subsequence(a, b)
  {
  }

  /** An empty query matches every question. */
  lemma EmptyQueryMatchesAll(q: Question)
    ensures MatchesSearch(q, "")
  {
    assert Lower("") == "";
    assert Lower("") <= Lower(q.title);
  }

  /**
   * "Clear all filters": with the query "" and no selected tag, the feed is
   * the whole list.
   */
  lemma {:induction false} ClearAllFilters(questions: seq<Question>)
    ensures FilteredQuestions(questions, "", []) == questions
    decreases |questions|
  {
    if questions != [] {
      EmptyQueryMatchesAll(questions[0]);
      ClearAllFilters(questions[1..]);
    }
  }

  /** Filtering an already filtered feed again changes nothing. */
  lemma {:induction false} FilterIdempotent(questions: seq<Question>, query: string, selectedTags: seq<string>)
    ensures var once := FilteredQuestions(questions, query, selectedTags);
      FilteredQuestions(once, query, selectedTags) == once
    decreases |questions|
  {
    if questions != [] {
      FilterIdempotent(questions[1..], query, selectedTags);
      var rest := FilteredQuestions(questions[1..], query, selectedTags);
      if Passes(questions[0], query, selectedTags) {
        assert ([questions[0]] + rest)[1..] == rest;
      }
    }
  }

  /**
   * The tag test is exact membership: a selected tag does not match a
   * longer tag that merely contains it.
   */
  lemma TagTestIsExact(q: Question)
    requires q.tags == ["cs-extra"]
    ensures !MatchesTags(q, ["cs"])
  {
  }
}
