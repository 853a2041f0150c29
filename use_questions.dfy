/**
 * The `useQuestions` hook: the client's question list and the question
 * opened in the detail view, and the handlers that replace both with new
 * values. Comment ids (`Date.now()` in the client) are parameters.
 */
module UseQuestions {
  import opened Common
  import opened Text
  import opened ClientData

  /** The hook's state: the list and the selected question (`null` as `None`). */
  datatype State = State(questions: seq<Question>, selected: Option<Question>)

  /** `direction === "up" ? 1 : -1`. */
  function VoteChange(direction: string): (change: int)
    ensures change == 1 || change == -1
    ensures change == 1 <==> direction == "up"
  {
    if direction == "up" then 1 else -1
  }

  /** The question with its vote count moved by one. */
  function Voted(q: Question, direction: string): Question
  {
    q.(votes := q.votes + VoteChange(direction))
  }

  /** The selected question is one of the listed ones. */
  predicate InSync(s: State)
  {
    s.selected.Some? ==> s.selected.value in s.questions
  }

  /**
   * `handleVote`: only the questions with id `questionId` gain or lose a
   * vote; length, order and every other field stay. The selected question
   * gets the same change exactly when its id matches.
   */
  function HandleVote(s: State, questionId: int, direction: string): (r: State)
    ensures |r.questions| == |s.questions|
    ensures forall i :: 0 <= i < |s.questions| ==>
      r.questions[i] == if s.questions[i].id == questionId then Voted(s.questions[i], direction) else s.questions[i]
    ensures r.selected.Some? <==> s.selected.Some?
    ensures s.selected.Some? ==>
      r.selected.value == if s.selected.value.id == questionId then Voted(s.selected.value, direction)
                          else s.selected.value
  {
    var questions := seq(|s.questions|, i requires 0 <= i < |s.questions| =>
      if s.questions[i].id == questionId then Voted(s.questions[i], direction) else s.questions[i]);
    var selected := if s.selected.Some? && s.selected.value.id == questionId
                    then Some(Voted(s.selected.value, direction)) else s.selected;
    State(questions, selected)
  }

  /** A vote on an id no question has changes nothing. */
  lemma VoteOnUnknownId(s: State, questionId: int, direction: string)
    requires forall q :: q in s.questions ==> q.id != questionId
    requires s.selected.Some? ==> s.selected.value.id != questionId
    ensures HandleVote(s, questionId, direction) == s
  {
    var r := HandleVote(s, questionId, direction);
    assert r.questions == s.questions;
  }

  /** An up-vote followed by a down-vote restores the state. */
  lemma UpThenDownRestores(s: State, questionId: int)
    ensures HandleVote(HandleVote(s, questionId, "up"), questionId, "down") == s
  {
    var r := HandleVote(HandleVote(s, questionId, "up"), questionId, "down");
    assert r.questions == s.questions;
  }

  /** Voting keeps the selected question equal to its entry in the list. */
  lemma VoteKeepsInSync(s: State, questionId: int, direction: string)
    requires InSync(s)
    ensures InSync(HandleVote(s, questionId, direction))
  {
    if s.selected.Some? {
      var k :| 0 <= k < |s.questions| && s.questions[k] == s.selected.value;
      assert HandleVote(s, questionId, direction).questions[k] == HandleVote(s, questionId, direction).selected.value;
    }
  }

  /** `newComment`: the text, the anonymous author, "just now" and no votes. */
  function NewComment(commentId: int, text: string): Comment
  {
    Comment(commentId, text, Anonymous, "just now", 0)
  }

  /**
   * `handleAddComment`: blank text changes nothing. Otherwise every question
   * with id `questionId`, and the selected question when its id matches,
   * gets the new comment appended at the end; everything else stays.
   */
  function HandleAddComment(s: State, questionId: int, text: string, commentId: int): (r: State)
    ensures IsBlank(text) ==> r == s
    ensures |r.questions| == |s.questions|
    ensures !IsBlank(text) ==> forall i :: 0 <= i < |s.questions| ==>
      r.questions[i] == if s.questions[i].id == questionId
                        then s.questions[i].(comments := s.questions[i].comments + [NewComment(commentId, text)])
                        else s.questions[i]
    ensures r.selected.Some? <==> s.selected.Some?
    ensures !IsBlank(text) && s.selected.Some? ==>
      r.selected.value == if s.selected.value.id == questionId
                          then s.selected.value.(comments := s.selected.value.comments + [NewComment(commentId, text)])
                          else s.selected.value
  {
    if IsBlank(text) then s
    else
      var c := NewComment(commentId, text);
      var questions := seq(|s.questions|, i requires 0 <= i < |s.questions| =>
        if s.questions[i].id == questionId then s.questions[i].(comments := s.questions[i].comments + [c])
        else s.questions[i]);
      var selected := if s.selected.Some? && s.selected.value.id == questionId
                      then Some(s.selected.value.(comments := s.selected.value.comments + [c]))
                      else s.selected;
      State(questions, selected)
  }

  /** Adding a comment keeps the selected question equal to its entry in the list. */
  lemma AddCommentKeepsInSync(s: State, questionId: int, text: string, commentId: int)
    requires InSync(s)
    ensures InSync(HandleAddComment(s, questionId, text, commentId))
  {
    if s.selected.Some? && !IsBlank(text) {
      var r := HandleAddComment(s, questionId, text, commentId);
      var k :| 0 <= k < |s.questions| && s.questions[k] == s.selected.value;
      assert r.questions[k] == r.selected.value;
    }
  }

  /** A non-blank comment grows the matching question's comments by exactly one, its last. */
  lemma AddCommentAppendsOne(s: State, questionId: int, text: string, commentId: int, i: int)
    requires !IsBlank(text) && 0 <= i < |s.questions| && s.questions[i].id == questionId
    ensures var after := HandleAddComment(s, questionId, text, commentId).questions[i].comments;
      && |after| == |s.questions[i].comments| + 1
      && after[..|after| - 1] == s.questions[i].comments
      && after[|after| - 1] == Comment(commentId, text, Anonymous, "just now", 0)
  {
    var after := HandleAddComment(s, questionId, text, commentId).questions[i].comments;
    assert after == s.questions[i].comments + [NewComment(commentId, text)];
  }

  /** `addQuestion`: the new question first, then the old list unchanged. */
  function AddQuestion(s: State, q: Question): (r: State)
    ensures |r.questions| == |s.questions| + 1
    ensures r.questions[0] == q && r.questions[1..] == s.questions
    ensures r.selected == s.selected
  {
    State([q] + s.questions, s.selected)
  }

  /** Adding a question keeps the selected question listed. */
  lemma AddQuestionKeepsInSync(s: State, q: Question)
    requires InSync(s)
    ensures InSync(AddQuestion(s, q))
  {
    if s.selected.Some? {
      var k :| 0 <= k < |s.questions| && s.questions[k] == s.selected.value;
      assert AddQuestion(s, q).questions[k + 1] == s.selected.value;
    }
  }
}
