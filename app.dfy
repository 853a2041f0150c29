/**
 * The single-file client: one component holding the page, the question
 * list, the selected question, the search text and the selected tags, with
 * the ask page's form state beside it.
 *
 * Its vote, comment, filter and toggle code is the same code as in the
 * split-up client, so each handler here is that client's function applied
 * to the matching part of this state. Its submit differs: it also opens the
 * new question.
 */
module MonolithApp {
  import opened Common
  import opened ClientData
  import UseQuestions
  import QuestionList
  import Sidebar
  import AskQuestionForm

  datatype Page = Dashboard | Ask | QuestionDetail

  datatype AppState = AppState(
    page: Page,
    questions: seq<Question>,
    selected: Option<Question>,
    searchQuery: string,
    selectedTags: seq<string>)

  /** The ask page's own form state. */
  datatype AskPage = AskPage(title: string, content: string, tags: seq<string>, campus: string, department: string)

  /** The list and the selected question, as the split-up client's hook holds them. */
  function ListState(s: AppState): UseQuestions.State
  {
    UseQuestions.State(s.questions, s.selected)
  }

  function WithListState(s: AppState, h: UseQuestions.State): AppState
  {
    s.(questions := h.questions, selected := h.selected)
  }

  /** `handleVote`: the hook's vote handler on this state's list; nothing else changes. */
  function HandleVote(s: AppState, questionId: int, direction: string): (r: AppState)
    ensures ListState(r) == UseQuestions.HandleVote(ListState(s), questionId, direction)
    ensures r.page == s.page && r.searchQuery == s.searchQuery && r.selectedTags == s.selectedTags
  {
    WithListState(s, UseQuestions.HandleVote(ListState(s), questionId, direction))
  }

  /** `handleAddComment`: the hook's comment handler on this state's list; nothing else changes. */
  function HandleAddComment(s: AppState, questionId: int, text: string, commentId: int): (r: AppState)
    ensures ListState(r) == UseQuestions.HandleAddComment(ListState(s), questionId, text, commentId)
    ensures r.page == s.page && r.searchQuery == s.searchQuery && r.selectedTags == s.selectedTags
  {
    WithListState(s, UseQuestions.HandleAddComment(ListState(s), questionId, text, commentId))
  }

  /** The dashboard's `filteredQuestions`. */
  function DashboardQuestions(s: AppState): (r: seq<Question>)
    ensures forall i :: 0 <= i < |r| ==> QuestionList.Passes(r[i], s.searchQuery, s.selectedTags)
    ensures forall q :: q in s.questions && QuestionList.Passes(q, s.searchQuery, s.selectedTags) ==> q in r
    ensures forall q ::
      multiset(r)[q] == if QuestionList.Passes(q, s.searchQuery, s.selectedTags) then multiset(s.questions)[q] else 0
    ensures Subsequence(r, s.questions)
  {
    QuestionList.FilteredQuestions(s.questions, s.searchQuery, s.selectedTags)
  }

  /**
   * A sidebar tag button: the uncapped toggle. The tag flips, every other
   * tag keeps its state, and the rest of the state is untouched.
   */
  function ToggleSidebarTag(s: AppState, tag: string): (r: AppState)
    ensures tag in r.selectedTags <==> tag !in s.selectedTags
    ensures forall t :: t != tag ==> (t in r.selectedTags <==> t in s.selectedTags)
    ensures NoDuplicates(s.selectedTags) ==> NoDuplicates(r.selectedTags)
    ensures r == s.(selectedTags := r.selectedTags)
  {
    var r := s.(selectedTags := Sidebar.ToggleTag(s.selectedTags, tag));
    if NoDuplicates(s.selectedTags) then Sidebar.ToggleKeepsNoDuplicates(s.selectedTags, tag); r else r
  }

  /** The sidebar's "Clear filters": no tag selected, nothing else touched. */
  function ClearTags(s: AppState): (r: AppState)
    ensures r.selectedTags == []
    ensures r == s.(selectedTags := [])
  {
    s.(selectedTags := Sidebar.Clear())
  }

  /** "Clear all filters": no search text and no selected tag. */
  function ClearAllFilters(s: AppState): (r: AppState)
    ensures r.searchQuery == "" && r.selectedTags == []
    ensures r.questions == s.questions && r.selected == s.selected && r.page == s.page
  {
    s.(searchQuery := "", selectedTags := [])
  }

  /**
   * An ask-page tag button: the toggle capped at five. A chosen tag is
   * dropped, an unchosen one is added only while there is room, and the
   * other form fields are untouched.
   */
  function ToggleAskTag(p: AskPage, tag: string): (r: AskPage)
    ensures tag in r.tags <==> tag !in p.tags && |p.tags| < AskQuestionForm.MaxTags
    ensures forall t :: t != tag ==> (t in r.tags <==> t in p.tags)
    ensures |p.tags| <= AskQuestionForm.MaxTags ==> |r.tags| <= AskQuestionForm.MaxTags
    ensures r == p.(tags := r.tags)
  {
    p.(tags := AskQuestionForm.ToggleTag(p.tags, tag))
  }

  /**
   * `handleSubmit`: when the form may be posted, the new question goes to
   * the front of the list, becomes the selected question and its page is
   * opened; otherwise nothing changes.
   */
  function HandleSubmit(s: AppState, p: AskPage, id: int): (r: AppState)
    ensures !AskQuestionForm.CanSubmit(p.title, p.content, p.tags) ==> r == s
    ensures AskQuestionForm.CanSubmit(p.title, p.content, p.tags) ==>
      && |r.questions| == |s.questions| + 1
      && r.questions[1..] == s.questions
      && r.selected == Some(r.questions[0])
      && r.page == QuestionDetail
      && r.searchQuery == s.searchQuery && r.selectedTags == s.selectedTags
  {
    match AskQuestionForm.HandleSubmit(p.title, p.content, p.tags, p.campus, p.department, id)
    case None => s
    case Some(q) => s.(questions := [q] + s.questions, selected := Some(q), page := QuestionDetail)
  }

  /** The question posted by `handleSubmit` is the form's, posted anonymously and fresh. */
  lemma SubmittedQuestion(s: AppState, p: AskPage, id: int)
    requires AskQuestionForm.CanSubmit(p.title, p.content, p.tags)
    ensures var q := HandleSubmit(s, p, id).questions[0];
      && q.id == id && q.title == p.title && q.content == p.content && q.tags == p.tags
      && q.author == Anonymous && q.votes == 0 && q.views == 0 && q.comments == []
  {
  }

  /** The selected question stays equal to its entry in the list under every handler. */
  lemma HandlersKeepInSync(s: AppState, p: AskPage, questionId: int, direction: string, text: string, id: int)
    requires UseQuestions.InSync(ListState(s))
    ensures UseQuestions.InSync(ListState(HandleVote(s, questionId, direction)))
    ensures UseQuestions.InSync(ListState(HandleAddComment(s, questionId, text, id)))
    ensures UseQuestions.InSync(ListState(HandleSubmit(s, p, id)))
  {
    UseQuestions.VoteKeepsInSync(ListState(s), questionId, direction);
    UseQuestions.AddCommentKeepsInSync(ListState(s), questionId, text, id);
  }

  /** An up-vote then a down-vote on the same question restores the whole state. */
  lemma VoteUpThenDownRestores(s: AppState, questionId: int)
    ensures HandleVote(HandleVote(s, questionId, "up"), questionId, "down") == s
  {
    UseQuestions.UpThenDownRestores(ListState(s), questionId);
  }

  /** After "Clear all filters" the dashboard lists every question. */
  lemma ClearAllFiltersShowsAll(s: AppState)
    ensures DashboardQuestions(ClearAllFilters(s)) == s.questions
  {
    QuestionList.ClearAllFilters(s.questions);
  }

  /** The sidebar toggle is uncapped: an unselected tag is always added. */
  lemma SidebarToggleUncapped(s: AppState, tag: string)
    requires tag !in s.selectedTags
    ensures ToggleSidebarTag(s, tag).selectedTags == s.selectedTags + [tag]
  {
  }

  /** The ask-page toggle keeps at most five tags and none twice. */
  lemma AskToggleKeepsValid(p: AskPage, tag: string)
    requires AskQuestionForm.ValidSelection(p.tags)
    ensures AskQuestionForm.ValidSelection(ToggleAskTag(p, tag).tags)
  {
    AskQuestionForm.ToggleKeepsValid(p.tags, tag);
  }

  /** With the sidebar cleared and no search text, the dashboard lists every question. */
  lemma ClearTagsWithEmptySearchShowsAll(s: AppState)
    requires s.searchQuery == ""
    ensures DashboardQuestions(ClearTags(s)) == s.questions
  {
    QuestionList.ClearAllFilters(s.questions);
  }
}
