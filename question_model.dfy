/**
 * The question repository: a store of question rows and comment rows keyed by
 * their AUTOINCREMENT ids, the SQL statements each repository call issues,
 * and the shaping of rows into the objects the API returns.
 *
 * `ORDER BY created_at DESC` is modelled as descending id: rows are inserted
 * with the current time, so the newer row has the larger id.
 */
module QuestionModel {
  import opened Common
  import opened Text
  import opened JsValue

  const MinuteMs: int := 60000
  const HourMs: int := 3600000
  const DayMs: int := 86400000

  /** A row of the `questions` table. `tags` holds the decoded JSON list. */
  datatype QuestionRow = QuestionRow(
    title: string,
    content: string,
    author: string,
    tags: seq<string>,
    campus: string,
    department: string,
    votes: int,
    views: int,
    createdAt: int,
    updatedAt: int)

  /** A row of the `comments` table; `questionId` references `questions(id)`. */
  datatype CommentRow = CommentRow(
    questionId: int,
    text: string,
    author: string,
    votes: int,
    createdAt: int)

  /** A comment as the API returns it. */
  datatype Comment = Comment(id: int, text: string, author: string, votes: int, timestamp: string)

  /** A question as the API returns it, with its comments newest first. */
  datatype Question = Question(
    id: int,
    title: string,
    content: string,
    author: string,
    tags: seq<string>,
    campus: string,
    department: string,
    votes: int,
    views: int,
    comments: seq<Comment>,
    timestamp: string,
    createdAt: int,
    updatedAt: int)

  /** The failures of an INSERT that the store reports by throwing. */
  datatype StoreError = NotNullViolation | ForeignKeyViolation

  /** `author || "Anonymous Iskolar"`: an absent or empty author becomes the anonymous label. */
  function AuthorOrAnonymous(author: Option<string>): (r: string)
    ensures r != ""
    ensures author.Some? && author.value != "" ==> r == author.value
    ensures author.None? || author.value == "" ==> r == Anonymous
  {
    if author.Some? && author.value != "" then author.value else Anonymous
  }

  // ---------------------------------------------------------------------------
  // Relative time
  // ---------------------------------------------------------------------------

  /**
   * "N unit ago": a numeral, the unit, an "s" exactly when N > 1, and
   * " ago".
   */
  function Ago(n: nat, unit: string): (r: string)
    requires unit in {"minute", "hour", "day"}
    ensures |r| > |unit| + 5 && IsDigit(r[0])
    ensures r[|r| - 4..] == " ago"
    ensures r[|r| - 5] == 's' <==> n > 1
  {
    ShowNat(n) + " " + unit + (if n > 1 then "s" else "") + " ago"
  }

  /**
   * `getTimeAgo`: the age of a row, `diff` milliseconds old, in whole minutes,
   * hours or days. Dafny's `/` by a positive constant is `Math.floor` of the
   * quotient, also for a negative difference.
   */
  function TimeAgo(diff: int): (r: string)
    ensures r == "just now" <==> diff < MinuteMs
    ensures diff >= MinuteMs ==> |r| > 4 && r[|r| - 4..] == " ago"
  {
    var minutes := diff / MinuteMs;
    var hours := diff / HourMs;
    var days := diff / DayMs;
    if minutes < 1 then "just now"
    else if minutes < 60 then Ago(minutes, "minute")
    else if hours < 24 then Ago(hours, "hour")
    else Ago(days, "day")
  }

  /**
   * The bands of `getTimeAgo`: each reports the number of whole units
   * elapsed, bounded by the band's limits.
   */
  lemma TimeAgoBands(diff: int)
    ensures diff < MinuteMs ==> TimeAgo(diff) == "just now"
    ensures MinuteMs <= diff < HourMs ==>
      var n := diff / MinuteMs;
      1 <= n < 60 && n * MinuteMs <= diff < (n + 1) * MinuteMs && TimeAgo(diff) == Ago(n, "minute")
    ensures HourMs <= diff < DayMs ==>
      var n := diff / HourMs;
      1 <= n < 24 && n * HourMs <= diff < (n + 1) * HourMs && TimeAgo(diff) == Ago(n, "hour")
    ensures DayMs <= diff ==>
      var n := diff / DayMs;
      1 <= n && n * DayMs <= diff < (n + 1) * DayMs && TimeAgo(diff) == Ago(n, "day")
  {
  }

  /**
   * An "N unit ago" text is unambiguous: it names one count and one unit,
   * and it is never "just now".
   */
  lemma AgoUnambiguous(n1: nat, u1: string, n2: nat, u2: string)
    requires u1 in {"minute", "hour", "day"} && u2 in {"minute", "hour", "day"}
    ensures Ago(n1, u1) != "just now"
    ensures Ago(n1, u1) == Ago(n2, u2) ==> n1 == n2 && u1 == u2
  {
    assert "just now"[0] == 'j';
    var t1 := AgoSplit(n1, u1);
    var t2 := AgoSplit(n2, u2);
    if Ago(n1, u1) == Ago(n2, u2) {
      NumeralThenSpace(ShowNat(n1), t1, ShowNat(n2), t2);
      ReadShowNat(n1);
      ReadShowNat(n2);
    }
  }

  /** "N unit ago" is the numeral, a space, and a text that starts with the unit's first letter. */
  lemma AgoSplit(n: nat, u: string) returns (t: string)
    requires u in {"minute", "hour", "day"}
    ensures Ago(n, u) == ShowNat(n) + " " + t
    ensures |t| > 0 && t[0] == u[0]
  {
    t := u + (if n > 1 then "s" else "") + " ago";
    assert Ago(n, u) == ShowNat(n) + " " + t;
  }

  /** A numeral followed by a space can be split off in one way only. */
  lemma NumeralThenSpace(d1: string, t1: string, d2: string, t2: string)
    requires forall i :: 0 <= i < |d1| ==> IsDigit(d1[i])
    requires forall i :: 0 <= i < |d2| ==> IsDigit(d2[i])
    requires d1 + " " + t1 == d2 + " " + t2
    ensures d1 == d2 && t1 == t2
  {
    var a := d1 + " " + t1;
    assert a[|d1|] == ' ';
    assert a[|d2|] == ' ';
    assert |d1| == |d2|;
    assert d1 == a[..|d1|] && d2 == a[..|d2|];
    assert t1 == a[|d1| + 1..];
  }

  // ---------------------------------------------------------------------------
  // Ordered reads
  // ---------------------------------------------------------------------------

  /**
   * The rows of `m` with ids below `hi` that `keep` accepts, each with its
   * id, highest (newest) id first.
   */
  function RowsDesc<R>(m: map<int, R>, keep: R -> bool, hi: int): (r: seq<(int, R)>)
    ensures Selected(r, m, keep, hi)
    ensures NewestFirst(r)
    decreases hi
  {
    if hi <= 1 then []
    else if hi - 1 in m && keep(m[hi - 1]) then [(hi - 1, m[hi - 1])] + RowsDesc(m, keep, hi - 1)
    else RowsDesc(m, keep, hi - 1)
  }

  /** Every entry of `rows` is a stored row with a positive id below `hi` that `keep` accepts. */
  ghost predicate Selected<R>(rows: seq<(int, R)>, m: map<int, R>, keep: R -> bool, hi: int)
  {
    forall i :: 0 <= i < |rows| ==>
      rows[i].0 in m && rows[i].1 == m[rows[i].0] && 1 <= rows[i].0 < hi && keep(rows[i].1)
  }

  /** Ids strictly decrease along `rows`. */
  ghost predicate NewestFirst<R>(rows: seq<(int, R)>)
  {
    forall i, j :: 0 <= i < j < |rows| ==> rows[i].0 > rows[j].0
  }

  /** Every stored row with a positive id below `hi` that `keep` accepts is in `rows`. */
  ghost predicate Complete<R>(rows: seq<(int, R)>, m: map<int, R>, keep: R -> bool, hi: int)
  {
    forall k :: k in m && 1 <= k < hi && keep(m[k]) ==> (k, m[k]) in rows
  }

  /**
   * RowsDesc lists exactly the stored rows with positive ids below `hi` that
   * `keep` accepts, each under its own id, in strictly descending id order.
   */
  lemma {:induction false} RowsDescSpec<R>(m: map<int, R>, keep: R -> bool, hi: int)
    ensures Selected(RowsDesc(m, keep, hi), m, keep, hi)
    ensures NewestFirst(RowsDesc(m, keep, hi))
    ensures Complete(RowsDesc(m, keep, hi), m, keep, hi)
    decreases hi
  {
    if hi > 1 {
      var rest := RowsDesc(m, keep, hi - 1);
      RowsDescSpec(m, keep, hi - 1);
      if hi - 1 in m && keep(m[hi - 1]) {
        var rows := [(hi - 1, m[hi - 1])] + rest;
        assert RowsDesc(m, keep, hi) == rows;
        assert forall i :: 1 <= i < |rows| ==> rows[i] == rest[i - 1];
      }
    }
  }

  /** Two filters that agree on every stored row select the same rows. */
  lemma {:induction false} RowsDescSameFilter<R>(m: map<int, R>, f: R -> bool, g: R -> bool, hi: int)
    requires forall k :: k in m ==> f(m[k]) == g(m[k])
    ensures RowsDesc(m, f, hi) == RowsDesc(m, g, hi)
    decreases hi
  {
    if hi > 1 {
      RowsDescSameFilter(m, f, g, hi - 1);
    }
  }

  /** Only the rows below `hi` matter to the listing below `hi`. */
  lemma {:induction false} RowsDescIgnoresAbove<R>(m: map<int, R>, m': map<int, R>, keep: R -> bool, hi: int)
    requires forall k :: k < hi ==> (k in m <==> k in m')
    requires forall k :: k in m && k < hi ==> m[k] == m'[k]
    ensures RowsDesc(m, keep, hi) == RowsDesc(m', keep, hi)
    decreases hi
  {
    if hi > 1 {
      RowsDescIgnoresAbove(m, m', keep, hi - 1);
    }
  }

  /** A row inserted under the next id comes first; the rest stay in place. */
  lemma AddedRowComesFirst<R>(m: map<int, R>, keep: R -> bool, id: int, row: R)
    requires 1 <= id && keep(row)
    requires forall k :: k in m ==> k < id
    ensures RowsDesc(m[id := row], keep, id + 1) == [(id, row)] + RowsDesc(m, keep, id)
  {
    RowsDescIgnoresAbove(m[id := row], m, keep, id);
  }

  /** `rows` without the row stored under `id`. */
  function RemoveRow<R>(rows: seq<(int, R)>, id: int): seq<(int, R)>
  {
    if rows == [] then []
    else if rows[0].0 == id then RemoveRow(rows[1..], id)
    else [rows[0]] + RemoveRow(rows[1..], id)
  }

  /** Deleting a row removes it from the listing and keeps the order of the rest. */
  lemma {:induction false} DeletedRowIsDropped<R>(m: map<int, R>, keep: R -> bool, id: int, hi: int)
    ensures RowsDesc(m - {id}, keep, hi) == RemoveRow(RowsDesc(m, keep, hi), id)
    decreases hi
  {
    if hi > 1 {
      DeletedRowIsDropped(m, keep, id, hi - 1);
    }
  }

  // ---------------------------------------------------------------------------
  // Hydration (`formatQuestion`)
  // ---------------------------------------------------------------------------

  /** Selects the comments of question `qid`. */
  function OwnedBy(qid: int): CommentRow -> bool
  {
    (c: CommentRow) => c.questionId == qid
  }

  /** `SELECT * FROM comments WHERE question_id = ? ORDER BY created_at DESC`. */
  function CommentRows(cm: map<int, CommentRow>, qid: int, hi: int): seq<(int, CommentRow)>
  {
    RowsDesc(cm, OwnedBy(qid), hi)
  }

  function FormatComment(id: int, c: CommentRow, now: int): Comment
  {
    Comment(id, c.text, c.author, c.votes, TimeAgo(now - c.createdAt))
  }

  function FormatComments(rows: seq<(int, CommentRow)>, now: int): seq<Comment>
  {
    seq(|rows|, i requires 0 <= i < |rows| => FormatComment(rows[i].0, rows[i].1, now))
  }

  /**
   * `formatQuestion`: the row's own fields, its age as relative text, and
   * comments that all belong to this question.
   */
  function FormatQuestion(id: int, row: QuestionRow, cm: map<int, CommentRow>, hi: int, now: int): (q: Question)
    ensures q.id == id && q.title == row.title && q.content == row.content && q.author == row.author
    ensures q.tags == row.tags && q.campus == row.campus && q.department == row.department
    ensures q.votes == row.votes && q.views == row.views
    ensures q.createdAt == row.createdAt && q.updatedAt == row.updatedAt
    ensures q.timestamp == TimeAgo(now - row.createdAt)
    ensures forall i :: 0 <= i < |q.comments| ==>
      q.comments[i].id in cm && cm[q.comments[i].id].questionId == id
  {
    Question(id, row.title, row.content, row.author, row.tags, row.campus, row.department,
             row.votes, row.views, FormatComments(CommentRows(cm, id, hi), now),
             TimeAgo(now - row.createdAt), row.createdAt, row.updatedAt)
  }

  /**
   * A hydrated question carries exactly its own stored comments, each
   * formatted from its row, newest (highest id) first.
   */
  lemma FormattedComments(id: int, row: QuestionRow, cm: map<int, CommentRow>, hi: int, now: int)
    ensures var q := FormatQuestion(id, row, cm, hi, now);
      && (forall i :: 0 <= i < |q.comments| ==>
            q.comments[i].id in cm && cm[q.comments[i].id].questionId == id
            && q.comments[i] == FormatComment(q.comments[i].id, cm[q.comments[i].id], now))
      && (forall i, j :: 0 <= i < j < |q.comments| ==> q.comments[i].id > q.comments[j].id)
      && (forall c :: c in cm && 1 <= c < hi && cm[c].questionId == id ==>
            exists i :: 0 <= i < |q.comments| && q.comments[i].id == c)
  {
    var rows := CommentRows(cm, id, hi);
    RowsDescSpec(cm, OwnedBy(id), hi);
    var q := FormatQuestion(id, row, cm, hi, now);
    forall c | c in cm && 1 <= c < hi && cm[c].questionId == id
      ensures exists i :: 0 <= i < |q.comments| && q.comments[i].id == c
    {
      assert OwnedBy(id)(cm[c]);
      var i :| 0 <= i < |rows| && rows[i] == (c, cm[c]);
      assert q.comments[i].id == c;
    }
  }

  /** A question no comment refers to has no comments. */
  lemma {:induction false} NoOwnedComments(cm: map<int, CommentRow>, qid: int, hi: int)
    requires forall c :: c in cm ==> cm[c].questionId != qid
    ensures CommentRows(cm, qid, hi) == []
    decreases hi
  {
    if hi > 1 {
      NoOwnedComments(cm, qid, hi - 1);
    }
  }

  /** A comment inserted under the next id is listed first among its question's comments. */
  lemma InsertedCommentFirst(cm: map<int, CommentRow>, qid: int, cid: int, c: CommentRow, now: int)
    requires 1 <= cid && c.questionId == qid
    requires forall k :: k in cm ==> k < cid
    ensures FormatComments(CommentRows(cm[cid := c], qid, cid + 1), now)
         == [FormatComment(cid, c, now)] + FormatComments(CommentRows(cm, qid, cid), now)
  {
    AddedRowComesFirst(cm, OwnedBy(qid), cid, c);
  }

  function FormatAll(rows: seq<(int, QuestionRow)>, cm: map<int, CommentRow>, hi: int, now: int): seq<Question>
  {
    seq(|rows|, i requires 0 <= i < |rows| => FormatQuestion(rows[i].0, rows[i].1, cm, hi, now))
  }

  // ---------------------------------------------------------------------------
  // Search filter
  // ---------------------------------------------------------------------------

  /** SQLite `s LIKE '%pattern%'`: case-insensitive (ASCII) substring. */
  predicate Like(s: string, pattern: string): (b: bool)
    ensures b <==> exists i :: OccursAt(Lower(s), Lower(pattern), i)
    ensures Contains(s, pattern) ==> b
  {
    ContainsIff(Lower(s), Lower(pattern));
    if Contains(s, pattern) then ContainsLower(s, pattern); Contains(Lower(s), Lower(pattern))
    else Contains(Lower(s), Lower(pattern))
  }

  /**
   * `JSON.stringify` of a list of tags, as stored in the `tags` column:
   * bracketed, and every tag occurs in it.
   */
  function SerializeTags(tags: seq<string>): (r: string)
    ensures |r| >= 2 && r[0] == '[' && r[|r| - 1] == ']'
    ensures tags == [] ==> r == "[]"
    ensures forall t :: t in tags ==> Contains(r, t)
  {
    QuotedTagsOccur(tags);
    "[" + QuotedList(tags) + "]"
  }

  function QuotedList(tags: seq<string>): string
  {
    if tags == [] then ""
    else if |tags| == 1 then "\"" + tags[0] + "\""
    else "\"" + tags[0] + "\"," + QuotedList(tags[1..])
  }

  /**
   * `title LIKE ? OR content LIKE ?`, dropped when the query is falsy: the
   * query, lower-cased, occurs in the lower-cased title or content.
   */
  predicate MatchesQuery(row: QuestionRow, query: Option<string>): (b: bool)
    ensures b <==> query.None? || query.value == ""
                   || (exists i :: OccursAt(Lower(row.title), Lower(query.value), i))
                   || (exists i :: OccursAt(Lower(row.content), Lower(query.value), i))
    ensures query.Some? && (Contains(row.title, query.value) || Contains(row.content, query.value)) ==> b
  {
    query.None? || query.value == "" || Like(row.title, query.value) || Like(row.content, query.value)
  }

  /**
   * `tags LIKE ? OR tags LIKE ? ...`, dropped when no tag is requested.
   * A question holding any requested tag passes.
   */
  predicate MatchesTags(row: QuestionRow, tags: seq<string>): (b: bool)
    ensures tags == [] ==> b
    ensures (exists t :: t in tags && t in row.tags) ==> b
  {
    HeldTagsMatch(row.tags);
    tags == [] || exists t :: t in tags && Like(SerializeTags(row.tags), t)
  }

  predicate SearchMatches(row: QuestionRow, query: Option<string>, tags: seq<string>)
  {
    MatchesQuery(row, query) && MatchesTags(row, tags)
  }

  function SearchFilter(query: Option<string>, tags: seq<string>): QuestionRow -> bool
  {
    (row: QuestionRow) => SearchMatches(row, query, tags)
  }

  /** Every tag occurs in the bracketed quoted list. */
  lemma QuotedTagsOccur(tags: seq<string>)
    ensures forall t :: t in tags ==> Contains("[" + QuotedList(tags) + "]", t)
  {
    forall t | t in tags
      ensures Contains("[" + QuotedList(tags) + "]", t)
    {
      var k := QuotedOffset(tags, t);
      ContainsAt("[" + QuotedList(tags) + "]", t, k + 1);
    }
  }

  /** Every tag of a question passes its own `LIKE` test. */
  lemma HeldTagsMatch(tags: seq<string>)
    ensures forall t :: t in tags ==> Like(SerializeTags(tags), t)
  {
    forall t | t in tags
      ensures Like(SerializeTags(tags), t)
    {
    }
  }

  /** The offset of `t` in the quoted list. */
  lemma {:induction false} QuotedOffset(tags: seq<string>, t: string) returns (k: int)
    requires t in tags
    ensures OccursAt(QuotedList(tags), t, k)
    decreases |tags|
  {
    var q := QuotedList(tags);
    if tags[0] == t {
      k := 1;
      if |tags| == 1 {
        assert q[1..1 + |t|] == t;
      } else {
        assert q == "\"" + t + "\"," + QuotedList(tags[1..]);
        assert q[1..1 + |t|] == t;
      }
    } else {
      var rest := QuotedList(tags[1..]);
      var j := QuotedOffset(tags[1..], t);
      var pre := "\"" + tags[0] + "\",";
      assert q == pre + rest;
      k := |pre| + j;
      assert q[k..k + |t|] == rest[j..j + |t|];
    }
  }

  /**
   * The converse fails: the tag filter is a substring test on the stored
   * text, so a requested tag matches any stored tag that contains it.
   */
  lemma TagFilterOverMatches()
    ensures var row := QuestionRow("t", "c", Anonymous, ["cs-extra"], "Main Campus", "General", 0, 0, 0, 0);
      && "cs" !in row.tags
      && MatchesTags(row, ["cs"])
  {
    var row := QuestionRow("t", "c", Anonymous, ["cs-extra"], "Main Campus", "General", 0, 0, 0, 0);
    var s := SerializeTags(row.tags);
    assert s == "[\"cs-extra\"]";
    assert OccursAt(Lower(s), Lower("cs"), 2);
    ContainsAt(Lower(s), Lower("cs"), 2);
    assert "cs" in ["cs"] && Like(s, "cs");
  }

  // ---------------------------------------------------------------------------
  // The store
  // ---------------------------------------------------------------------------

  /**
   * The `questions` and `comments` tables with their AUTOINCREMENT counters.
   * `Valid` states what the schema enforces, that ids are positive and
   * below the counter and that every comment's `question_id` names a stored
   * question (foreign keys are switched on), and what the operations keep
   * true on top of it: views never go below zero.
   */
  class Store {
    var questions: map<int, QuestionRow>
    var comments: map<int, CommentRow>
    var nextQuestionId: int
    var nextCommentId: int

    ghost predicate Valid()
      reads this
    {
      && 1 <= nextQuestionId && 1 <= nextCommentId
      && (forall id :: id in questions ==> 1 <= id < nextQuestionId && questions[id].views >= 0)
      && (forall id :: id in comments ==> 1 <= id < nextCommentId)
      && (forall id :: id in comments ==> comments[id].questionId in questions)
    }

    constructor ()
      ensures Valid()
      ensures questions == map[] && comments == map[]
    {
      questions := map[];
      comments := map[];
      nextQuestionId := 1;
      nextCommentId := 1;
    }

    /** `formatQuestion(row)` against the current comments. */
    function Hydrate(id: int, row: QuestionRow, now: int): Question
      reads this
    {
      FormatQuestion(id, row, comments, nextCommentId, now)
    }

    /** The formatted comments of question `qid`, newest first. */
    function CommentsOf(qid: int, now: int): seq<Comment>
      reads this
    {
      FormatComments(CommentRows(comments, qid, nextCommentId), now)
    }

    /** `getAll`: every question, newest first. Reading changes nothing. */
    function GetAll(now: int): (r: seq<Question>)
      reads this
      requires Valid()
      ensures forall i :: 0 <= i < |r| ==> r[i].id in questions && r[i] == Hydrate(r[i].id, questions[r[i].id], now)
      ensures forall i, j :: 0 <= i < j < |r| ==> r[i].id > r[j].id
      ensures forall id :: id in questions ==> exists i :: 0 <= i < |r| && r[i].id == id
    {
      var rows := RowsDesc(questions, (row: QuestionRow) => true, nextQuestionId);
      RowsDescSpec(questions, (row: QuestionRow) => true, nextQuestionId);
      var r := FormatAll(rows, comments, nextCommentId, now);
      assert forall i :: 0 <= i < |r| ==> r[i].id == rows[i].0;
      assert forall id :: id in questions ==> (id, questions[id]) in rows;
      r
    }

    /**
     * `search(query, tags)`: the questions that pass both filters, newest
     * first. Stored views do not change; every other question is left out.
     */
    function Search(query: Option<string>, tags: seq<string>, now: int): (r: seq<Question>)
      reads this
      requires Valid()
      ensures forall i :: 0 <= i < |r| ==>
        && r[i].id in questions
        && SearchMatches(questions[r[i].id], query, tags)
        && r[i] == Hydrate(r[i].id, questions[r[i].id], now)
      ensures forall i, j :: 0 <= i < j < |r| ==> r[i].id > r[j].id
      ensures forall id :: id in questions && SearchMatches(questions[id], query, tags) ==>
        exists i :: 0 <= i < |r| && r[i].id == id
    {
      var rows := RowsDesc(questions, SearchFilter(query, tags), nextQuestionId);
      RowsDescSpec(questions, SearchFilter(query, tags), nextQuestionId);
      var r := FormatAll(rows, comments, nextCommentId, now);
      assert forall id :: id in questions && SearchMatches(questions[id], query, tags) ==>
        SearchFilter(query, tags)(questions[id]) && (id, questions[id]) in rows;
      assert forall i :: 0 <= i < |r| ==> r[i].id == rows[i].0;
      r
    }

    /** With a falsy query and no tags, `search` returns what `getAll` returns. */
    lemma SearchWithoutFiltersIsGetAll(query: Option<string>, now: int)
      requires Valid()
      requires query.None? || query.value == ""
      ensures Search(query, [], now) == GetAll(now)
    {
      RowsDescSameFilter(questions, SearchFilter(query, []), (row: QuestionRow) => true, nextQuestionId);
    }

    /**
     * `getById`: null for a missing id. Otherwise the row is read, then its
     * views are incremented, and the question is returned as read, so it
     * carries the count from before this view.
     */
    method GetById(id: int, now: int) returns (r: Option<Question>)
      requires Valid()
      modifies this
      ensures Valid()
      ensures comments == old(comments)
      ensures nextQuestionId == old(nextQuestionId) && nextCommentId == old(nextCommentId)
      ensures id !in old(questions) ==> r == None && questions == old(questions)
      ensures id in old(questions) ==>
        var row := old(questions)[id];
        && questions == old(questions)[id := row.(views := row.views + 1)]
        && r == Some(Hydrate(id, row, now))
        && r.value.views == row.views
    {
      if id !in questions {
        return None;
      }
      var row := questions[id];
      questions := questions[id := row.(views := row.views + 1)];
      r := Some(Hydrate(id, row, now));
    }

    /**
     * `create`: inserts a row with zero votes and views and returns it
     * through `getById`, which leaves the stored views at 1.
     */
    method Create(title: string, content: string, author: Option<string>, tags: seq<string>,
                  campus: string, department: string, now: int) returns (q: Question)
      requires Valid()
      modifies this
      ensures Valid()
      ensures comments == old(comments) && nextCommentId == old(nextCommentId)
      ensures var id := old(nextQuestionId);
        && id !in old(questions)
        && nextQuestionId == id + 1
        && questions == old(questions)[id := QuestionRow(title, content, AuthorOrAnonymous(author), tags,
                                                         campus, department, 0, 1, now, now)]
        && q == Question(id, title, content, AuthorOrAnonymous(author), tags, campus, department,
                         0, 0, [], "just now", now, now)
    {
      var id := nextQuestionId;
      NoOwnedComments(comments, id, nextCommentId);
      var row := QuestionRow(title, content, AuthorOrAnonymous(author), tags, campus, department, 0, 0, now, now);
      questions := questions[id := row];
      nextQuestionId := nextQuestionId + 1;
      var r := GetById(id, now);
      q := r.value;
      assert TimeAgo(now - now) == "just now";
    }

    /**
     * `vote`: +1 when `direction` is the string "up", -1 for anything else,
     * with no bound. Returns through `getById`: null and nothing changed for a
     * missing id, otherwise the new vote count, and stored views rise by 1.
     */
    method Vote(id: int, direction: Value, now: int) returns (r: Option<Question>)
      requires Valid()
      modifies this
      ensures Valid()
      ensures comments == old(comments)
      ensures nextQuestionId == old(nextQuestionId) && nextCommentId == old(nextCommentId)
      ensures id !in old(questions) ==> r == None && questions == old(questions)
      ensures id in old(questions) ==>
        var row := old(questions)[id];
        var change := if direction == Str("up") then 1 else -1;
        var voted := row.(votes := row.votes + change, updatedAt := now);
        && questions == old(questions)[id := voted.(views := row.views + 1)]
        && r == Some(Hydrate(id, voted, now))
        && r.value.votes == row.votes + change
        && r.value.views == row.views
    {
      var change := if direction == Str("up") then 1 else -1;
      if id in questions {
        var row := questions[id];
        questions := questions[id := row.(votes := row.votes + change, updatedAt := now)];
      }
      r := GetById(id, now);
    }

    /**
     * `addComment`: inserts a comment (a falsy author becomes anonymous),
     * touches the question's `updated_at` and returns it through `getById`.
     * A missing text violates NOT NULL and a missing question violates the
     * foreign key: either INSERT throws and nothing changes.
     */
    method AddComment(qid: int, text: Option<string>, author: Option<string>, now: int)
      returns (r: Result<Question, StoreError>)
      requires Valid()
      modifies this
      ensures Valid()
      ensures nextQuestionId == old(nextQuestionId)
      ensures text.None? ==> r == Failure(NotNullViolation)
      ensures text.Some? && qid !in old(questions) ==> r == Failure(ForeignKeyViolation)
      ensures r.Success? <==> text.Some? && qid in old(questions)
      ensures r.Failure? ==>
        questions == old(questions) && comments == old(comments) && nextCommentId == old(nextCommentId)
      ensures r.Success? ==>
        var cid := old(nextCommentId);
        var row := old(questions)[qid];
        && text.Some? && qid in old(questions)
        && cid !in old(comments)
        && comments == old(comments)[cid := CommentRow(qid, text.value, AuthorOrAnonymous(author), 0, now)]
        && nextCommentId == cid + 1
        && questions == old(questions)[qid := row.(views := row.views + 1, updatedAt := now)]
        && r.value == Hydrate(qid, row.(updatedAt := now), now)
        && r.value.comments == [Comment(cid, text.value, AuthorOrAnonymous(author), 0, "just now")]
                               + old(CommentsOf(qid, now))
    {
      if text.None? {
        return Failure(NotNullViolation);
      }
      if qid !in questions {
        return Failure(ForeignKeyViolation);
      }
      var cid := nextCommentId;
      var c := CommentRow(qid, text.value, AuthorOrAnonymous(author), 0, now);
      ghost var cm := comments;
      ghost var after := FormatComments(CommentRows(cm[cid := c], qid, cid + 1), now);
      InsertedCommentFirst(cm, qid, cid, c, now);
      assert TimeAgo(now - now) == "just now";
      assert after == [Comment(cid, text.value, AuthorOrAnonymous(author), 0, "just now")] + CommentsOf(qid, now);
      comments := comments[cid := c];
      nextCommentId := nextCommentId + 1;
      var row := questions[qid];
      questions := questions[qid := row.(updatedAt := now)];
      var g := GetById(qid, now);
      r := Success(g.value);
      assert comments == cm[cid := c] && nextCommentId == cid + 1;
      assert g.value == Hydrate(qid, row.(updatedAt := now), now);
      assert Hydrate(qid, row.(updatedAt := now), now).comments
          == FormatComments(CommentRows(comments, qid, nextCommentId), now);
    }

    /**
     * `delete`: true exactly when a question with that id existed. The
     * cascade removes its comments; nothing else changes.
     */
    method Delete(id: int) returns (deleted: bool)
      requires Valid()
      modifies this
      ensures Valid()
      ensures deleted == (id in old(questions))
      ensures questions == old(questions) - {id}
      ensures forall c :: c in comments <==> c in old(comments) && old(comments)[c].questionId != id
      ensures forall c :: c in comments ==> comments[c] == old(comments)[c]
      ensures nextQuestionId == old(nextQuestionId) && nextCommentId == old(nextCommentId)
    {
      deleted := id in questions;
      questions := questions - {id};
      comments := map c | c in comments && comments[c].questionId != id :: comments[c];
    }

    /**
     * `deleteComment`: null when the question is missing or no comment with
     * that id belongs to it, and then nothing changes. Otherwise exactly that
     * comment is removed and the question is returned through `getById`.
     */
    method DeleteComment(qid: int, cid: int, now: int) returns (r: Option<Question>)
      requires Valid()
      modifies this
      ensures Valid()
      ensures nextQuestionId == old(nextQuestionId) && nextCommentId == old(nextCommentId)
      ensures r.None? <==>
        !(qid in old(questions) && cid in old(comments) && old(comments)[cid].questionId == qid)
      ensures r.None? ==> questions == old(questions) && comments == old(comments)
      ensures r.Some? ==>
        var row := old(questions)[qid];
        && comments == old(comments) - {cid}
        && questions == old(questions)[qid := row.(views := row.views + 1, updatedAt := now)]
        && r.value == Hydrate(qid, row.(updatedAt := now), now)
    {
      if qid !in questions {
        return None;
      }
      if !(cid in comments && comments[cid].questionId == qid) {
        return None;
      }
      comments := comments - {cid};
      var row := questions[qid];
      questions := questions[qid := row.(updatedAt := now)];
      r := GetById(qid, now);
    }
  }

  /** An up-vote followed by a down-vote leaves the vote count where it was. */
  method VoteUpThenDown(s: Store, id: int, now: int)
    requires s.Valid() && id in s.questions
    modifies s
    ensures s.Valid()
    ensures id in s.questions && s.questions[id].votes == old(s.questions[id].votes)
    ensures s.questions[id].views == old(s.questions[id].views) + 2
  {
    var _ := s.Vote(id, Str("up"), now);
    var _ := s.Vote(id, Str("down"), now);
  }
}
