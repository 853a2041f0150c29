/**
 * The request handlers of the question API: the validation chain of
 * `createQuestion`, the status codes each handler answers with, and the
 * splitting of the `tags` query parameter of `searchQuestions`.
 *
 * The allow-lists of tags, campuses and departments are configuration the
 * handlers read; here they are parameters.
 */
module QuestionControllers {
  import opened Common
  import opened Text
  import opened JsValue
  import opened QuestionModel

  const MaxTags: nat := 5

  /** The fields of a create-question request body; an absent key is `Undefined`. */
  datatype CreateBody = CreateBody(
    title: Value,
    content: Value,
    author: Value,
    tags: Value,
    campus: Value,
    department: Value)

  /** The fields that must be strings, in the order they are checked. */
  datatype Field = Title | Content | Author | Campus | Department

  const StringFields: seq<Field> := [Title, Content, Author, Campus, Department]

  function ValueOf(body: CreateBody, f: Field): Value
  {
    match f
    case Title => body.title
    case Content => body.content
    case Author => body.author
    case Campus => body.campus
    case Department => body.department
  }

  /** The field's key with its first letter upper-cased, as error messages name it. */
  function FieldName(f: Field): string
  {
    match f
    case Title => "Title"
    case Content => "Content"
    case Author => "Author"
    case Campus => "Campus"
    case Department => "Department"
  }

  /** Why a create request was answered with 400. */
  datatype Rejection =
    | MissingRequired
    | NotAString(field: Field, actualType: string)
    | BlankField(field: Field)
    | TagsNotAList
    | TagNotAString
    | TagNotAllowed
    | CampusNotAllowed
    | DepartmentNotAllowed

  /** The `error` member of the 400 answer. */
  function ErrorTitle(r: Rejection): string
  {
    if r.NotAString? then "Type Error" else "Validation Error"
  }

  /** The `message` member of the 400 answer. */
  function Message(r: Rejection): string
  {
    match r
    case MissingRequired => "Title, Content, Author, Tags, Campus, and Department are required."
    case NotAString(f, t) => FieldName(f) + " must be a string, not a " + t + "."
    case BlankField(f) => FieldName(f) + " cannot be empty."
    case TagsNotAList => "Tags must be an array with a maximum of 5 elements."
    case TagNotAString => "All tags must be valid strings."
    case TagNotAllowed => "One or more tags are not in the allowed list."
    case CampusNotAllowed => "Campus must be a valid campus."
    case DepartmentNotAllowed => "Department must be a valid department."
  }

  /** What an accepted request hands to `Question.create`. */
  datatype NewQuestion = NewQuestion(
    title: string,
    content: string,
    author: string,
    tags: seq<string>,
    campus: string,
    department: string)

  /** `typeof v === "string" && v.trim().length > 0`. */
  predicate NonBlankString(v: Value)
  {
    v.Str? && !IsBlank(v.s)
  }

  /** The error reported for a field that is not a non-blank string. */
  function FieldRejection(f: Field, v: Value): Rejection
  {
    if v.Str? then BlankField(f) else NotAString(f, TypeOf(v))
  }

  /**
   * The loop over the string fields from position `i` on: the position of
   * the first field that is not a non-blank string, or `|fields|` when every
   * one passes.
   */
  function FirstBadField(body: CreateBody, fields: seq<Field>, i: nat): (k: nat)
    requires i <= |fields|
    ensures i <= k <= |fields|
    ensures forall j :: i <= j < k ==> NonBlankString(ValueOf(body, fields[j]))
    ensures k < |fields| ==> !NonBlankString(ValueOf(body, fields[k]))
    decreases |fields| - i
  {
    if i == |fields| then i
    else
      var v := ValueOf(body, fields[i]);
      if !v.Str? || IsBlank(v.s) then i
      else FirstBadField(body, fields, i + 1)
  }

  /** Every string field is a non-blank string. */
  predicate StringFieldsOk(body: CreateBody)
  {
    && NonBlankString(body.title)
    && NonBlankString(body.content)
    && NonBlankString(body.author)
    && NonBlankString(body.campus)
    && NonBlankString(body.department)
  }

  lemma NoBadFieldIff(body: CreateBody)
    ensures FirstBadField(body, StringFields, 0) == |StringFields| <==> StringFieldsOk(body)
  {
    var fs := StringFields;
    assert fs[0] == Title && fs[1] == Content && fs[2] == Author && fs[3] == Campus && fs[4] == Department;
  }

  /** The tag strings of a list of values already known to be strings. */
  function TagStrings(items: seq<Value>): seq<string>
    requires forall i :: 0 <= i < |items| ==> items[i].Str?
  {
    seq(|items|, i requires 0 <= i < |items| => items[i].s)
  }

  /** `!title || !content || !author || !tags || !campus || !department`. */
  predicate SomeFieldFalsy(body: CreateBody)
  {
    !Truthy(body.title) || !Truthy(body.content) || !Truthy(body.author)
    || !Truthy(body.tags) || !Truthy(body.campus) || !Truthy(body.department)
  }

  /**
   * `createQuestion` up to the call into the repository: the guards in the
   * order they run, the first that fails deciding the answer. The required
   * check comes first, and a body passes the whole chain exactly when it is
   * acceptable.
   */
  function ValidateCreate(body: CreateBody, tagList: seq<string>, campusList: seq<string>,
                          departmentList: seq<string>): (r: Result<NewQuestion, Rejection>)
    ensures r == Failure(MissingRequired) <==> SomeFieldFalsy(body)
    ensures r.Success? <==> Acceptable(body, tagList, campusList, departmentList)
  {
    if SomeFieldFalsy(body) then Failure(MissingRequired)
    else
      var k := FirstBadField(body, StringFields, 0);
      if k < |StringFields| then Failure(FieldRejection(StringFields[k], ValueOf(body, StringFields[k])))
      else
        NoBadFieldIff(body);
        ValidateTagsAndLists(body, tagList, campusList, departmentList)
  }

  /**
   * The guards after the string fields: the tag list's shape, then its
   * items, then the allow-lists. Never the required or string-field errors.
   */
  function ValidateTagsAndLists(body: CreateBody, tagList: seq<string>, campusList: seq<string>,
                                departmentList: seq<string>): (r: Result<NewQuestion, Rejection>)
    requires StringFieldsOk(body)
    ensures r == Failure(TagsNotAList) <==> !body.tags.Arr? || |body.tags.items| > MaxTags
    ensures r == Failure(TagNotAString) <==>
      && body.tags.Arr? && |body.tags.items| <= MaxTags
      && exists i :: 0 <= i < |body.tags.items| && !NonBlankString(body.tags.items[i])
    ensures r.Success? <==> Acceptable(body, tagList, campusList, departmentList)
    ensures r.Failure? ==> r.error != MissingRequired && !r.error.NotAString? && !r.error.BlankField?
  {
    if !body.tags.Arr? || |body.tags.items| > MaxTags then Failure(TagsNotAList)
    else
      var items := body.tags.items;
      if !(forall i | 0 <= i < |items| :: NonBlankString(items[i])) then Failure(TagNotAString)
      else if !(forall i | 0 <= i < |items| :: items[i].s in tagList) then Failure(TagNotAllowed)
      else if body.campus.s !in campusList then Failure(CampusNotAllowed)
      else if body.department.s !in departmentList then Failure(DepartmentNotAllowed)
      else Success(NewQuestion(body.title.s, body.content.s, body.author.s, TagStrings(items),
                               body.campus.s, body.department.s))
  }

  /** The tag list passes the array, length and string checks. */
  predicate TagsWellFormed(tags: Value)
  {
    tags.Arr? && |tags.items| <= MaxTags && forall i :: 0 <= i < |tags.items| ==> NonBlankString(tags.items[i])
  }

  /** Every tag is on the allow-list. */
  predicate TagsAllowed(tags: Value, tagList: seq<string>)
    requires TagsWellFormed(tags)
  {
    forall i :: 0 <= i < |tags.items| ==> tags.items[i].s in tagList
  }

  /**
   * A request is accepted when every string field is a non-blank string,
   * the tags are at most five non-blank strings from the allow-list, and the
   * campus and department are allowed. Nothing here speaks of truthiness.
   */
  predicate Acceptable(body: CreateBody, tagList: seq<string>, campusList: seq<string>,
                       departmentList: seq<string>)
  {
    && StringFieldsOk(body)
    && TagsWellFormed(body.tags)
    && TagsAllowed(body.tags, tagList)
    && body.campus.s in campusList
    && body.department.s in departmentList
  }

  /** Once the string fields pass, the chain goes on to the tag and allow-list guards. */
  lemma StringFieldsPass(body: CreateBody, tagList: seq<string>, campusList: seq<string>,
                         departmentList: seq<string>)
    requires StringFieldsOk(body) && Truthy(body.tags)
    ensures ValidateCreate(body, tagList, campusList, departmentList)
         == ValidateTagsAndLists(body, tagList, campusList, departmentList)
  {
    NoBadFieldIff(body);
  }

  /**
   * An accepted request hands the repository the body's strings, with the
   * tags in the order sent.
   */
  lemma AcceptedFieldsPassedOn(body: CreateBody, tagList: seq<string>, campusList: seq<string>,
                                 departmentList: seq<string>)
    ensures Acceptable(body, tagList, campusList, departmentList) ==>
      var nq := ValidateCreate(body, tagList, campusList, departmentList).value;
      && nq.title == body.title.s && nq.content == body.content.s && nq.author == body.author.s
      && nq.campus == body.campus.s && nq.department == body.department.s
      && |nq.tags| == |body.tags.items|
      && forall i :: 0 <= i < |nq.tags| ==> body.tags.items[i] == Str(nq.tags[i])
  {
    NoBadFieldIff(body);
    if StringFieldsOk(body) && body.tags.Arr? {
      StringFieldsPass(body, tagList, campusList, departmentList);
    }
  }

  /**
   * With the string fields good, a falsy `tags` is the required error; a
   * truthy non-array or a list of more than five is the array error; a
   * short list holding a non-string or blank item is the tag-string error,
   * reported before any allow-list is consulted.
   */
  lemma TagGuardsInOrder(body: CreateBody, tagList: seq<string>, campusList: seq<string>,
                         departmentList: seq<string>)
    requires StringFieldsOk(body)
    ensures var r := ValidateCreate(body, tagList, campusList, departmentList);
      && (r == Failure(MissingRequired) <==> !Truthy(body.tags))
      && (r == Failure(TagsNotAList) <==>
            Truthy(body.tags) && (!body.tags.Arr? || |body.tags.items| > MaxTags))
      && (r == Failure(TagNotAString) <==>
            && body.tags.Arr? && |body.tags.items| <= MaxTags
            && exists i :: 0 <= i < |body.tags.items| && !NonBlankString(body.tags.items[i]))
  {
    if Truthy(body.tags) {
      StringFieldsPass(body, tagList, campusList, departmentList);
    }
  }

  /**
   * Once the required-fields check passes, the first of title, content,
   * author, campus and department (in that order) that is not a non-blank
   * string is the one reported: a Type Error when it is not a string, a
   * Validation Error when it is blank.
   */
  lemma FirstBadFieldIsReported(body: CreateBody, k: nat, tagList: seq<string>, campusList: seq<string>,
                                departmentList: seq<string>)
    requires !SomeFieldFalsy(body)
    requires k < |StringFields|
    requires forall j :: 0 <= j < k ==> NonBlankString(ValueOf(body, StringFields[j]))
    requires !NonBlankString(ValueOf(body, StringFields[k]))
    ensures var f := StringFields[k];
      var v := ValueOf(body, f);
      var r := ValidateCreate(body, tagList, campusList, departmentList);
      && (!v.Str? ==>
            && r == Failure(NotAString(f, TypeOf(v))) && ErrorTitle(r.error) == "Type Error"
            && Message(r.error) == FieldName(f) + " must be a string, not a " + TypeOf(v) + ".")
      && (v.Str? ==>
            && r == Failure(BlankField(f)) && ErrorTitle(r.error) == "Validation Error"
            && Message(r.error) == FieldName(f) + " cannot be empty.")
  {
    var k0 := FirstBadField(body, StringFields, 0);
    assert k0 == k;
  }

  /** An empty tag array passes every tag check: only the other fields decide. */
  lemma EmptyTagsAccepted(body: CreateBody, tagList: seq<string>, campusList: seq<string>,
                          departmentList: seq<string>)
    requires StringFieldsOk(body)
    requires body.campus.s in campusList && body.department.s in departmentList
    ensures var r := ValidateCreate(body.(tags := Arr([])), tagList, campusList, departmentList);
      r.Success? && r.value.tags == []
  {
    StringFieldsPass(body.(tags := Arr([])), tagList, campusList, departmentList);
  }

  /** Repeating an allowed tag is not rejected. */
  lemma DuplicateTagsAccepted(body: CreateBody, t: string, tagList: seq<string>, campusList: seq<string>,
                              departmentList: seq<string>)
    requires StringFieldsOk(body)
    requires !IsBlank(t) && t in tagList
    requires body.campus.s in campusList && body.department.s in departmentList
    ensures var r := ValidateCreate(body.(tags := Arr([Str(t), Str(t)])), tagList, campusList, departmentList);
      r.Success? && r.value.tags == [t, t]
  {
    var b := body.(tags := Arr([Str(t), Str(t)]));
    StringFieldsPass(b, tagList, campusList, departmentList);
    assert NonBlankString(Str(t));
  }

  /**
   * After the structural checks pass, the allow-lists are consulted in
   * order: tags, then campus, then department.
   */
  lemma AllowListsInOrder(body: CreateBody, tagList: seq<string>, campusList: seq<string>,
                          departmentList: seq<string>)
    requires StringFieldsOk(body) && TagsWellFormed(body.tags)
    ensures var r := ValidateCreate(body, tagList, campusList, departmentList);
      && (r == Failure(TagNotAllowed) <==> !TagsAllowed(body.tags, tagList))
      && (r == Failure(CampusNotAllowed) <==> TagsAllowed(body.tags, tagList) && body.campus.s !in campusList)
      && (r == Failure(DepartmentNotAllowed) <==>
            TagsAllowed(body.tags, tagList) && body.campus.s in campusList && body.department.s !in departmentList)
  {
    StringFieldsPass(body, tagList, campusList, departmentList);
  }

  // ---------------------------------------------------------------------------
  // Handlers and their status codes
  // ---------------------------------------------------------------------------

  /**
   * `createQuestion`: 201 with the created question when every guard passes;
   * otherwise 400 with the first rejection, and the repository is not called.
   */
  method CreateQuestion(s: Store, body: CreateBody, tagList: seq<string>, campusList: seq<string>,
                        departmentList: seq<string>, now: int)
    returns (status: int, r: Result<Question, Rejection>)
    requires s.Valid()
    modifies s
    ensures s.Valid()
    ensures s.comments == old(s.comments) && s.nextCommentId == old(s.nextCommentId)
    ensures var v := ValidateCreate(body, tagList, campusList, departmentList);
      && (v.Failure? ==>
            && status == 400 && r == Failure(v.error)
            && s.questions == old(s.questions) && s.nextQuestionId == old(s.nextQuestionId))
      && (v.Success? ==>
            var id := old(s.nextQuestionId);
            var nq := v.value;
            && status == 201
            && id !in old(s.questions)
            && s.nextQuestionId == id + 1
            && s.questions == old(s.questions)[id := QuestionRow(nq.title, nq.content, nq.author, nq.tags,
                                                                 nq.campus, nq.department, 0, 1, now, now)]
            && r == Success(Question(id, nq.title, nq.content, nq.author, nq.tags, nq.campus, nq.department,
                                     0, 0, [], "just now", now, now)))
  {
    var v := ValidateCreate(body, tagList, campusList, departmentList);
    if v.Failure? {
      return 400, Failure(v.error);
    }
    var nq := v.value;
    AcceptedFieldsPassedOn(body, tagList, campusList, departmentList);
    assert nq.author != "";
    var q := s.Create(nq.title, nq.content, Some(nq.author), nq.tags, nq.campus, nq.department, now);
    return 201, Success(q);
  }

  /** `getQuestion`: 200 with the question, 404 when no question has that id. */
  method GetQuestion(s: Store, id: int, now: int) returns (status: int, data: Option<Question>)
    requires s.Valid()
    modifies s
    ensures s.Valid()
    ensures status == (if id in old(s.questions) then 200 else 404)
    ensures status == 200 <==> data.Some?
    ensures s.comments == old(s.comments)
    ensures s.nextQuestionId == old(s.nextQuestionId) && s.nextCommentId == old(s.nextCommentId)
    ensures status == 404 ==> s.questions == old(s.questions)
    ensures status == 200 ==>
      var row := old(s.questions)[id];
      && s.questions == old(s.questions)[id := row.(views := row.views + 1)]
      && data == Some(s.Hydrate(id, row, now))
      && data.value.id == id && data.value.views == row.views
  {
    data := s.GetById(id, now);
    status := if data.Some? then 200 else 404;
  }

  /** `voteQuestion`: 200 with the re-read question, 404 when no question has that id. */
  method VoteQuestion(s: Store, id: int, direction: Value, now: int) returns (status: int, data: Option<Question>)
    requires s.Valid()
    modifies s
    ensures s.Valid()
    ensures status == (if id in old(s.questions) then 200 else 404)
    ensures status == 200 <==> data.Some?
    ensures s.comments == old(s.comments)
    ensures s.nextQuestionId == old(s.nextQuestionId) && s.nextCommentId == old(s.nextCommentId)
    ensures status == 404 ==> s.questions == old(s.questions)
    ensures status == 200 ==>
      var row := old(s.questions)[id];
      var change := if direction == Str("up") then 1 else -1;
      var voted := row.(votes := row.votes + change, updatedAt := now);
      && s.questions == old(s.questions)[id := voted.(views := row.views + 1)]
      && data == Some(s.Hydrate(id, voted, now))
      && data.value.votes == row.votes + change
  {
    data := s.Vote(id, direction, now);
    status := if data.Some? then 200 else 404;
  }

  /**
   * `addComment`: 201 with the question. The repository never answers null
   * here: a missing text or a missing question makes the INSERT throw, which
   * is answered with 400, so this handler never answers 404.
   */
  method AddComment(s: Store, id: int, text: Option<string>, author: Option<string>, now: int)
    returns (status: int, data: Option<Question>)
    requires s.Valid()
    modifies s
    ensures s.Valid()
    ensures status != 404
    ensures status == (if text.Some? && id in old(s.questions) then 201 else 400)
    ensures status == 201 <==> data.Some?
    ensures s.nextQuestionId == old(s.nextQuestionId)
    ensures status == 400 ==>
      s.questions == old(s.questions) && s.comments == old(s.comments) && s.nextCommentId == old(s.nextCommentId)
    ensures status == 201 ==>
      var cid := old(s.nextCommentId);
      var row := old(s.questions)[id];
      && cid !in old(s.comments)
      && s.comments == old(s.comments)[cid := CommentRow(id, text.value, AuthorOrAnonymous(author), 0, now)]
      && s.nextCommentId == cid + 1
      && s.questions == old(s.questions)[id := row.(views := row.views + 1, updatedAt := now)]
      && data == Some(s.Hydrate(id, row.(updatedAt := now), now))
      && data.value.comments == [Comment(cid, text.value, AuthorOrAnonymous(author), 0, "just now")]
                                + old(s.CommentsOf(id, now))
  {
    var r := s.AddComment(id, text, author, now);
    if r.Failure? {
      return 400, None;
    }
    return 201, Some(r.value);
  }

  /** `deleteQuestion`: 200 when a question was deleted, 404 otherwise. */
  method DeleteQuestion(s: Store, id: int) returns (status: int, deleted: bool)
    requires s.Valid()
    modifies s
    ensures s.Valid()
    ensures status == (if id in old(s.questions) then 200 else 404)
    ensures deleted <==> status == 200
    ensures s.questions == old(s.questions) - {id}
    ensures forall c :: c in s.comments <==> c in old(s.comments) && old(s.comments)[c].questionId != id
    ensures forall c :: c in s.comments ==> s.comments[c] == old(s.comments)[c]
    ensures s.nextQuestionId == old(s.nextQuestionId) && s.nextCommentId == old(s.nextCommentId)
  {
    deleted := s.Delete(id);
    status := if deleted then 200 else 404;
  }

  /** `deleteComment`: 200 with the question, 404 when the question or its comment is missing. */
  method DeleteComment(s: Store, id: int, commentId: int, now: int) returns (status: int, data: Option<Question>)
    requires s.Valid()
    modifies s
    ensures s.Valid()
    ensures status == 200 <==>
      id in old(s.questions) && commentId in old(s.comments) && old(s.comments)[commentId].questionId == id
    ensures status == 200 || status == 404
    ensures status == 200 <==> data.Some?
    ensures s.nextQuestionId == old(s.nextQuestionId) && s.nextCommentId == old(s.nextCommentId)
    ensures status == 404 ==> s.questions == old(s.questions) && s.comments == old(s.comments)
    ensures status == 200 ==>
      var row := old(s.questions)[id];
      && s.comments == old(s.comments) - {commentId}
      && s.questions == old(s.questions)[id := row.(views := row.views + 1, updatedAt := now)]
      && data == Some(s.Hydrate(id, row.(updatedAt := now), now))
  {
    data := s.DeleteComment(id, commentId, now);
    status := if data.Some? then 200 else 404;
  }

  // ---------------------------------------------------------------------------
  // The `tags` query parameter of `searchQuestions`
  // ---------------------------------------------------------------------------

  /** `tags ? tags.split(",") : []`. */
  function SearchTagList(tags: Option<string>): (r: seq<string>)
    ensures tags.None? || tags.value == "" ==> r == []
    ensures tags.Some? && tags.value != "" ==> Join(r, ',') == tags.value
    ensures forall i :: 0 <= i < |r| ==> ',' !in r[i]
  {
    if tags.None? || tags.value == "" then []
    else
      JoinSplit(tags.value, ',');
      Split(tags.value, ',')
  }

  /** A list of comma-free tags sent joined by commas arrives as the same list. */
  lemma SearchTagListRoundTrip(tags: seq<string>)
    requires |tags| >= 1 && tags != [""]
    requires forall i :: 0 <= i < |tags| ==> ',' !in tags[i]
    ensures SearchTagList(Some(Join(tags, ','))) == tags
  {
    SplitJoin(tags, ',');
  }

  /**
   * A trailing comma yields an empty tag, and the filter `tags LIKE '%%'`
   * built from it accepts every question.
   */
  lemma TrailingCommaMatchesEveryRow(row: QuestionRow, t: string)
    requires ',' !in t
    ensures "" in SearchTagList(Some(t + ","))
    ensures MatchesTags(row, SearchTagList(Some(t + ",")))
  {
    var parts := SearchTagList(Some(t + ","));
    SplitJoin([t, ""], ',');
    assert Join([t, ""], ',') == t + ",";
    assert parts == [t, ""];
    assert OccursAt(Lower(SerializeTags(row.tags)), Lower(""), 0);
    ContainsAt(Lower(SerializeTags(row.tags)), Lower(""), 0);
    assert "" in parts && Like(SerializeTags(row.tags), "");
  }
}
