# Iskolar Overflow question board — a Dafny model

This project models the core of an anonymous campus question-and-answer board:

- the server's question repository (`server/models/Question.js`): a SQLite store of questions and comments;
- the request handlers in `server/controllers/QuestionControllers.js`: the validation chain of `createQuestion`, the status each handler answers with, and the splitting of the search `tags` parameter;
- the browser client's list logic:
  - the feed filter (`QuestionList.jsx`);
  - the vote, comment and add-question handlers (`useQuestions.js`);
  - the capped tag toggle and submit guard of the ask form (`AskQuestionForm.jsx`);
  - the uncapped tag toggle of the sidebar (`Sidebar.jsx`);
- the older single-file client `src/App.jsx`, which repeats that logic. It reuses the client modules' definitions and proves the same properties for its own state.

Files and modules:

| file | module | what it holds |
|---|---|---|
| `common.dfy` | `Common` | `Option`, `Result`, the anonymous author label |
| `text.dfy` | `Text` | ASCII lower-casing, substring search, JavaScript `trim`, decimal numerals, `split`/`join` |
| `js_value.dfy` | `JsValue` | JSON request values, JavaScript truthiness and `typeof` |
| `question_model.dfy` | `QuestionModel` | rows, `getTimeAgo`, ordered reads, hydration, the search filter, and class `Store` with the repository calls as methods |
| `question_controllers.dfy` | `QuestionControllers` | the `createQuestion` guard chain, the status-code handlers, search tag splitting |
| `client_data.dfy` | `ClientData` | the client's question and comment objects, `filter(t => t !== x)` |
| `question_list.dfy` | `QuestionList` | `filteredQuestions` and "Clear all filters" |
| `use_questions.dfy` | `UseQuestions` | `handleVote`, `handleAddComment`, `addQuestion` |
| `ask_question_form.dfy` | `AskQuestionForm` | capped `toggleTag`, the submit guard, the posted question |
| `sidebar.dfy` | `Sidebar` | uncapped `toggleTag`, clear |
| `app.dfy` | `MonolithApp` | the single-file client's state and handlers |

How the database is represented:

- The store is two maps keyed by AUTOINCREMENT id, plus the next id of each table.
- `Store.Valid` holds what the schema enforces: positive ids below the counter, and every comment's `question_id` naming a stored question (foreign keys are on).
- `Store.Valid` also holds one fact the schema does not check: views are never negative. The operations keep this true, since they only ever add to views.
- `ORDER BY created_at DESC` is descending id.
- Wall-clock time (`now`) and client-generated ids (`Date.now()`) are parameters.

Things the contracts show about the code as written:

- `getById` returns the view count from before its own increment. Since `create`, `vote`, `addComment` and `deleteComment` all return through it, each of them also counts a view.
- `vote` subtracts for any direction other than the string `"up"`, with no bound.
- `addComment` on a missing question fails on the foreign key, so the handler answers 400, never 404.
- The server's tag search is a substring test on the serialized tag list:
  - a requested tag also matches any stored tag containing it (`QuestionModel.TagFilterOverMatches`);
  - a trailing comma in the `tags` parameter yields an empty tag, which matches every question (`QuestionControllers.TrailingCommaMatchesEveryRow`);
  - the client's tag test, by contrast, is exact membership.

- `createQuestion` requires a non-blank `author`, although the repository would default a falsy author; the model follows the handler.

Blankness (`s.trim()` being empty) is modelled as `Text.IsBlank`, "every character is JavaScript white space"; `Text.TrimEmptyIffBlank` proves the two equal.

## Model

| member | source | states |
|---|---|---|
| QuestionModel.AuthorOrAnonymous | server/models/Question.js:110 | a falsy (absent or empty) author becomes "Anonymous Iskolar", any other author is kept, and the result is never empty |
| QuestionModel.TimeAgoBands | server/models/Question.js:8-20 | under a minute (negative included) gives "just now"; otherwise the count of whole minutes (1..59), hours (1..23) or days elapsed, each floored and bounded by its band |
| QuestionModel.Ago | server/models/Question.js:17-19 | "N unit(s) ago" starts with a digit, ends in " ago", and has an "s" after the unit exactly when N > 1 |
| QuestionModel.TimeAgo | server/models/Question.js:8-20 | "just now" exactly when the difference is under a minute (negative included); every other answer ends in " ago" |
| QuestionModel.AgoUnambiguous | server/models/Question.js:17-19 | an "N unit(s) ago" text is never "just now" and determines N and the unit |
| QuestionModel.RowsDesc | server/models/Question.js:25-33 | an ordered read returns only stored rows the WHERE clause accepts, each under its own id, in strictly descending id order |
| QuestionModel.RowsDescSpec | server/models/Question.js:25-33 | an ordered read lists exactly the stored rows the WHERE clause accepts, each under its own id, newest (highest id) first |
| QuestionModel.RowsDescSameFilter | server/models/Question.js:210-228 | two WHERE clauses that agree on every stored row return the same rows |
| QuestionModel.RowsDescIgnoresAbove | server/models/Question.js:25-33 | rows with ids at or above the bound do not affect the read |
| QuestionModel.AddedRowComesFirst | server/models/Question.js:138-143 | a row inserted under the next AUTOINCREMENT id is read first and the older rows follow unchanged |
| QuestionModel.DeletedRowIsDropped | server/models/Question.js:158-167 | deleting a row removes just that row from every ordered read and keeps the others' order |
| QuestionModel.FormatQuestion | server/models/Question.js:23-56 | the API object carries the row's id, text fields, tags, votes, views and dates, its relative age from `getTimeAgo`, and only comments whose `question_id` is this question |
| QuestionModel.FormattedComments | server/models/Question.js:23-56 | a hydrated question carries exactly its own stored comments, each formatted from its row, newest first |
| QuestionModel.NoOwnedComments | server/models/Question.js:25-33 | a question no comment refers to is hydrated with no comments |
| QuestionModel.InsertedCommentFirst | server/models/Question.js:135-154 | a newly inserted comment heads its question's comment list and the earlier comments follow unchanged |
| QuestionModel.SerializeTags | server/models/Question.js:111 | the stored tag text is bracketed, is "[]" for no tags, and contains every tag as a substring |
| QuestionModel.Like | server/models/Question.js:216 | `s LIKE '%p%'` holds exactly when lower-cased `p` occurs at some offset of lower-cased `s`; an exact-case substring always matches |
| QuestionModel.MatchesQuery | server/models/Question.js:214-218 | a falsy query matches every row; otherwise the row matches exactly when the lower-cased query occurs in the lower-cased title or content |
| QuestionModel.MatchesTags | server/models/Question.js:220-223 | no requested tags matches every row, and a row holding any requested tag always matches |
| QuestionModel.TagFilterOverMatches | server/models/Question.js:220-223 | a requested tag "cs" also matches a question whose only tag is "cs-extra": the tag filter is a substring test |
| QuestionModel.Store.constructor | server/config/database.js:12-41 | the freshly created tables are empty and satisfy the schema invariant (ids below the AUTOINCREMENT counters, every comment owned by a stored question) |
| QuestionModel.Store.GetAll | server/models/Question.js:59-70 | every stored question exactly once, each hydrated from its row, newest first |
| QuestionModel.Store.Search | server/models/Question.js:210-230 | exactly the stored questions passing both filters (a falsy query or no tags drops that filter; title OR content; any tag), hydrated, newest first |
| QuestionModel.Store.SearchWithoutFiltersIsGetAll | server/models/Question.js:210-230 | with a falsy query and no tags, `search` returns what `getAll` returns |
| QuestionModel.Store.GetById | server/models/Question.js:73-94 | a missing id gives null and no change; otherwise stored views rise by exactly 1 while the result carries the views read before the increment |
| QuestionModel.Store.Create | server/models/Question.js:97-117 | inserts one row under the next id, with the author defaulted, tags as given and zero votes; the result has views 0 while the stored views become 1 |
| QuestionModel.Store.Vote | server/models/Question.js:120-132 | +1 exactly for the string "up", −1 for anything else, with no bound; a missing id gives null and no change; otherwise the result carries the new count and stored views rise by 1 |
| QuestionModel.Store.AddComment | server/models/Question.js:135-155 | missing text fails NOT NULL and a missing question fails the foreign key, and either failure changes nothing; otherwise exactly one comment is added with the author defaulted and the question is returned with that comment first |
| QuestionModel.Store.Delete | server/models/Question.js:158-168 | true exactly when the question existed; the question and, by cascade, all its comments are gone; nothing else changes |
| QuestionModel.Store.DeleteComment | server/models/Question.js:171-207 | null, with nothing changed, unless the question exists and the comment belongs to it; otherwise exactly that comment is removed and the question returned |
| QuestionModel.VoteUpThenDown | server/models/Question.js:120-132 | an up-vote then a down-vote restores the vote count and adds two views |
| QuestionControllers.ValidateCreate | server/controllers/QuestionControllers.js:107-193 | the required error exactly when one of the six fields is falsy; success exactly when the body is acceptable (non-blank string fields, at most five non-blank allowed tags, allowed campus and department) |
| QuestionControllers.ValidateTagsAndLists | server/controllers/QuestionControllers.js:146-193 | the array error exactly when tags is not an array or has more than five items; the tag-string error exactly when a short list holds a non-string or blank item; success exactly when acceptable; never a required or string-field error |
| QuestionControllers.FirstBadField | server/controllers/QuestionControllers.js:122-144 | the loop stops at the first field that is not a non-blank string, every field before it passing, or runs to the end |
| QuestionControllers.NoBadFieldIff | server/controllers/QuestionControllers.js:122-144 | the string-field loop finds no bad field exactly when all five fields are non-blank strings |
| QuestionControllers.AcceptedFieldsPassedOn | server/controllers/QuestionControllers.js:107-208 | an accepted body hands the repository its own title, content, author, campus and department strings and its tags, one string per item, in the order sent |
| QuestionControllers.FirstBadFieldIsReported | server/controllers/QuestionControllers.js:122-144 | the first of title, content, author, campus and department that fails is the one reported: a Type Error with the message "<Field> must be a string, not a <typeof>." when it is not a string, a Validation Error with "<Field> cannot be empty." when it is blank, where <Field> is the key with its first letter upper-cased |
| QuestionControllers.StringFieldsPass | server/controllers/QuestionControllers.js:146-193 | once the string fields pass, the answer is decided by the tag and allow-list guards alone |
| QuestionControllers.TagGuardsInOrder | server/controllers/QuestionControllers.js:112-165 | with good string fields, a falsy `tags` gives the required error; a truthy non-array or a list of more than five gives the array error; a short list with a non-string or blank item gives the tag-string error, before any allow-list check |
| QuestionControllers.EmptyTagsAccepted | server/controllers/QuestionControllers.js:147-153 | an empty tag array passes the required and length checks and is accepted when the rest is |
| QuestionControllers.DuplicateTagsAccepted | server/controllers/QuestionControllers.js:156-175 | a repeated allowed tag is not rejected and is passed on twice |
| QuestionControllers.AllowListsInOrder | server/controllers/QuestionControllers.js:168-193 | for well-formed tags, the tag allow-list is checked first, then campus, then department, each error exactly when the earlier checks pass and its own fails |
| QuestionControllers.CreateQuestion | server/controllers/QuestionControllers.js:107-216 | 400 with the first rejection and nothing stored; or 201, with the validated strings stored as a new row under the next id (zero votes, the view count 1 left by the re-read), the id counter advanced, and the created question answered with zero votes and views, no comments and "just now"; comments never change |
| QuestionControllers.GetQuestion | server/controllers/QuestionControllers.js:81-103 | 200 exactly when the id exists, answering the question as read and raising only its stored view count by one; otherwise 404 and no change; comments and id counters never change |
| QuestionControllers.VoteQuestion | server/controllers/QuestionControllers.js:220-243 | 200 exactly when the id exists: the stored row gets votes +1 for "up" and -1 otherwise, `updated_at` set to now and views +1, and the answer carries the new vote count; otherwise 404 and no change; comments never change |
| QuestionControllers.AddComment | server/controllers/QuestionControllers.js:247-269 | 201 exactly when text is present and the question exists, and then exactly one comment row (text, author or "Anonymous Iskolar", zero votes) is added under the next comment id, the question gets `updated_at` now and views +1, and the answer lists the new comment first; otherwise 400, never 404, with nothing changed |
| QuestionControllers.DeleteQuestion | server/controllers/QuestionControllers.js:273-295 | 200 exactly when the question existed, otherwise 404; afterwards exactly that question and exactly its comments are gone, every other row is unchanged, and the id counters are untouched |
| QuestionControllers.DeleteComment | server/controllers/QuestionControllers.js:299-322 | 200 exactly when the comment belongs to the existing question: exactly that comment is removed, the question gets `updated_at` now and views +1, and it is answered as re-read; otherwise 404 with nothing changed |
| QuestionControllers.SearchTagList | server/controllers/QuestionControllers.js:329 | an absent or empty parameter gives no tags; otherwise comma-free parts that joined with commas give back the parameter |
| QuestionControllers.SearchTagListRoundTrip | server/controllers/QuestionControllers.js:329 | a list of comma-free tags sent joined by commas arrives as the same list |
| QuestionControllers.TrailingCommaMatchesEveryRow | server/controllers/QuestionControllers.js:329 | a trailing comma yields an empty tag, whose `LIKE '%%'` filter accepts every question |
| JsValue.Truthy | server/controllers/QuestionControllers.js:112 | falsy exactly for `undefined`, `null`, `false`, `0` and `""`; arrays and objects are truthy |
| JsValue.TypeOf | server/controllers/QuestionControllers.js:128-132 | one of the five `typeof` names; "string" exactly for strings; "object" exactly for `null`, arrays and objects |
| Text.Lower | client/src/components/questions/QuestionList.jsx:15-16 | `toLowerCase` on ASCII: same length, each letter lowered, everything else kept |
| Text.ContainsIff | client/src/components/questions/QuestionList.jsx:15-16 | `includes` holds exactly when the needle occurs at some offset |
| Text.ContainsLower | server/models/Question.js:216 | a substring stays a substring after both sides are lower-cased |
| Text.TrimStart | server/controllers/QuestionControllers.js:137 | removes exactly the leading white space |
| Text.TrimEnd | server/controllers/QuestionControllers.js:137 | removes exactly the trailing white space |
| Text.TrimEmptyIffBlank | server/controllers/QuestionControllers.js:137 | `trim()` gives the empty string exactly when every character is white space |
| Text.ReadShowNat | server/models/Question.js:17-19 | the decimal numeral of a count reads back as that count |
| Text.JoinSplit | server/controllers/QuestionControllers.js:329 | the parts of `split(",")` joined with commas give back the string |
| Text.SplitJoin | server/controllers/QuestionControllers.js:329 | comma-free parts joined with commas split back into the same parts |
| ClientData.Without | client/src/components/common/Sidebar.jsx:7 | `filter(t => t !== x)` keeps every other element and drops `x` |
| ClientData.WithoutAbsent | client/src/components/common/Sidebar.jsx:7 | filtering out an absent tag changes nothing |
| ClientData.WithoutAppend | client/src/components/common/Sidebar.jsx:7 | filtering distributes over concatenation |
| ClientData.WithoutNoDuplicates | client/src/components/common/Sidebar.jsx:7 | filtering keeps a duplicate-free selection duplicate-free |
| ClientData.WithoutDropsOne | client/src/components/common/Sidebar.jsx:7 | in a duplicate-free selection, removing a present tag shortens it by one |
| QuestionList.Passes | client/src/components/questions/QuestionList.jsx:13-20 | both the search and the tag test; with an empty query only the tag test decides, with no selected tag only the search decides |
| QuestionList.FilteredQuestions | client/src/components/questions/QuestionList.jsx:13-21 | only questions that pass, each passing question kept as many times as it is listed and a failing one never, as an order-preserving subsequence of the list |
| QuestionList.EmptyQueryMatchesAll | client/src/components/questions/QuestionList.jsx:14-16 | the empty query matches every question |
| QuestionList.ClearAllFilters | client/src/components/questions/QuestionList.jsx:59-63 | with query "" and no tags the filtered list is the full list |
| QuestionList.FilterIdempotent | client/src/components/questions/QuestionList.jsx:13-21 | filtering the filtered list again changes nothing |
| QuestionList.TagTestIsExact | client/src/components/questions/QuestionList.jsx:19 | the tag test is exact membership: "cs" does not select a question tagged "cs-extra" |
| UseQuestions.VoteChange | client/src/hooks/useQuestions.js:13 | +1 exactly for "up", −1 otherwise |
| UseQuestions.HandleVote | client/src/hooks/useQuestions.js:10-25 | same length and order; only questions with the id change, by the vote; the selected question changes exactly when its id matches |
| UseQuestions.VoteOnUnknownId | client/src/hooks/useQuestions.js:11-16 | a vote on an id nobody has changes nothing |
| UseQuestions.UpThenDownRestores | client/src/hooks/useQuestions.js:10-25 | an up-vote then a down-vote restores the state |
| UseQuestions.VoteKeepsInSync | client/src/hooks/useQuestions.js:10-25 | a selected question that is in the list stays equal to its entry |
| UseQuestions.HandleAddComment | client/src/hooks/useQuestions.js:28-54 | blank text changes nothing; otherwise the anonymous comment with no votes is appended to the matching questions and to the selected question when it matches |
| UseQuestions.AddCommentKeepsInSync | client/src/hooks/useQuestions.js:39-53 | a selected question that is in the list stays equal to its entry |
| UseQuestions.AddCommentAppendsOne | client/src/hooks/useQuestions.js:31-46 | the matching question gains exactly one comment, its last, and keeps the earlier ones |
| UseQuestions.AddQuestion | client/src/hooks/useQuestions.js:57-59 | the new question first, the old list after it unchanged |
| UseQuestions.AddQuestionKeepsInSync | client/src/hooks/useQuestions.js:57-59 | adding a question keeps the selected question listed |
| AskQuestionForm.ToggleTag | client/src/components/forms/AskQuestionForm.jsx:31-37 | a chosen tag is removed; an unchosen one is appended only while fewer than five are chosen, else nothing changes |
| AskQuestionForm.ToggleKeepsValid | client/src/components/forms/AskQuestionForm.jsx:31-37 | at most five tags and none twice is preserved |
| AskQuestionForm.ToggleMembership | client/src/components/forms/AskQuestionForm.jsx:31-37 | the tag is chosen afterwards exactly when it was not and there was room; other tags keep their state |
| AskQuestionForm.ToggleTwiceRestores | client/src/components/forms/AskQuestionForm.jsx:32-35 | choosing then unchoosing a tag, with room, restores the selection |
| AskQuestionForm.HandleSubmit | client/src/components/forms/AskQuestionForm.jsx:12-29 | a question exactly when the trimmed title and content are non-empty and a tag is chosen, which is exactly when the button at line 172 is enabled; it is anonymous with no votes, views or comments, and carries the tags in the order chosen |
| Sidebar.ToggleTag | client/src/components/common/Sidebar.jsx:5-11 | a selected tag is removed; an unselected one is appended, with no cap |
| Sidebar.Clear | client/src/components/common/Sidebar.jsx:37 | no tag remains selected |
| Sidebar.ToggleMembership | client/src/components/common/Sidebar.jsx:5-11 | the tag is selected afterwards exactly when it was not; other tags keep their state |
| Sidebar.ToggleKeepsNoDuplicates | client/src/components/common/Sidebar.jsx:5-11 | no tag ever ends up selected twice |
| Sidebar.ToggleAbsentTwiceRestores | client/src/components/common/Sidebar.jsx:6-9 | selecting then unselecting a tag restores the selection |
| Sidebar.TogglePresentTwiceMovesToEnd | client/src/components/common/Sidebar.jsx:6-9 | unselecting then reselecting keeps the same tags but moves that tag to the end |
| MonolithApp.HandleVote | src/App.jsx:79-93 | the list and selected question change as the hook's vote does; the page, search and tags stay |
| MonolithApp.HandleAddComment | src/App.jsx:96-120 | the list and selected question change as the hook's comment handler does; the page, search and tags stay |
| MonolithApp.DashboardQuestions | src/App.jsx:165-171 | only questions that pass the search-and-tags test, each passing question kept as many times as it is listed, in list order |
| MonolithApp.ToggleSidebarTag | src/App.jsx:199-205 | the tag flips with no cap, other tags keep their state, a duplicate-free selection stays so, and nothing else in the state changes |
| MonolithApp.ClearTags | src/App.jsx:217 | no tag stays selected and nothing else in the state changes |
| MonolithApp.ClearAllFilters | src/App.jsx:259-262 | empties the search and the tags and keeps everything else |
| MonolithApp.ToggleAskTag | src/App.jsx:584-590 | the tag is chosen afterwards exactly when it was not and there was room; other tags keep their state; at most five stay at most five; the other form fields are untouched |
| MonolithApp.HandleSubmit | src/App.jsx:471-490 | when the guard fails nothing changes; otherwise the new question is prepended to the unchanged list, becomes the selected question, and its page opens |
| MonolithApp.SubmittedQuestion | src/App.jsx:473-485 | the posted question has the given id, the form's title, content and tags, the anonymous author and no votes, views or comments |
| MonolithApp.HandlersKeepInSync | src/App.jsx:79-120 | voting, commenting and submitting keep the selected question equal to its entry in the list |
| MonolithApp.VoteUpThenDownRestores | src/App.jsx:79-93 | an up-vote then a down-vote restores the whole state |
| MonolithApp.ClearAllFiltersShowsAll | src/App.jsx:259-262 | after "Clear all filters" the dashboard lists every question |
| MonolithApp.ClearTagsWithEmptySearchShowsAll | src/App.jsx:217 | with an empty search, clearing the sidebar shows every question |
| MonolithApp.SidebarToggleUncapped | src/App.jsx:199-205 | an unselected tag is always appended, whatever the count |
| MonolithApp.AskToggleKeepsValid | src/App.jsx:584-590 | the ask-page toggle keeps at most five tags and none twice |

## Left out

- The SQLite driver and DDL are not modelled as code; their effect is the `Store.Valid` invariant plus explicit NOT NULL, foreign-key and cascade behaviour in the methods.
- HTTP transport is left out: routing, CORS, JSON envelopes and the `success` flag. Handlers return the status and the payload.
- The 500 answers of the handlers are left out: the model's repository calls never throw there.
- The `catch` that turns a throw inside `createQuestion` into 400 is left out: after the guards, `Question.create` cannot fail in the model.
- A `tags` query parameter given twice arrives as an array, and `split` would throw. The parameter is modelled as an optional string.
- A `q` query parameter given twice (`?q=a&q=b`) also arrives as an array, and `search` would then look for the text `a,b`. The query is modelled as an optional string, so that case is not covered.
- Trivial handlers that only forward a repository call are left out: `getQuestions` and the tag, campus and department lists.
- The allow-lists of tags, campuses and departments are configuration not shown in the source; they are parameters.
- Clocks are parameters: `now` in milliseconds, and the client ids from `Date.now()`. Timestamps are plain ints, so an unparseable date (`NaN` in `getTimeAgo`) is not modelled.
- `ORDER BY created_at DESC` is modelled as descending id. Rows created within the same second tie in SQLite, and their order is not modelled.
- `updated_at` is an int set to `now`; it is informational.
- JSON encoding of tags is not modelled: tags are stored as the list itself. For the search substring test they are serialized as `["a","b"]` without escaping.
- SQL `LIKE` wildcards `%` and `_` inside user input are not modelled. `LIKE` and `toLowerCase` lower-case ASCII letters only.
- Path ids are ints: the string-to-number coercion of route parameters is left out. JSON numbers are ints, with no floating point.
- Comment `text` and `author` are modelled as an optional string. Non-string JSON values are not modelled there.
- Concurrency is left out: the read-then-increment window in `getById` and the lack of transactions.
- UI rendering and navigation are left out: cards, the detail view, the navigation bar, and the page switching in `client/src/App.jsx`. In `src/App.jsx` only the page change made by `handleSubmit` is modelled.
- The ask form's disabled tag button (`AskQuestionForm.jsx:141`) is covered by the toggle's own cap, not modelled separately.
