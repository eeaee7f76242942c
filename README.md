# Candidly: access rules and the response lifecycle, in Dafny

Candidly is a feedback-collection web application. Administrators and
permitted users issue feedback requests about a target person to an
assignee, who answers through a chat-style survey. Answers are saved as
draft responses and frozen on submission. This project models the parts
of it whose behaviour can be stated precisely:

- **auth.py** (module `Auth`, `auth.dfy`):
  - who may see a request (`CanAccessRequest`) and who may answer it (`CanCompleteRequest`);
  - the decision of a `require_permission` guard (`RequirePermission`): allow, send to the login page, or send to the dashboard;
  - `get_or_create_dev_user` as a get-or-insert keyed by email on a `UserTable` class whose `rows` field is the user table, specified by the function `DevUserLookup`;
  - `auto_login_dev_user`'s choice of user (`AutoLogin`).
- **app.py** (module `App`, `app.dfy`):
  - `create_request`'s question list: the spec function `BuildQuestions` and the loop in `Store.CreateRequest`;
  - the scripted chat reply `ChatResponse`;
  - `submit_feedback`: the loop in `Store.SubmitFeedback` that turns a request's drafts into submitted responses in place, specified by `Submit`;
  - the review and report selections `ReviewResponses` and `ViewReport`.
- **Python strings** (module `Text`, `text.dfy`): `str.strip()`, `str.lower()` and `t in s`, which the app.py code relies on.
- `common.dfy` holds `Option`, `Id` (UUID strings) and `Time` (timestamps, always inputs).

Tables are sequences held in class fields (`UserTable.rows`,
`Store.requests`, `Store.questions`, `Store.responses`). The methods that
change them are proved against pure functions. The properties are proved
about those functions.

Where the code and its surroundings disagree, the model follows the code:

- auth.py reads `feedback_request.assigned_to_email`, but the
  `FeedbackRequest` of models.py:46-59 declares no such column. The model
  gives `Auth.FeedbackRequest` an optional `assignedToEmail`.
- app.py imports its models from app/models.py. There a `Question` belongs
  to a feedback request (`feedback_request_id`), not to a template, so
  `App.Question` is keyed by request.
- Saving drafts by delete-then-insert and the template routes appear only
  in the tests. They are not part of app.py and are not modelled.
- app.py uses `datetime` without importing it. See "## Findings".

## Model

| member | source | states |
|---|---|---|
| `Text.Strip` | app.py:37-40 | `strip()` gives an empty result exactly when the text is all whitespace; otherwise the result starts and ends with a non-whitespace character and is no longer than the input |
| `Text.StripRemovesOnlyOuterSpace` | app.py:37-40 | the input is the stripped text with a blank prefix and a blank suffix around it, so only outer whitespace is removed |
| `Text.StripKeepsTrimmed` | app.py:66 | text without outer whitespace is left unchanged by `strip()` |
| `Text.StripIdempotent` | app.py:37-40 | stripping twice equals stripping once |
| `Text.Lower` | app.py:80 | `lower()` keeps the length and maps each character on its own |
| `Text.LowerKeepsOccurrence` | app.py:89 | lower-casing keeps an occurrence of a word that has no capitals |
| `Text.Contains` | app.py:80-89 | definition of Python's `t in s`: `t` is a prefix of `s` or occurs in `s` without its first character (characterised by `Text.ContainsIff`) |
| `Text.ContainsIff` | app.py:89 | the substring test `t in s` holds exactly when `t` occurs at some position of `s` |
| `Auth.CanAccessRequest` | auth.py:88-116 | definition of `can_access_request`: false for a visitor who is not authenticated; otherwise true for an admin, the creator, the target by email, the assignee by email, or the legacy assignee by id, tried in that order; false otherwise |
| `Auth.CanCompleteRequest` | auth.py:118-134 | definition of `can_complete_request`: false for a visitor who is not authenticated; otherwise true exactly for the assignee by email or by legacy id, with no admin override |
| `Auth.AnonymousIsDenied` | auth.py:93-124 | a visitor who is not authenticated can neither access nor complete any request |
| `Auth.AdminAccessesEverything` | auth.py:96-98 | an authenticated admin can access every request, whatever its other fields hold |
| `Auth.NonAdminAccessIff` | auth.py:100-116 | a non-admin can access a request if and only if they created it, their email is the target email, or they are the assignee by email or by legacy id |
| `Auth.CompleteIffAssignee` | auth.py:126-134 | a user can complete a request if and only if they are its assignee by email or by legacy id |
| `Auth.AdminAloneCannotComplete` | auth.py:118-134 | an admin who is not the assignee can access a request but not complete it |
| `Auth.CompleteImpliesAccess` | auth.py:108-132 | whoever can complete a request can also access it |
| `Auth.RequirePermission` | auth.py:53-76 | definition of the guard's decision on the user auto-login yields: no user goes to the login page, an admin is allowed, a user lacking the `create_templates` or `create_requests_for_others` flag that the guard names goes to the dashboard, anyone else is allowed |
| `Auth.RequirePermissionOutcomes` | auth.py:59-76 | no user leads to the login page and only then; an admin is always allowed; a non-admin goes to the dashboard exactly when the guard names `create_templates` or `create_requests_for_others` and the user lacks that flag; any other permission name allows |
| `Auth.FirstWithEmail` | auth.py:27 | the lookup returns a row of the table with the email, and returns none exactly when no row has it |
| `Auth.DevUserLookup` | auth.py:21-40 | definition of `get_or_create_dev_user` on the table before the call: outside development mode no user and no change; otherwise the first user with the configured email, or a new row appended with every permission flag set |
| `Auth.DevUserOffDoesNothing` | auth.py:23-24 | outside development mode no user is returned and the table is unchanged |
| `Auth.DevUserFindsExisting` | auth.py:26-29 | in development mode an existing user with the configured email is returned and nothing is added |
| `Auth.DevUserCreatesMissing` | auth.py:29-40 | in development mode, with no user holding the configured email, exactly one row is appended: configured email and name, the fresh id, all three permission flags true; that row is returned |
| `Auth.DevUserAlwaysPresent` | auth.py:26-40 | in development mode a user with the configured email is always returned, is in the table afterwards, and the old rows are kept as a prefix |
| `Auth.DevUserKeepsKeysUnique` | models.py:9-10 | get-or-create keeps emails and ids unique, given a fresh id |
| `Auth.DevUserIdempotent` | auth.py:27-40 | a second call returns the same user and leaves the table as the first call left it |
| `Auth.AutoLogin` | auth.py:42-51 | definition of `auto_login_dev_user`: in development mode a visitor who is not logged in gets the dev user from `DevUserLookup`; otherwise the logged-in user, or none |
| `Auth.AsPrincipal` | auth.py:90-94 | definition of how the user `auto_login_dev_user` returns is handed to the access checks: no user is the visitor who is not authenticated, a user is authenticated as itself |
| `Auth.AutoLoginKeepsCurrent` | auth.py:42-51 | an already logged-in user is returned unchanged, and outside development mode nobody is logged in on the visitor's behalf; the table is untouched |
| `Auth.DevModeNeverRedirectsToLogin` | auth.py:59-62 | in development mode the guard body's own decision is never the login page, whoever is logged in, because `auto_login_dev_user` yields a user there; in the program `@login_required` has already sent a visitor who is not logged in to the login page, so the body only sees logged-in users |
| `Auth.CreatedDevUserPassesEverything` | auth.py:29-36 | a visitor whom `auto_login_dev_user` logs in as a newly created dev user (the path `ensure_authenticated` takes) can access every request, and the guard body's decision for that user is to allow, because the new row has every flag set; inside `require_permission` this path is unreachable, since `@login_required` redirects such a visitor first |
| `Auth.UserTable.GetOrCreateDevUser` | auth.py:21-40 | the method returns the user and leaves the table exactly as `DevUserLookup` prescribes, keeping emails and ids unique |
| `Auth.UserTable.AutoLoginDevUser` | auth.py:42-51 | the method returns the user and leaves the table exactly as `AutoLogin` prescribes |
| `App.QuestionsFrom` | app.py:36-44 | definition of the loop from zip position `i` on: each position whose stripped text is not blank adds a question with that text, the paired type and the position as `order_index`; blank positions add nothing |
| `App.BuildQuestions` | app.py:33-44 | definition of the questions `create_request` adds: the loop from position 0 |
| `App.QuestionsFromShape` | app.py:36-42 | every question built from zip position `i` on comes from its own position at or after `i`, with the stripped non-blank text and the paired type, and positions strictly increase |
| `App.BuiltQuestionsShape` | app.py:36-42 | each created question belongs to the new request, its text is the stripped input text at its `order_index`, its type is the paired input type, and the `order_index` values strictly increase |
| `App.QuestionsFromComplete` | app.py:36-37 | every zipped pair at or after position `i` whose text is not blank yields a question built from position `i` on, with its position as `order_index` |
| `App.BuiltQuestionsComplete` | app.py:36-37 | every zipped pair whose text is not blank yields a question with its position as `order_index`, so only blank texts leave gaps |
| `App.QuestionsFromCount` | app.py:36-37 | from zip position `i` on, the number of questions equals the number of non-blank texts left in the zip |
| `App.BuiltQuestionsCount` | app.py:36-37 | the number of questions is the number of zipped pairs with a non-blank text, hence at most the length of either input list |
| `App.UserMessage` | app.py:65-66 | definition of `data.get('message', '').strip()`: the stripped message, the empty string when it is missing (a message already without outer whitespace is kept as it is, by `App.TrimmedMessage`) |
| `App.FollowUpIndex` | app.py:78-85 | the reply is one of the four scripted questions and never the third |
| `App.ChatResponse` | app.py:63-90 | the reply text is one of the scripted follow-up questions and never "What made this particularly effective or challenging?" |
| `App.ChatFinalIff` | app.py:89 | `is_final` is true if and only if the stripped, lower-cased message contains "done" or "nothing" |
| `App.ChatReplyChoice` | app.py:78-85 | under 20 characters, or without "example", the reply is follow-up 0; with "example", under 50 characters it is follow-up 1, otherwise follow-up 3 |
| `App.TrimmedMessage` | app.py:66 | a message with no outer whitespace is used as sent |
| `App.PhraseEndsChat` | app.py:89 | a message with no outer whitespace in which "done" or "nothing" occurs at some position ends the conversation |
| `App.ChatCompletionPhrases` | tests/test_routes.py:99-108 | "done", "nothing else" and "I have nothing more to add" each end the conversation |
| `App.Select` | app.py:95 | the selection holds exactly the rows of the table with the given request id and draft flag |
| `App.FindRequest` | app.py:94 | the lookup returns a request with the id, and returns none (the 404) exactly when no request has it |
| `App.ReviewResponses` | app.py:92-96 | a 404 exactly when the request does not exist; otherwise the page shows that request and exactly its draft responses |
| `App.ViewReport` | app.py:114-118 | a 404 exactly when the request does not exist; otherwise the page shows that request and exactly its non-draft responses |
| `App.OfRequest` | app.py:95-117 | the responses of a request, draft or not, in table order: a row is in it exactly when it is in the table and belongs to the request |
| `App.SelectSplits` | app.py:95-117 | the drafts and the non-drafts of a request together are its responses, each as often as the table holds it |
| `App.ReviewAndReportPartition` | tests/test_integration.py:194-239 | the review list and the report are disjoint and together hold every response of the request |
| `App.DraftNotInReport` | app.py:117 | a draft never appears on the report |
| `App.Stamp` | app.py:102-104 | definition of what submission does to one row: a draft of the request gets `is_draft` false and `submitted_at` the submission time; any other row is unchanged |
| `App.Submit` | app.py:101-104 | definition of the response table after `submit_feedback`: `Stamp` applied to every row, in table order |
| `App.SubmitAt` | app.py:101-104 | submission keeps the table's length and treats each row on its own |
| `App.SubmitStampsDrafts` | app.py:101-104 | after submission no response of the request is a draft, and each former draft has `submitted_at` set to the submission time and every other field unchanged |
| `App.SubmitKeepsOthers` | app.py:101 | responses of other requests, and responses of the request that were already submitted, keep every field, their old `submitted_at` included |
| `App.SubmitIdempotent` | app.py:101-106 | a second submission changes nothing, whatever its time |
| `App.SubmitWithoutDraftsIsNoop` | tests/test_integration.py:250-253 | with no draft of the request, the empty table included, submission changes nothing and succeeds |
| `App.NothingToReviewAfterSubmit` | app.py:95-104 | after submission the request's review list is empty |
| `App.ReportAfterSubmit` | tests/test_integration.py:235-239 | after submission the report is every response of the request, in table order, the former drafts now submitted and stamped |
| `App.SubmitKeepsStamped` | app.py:103-104 | submission keeps every non-draft response stamped with a submission time |
| `App.Store.constructor` | app/models.py:7-31 | the store starts from existing tables with unique request ids and with questions and responses that refer to existing requests; a submitted response may lack `submitted_at`, which is nullable |
| `App.Store.CreateRequest` | app.py:22-46 | a missing `target_name` changes nothing; otherwise one request row is appended and the question table grows by exactly `BuildQuestions` of the two form lists; responses are untouched and the store invariant is kept |
| `App.Store.SubmitFeedback` | app.py:98-108 | requests and questions are untouched, the response table becomes `Submit` of the old one, the store invariant is kept, and a table whose submitted responses are all stamped stays so |
| `App.SubmitAsWritten` | app.py:98-108 | as written, submission ends in `NameError` exactly when the request has a draft, and otherwise commits the table unchanged |
| `App.SubmitAsWrittenFailsOnDraft` | tests/test_routes.py:243-268 | with one draft response, the as-written submission fails and the report stays empty, while the corrected submission puts the stamped response on the report |

## Left out

- Flask plumbing is not modelled: `render_template`, `flash`, `redirect`, `url_for`, form and JSON parsing, and Flask-Login sessions (`login_user`, `current_user`, `load_user`). A missing `target_name` is modelled as `None`, a missing JSON `message` as the empty string.
- The `@login_required` check that Flask-Login runs before `require_permission`'s body is not modelled. `RequirePermission` decides from the user that `auto_login_dev_user` yields. In the program that check sends a visitor who is not logged in to the login page before the body runs, so the body's own login redirect and its auto-login are never reached from a guard; `Auth.DevModeNeverRedirectsToLogin` and `Auth.CreatedDevUserPassesEverything` are about the body's decision alone.
- SQLAlchemy sessions, commits, flushes and migrations are not modelled. Tables are sequences. A route either finishes and its changes stand, or it fails and the table is as before.
- UUID generation and `datetime.utcnow()` are not modelled. Ids and times are parameters; a precondition says a new id is not in use, which is what a UUID provides.
- `auto_login_dev_user`'s `last_login` stamp and `login_user` call are not modelled. They need the clock and the session.
- `ensure_authenticated`, `init_auth`, `get_users_for_assignment` (an ordered query) and the routes that only render a page (`index`, `share_link`, `survey`, `thank_you`, the GET branch of `create_request`) are not modelled.
- The ORM relationships and backrefs are not modelled. Columns that no modelled code reads (`google_id`, `created_at` and `last_login` of users, the template columns, and the `id` primary key of `Question`, which no modelled operation reads) are left out of the records.
- `Auth.FeedbackRequest` assumes a schema that has an `assigned_to_email` column, and its `None` means "no assignee email". With `FeedbackRequest` of models.py:46-59 as written there is no such attribute. There, auth.py:109 raises `AttributeError` for a non-admin who is neither creator nor target, and auth.py:127 raises it for every authenticated user. The model does not capture that failure.
- `chat_response` never looks at its `question_id` and never checks that the question exists. The model ignores the id too. A non-string `message` (which crashes `strip()`) is not modelled.
- `Text.Lower`: only A-Z are lower-cased. Python's `lower()` also maps non-ASCII letters. The only non-ASCII characters whose lower case holds an ASCII letter are U+0130 (to "i" plus U+0307) and U+212A (to "k"). Neither can complete "done", "nothing" or "example", so the three substring tests of `chat_response` agree with Python's.
- `App.Store.SubmitFeedback`: every stamped response gets the same time `now`. app.py calls `datetime.utcnow()` once per response, so the stamps could differ by microseconds.
- `App.Select`: it keeps table order. The SQL query has no `ORDER BY`, so the contracts speak of membership and multiplicity only, except `App.ReportAfterSubmit`, which holds for this order.
- dev.py, config.py, setup_db.py, test_json_serialization.py and test_review_route.py are not part of this model (process orchestration, environment reads, seeding and ad-hoc scripts).
- Draft saving through POST on /review, template routes and LLM summarisation appear only in the tests. They are not modelled because app.py does not contain them.

## Findings

| source | as written | input that shows it | evidently intended | confidence | as-written member | corrected member |
|---|---|---|---|---|---|---|
| app.py:104 | `submitted_at = datetime.utcnow()`, but app.py never imports `datetime`, so the first draft raises `NameError` before the commit and the draft stays a draft | one draft response of the request, then POST /submit/<id> (tests/test_routes.py:243-268 expects a redirect and a non-draft with a timestamp) | every draft of the request becomes submitted with the current time | high, not executed | `App.SubmitAsWritten` (exhibited by `App.SubmitAsWrittenFailsOnDraft`) | `App.Store.SubmitFeedback` (property proved in `App.SubmitStampsDrafts`) |
