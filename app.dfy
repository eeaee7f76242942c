/**
 * app.py: building a request's question list, the scripted chat reply,
 * submitting a request's draft responses, and the review and report
 * selections of the response table.
 */
module App {
  import opened Common
  import opened Text

  /** A row of `feedback_request` (app/models.py). */
  datatype FeedbackRequest = FeedbackRequest(id: Id, targetName: string, createdAt: Time)

  /** A row of `question`, keyed by the request it belongs to. */
  datatype Question = Question(
    feedbackRequestId: Id,
    questionText: string,
    questionType: string,
    orderIndex: nat)

  /** A row of `response`. */
  datatype Response = Response(
    id: Id,
    feedbackRequestId: Id,
    questionId: Id,
    ratingValue: Option<int>,
    discussionSummary: Option<string>,
    chatHistory: Option<string>,
    isDraft: bool,
    createdAt: Time,
    submittedAt: Option<Time>)

  // ---------------------------------------------------------------------
  // create_request: the question list
  // ---------------------------------------------------------------------

  /** The questions built from the zipped pairs at positions `i` onwards:
      blank texts are skipped, the others are stripped and keep their
      position as `order_index`. */
  function QuestionsFrom(rid: Id, texts: seq<string>, types: seq<string>, i: nat): seq<Question>
    decreases |texts| - i
  {
    if i < |texts| && i < |types| then
      var text := Strip(texts[i]);
      (if text != [] then [Question(rid, text, types[i], i)] else [])
      + QuestionsFrom(rid, texts, types, i + 1)
    else []
  }

  /** The questions `create_request` adds for request `rid`. */
  function BuildQuestions(rid: Id, texts: seq<string>, types: seq<string>): seq<Question>
  {
    QuestionsFrom(rid, texts, types, 0)
  }

  /** The length of `zip(texts, types)`. */
  function ZipLength(texts: seq<string>, types: seq<string>): nat
  {
    if |texts| < |types| then |texts| else |types|
  }

  /** How many of the first `n` texts are not blank. */
  function NonBlankCount(texts: seq<string>, n: nat): nat
    requires n <= |texts|
  {
    if n == 0 then 0
    else NonBlankCount(texts, n - 1) + (if Strip(texts[n - 1]) != [] then 1 else 0)
  }

  /** Question `q` was built for request `rid` from the zipped pair at its
      `order_index`, which is at least `lo`: the stripped, non-blank text and
      the paired type. */
  predicate BuiltFrom(q: Question, rid: Id, texts: seq<string>, types: seq<string>, lo: nat)
  {
    && lo <= q.orderIndex < ZipLength(texts, types)
    && q.feedbackRequestId == rid
    && q.questionText == Strip(texts[q.orderIndex])
    && q.questionText != []
    && q.questionType == types[q.orderIndex]
  }

  /** The `order_index` values strictly increase along `qs`. */
  ghost predicate Increasing(qs: seq<Question>)
  {
    forall k, l :: 0 <= k < l < |qs| ==> qs[k].orderIndex < qs[l].orderIndex
  }

  /** Every question built from position `i` on comes from its own zipped
      pair at or after `i`, and the positions strictly increase. */
  lemma {:induction false} QuestionsFromShape(rid: Id, texts: seq<string>, types: seq<string>, i: nat)
    ensures forall q :: q in QuestionsFrom(rid, texts, types, i) ==> BuiltFrom(q, rid, texts, types, i)
    ensures Increasing(QuestionsFrom(rid, texts, types, i))
    decreases |texts| - i
  {
    if i < |texts| && i < |types| {
      QuestionsFromShape(rid, texts, types, i + 1);
      var rest := QuestionsFrom(rid, texts, types, i + 1);
      var text := Strip(texts[i]);
      if text != [] {
        var q := Question(rid, text, types[i], i);
        var qs := [q] + rest;
        assert QuestionsFrom(rid, texts, types, i) == qs;
        assert BuiltFrom(q, rid, texts, types, i);
        forall l | 0 <= l < |rest|
          ensures q.orderIndex < rest[l].orderIndex
        {
          assert rest[l] in rest;
        }
        forall k, l | 0 <= k < l < |qs|
          ensures qs[k].orderIndex < qs[l].orderIndex
        {
          assert qs[l] == rest[l - 1];
          if k > 0 {
            assert qs[k] == rest[k - 1];
          }
        }
      } else {
        assert QuestionsFrom(rid, texts, types, i) == rest;
      }
    }
  }

  /** Each created question's text is the stripped input text at its
      `order_index`, its type is the paired input type, and the
      `order_index` values strictly increase. */
  lemma BuiltQuestionsShape(rid: Id, texts: seq<string>, types: seq<string>)
    ensures forall q :: q in BuildQuestions(rid, texts, types) ==> BuiltFrom(q, rid, texts, types, 0)
    ensures Increasing(BuildQuestions(rid, texts, types))
  {
    QuestionsFromShape(rid, texts, types, 0);
  }

  /** Every zipped pair at or after `i` whose text is not blank yields a
      question at its position. */
  lemma {:induction false} QuestionsFromComplete(rid: Id, texts: seq<string>, types: seq<string>, i: nat, j: nat)
    requires i <= j < ZipLength(texts, types) && Strip(texts[j]) != []
    ensures exists k :: 0 <= k < |QuestionsFrom(rid, texts, types, i)|
                        && QuestionsFrom(rid, texts, types, i)[k].orderIndex == j
    decreases j - i
  {
    var qs := QuestionsFrom(rid, texts, types, i);
    var rest := QuestionsFrom(rid, texts, types, i + 1);
    var text := Strip(texts[i]);
    var head := if text != [] then [Question(rid, text, types[i], i)] else [];
    assert qs == head + rest;
    if i == j {
      assert qs[0].orderIndex == j;
    } else {
      QuestionsFromComplete(rid, texts, types, i + 1, j);
      var k :| 0 <= k < |rest| && rest[k].orderIndex == j;
      assert qs[|head| + k] == rest[k];
    }
  }

  /** No non-blank pair is skipped: its position appears as an `order_index`. */
  lemma BuiltQuestionsComplete(rid: Id, texts: seq<string>, types: seq<string>, j: nat)
    requires j < ZipLength(texts, types) && Strip(texts[j]) != []
    ensures exists k :: 0 <= k < |BuildQuestions(rid, texts, types)|
                        && BuildQuestions(rid, texts, types)[k].orderIndex == j
  {
    assert BuildQuestions(rid, texts, types) == QuestionsFrom(rid, texts, types, 0);
    QuestionsFromComplete(rid, texts, types, 0, j);
  }

  /** One step of `QuestionsFrom`: position `i` adds a question exactly when
      its text is not blank. */
  lemma QuestionsFromStep(rid: Id, texts: seq<string>, types: seq<string>, i: nat)
    requires i < ZipLength(texts, types)
    ensures |QuestionsFrom(rid, texts, types, i)|
            == |QuestionsFrom(rid, texts, types, i + 1)| + (if Strip(texts[i]) != [] then 1 else 0)
  {
  }

  /** From position `i`, the number of questions is the number of non-blank
      texts between `i` and the end of the zip. */
  lemma {:induction false} QuestionsFromCount(rid: Id, texts: seq<string>, types: seq<string>, i: nat)
    requires i <= ZipLength(texts, types)
    ensures |QuestionsFrom(rid, texts, types, i)|
            == NonBlankCount(texts, ZipLength(texts, types)) - NonBlankCount(texts, i)
    decreases ZipLength(texts, types) - i
  {
    if i < ZipLength(texts, types) {
      QuestionsFromCount(rid, texts, types, i + 1);
      QuestionsFromStep(rid, texts, types, i);
      assert NonBlankCount(texts, i + 1) == NonBlankCount(texts, i) + (if Strip(texts[i]) != [] then 1 else 0);
    }
  }

  /** `NonBlankCount` never exceeds the number of texts it looks at. */
  lemma {:induction false} NonBlankCountBound(texts: seq<string>, n: nat)
    requires n <= |texts|
    ensures NonBlankCount(texts, n) <= n
  {
    if n > 0 {
      NonBlankCountBound(texts, n - 1);
    }
  }

  /** The number of questions created is the number of zipped pairs whose
      text is not blank, so at most the length of the shorter input list. */
  lemma BuiltQuestionsCount(rid: Id, texts: seq<string>, types: seq<string>)
    ensures |BuildQuestions(rid, texts, types)| == NonBlankCount(texts, ZipLength(texts, types))
    ensures |BuildQuestions(rid, texts, types)| <= |texts| && |BuildQuestions(rid, texts, types)| <= |types|
  {
    QuestionsFromCount(rid, texts, types, 0);
    NonBlankCountBound(texts, ZipLength(texts, types));
  }

  // ---------------------------------------------------------------------
  // chat_response
  // ---------------------------------------------------------------------

  /** The scripted follow-up questions, in the order app.py lists them. */
  const FollowUpQuestions: seq<string> := [
    "Can you share a specific example?",
    "How has this impacted the team or project?",
    "What made this particularly effective or challenging?",
    "Is there anything else you'd like to add?"
  ]

  /** The JSON answer of `chat_response`. */
  datatype ChatReply = ChatReply(response: string, isFinal: bool)

  /** `data.get('message', '').strip()`: a missing message is empty. */
  function UserMessage(message: Option<string>): string
  {
    Strip(if message.Some? then message.value else "")
  }

  /** Which follow-up question answers the stripped message `m`. */
  function FollowUpIndex(m: string): (k: nat)
    ensures k < |FollowUpQuestions| && k != 2
  {
    if |m| < 20 then 0
    else if !Contains(Lower(m), "example") then 0
    else if |m| < 50 then 1
    else 3
  }

  /** `chat_response`: a scripted follow-up question, never the third one,
      and whether the conversation is over. */
  function ChatResponse(message: Option<string>): (r: ChatReply)
    ensures r.response in FollowUpQuestions && r.response != FollowUpQuestions[2]
  {
    var m := UserMessage(message);
    ChatReply(FollowUpQuestions[FollowUpIndex(m)],
              Contains(Lower(m), "done") || Contains(Lower(m), "nothing"))
  }

  /** `t` occurs somewhere in `s`. */
  ghost predicate Mentions(s: string, t: string)
  {
    exists i :: OccursAt(s, t, i)
  }

  /** The conversation ends exactly when the stripped, lower-cased message
      contains "done" or "nothing". */
  lemma ChatFinalIff(message: Option<string>)
    ensures var m := Lower(UserMessage(message));
            ChatResponse(message).isFinal <==> Mentions(m, "done") || Mentions(m, "nothing")
  {
    var m := Lower(UserMessage(message));
    ContainsIff(m, "done");
    ContainsIff(m, "nothing");
  }

  /** The reply ladder: messages under 20 characters, or without "example",
      get the request for an example; with "example", under 50 characters get
      the impact question and longer ones the closing question. */
  lemma ChatReplyChoice(message: Option<string>)
    ensures var m := UserMessage(message);
            var reply := ChatResponse(message).response;
            && (|m| < 20 ==> reply == FollowUpQuestions[0])
            && (!Mentions(Lower(m), "example") ==> reply == FollowUpQuestions[0])
            && (20 <= |m| < 50 && Mentions(Lower(m), "example") ==> reply == FollowUpQuestions[1])
            && (50 <= |m| && Mentions(Lower(m), "example") ==> reply == FollowUpQuestions[3])
  {
    ContainsIff(Lower(UserMessage(message)), "example");
  }

  /** A message that is already stripped reads the same after `UserMessage`. */
  lemma TrimmedMessage(s: string)
    requires |s| > 0 && !IsSpace(s[0]) && !IsSpace(s[|s| - 1])
    ensures UserMessage(Some(s)) == s
  {
    StripKeepsTrimmed(s);
  }

  /** The completion phrases the route tests send all end the conversation. */
  lemma ChatCompletionPhrases(p: string)
    requires p in ["done", "nothing else", "I have nothing more to add"]
    ensures ChatResponse(Some(p)).isFinal
  {
    if p == "done" {
      PhraseEndsChat(p, "done", 0);
    } else if p == "nothing else" {
      PhraseEndsChat(p, "nothing", 0);
    } else {
      PhraseEndsChat(p, "nothing", 7);
    }
  }

  /** A trimmed message with "done" or "nothing" at a known position, once
      lower-cased, ends the conversation. */
  lemma PhraseEndsChat(p: string, word: string, at: nat)
    requires |p| > 0 && !IsSpace(p[0]) && !IsSpace(p[|p| - 1])
    requires word == "done" || word == "nothing"
    requires OccursAt(p, word, at)
    ensures ChatResponse(Some(p)).isFinal
  {
    TrimmedMessage(p);
    LowerKeepsOccurrence(p, word, at);
    ContainsIff(Lower(p), word);
  }

  // ---------------------------------------------------------------------
  // review_responses, view_report, submit_feedback
  // ---------------------------------------------------------------------

  /** `Response.query.filter_by(feedback_request_id=rid, is_draft=draft).all()`,
      in table order. */
  function Select(rows: seq<Response>, rid: Id, draft: bool): (r: seq<Response>)
    ensures forall x :: x in r <==> x in rows && x.feedbackRequestId == rid && x.isDraft == draft
  {
    if rows == [] then []
    else
      (if rows[0].feedbackRequestId == rid && rows[0].isDraft == draft then [rows[0]] else [])
      + Select(rows[1..], rid, draft)
  }

  /** Every response of request `rid`, draft or not, in table order. */
  function OfRequest(rows: seq<Response>, rid: Id): (r: seq<Response>)
    ensures forall x :: x in r <==> x in rows && x.feedbackRequestId == rid
  {
    if rows == [] then []
    else
      (if rows[0].feedbackRequestId == rid then [rows[0]] else [])
      + OfRequest(rows[1..], rid)
  }

  /** `FeedbackRequest.query.get_or_404(rid)`: `None` stands for the 404. */
  function FindRequest(requests: seq<FeedbackRequest>, rid: Id): (r: Option<FeedbackRequest>)
    ensures r.Some? ==> r.value in requests && r.value.id == rid
    ensures r.None? <==> forall q :: q in requests ==> q.id != rid
  {
    if requests == [] then None
    else if requests[0].id == rid then Some(requests[0])
    else FindRequest(requests[1..], rid)
  }

  /** What a review or report page shows. */
  datatype Page = Page(request: FeedbackRequest, responses: seq<Response>)

  /** `review_responses`: the request's draft responses, or a 404. */
  function ReviewResponses(requests: seq<FeedbackRequest>, rows: seq<Response>, rid: Id): (r: Option<Page>)
    ensures r.None? <==> forall q :: q in requests ==> q.id != rid
    ensures r.Some? ==> r.value.request in requests && r.value.request.id == rid
    ensures r.Some? ==> forall x :: x in r.value.responses <==>
              x in rows && x.feedbackRequestId == rid && x.isDraft
  {
    match FindRequest(requests, rid)
    case None => None
    case Some(q) => Some(Page(q, Select(rows, rid, true)))
  }

  /** `view_report`: the request's submitted responses, or a 404. */
  function ViewReport(requests: seq<FeedbackRequest>, rows: seq<Response>, rid: Id): (r: Option<Page>)
    ensures r.None? <==> forall q :: q in requests ==> q.id != rid
    ensures r.Some? ==> r.value.request in requests && r.value.request.id == rid
    ensures r.Some? ==> forall x :: x in r.value.responses <==>
              x in rows && x.feedbackRequestId == rid && !x.isDraft
  {
    match FindRequest(requests, rid)
    case None => None
    case Some(q) => Some(Page(q, Select(rows, rid, false)))
  }

  /** The drafts and the non-drafts of a request together are its
      responses, each as often as the table holds it. */
  lemma {:induction false} SelectSplits(rows: seq<Response>, rid: Id)
    ensures multiset(Select(rows, rid, true)) + multiset(Select(rows, rid, false))
            == multiset(OfRequest(rows, rid))
  {
    if rows != [] {
      SelectSplits(rows[1..], rid);
    }
  }

  /** The review page and the report split a request's responses: no
      response is on both, and together they hold each of the request's
      responses exactly as often as the table does. */
  lemma ReviewAndReportPartition(requests: seq<FeedbackRequest>, rows: seq<Response>, rid: Id)
    requires exists q :: q in requests && q.id == rid
    ensures var review := ReviewResponses(requests, rows, rid).value.responses;
            var report := ViewReport(requests, rows, rid).value.responses;
            && multiset(review) !! multiset(report)
            && multiset(review) + multiset(report) == multiset(OfRequest(rows, rid))
  {
    SelectSplits(rows, rid);
  }

  /** A draft never appears on the report. */
  lemma DraftNotInReport(requests: seq<FeedbackRequest>, rows: seq<Response>, rid: Id, x: Response)
    requires x.isDraft
    requires ViewReport(requests, rows, rid).Some?
    ensures x !in ViewReport(requests, rows, rid).value.responses
  {
  }

  /** What submitting request `rid` at time `now` does to one row: a draft of
      `rid` becomes submitted and is stamped, every other row is kept. */
  function Stamp(x: Response, rid: Id, now: Time): Response
  {
    if x.feedbackRequestId == rid && x.isDraft then x.(isDraft := false, submittedAt := Some(now)) else x
  }

  /** The response table after `submit_feedback(rid)` at time `now`. */
  function Submit(rows: seq<Response>, rid: Id, now: Time): seq<Response>
  {
    if rows == [] then [] else [Stamp(rows[0], rid, now)] + Submit(rows[1..], rid, now)
  }

  /** Submitting touches rows one by one, in place. */
  lemma {:induction false} SubmitAt(rows: seq<Response>, rid: Id, now: Time)
    ensures |Submit(rows, rid, now)| == |rows|
    ensures forall k :: 0 <= k < |rows| ==> Submit(rows, rid, now)[k] == Stamp(rows[k], rid, now)
  {
    if rows != [] {
      SubmitAt(rows[1..], rid, now);
    }
  }

  /** After submission no response of the request is a draft, and each one
      that was a draft is stamped with the submission time and otherwise
      unchanged. */
  lemma SubmitStampsDrafts(rows: seq<Response>, rid: Id, now: Time)
    ensures |Submit(rows, rid, now)| == |rows|
    ensures forall k :: 0 <= k < |rows| && rows[k].feedbackRequestId == rid ==>
              !Submit(rows, rid, now)[k].isDraft
    ensures forall k :: 0 <= k < |rows| && rows[k].feedbackRequestId == rid && rows[k].isDraft ==>
              Submit(rows, rid, now)[k] == rows[k].(isDraft := false, submittedAt := Some(now))
  {
    SubmitAt(rows, rid, now);
  }

  /** Submission changes nothing else: responses of other requests, and
      responses of this request that were already submitted, keep every
      field, their old `submitted_at` included. */
  lemma SubmitKeepsOthers(rows: seq<Response>, rid: Id, now: Time)
    ensures |Submit(rows, rid, now)| == |rows|
    ensures forall k :: 0 <= k < |rows| && (rows[k].feedbackRequestId != rid || !rows[k].isDraft) ==>
              Submit(rows, rid, now)[k] == rows[k]
  {
    SubmitAt(rows, rid, now);
  }

  /** A second submission finds no draft and changes nothing, whatever its
      time. */
  lemma {:induction false} SubmitIdempotent(rows: seq<Response>, rid: Id, t1: Time, t2: Time)
    ensures Submit(Submit(rows, rid, t1), rid, t2) == Submit(rows, rid, t1)
  {
    if rows != [] {
      SubmitIdempotent(rows[1..], rid, t1, t2);
    }
  }

  /** With no draft of the request in the table (an empty table included)
      submission changes nothing. */
  lemma {:induction false} SubmitWithoutDraftsIsNoop(rows: seq<Response>, rid: Id, now: Time)
    requires forall x :: x in rows ==> x.feedbackRequestId != rid || !x.isDraft
    ensures Submit(rows, rid, now) == rows
  {
    if rows != [] {
      assert rows[0] in rows;
      SubmitWithoutDraftsIsNoop(rows[1..], rid, now);
      assert rows == [rows[0]] + rows[1..];
    }
  }

  /** Submission works row by row, so it distributes over concatenation. */
  lemma {:induction false} SubmitAppend(a: seq<Response>, b: seq<Response>, rid: Id, now: Time)
    ensures Submit(a + b, rid, now) == Submit(a, rid, now) + Submit(b, rid, now)
  {
    if a != [] {
      SubmitAppend(a[1..], b, rid, now);
      assert (a + b)[1..] == a[1..] + b;
    } else {
      assert a + b == b;
    }
  }

  /** After submission the request has no draft left to review. */
  lemma {:induction false} NothingToReviewAfterSubmit(rows: seq<Response>, rid: Id, now: Time)
    ensures Select(Submit(rows, rid, now), rid, true) == []
  {
    if rows != [] {
      NothingToReviewAfterSubmit(rows[1..], rid, now);
      var s := Submit(rows, rid, now);
      assert s[0] == Stamp(rows[0], rid, now) && s[1..] == Submit(rows[1..], rid, now);
    }
  }

  /** After submission the report is every response of the request, in
      table order, the former drafts now submitted and stamped. */
  lemma {:induction false} ReportAfterSubmit(rows: seq<Response>, rid: Id, now: Time)
    ensures Select(Submit(rows, rid, now), rid, false) == Submit(OfRequest(rows, rid), rid, now)
  {
    if rows != [] {
      var x := rows[0];
      var tail := rows[1..];
      ReportAfterSubmit(tail, rid, now);
      var s := Submit(rows, rid, now);
      assert s == [Stamp(x, rid, now)] + Submit(tail, rid, now);
      assert s[0] == Stamp(x, rid, now) && s[1..] == Submit(tail, rid, now);
      var mine := if x.feedbackRequestId == rid then [x] else [];
      assert OfRequest(rows, rid) == mine + OfRequest(tail, rid);
      SubmitAppend(mine, OfRequest(tail, rid), rid, now);
      assert Submit(mine, rid, now) == if x.feedbackRequestId == rid then [Stamp(x, rid, now)] else [];
    }
  }

  /** Every submitted (non-draft) response carries a submission time. */
  ghost predicate WellStamped(rows: seq<Response>)
  {
    forall x :: x in rows ==> x.isDraft || x.submittedAt.Some?
  }

  /** Submission keeps every submitted response stamped. */
  lemma SubmitKeepsStamped(rows: seq<Response>, rid: Id, now: Time)
    requires WellStamped(rows)
    ensures WellStamped(Submit(rows, rid, now))
  {
    SubmitAt(rows, rid, now);
    var s := Submit(rows, rid, now);
    forall x | x in s
      ensures x.isDraft || x.submittedAt.Some?
    {
      var k :| 0 <= k < |s| && s[k] == x;
      assert rows[k] in rows;
    }
  }

  /** Some request in the table has id `rid`. */
  ghost predicate HasRequest(requests: seq<FeedbackRequest>, rid: Id)
  {
    exists r :: r in requests && r.id == rid
  }

  /** `FeedbackRequest.id` is the primary key. */
  ghost predicate UniqueRequestIds(requests: seq<FeedbackRequest>)
  {
    forall i, j :: 0 <= i < j < |requests| ==> requests[i].id != requests[j].id
  }

  /** Every question refers to an existing request. */
  ghost predicate QuestionsLinked(requests: seq<FeedbackRequest>, questions: seq<Question>)
  {
    forall q :: q in questions ==> HasRequest(requests, q.feedbackRequestId)
  }

  /** Every response refers to an existing request. */
  ghost predicate ResponsesLinked(requests: seq<FeedbackRequest>, responses: seq<Response>)
  {
    forall x :: x in responses ==> HasRequest(requests, x.feedbackRequestId)
  }

  /** Adding a request keeps every reference to the old ones valid. */
  lemma LinksSurviveNewRequest(requests: seq<FeedbackRequest>, fr: FeedbackRequest,
                               questions: seq<Question>, responses: seq<Response>)
    requires QuestionsLinked(requests, questions) && ResponsesLinked(requests, responses)
    ensures QuestionsLinked(requests + [fr], questions) && ResponsesLinked(requests + [fr], responses)
  {
    forall rid | HasRequest(requests, rid)
      ensures HasRequest(requests + [fr], rid)
    {
      var r :| r in requests && r.id == rid;
      assert r in requests + [fr];
    }
  }

  /** Adding a question of an existing request keeps questions linked. */
  lemma LinkedWithQuestion(requests: seq<FeedbackRequest>, questions: seq<Question>, q: Question)
    requires QuestionsLinked(requests, questions) && HasRequest(requests, q.feedbackRequestId)
    ensures QuestionsLinked(requests, questions + [q])
  {
  }

  /** The tables app.py reads and writes. */
  class Store {
    var requests: seq<FeedbackRequest>
    var questions: seq<Question>
    var responses: seq<Response>

    /** Request ids are unique and every question and response refers to an
        existing request. `submitted_at` is nullable, so a submitted response
        without a stamp is allowed. */
    ghost predicate Valid()
      reads this
    {
      && UniqueRequestIds(requests)
      && QuestionsLinked(requests, questions)
      && ResponsesLinked(requests, responses)
    }

    constructor (requests0: seq<FeedbackRequest>, questions0: seq<Question>, responses0: seq<Response>)
      requires UniqueRequestIds(requests0)
      requires QuestionsLinked(requests0, questions0) && ResponsesLinked(requests0, responses0)
      ensures Valid()
      ensures requests == requests0 && questions == questions0 && responses == responses0
    {
      requests, questions, responses := requests0, questions0, responses0;
    }

    /** `create_request` (POST): `targetName` is the form's `target_name`
        field, `None` when it is missing, which aborts the request before
        anything is added; `id` and `now` are the new row's UUID and
        creation time. */
    method CreateRequest(targetName: Option<string>, texts: seq<string>, types: seq<string>, id: Id, now: Time)
      returns (created: Option<Id>)
      requires Valid()
      requires forall r :: r in requests ==> r.id != id
      modifies this
      ensures Valid()
      ensures responses == old(responses)
      ensures targetName.None? ==>
                created.None? && requests == old(requests) && questions == old(questions)
      ensures targetName.Some? ==>
                && created == Some(id)
                && requests == old(requests) + [FeedbackRequest(id, targetName.value, now)]
                && questions == old(questions) + BuildQuestions(id, texts, types)
    {
      if targetName.None? {
        return None;
      }
      var fr := FeedbackRequest(id, targetName.value, now);
      LinksSurviveNewRequest(requests, fr, questions, responses);
      forall i | 0 <= i < |requests|
        ensures requests[i].id != id
      {
        assert requests[i] in requests;
      }
      requests := requests + [fr];
      assert fr in requests;
      var i := 0;
      while i < |texts| && i < |types|
        invariant i <= |texts| && i <= |types|
        invariant requests == old(requests) + [fr]
        invariant responses == old(responses)
        invariant questions + QuestionsFrom(id, texts, types, i) == old(questions) + BuildQuestions(id, texts, types)
        invariant UniqueRequestIds(requests) && ResponsesLinked(requests, responses)
        invariant QuestionsLinked(requests, questions)
        decreases |texts| - i
      {
        var text := Strip(texts[i]);
        if text != [] {
          var q := Question(id, text, types[i], i);
          assert QuestionsFrom(id, texts, types, i) == [q] + QuestionsFrom(id, texts, types, i + 1);
          LinkedWithQuestion(requests, questions, q);
          questions := questions + [q];
        } else {
          assert QuestionsFrom(id, texts, types, i) == QuestionsFrom(id, texts, types, i + 1);
        }
        i := i + 1;
      }
      created := Some(id);
    }

    /** `submit_feedback`: every draft response of request `rid` becomes
        submitted, stamped with `now`. */
    method SubmitFeedback(rid: Id, now: Time)
      requires Valid()
      modifies this
      ensures Valid()
      ensures requests == old(requests) && questions == old(questions)
      ensures responses == Submit(old(responses), rid, now)
      ensures WellStamped(old(responses)) ==> WellStamped(responses)
    {
      ghost var before := responses;
      var i := 0;
      while i < |responses|
        invariant |responses| == |before|
        invariant i <= |responses|
        invariant forall k :: 0 <= k < i ==> responses[k] == Stamp(before[k], rid, now)
        invariant forall k :: i <= k < |responses| ==> responses[k] == before[k]
        invariant requests == old(requests) && questions == old(questions)
      {
        var x := responses[i];
        if x.feedbackRequestId == rid && x.isDraft {
          responses := responses[i := x.(isDraft := false, submittedAt := Some(now))];
        }
        i := i + 1;
      }
      SubmitAt(before, rid, now);
      assert responses == Submit(before, rid, now);
      if WellStamped(before) {
        SubmitKeepsStamped(before, rid, now);
      }
      forall x | x in responses
        ensures exists r :: r in requests && r.id == x.feedbackRequestId
      {
        var k :| 0 <= k < |responses| && responses[k] == x;
        assert before[k] in before;
      }
    }
  }

  // ---------------------------------------------------------------------
  // submit_feedback as written
  // ---------------------------------------------------------------------

  /** How a `submit_feedback` request ends as app.py is written. */
  datatype SubmitOutcome = Committed(rows: seq<Response>) | NameError

  /** app.py stamps `datetime.utcnow()` but never imports `datetime`: the
      first draft of the request raises `NameError` before the commit, so
      the table is left as it was; with no draft the loop body never runs
      and the (empty) change is committed. */
  function SubmitAsWritten(rows: seq<Response>, rid: Id): (r: SubmitOutcome)
    ensures r.NameError? <==> exists x :: x in rows && x.feedbackRequestId == rid && x.isDraft
    ensures r.Committed? ==> r.rows == rows
  {
    if Select(rows, rid, true) == [] then Committed(rows)
    else
      assert Select(rows, rid, true)[0] in Select(rows, rid, true);
      NameError
  }

  /** One saved draft: submitting it as written fails and the report stays
      empty, while the corrected submission moves it onto the report. */
  lemma SubmitAsWrittenFailsOnDraft()
    ensures var draft := Response("x", "r", "q", Some(3), None, None, true, 0, None);
            var requests := [FeedbackRequest("r", "Carol Smith", 0)];
            && SubmitAsWritten([draft], "r") == NameError
            && ViewReport(requests, [draft], "r").value.responses == []
            && ViewReport(requests, Submit([draft], "r", 1), "r").value.responses
               == [draft.(isDraft := false, submittedAt := Some(1))]
  {
    var draft := Response("x", "r", "q", Some(3), None, None, true, 0, None);
    assert draft in [draft];
    assert Select([draft], "r", false) == [];
    assert Submit([draft], "r", 1) == [draft.(isDraft := false, submittedAt := Some(1))];
  }
}
