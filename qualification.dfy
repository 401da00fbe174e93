/** The pure rules of backend/src/controllers/qualificationController.js:
    question validation and defaults, the records one answer submission
    stores, the replace-all semantics of resubmission, and the
    "all required answered" check. */
module Qualification {
  import opened Wrappers
  import opened Js
  import opened Entities

  const MsgQuestionFieldsRequired := "Competition ID, question, and type are required"
  const MsgInvalidQuestionType := "Invalid question type. Must be: text, multiple_choice, or file_upload"
  const MsgOptionsRequired := "Options are required for multiple choice questions"
  const MsgCompetitionNotFound := "Competition not found"
  const MsgNoQuestions := "No questions found for this competition"
  const MsgSubmitFailed := "Failed to submit answers"
  const MsgMaxQualifiedReached := "Maximum qualified users reached"
  const MsgUserNotFound := "User not found"
  const MsgAlreadyQualified := "User already qualified"

  /* ---------- Questions ---------- */

  /** The question type a text names, if any. */
  function QuestionTypeNamed(s: string): (r: Option<QuestionType>)
    ensures r.Some? <==> s == "text" || s == "multiple_choice" || s == "file_upload"
    ensures r == Some(MultipleChoice) <==> s == "multiple_choice"
  {
    if s == "text" then Some(Text)
    else if s == "multiple_choice" then Some(MultipleChoice)
    else if s == "file_upload" then Some(FileUpload)
    else None
  }

  /** The body of POST /qualification/questions. `options` is the parsed
      JSON array (an empty array is truthy); `isRequired` is None when absent. */
  datatype QuestionRequest = QuestionRequest(
    competitionId: Option<nat>,
    question: Option<string>,
    kind: Option<string>,
    options: Option<seq<string>>,
    order: Option<int>,
    isRequired: Option<bool>)

  predicate HasQuestionFields(req: QuestionRequest) {
    TruthyNat(req.competitionId) && Truthy(req.question) && Truthy(req.kind)
  }

  /** The question createQuestion stores, or the 400 of its validation (the
      existence of the competition is checked after this). Options are kept
      only for a multiple-choice question; the order defaults to 0; a
      question is required unless `isRequired` is explicitly false. */
  function NewQuestion(req: QuestionRequest): (r: Outcome<Question>)
    ensures !HasQuestionFields(req) ==> r == BadRequest(MsgQuestionFieldsRequired)
    ensures HasQuestionFields(req) && QuestionTypeNamed(req.kind.value).None? ==> r == BadRequest(MsgInvalidQuestionType)
    ensures HasQuestionFields(req) && req.kind.value == "multiple_choice" && req.options.None?
            ==> r == BadRequest(MsgOptionsRequired)
    ensures r.Ok? <==>
            && HasQuestionFields(req)
            && QuestionTypeNamed(req.kind.value).Some?
            && (req.kind.value == "multiple_choice" ==> req.options.Some?)
    ensures r.IsError() ==> r.BadRequest?
    ensures r.Ok? ==> && r.value.competitionId == req.competitionId.value && r.value.competitionId != 0
                      && r.value.question == req.question.value
                      && Some(r.value.kind) == QuestionTypeNamed(req.kind.value)
    ensures r.Ok? ==> (r.value.options.Some? <==> r.value.kind == MultipleChoice)
    ensures r.Ok? && r.value.kind == MultipleChoice ==> r.value.options == req.options
    ensures r.Ok? ==> r.value.order == if req.order.Some? then req.order.value else 0
    ensures r.Ok? ==> (r.value.isRequired <==> req.isRequired != Some(false))
  {
    if !HasQuestionFields(req) then BadRequest(MsgQuestionFieldsRequired)
    else
      var kind := QuestionTypeNamed(req.kind.value);
      if kind.None? then BadRequest(MsgInvalidQuestionType)
      else if kind.value == MultipleChoice && req.options.None? then BadRequest(MsgOptionsRequired)
      else
        Ok(Question(
          competitionId := req.competitionId.value,
          question := req.question.value,
          kind := kind.value,
          options := if kind.value == MultipleChoice then req.options else None,
          order := if req.order.Some? && req.order.value != 0 then req.order.value else 0,
          isRequired := req.isRequired != Some(false)))
  }

  /* ---------- Answers ---------- */

  /** One element of the `answers` array of POST /qualification/answers. */
  datatype AnswerInput = AnswerInput(questionId: Option<nat>, answer: Option<string>, filePath: Option<string>)

  /** The row stored for one submitted answer of user `u` to competition `c`. */
  function RecordOf(u: nat, c: nat, a: AnswerInput): (r: Answer)
    requires a.questionId.Some?
    ensures r.userId == u && r.competitionId == c && r.questionId == a.questionId.value && r.answer == a.answer
    ensures r.filePath.Some? <==> Truthy(a.filePath)
    ensures r.filePath.Some? ==> r.filePath == a.filePath
  {
    Answer(u, a.questionId.value, c, a.answer, OrElse(a.filePath, None))
  }

  /** The number of leading answers that name their question: the insert of
      the first one that does not is refused by the database, and the loop
      stops there. */
  function StorablePrefix(inputs: seq<AnswerInput>): (n: nat)
    ensures n <= |inputs|
    ensures forall k :: 0 <= k < n ==> inputs[k].questionId.Some?
    ensures n < |inputs| ==> inputs[n].questionId.None?
  {
    if inputs == [] || inputs[0].questionId.None? then 0
    else 1 + StorablePrefix(inputs[1..])
  }

  /** The rows inserted, in order, for a list of answers that all name a question. */
  function Records(u: nat, c: nat, inputs: seq<AnswerInput>): (r: seq<Answer>)
    requires forall k :: 0 <= k < |inputs| ==> inputs[k].questionId.Some?
    ensures |r| == |inputs|
    ensures forall k :: 0 <= k < |inputs| ==> r[k] == RecordOf(u, c, inputs[k])
  {
    if inputs == [] then []
    else [RecordOf(u, c, inputs[0])] + Records(u, c, inputs[1..])
  }

  /** The row belongs to user `u`'s answers for competition `c`. */
  predicate Owns(a: Answer, u: nat, c: nat) {
    a.userId == u && a.competitionId == c
  }

  /** `findAll({ where: { userId: u, competitionId: c } })`, in insertion order. */
  function Of(ans: seq<Answer>, u: nat, c: nat): (r: seq<Answer>)
    ensures forall a :: a in r <==> a in ans && Owns(a, u, c)
    ensures |r| <= |ans|
  {
    if ans == [] then []
    else (if Owns(ans[0], u, c) then [ans[0]] else []) + Of(ans[1..], u, c)
  }

  /** The table after `destroy({ where: { userId: u, competitionId: c } })`. */
  function Without(ans: seq<Answer>, u: nat, c: nat): (r: seq<Answer>)
    ensures forall a :: a in r <==> a in ans && !Owns(a, u, c)
    ensures |r| <= |ans|
  {
    if ans == [] then []
    else (if Owns(ans[0], u, c) then [] else [ans[0]]) + Without(ans[1..], u, c)
  }

  /** A resubmission: the old answers of (u, c) destroyed, the new rows appended. */
  function Replace(ans: seq<Answer>, u: nat, c: nat, recs: seq<Answer>): seq<Answer> {
    Without(ans, u, c) + recs
  }

  predicate AllOwnedBy(recs: seq<Answer>, u: nat, c: nat) {
    forall k :: 0 <= k < |recs| ==> Owns(recs[k], u, c)
  }

  lemma {:induction false} OfConcat(a: seq<Answer>, b: seq<Answer>, u: nat, c: nat)
    ensures Of(a + b, u, c) == Of(a, u, c) + Of(b, u, c)
  {
    if a != [] {
      assert (a + b)[0] == a[0] && (a + b)[1..] == a[1..] + b;
      OfConcat(a[1..], b, u, c);
    } else {
      assert a + b == b;
    }
  }

  lemma {:induction false} WithoutConcat(a: seq<Answer>, b: seq<Answer>, u: nat, c: nat)
    ensures Without(a + b, u, c) == Without(a, u, c) + Without(b, u, c)
  {
    if a != [] {
      assert (a + b)[0] == a[0] && (a + b)[1..] == a[1..] + b;
      WithoutConcat(a[1..], b, u, c);
    } else {
      assert a + b == b;
    }
  }

  /** Rows all owned by (u, c) are kept whole by `Of` and dropped whole by `Without`. */
  lemma {:induction false} OwnedRows(recs: seq<Answer>, u: nat, c: nat)
    requires AllOwnedBy(recs, u, c)
    ensures Of(recs, u, c) == recs && Without(recs, u, c) == []
  {
    if recs != [] {
      OwnedRows(recs[1..], u, c);
    }
  }

  /** Rows all owned by (u, c) are no answers of any other pair. */
  lemma {:induction false} OwnedRowsOfOther(recs: seq<Answer>, u: nat, c: nat, u': nat, c': nat)
    requires AllOwnedBy(recs, u, c) && (u', c') != (u, c)
    ensures Of(recs, u', c') == []
  {
    if recs != [] {
      OwnedRowsOfOther(recs[1..], u, c, u', c');
    }
  }

  lemma {:induction false} OfWithoutSame(ans: seq<Answer>, u: nat, c: nat)
    ensures Of(Without(ans, u, c), u, c) == []
  {
    if ans != [] {
      OfWithoutSame(ans[1..], u, c);
      OfConcat(if Owns(ans[0], u, c) then [] else [ans[0]], Without(ans[1..], u, c), u, c);
    }
  }

  lemma {:induction false} OfWithoutOther(ans: seq<Answer>, u: nat, c: nat, u': nat, c': nat)
    requires (u', c') != (u, c)
    ensures Of(Without(ans, u, c), u', c') == Of(ans, u', c')
  {
    if ans != [] {
      OfWithoutOther(ans[1..], u, c, u', c');
      OfConcat(if Owns(ans[0], u, c) then [] else [ans[0]], Without(ans[1..], u, c), u', c');
    }
  }

  lemma {:induction false} WithoutTwice(ans: seq<Answer>, u: nat, c: nat)
    ensures Without(Without(ans, u, c), u, c) == Without(ans, u, c)
  {
    if ans != [] {
      WithoutTwice(ans[1..], u, c);
      WithoutConcat(if Owns(ans[0], u, c) then [] else [ans[0]], Without(ans[1..], u, c), u, c);
    }
  }

  /** After a resubmission, the answers of (u, c) are exactly the new rows. */
  lemma ReplaceYieldsSubmitted(ans: seq<Answer>, u: nat, c: nat, recs: seq<Answer>)
    requires AllOwnedBy(recs, u, c)
    ensures Of(Replace(ans, u, c, recs), u, c) == recs
  {
    OfConcat(Without(ans, u, c), recs, u, c);
    OfWithoutSame(ans, u, c);
    OwnedRows(recs, u, c);
  }

  /** A resubmission leaves the answers of every other user and competition alone. */
  lemma ReplaceKeepsOthers(ans: seq<Answer>, u: nat, c: nat, recs: seq<Answer>, u': nat, c': nat)
    requires AllOwnedBy(recs, u, c) && (u', c') != (u, c)
    ensures Of(Replace(ans, u, c, recs), u', c') == Of(ans, u', c')
  {
    OfConcat(Without(ans, u, c), recs, u', c');
    OfWithoutOther(ans, u, c, u', c');
    OwnedRowsOfOther(recs, u, c, u', c');
  }

  /** Resubmission replaces rather than merges: the second list alone counts. */
  lemma ReplaceTwice(ans: seq<Answer>, u: nat, c: nat, first: seq<Answer>, second: seq<Answer>)
    requires AllOwnedBy(first, u, c)
    ensures Replace(Replace(ans, u, c, first), u, c, second) == Replace(ans, u, c, second)
  {
    WithoutConcat(Without(ans, u, c), first, u, c);
    WithoutTwice(ans, u, c);
    OwnedRows(first, u, c);
  }

  lemma {:induction false} RecordsOwned(u: nat, c: nat, inputs: seq<AnswerInput>)
    requires forall k :: 0 <= k < |inputs| ==> inputs[k].questionId.Some?
    ensures AllOwnedBy(Records(u, c, inputs), u, c)
  {
  }

  /** The only `n` with the shape of StorablePrefix: all answers before it
      name a question, and the one at it (if any) does not. */
  lemma StorablePrefixIs(inputs: seq<AnswerInput>, n: nat)
    requires n <= |inputs|
    requires forall k :: 0 <= k < n ==> inputs[k].questionId.Some?
    requires n < |inputs| ==> inputs[n].questionId.None?
    ensures StorablePrefix(inputs) == n
  {
    var p := StorablePrefix(inputs);
    assert p <= n by {
      assert p < |inputs| ==> inputs[p].questionId.None?;
    }
  }

  /** The rows for one more answer are the rows before it and its own. */
  lemma RecordsSnoc(u: nat, c: nat, inputs: seq<AnswerInput>, a: AnswerInput)
    requires forall k :: 0 <= k < |inputs| ==> inputs[k].questionId.Some?
    requires a.questionId.Some?
    ensures Records(u, c, inputs + [a]) == Records(u, c, inputs) + [RecordOf(u, c, a)]
  {
    var xs := inputs + [a];
    assert forall k :: 0 <= k < |inputs| ==> xs[k] == inputs[k];
  }

  /** `findAll({ where: { competitionId: c } })` on the answers. */
  function OfCompetition(ans: seq<Answer>, c: nat): (r: seq<Answer>)
    ensures forall a :: a in r <==> a in ans && a.competitionId == c
  {
    if ans == [] then []
    else (if ans[0].competitionId == c then [ans[0]] else []) + OfCompetition(ans[1..], c)
  }

  /** The required questions of competition `c`. */
  function RequiredOf(questions: map<nat, Question>, c: nat): (s: set<nat>)
    ensures forall q :: q in s <==> q in questions && questions[q].competitionId == c && questions[q].isRequired
  {
    set q | q in questions && questions[q].competitionId == c && questions[q].isRequired
  }

  /** The user after approveUser: qualified at `now` and made a team leader;
      the account and the team membership stay. */
  function Approved(u: User, now: int): (r: User)
    ensures r.isQualified && r.qualifiedAt == Some(now) && r.role == Leader
    ensures r.email == u.email && r.password == u.password && r.fullName == u.fullName
    ensures r.teamId == u.teamId && r.teamRole == u.teamRole
  {
    u.(isQualified := true, qualifiedAt := Some(now), role := Leader)
  }

  /* ---------- allRequiredAnswered ---------- */

  /** `submitted.some(a => a.questionId === q)`. */
  function HasAnswerFor(submitted: seq<Answer>, q: nat): (r: bool)
    ensures r <==> exists i :: 0 <= i < |submitted| && submitted[i].questionId == q
  {
    if submitted == [] then false
    else submitted[0].questionId == q || HasAnswerFor(submitted[1..], q)
  }

  /** `required.every(q => submitted.some(a => a.questionId === q.id))`. */
  function EveryRequiredAnswered(required: seq<nat>, submitted: seq<Answer>): (r: bool)
    ensures r <==> forall k :: 0 <= k < |required| ==> HasAnswerFor(submitted, required[k])
  {
    if required == [] then true
    else HasAnswerFor(submitted, required[0]) && EveryRequiredAnswered(required[1..], submitted)
  }

  /** Some stored row answers question q exactly when some submitted answer
      names q; the answer text plays no part. */
  lemma RecordsAnswer(u: nat, c: nat, inputs: seq<AnswerInput>, q: nat)
    requires forall k :: 0 <= k < |inputs| ==> inputs[k].questionId.Some?
    ensures HasAnswerFor(Records(u, c, inputs), q) <==> exists k :: 0 <= k < |inputs| && inputs[k].questionId == Some(q)
  {
    var r := Records(u, c, inputs);
    if HasAnswerFor(r, q) {
      var i :| 0 <= i < |r| && r[i].questionId == q;
      assert inputs[i].questionId == Some(q);
    }
    if exists k :: 0 <= k < |inputs| && inputs[k].questionId == Some(q) {
      var k :| 0 <= k < |inputs| && inputs[k].questionId == Some(q);
      assert r[k].questionId == q;
    }
  }

  /** The check after a submission: every required question is named by
      some submitted answer. */
  lemma EveryRequiredAnsweredIff(u: nat, c: nat, inputs: seq<AnswerInput>, required: seq<nat>)
    requires forall k :: 0 <= k < |inputs| ==> inputs[k].questionId.Some?
    ensures EveryRequiredAnswered(required, Records(u, c, inputs)) <==>
            forall q :: q in required ==> exists k :: 0 <= k < |inputs| && inputs[k].questionId == Some(q)
  {
    forall q | q in required
      ensures HasAnswerFor(Records(u, c, inputs), q) <==>
              exists k :: 0 <= k < |inputs| && inputs[k].questionId == Some(q)
    {
      RecordsAnswer(u, c, inputs, q);
    }
  }
}
