/**
 * The question and answer lifecycle of the quiz server (`get_question`,
 * `generate_new_question`, `evaluate_answer`): a process-wide evaluation
 * registry and one browser session, updated in place. The model-runner
 * process, the caption extractor, `json.loads` and `uuid4` are supplied by
 * the caller.
 */
module Quiz {
  import opened Common
  import opened Text
  import PyDict
  import Rubric
  import RubricProperties
  import Images

  const DefaultDifficulty: string := "medium"
  const AlreadyEvaluatedMessage: string := "This question has already been evaluated."
  const NoImageMessage: string := "No current image found."
  const GenerationError: string := "Error during question generation."
  const GenerationTimeout: string := "Timeout during question generation."
  const GradingError: string := "Error in rating request."
  const GradingTimeout: string := "Timeout during evaluation request."

  /** What the model is asked; the prompt wording around these fields is left out. */
  datatype ModelRequest =
    | QuestionRequest(description: string, difficulty: string)
    | GradingRequest(question: string, answer: string, description: string)

  /** How one run of the model-runner process ended. */
  datatype ProcessOutcome = Exited(returnCode: int, stdout: string, stderr: string) | TimedOut

  /**
   * The model-runner process as observed: the outcome of the `n`-th call made
   * while serving one request (two calls with the same prompt may differ).
   */
  type ModelRunner = (ModelRequest, nat) -> ProcessOutcome

  /** `generate_question`: the question text, or an error text in its place. */
  function QuestionText(o: ProcessOutcome): (r: string)
    ensures IsStripped(r)
    ensures r == GenerationError || r == GenerationTimeout || (o.Exited? && o.returnCode == 0)
    ensures o.TimedOut? ==> r == GenerationTimeout
    ensures o.Exited? && o.returnCode != 0 ==> r == GenerationError
    ensures o.Exited? && o.returnCode == 0 ==> r == Strip(o.stdout)
  {
    match o
    case TimedOut => GenerationTimeout
    case Exited(code, out, _) => if code != 0 then GenerationError else Strip(out)
  }

  /** A timed-out generation cannot be told apart from a model that printed the timeout text as its question. */
  lemma SentinelLooksLikeAQuestion()
    ensures QuestionText(TimedOut) == QuestionText(Exited(0, GenerationTimeout, ""))
  {
    assert IsStripped(GenerationTimeout);
    StripOfStripped(GenerationTimeout);
  }

  /** `evaluate_answer_llm`: the grading model's stripped output, or the error text. */
  function GradingText(o: ProcessOutcome): (r: Result<string, string>)
    ensures r.Success? <==> o.Exited? && o.returnCode == 0
    ensures r.Success? ==> IsStripped(r.value) && r.value == Strip(o.stdout)
    ensures r.Failure? ==> r.error == (if o.TimedOut? then GradingTimeout else GradingError)
  {
    match o
    case TimedOut => Failure(GradingTimeout)
    case Exited(code, out, _) => if code != 0 then Failure(GradingError) else Success(Strip(out))
  }

  datatype Status = Answered | Unanswered | AlreadyEvaluated | Error {
    /** The `status` string of the JSON reply. */
    function Name(): string {
      match this
      case Answered => "answered"
      case Unanswered => "unanswered"
      case AlreadyEvaluated => "already evaluated"
      case Error => "Error"
    }
  }

  /** The reply's `status` string tells the four statuses apart. */
  lemma StatusNameInjective(a: Status, b: Status)
    requires a.Name() == b.Name()
    ensures a == b
  {
  }

  /** The JSON reply of `/evaluate-answer` and its HTTP status code. */
  datatype EvaluationReply = EvaluationReply(evaluation: string, status: Status, code: int)

  /** The JSON reply of `/get-question`; a server error when there are no images. */
  datatype QuestionReply = Question(imageUrl: string, question: string, questionId: string) | ServerError

  /** The JSON reply of `/generate-new-question`. */
  datatype RegenerateReply = Regenerated(question: string, questionId: string) | NoCurrentImage(error: string, code: int)

  /**
   * What `evaluate_answer` does once the registry guard has let the request
   * through: the reply, and the feedback it stores in the session (only on a
   * successful grading, whose status is then answered or unanswered).
   */
  function Grade(o: ProcessOutcome, parse: string -> Rubric.Parsed): (r: (EvaluationReply, Option<string>))
    ensures r.1.Some? <==> r.0.status == Answered || r.0.status == Unanswered
    ensures r.1.Some? ==> r.0 == EvaluationReply(r.1.value, r.0.status, 200)
    ensures r.1.None? ==> r.0.status == Error && r.0.code == 500
    ensures GradingText(o).Failure? ==> r.0 == EvaluationReply(GradingText(o).error, Error, 500)
    ensures GradingText(o).Success? ==>
              var graded := Rubric.Evaluate(parse(GradingText(o).value));
              && (r.1.Some? <==> graded.Success?)
              && (graded.Success? ==> r.1 == Some(graded.value.feedback) && (r.0.status == Answered <==> graded.value.answered))
              && (graded.Failure? ==> r.0.evaluation == Rubric.FailureMessage(graded.error))
  {
    match GradingText(o)
    case Failure(err) => (EvaluationReply(err, Error, 500), None)
    case Success(raw) =>
      match Rubric.Evaluate(parse(raw))
      case Failure(f) => (EvaluationReply(Rubric.FailureMessage(f), Error, 500), None)
      case Success(g) => (EvaluationReply(g.feedback, if g.answered then Answered else Unanswered, 200), Some(g.feedback))
  }

  /** A graded submission's `status` string is "answered" or "unanswered" with code 200, and "Error" otherwise. */
  lemma GradeStatusName(o: ProcessOutcome, parse: string -> Rubric.Parsed)
    ensures var r := Grade(o, parse).0;
            && (r.code == 200 <==> r.status.Name() in {"answered", "unanswered"})
            && (r.code != 200 ==> r.code == 500 && r.status.Name() == "Error")
  {
  }

  /** A grading reply whose total is off is a 500 with the mismatch text, and no feedback is stored. */
  lemma MismatchReported(o: ProcessOutcome, parse: string -> Rubric.Parsed, e: PyDict.Dict<Rubric.Value>, total: int)
    requires GradingText(o).Success? && parse(GradingText(o).value) == Rubric.Object(e)
    requires Rubric.AllPresent(e) && Rubric.AllCategories(Rubric.Categories(e))
    requires PyDict.Get(e, Rubric.TotalKey) == Some(Rubric.Score(total))
    requires total != Rubric.PointSum(Rubric.Categories(e))
    ensures Grade(o, parse) == (EvaluationReply("Valuation error: " + Rubric.MismatchMessage, Error, 500), None)
  {
    RubricProperties.MismatchRejected(e, total);
  }

  /** A grading reply that lacks a required key is a 500 with the missing-keys text, and no feedback is stored. */
  lemma MissingKeyReported(o: ProcessOutcome, parse: string -> Rubric.Parsed, e: PyDict.Dict<Rubric.Value>, missing: nat)
    requires GradingText(o).Success? && parse(GradingText(o).value) == Rubric.Object(e)
    requires missing < |Rubric.RequiredKeys| && Rubric.RequiredKeys[missing] !in PyDict.Keys(e)
    ensures Grade(o, parse) == (EvaluationReply("Valuation error: " + Rubric.MissingMessage, Error, 500), None)
  {
    RubricProperties.MissingKeyRejected(e, missing);
  }

  /** `evaluation_status.get(question_id, False)`. */
  predicate IsEvaluated(registry: map<Option<string>, bool>, id: Option<string>) {
    id in registry && registry[id]
  }

  /** `(index + 1) % len(images)`: Python's `%` with a positive divisor agrees with Dafny's. */
  function NextIndex(index: int, count: nat): (next: int)
    requires count > 0
    ensures 0 <= next < count
  {
    (index + 1) % count
  }

  /** The image index after `k` further calls of `get_question`. */
  function IndexAfter(index: int, count: nat, k: nat): int
    requires count > 0
  {
    if k == 0 then index else NextIndex(IndexAfter(index, count, k - 1), count)
  }

  /** Without wrapping, `k` calls advance the index by `k`. */
  lemma {:induction false} IndexAfterSteps(index: int, count: nat, k: nat)
    requires 0 <= index && count > 0 && index + k < count
    ensures IndexAfter(index, count, k) == index + k
  {
    if k > 0 {
      IndexAfterSteps(index, count, k - 1);
      var previous := IndexAfter(index, count, k - 1);
      assert IndexAfter(index, count, k) == NextIndex(previous, count);
      ModSmall(previous + 1, count);
    }
  }

  lemma ModSmall(x: int, n: int)
    requires 0 <= x < n
    ensures x % n == x
  {
  }

  /** From a valid index, `count - index` calls wrap around to the first image. */
  lemma IndexAfterWraps(index: int, count: nat)
    requires 0 <= index < count
    ensures IndexAfter(index, count, count - index) == 0
  {
    IndexAfterSteps(index, count, count - index - 1);
    assert IndexAfter(index, count, count - index) == count % count;
  }

  /** `a + b` calls are `a` calls followed by `b` calls. */
  lemma {:induction false} IndexAfterAdd(index: int, count: nat, a: nat, b: nat)
    requires count > 0
    ensures IndexAfter(index, count, a + b) == IndexAfter(IndexAfter(index, count, a), count, b)
  {
    if b > 0 {
      IndexAfterAdd(index, count, a, b - 1);
    }
  }

  /** Within `count` consecutive calls every image is shown. */
  lemma RotationCoversAll(index: int, count: nat, j: nat)
    requires 0 <= index < count && j < count
    ensures exists k :: 1 <= k <= count && IndexAfter(index, count, k) == j
  {
    if j > index {
      IndexAfterSteps(index, count, j - index);
      assert IndexAfter(index, count, j - index) == j;
    } else {
      IndexAfterAdd(index, count, count - index, j);
      IndexAfterWraps(index, count);
      IndexAfterSteps(0, count, j);
      assert IndexAfter(index, count, count - index + j) == j;
    }
  }

  /** After `count` calls the rotation is back where it started. */
  lemma RotationPeriod(index: int, count: nat)
    requires 0 <= index < count
    ensures IndexAfter(index, count, count) == index
  {
    IndexAfterAdd(index, count, count - index, index);
    IndexAfterWraps(index, count);
    IndexAfterSteps(0, count, index);
  }

  /** A fresh session starts at index 0 but shows image 0 only on the `count`-th call. */
  lemma FirstImageShownLast(count: nat, k: nat)
    requires 1 <= k <= count
    ensures IndexAfter(0, count, k) == 0 <==> k == count
  {
    if k < count {
      IndexAfterSteps(0, count, k);
    } else {
      RotationPeriod(0, count);
    }
  }

  /** One browser session: the fields `session` holds, each possibly absent. */
  class Session {
    var imageIndex: Option<int>
    var currentImage: Option<string>
    var currentQuestion: Option<string>
    var currentQuestionId: Option<string>
    var currentDescription: Option<string>
    var lastEvaluation: Option<string>

    constructor ()
      ensures imageIndex == None && currentImage == None && currentQuestion == None
      ensures currentQuestionId == None && currentDescription == None && lastEvaluation == None
    {
      imageIndex, currentImage, currentQuestion := None, None, None;
      currentQuestionId, currentDescription, lastEvaluation := None, None, None;
    }
  }

  /**
   * While the registry holds only `True` (as it does from start-up on,
   * since `evaluate_answer` stores nothing else), `evaluation_status.get(id,
   * False)` is plain membership: an id is evaluated exactly when it is a key.
   */
  lemma EvaluatedIffPresent(app: App, id: Option<string>)
    requires app.Valid()
    ensures IsEvaluated(app.evaluationStatus, id) <==> id in app.evaluationStatus
  {
  }

  /** One call to the model, together with the registry as it stood when the call was made. */
  datatype Consultation = Consultation(request: ModelRequest, registry: map<Option<string>, bool>)

  /** The server process: its image list, its evaluation registry and a record of its model calls. */
  class App {
    const images: seq<string>
    var evaluationStatus: map<Option<string>, bool>
    ghost var consultations: seq<Consultation>

    /** Only `True` is ever stored in the registry. */
    ghost predicate Valid()
      reads this
    {
      forall id :: id in evaluationStatus ==> evaluationStatus[id]
    }

    /** Start-up: `load_images()` over the folder listing, and an empty registry. */
    constructor (listing: seq<string>)
      ensures images == Images.LoadImages(listing)
      ensures evaluationStatus == map[] && consultations == [] && Valid()
    {
      images := Images.LoadImages(listing);
      evaluationStatus := map[];
      consultations := [];
    }

    /**
     * `get_question`: rotate to the next image, take its caption (or the
     * placeholder "Bild: <name>"), ask for one question, and reset the
     * session's question fields under a fresh id.
     */
    method GetQuestion(s: Session, difficulty: Option<string>, describe: string -> string,
                       model: ModelRunner, freshId: string)
      returns (reply: QuestionReply)
      modifies s, this`consultations
      ensures |images| == 0 ==> reply == ServerError && consultations == old(consultations)
      ensures |images| == 0 ==> unchanged(s)
      ensures |images| > 0 ==>
        var index := NextIndex(old(s.imageIndex).GetOr(0), |images|);
        var name := images[index];
        var description := if describe(name) == "" then "Bild: " + name else describe(name);
        var request := QuestionRequest(description, difficulty.GetOr(DefaultDifficulty));
        var question := QuestionText(model(request, 0));
        && s.imageIndex == Some(index)
        && s.currentImage == Some(name)
        && s.currentDescription == Some(description)
        && s.currentQuestion == Some(question)
        && s.currentQuestionId == Some(freshId)
        && s.lastEvaluation == None
        && consultations == old(consultations) + [Consultation(request, evaluationStatus)]
        && reply == Question("/images/" + name, question, freshId)
    {
      var index := s.imageIndex.GetOr(0);
      if |images| == 0 {
        return ServerError;
      }
      index := NextIndex(index, |images|);
      s.imageIndex := Some(index);
      var name := images[index];
      var description := describe(name);
      if description == "" {
        description := "Bild: " + name;
      }
      var request := QuestionRequest(description, difficulty.GetOr(DefaultDifficulty));
      var question := QuestionText(model(request, 0));
      consultations := consultations + [Consultation(request, evaluationStatus)];
      s.currentQuestionId := Some(freshId);
      s.currentQuestion := Some(question);
      s.currentImage := Some(name);
      s.currentDescription := Some(description);
      s.lastEvaluation := None;
      reply := Question("/images/" + name, question, freshId);
    }

    /**
     * `generate_new_question`: for the session's current image, ask for a
     * question; ask once more if it repeats the current question, and accept
     * the second answer whatever it is. Only the question and its id change.
     */
    method GenerateNewQuestion(s: Session, difficulty: Option<string>, describe: string -> string,
                               model: ModelRunner, freshId: string)
      returns (reply: RegenerateReply)
      modifies s`currentQuestion, s`currentQuestionId, this`consultations
      ensures old(s.currentImage) == None || old(s.currentImage) == Some("") ==>
        && reply == NoCurrentImage(NoImageMessage, 400)
        && s.currentQuestion == old(s.currentQuestion) && s.currentQuestionId == old(s.currentQuestionId)
        && consultations == old(consultations)
      ensures old(s.currentImage) != None && old(s.currentImage) != Some("") ==>
        var name := old(s.currentImage).value;
        var description := if describe(name) == "" then "Image: " + name else describe(name);
        var request := QuestionRequest(description, difficulty.GetOr(DefaultDifficulty));
        var consulted := Consultation(request, evaluationStatus);
        var first := QuestionText(model(request, 0));
        var retried := Some(first) == old(s.currentQuestion);
        var question := if retried then QuestionText(model(request, 1)) else first;
        && s.currentQuestion == Some(question)
        && s.currentQuestionId == Some(freshId)
        && consultations == old(consultations) + (if retried then [consulted, consulted] else [consulted])
        && reply == Regenerated(question, freshId)
    {
      if s.currentImage == None || s.currentImage == Some("") {
        return NoCurrentImage(NoImageMessage, 400);
      }
      var name := s.currentImage.value;
      var description := describe(name);
      if description == "" {
        description := "Image: " + name;
      }
      var request := QuestionRequest(description, difficulty.GetOr(DefaultDifficulty));
      var question := QuestionText(model(request, 0));
      consultations := consultations + [Consultation(request, evaluationStatus)];
      if Some(question) == s.currentQuestion {
        question := QuestionText(model(request, 1));
        consultations := consultations + [Consultation(request, evaluationStatus)];
      }
      s.currentQuestionId := Some(freshId);
      s.currentQuestion := Some(question);
      reply := Regenerated(question, freshId);
    }

    /**
     * `evaluate_answer`: refuse an id the registry already marks; otherwise
     * mark it, then consult the grading model with the session's description, and
     * store the feedback only when grading succeeds.
     */
    method EvaluateAnswer(s: Session, questionId: Option<string>, question: string, answer: string,
                          model: ModelRunner, parse: string -> Rubric.Parsed)
      returns (reply: EvaluationReply)
      modifies this`evaluationStatus, this`consultations, s`lastEvaluation
      ensures old(Valid()) ==> Valid()
      ensures IsEvaluated(old(evaluationStatus), questionId) ==>
        && reply == EvaluationReply(AlreadyEvaluatedMessage, AlreadyEvaluated, 200)
        && evaluationStatus == old(evaluationStatus)
        && consultations == old(consultations)
        && s.lastEvaluation == old(s.lastEvaluation)
      ensures !IsEvaluated(old(evaluationStatus), questionId) ==>
        var request := GradingRequest(question, answer, s.currentDescription.GetOr(""));
        var graded := Grade(model(request, 0), parse);
        && evaluationStatus == old(evaluationStatus)[questionId := true]
        && consultations == old(consultations) + [Consultation(request, evaluationStatus)]
        && reply == graded.0
        && s.lastEvaluation == (if graded.1.Some? then graded.1 else old(s.lastEvaluation))
    {
      if IsEvaluated(evaluationStatus, questionId) {
        return EvaluationReply(AlreadyEvaluatedMessage, AlreadyEvaluated, 200);
      }
      evaluationStatus := evaluationStatus[questionId := true];
      var request := GradingRequest(question, answer, s.currentDescription.GetOr(""));
      var outcome := model(request, 0);
      consultations := consultations + [Consultation(request, evaluationStatus)];
      reply := GradeInto(s, outcome, parse);
    }
  }

  /** The grading step of `evaluate_answer`: the reply, and `last_evaluation` written only on success. */
  method GradeInto(s: Session, o: ProcessOutcome, parse: string -> Rubric.Parsed) returns (reply: EvaluationReply)
    modifies s`lastEvaluation
    ensures reply == Grade(o, parse).0
    ensures s.lastEvaluation == (if Grade(o, parse).1.Some? then Grade(o, parse).1 else old(s.lastEvaluation))
  {
    var graded := Grade(o, parse);
    if graded.1.Some? {
      s.lastEvaluation := graded.1;
    }
    reply := graded.0;
  }

  /**
   * Two submissions for one question id: the id is marked, the second is
   * refused with "already evaluated", and the grading model is consulted at most once.
   */
  method SubmitTwice(app: App, s: Session, questionId: Option<string>, question: string, answer: string,
                     model: ModelRunner, parse: string -> Rubric.Parsed)
    returns (first: EvaluationReply, second: EvaluationReply)
    modifies app, s
    ensures IsEvaluated(app.evaluationStatus, questionId)
    ensures second == EvaluationReply(AlreadyEvaluatedMessage, AlreadyEvaluated, 200)
    ensures |app.consultations| <= |old(app.consultations)| + 1
  {
    first := app.EvaluateAnswer(s, questionId, question, answer, model, parse);
    second := app.EvaluateAnswer(s, questionId, question, answer, model, parse);
  }

  /**
   * Regenerating twice with a model that always prints the same question:
   * the second call asks twice, gets the same text again and keeps it, with
   * the new id; it never asks a third time (the first call asks once or twice).
   */
  method RegenerateTwice(app: App, s: Session, describe: string -> string, model: ModelRunner,
                         id1: string, id2: string)
    returns (r1: RegenerateReply, r2: RegenerateReply)
    requires s.currentImage.Some? && s.currentImage != Some("")
    requires forall r: ModelRequest, k: nat :: model(r, k) == model(r, 0)
    modifies app, s
    ensures r1.Regenerated? && r2 == Regenerated(r1.question, id2) && r1.questionId == id1
    ensures 3 <= |app.consultations| - |old(app.consultations)| <= 4
    ensures var name := old(s.currentImage).value;
            var description := if describe(name) == "" then "Image: " + name else describe(name);
            var request := QuestionRequest(description, DefaultDifficulty);
            var question := QuestionText(model(request, 0));
            var c := Consultation(request, app.evaluationStatus);
            && r1 == Regenerated(question, id1)
            && app.consultations == old(app.consultations) + (if Some(question) == old(s.currentQuestion) then [c, c] else [c]) + [c, c]
  {
    ghost var name := s.currentImage.value;
    ghost var description := if describe(name) == "" then "Image: " + name else describe(name);
    ghost var request := QuestionRequest(description, DefaultDifficulty);
    ghost var question := QuestionText(model(request, 0));
    assert QuestionText(model(request, 1)) == question;
    ghost var c := Consultation(request, app.evaluationStatus);
    ghost var retried := Some(question) == s.currentQuestion;
    r1 := app.GenerateNewQuestion(s, None, describe, model, id1);
    ghost var mid := app.consultations;
    assert mid == old(app.consultations) + (if retried then [c, c] else [c]);
    assert r1 == Regenerated(question, id1);
    assert s.currentImage == old(s.currentImage) && s.currentQuestion == Some(question);
    r2 := app.GenerateNewQuestion(s, None, describe, model, id2);
    assert app.consultations == mid + [c, c];
  }

  /**
   * The page's "submit" button as written: its payload carries the displayed
   * question and the answer but no `question_id`, so the registry key is
   * always the absent id.
   */
  method BrowserSubmit(app: App, s: Session, displayed: string, answer: string,
                       model: ModelRunner, parse: string -> Rubric.Parsed)
    returns (reply: EvaluationReply)
    modifies app, s
    ensures IsEvaluated(app.evaluationStatus, None)
    ensures old(IsEvaluated(app.evaluationStatus, None)) ==>
      reply == EvaluationReply(AlreadyEvaluatedMessage, AlreadyEvaluated, 200) && app.consultations == old(app.consultations)
  {
    reply := app.EvaluateAnswer(s, None, displayed, answer, model, parse);
  }

  /**
   * With the browser's payload, once any answer has been evaluated every
   * later question, in any session, is refused without grading.
   */
  method BrowserSecondQuestionRefused(app: App, s: Session, describe: string -> string, model: ModelRunner,
                                      parse: string -> Rubric.Parsed, id1: string, id2: string,
                                      answer1: string, answer2: string)
    returns (second: EvaluationReply)
    requires |app.images| > 0
    modifies app, s
    ensures second == EvaluationReply(AlreadyEvaluatedMessage, AlreadyEvaluated, 200)
  {
    var q1 := app.GetQuestion(s, None, describe, model, id1);
    var e1 := BrowserSubmit(app, s, q1.question, answer1, model, parse);
    var q2 := app.GetQuestion(s, None, describe, model, id2);
    second := BrowserSubmit(app, s, q2.question, answer2, model, parse);
  }

  /**
   * The submission evidently intended (the payload `submit_answer` builds):
   * the session's current question under its own id.
   */
  method SessionSubmit(app: App, s: Session, answer: string, model: ModelRunner, parse: string -> Rubric.Parsed)
    returns (reply: EvaluationReply)
    modifies app, s
    ensures app.evaluationStatus == old(app.evaluationStatus)[old(s.currentQuestionId) := true]
    ensures old(IsEvaluated(app.evaluationStatus, s.currentQuestionId)) ==>
      reply.status == AlreadyEvaluated && app.consultations == old(app.consultations)
    ensures !old(IsEvaluated(app.evaluationStatus, s.currentQuestionId)) ==>
      reply.status != AlreadyEvaluated && |app.consultations| == |old(app.consultations)| + 1
  {
    reply := app.EvaluateAnswer(s, s.currentQuestionId, s.currentQuestion.GetOr(""), answer, model, parse);
  }

  /**
   * With the session's id, a new question under a fresh id is graded even
   * after the previous one was.
   */
  method SessionSecondQuestionGraded(app: App, s: Session, describe: string -> string, model: ModelRunner,
                                     parse: string -> Rubric.Parsed, id1: string, id2: string,
                                     answer1: string, answer2: string)
    returns (second: EvaluationReply)
    requires |app.images| > 0
    requires id1 != id2 && Some(id2) !in app.evaluationStatus
    modifies app, s
    ensures second.status != AlreadyEvaluated
    ensures IsEvaluated(app.evaluationStatus, Some(id1)) && IsEvaluated(app.evaluationStatus, Some(id2))
  {
    var q1 := app.GetQuestion(s, None, describe, model, id1);
    var e1 := SessionSubmit(app, s, answer1, model, parse);
    var q2 := app.GetQuestion(s, None, describe, model, id2);
    second := SessionSubmit(app, s, answer2, model, parse);
  }
}
