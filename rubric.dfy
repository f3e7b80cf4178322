/**
 * The grading half of `evaluate_answer`: validating the grading model's parsed
 * rubric, checking its total, deciding pass or fail and building the HTML
 * feedback. Everything here is a pure function of the parsed response.
 */
module Rubric {
  import opened Common
  import opened Text
  import opened PyDict

  const TotalKey: string := "Total score"
  const RequiredKeys: seq<string> :=
    ["Accuracy of content", "Quality of argumentation", "Contextual reference", "Originality", TotalKey]
  const MaxPointsPerCategory: int := 10

  const MissingMessage: string := "Not all required categories were evaluated."
  const MismatchMessage: string := "The total score does not match the sum of the categories."
  const MalformedMessage: string := "Error parsing the rating. Make sure that the model returns valid JSON."
  /** What Python raises for `n["points"]` when `n` is a number. */
  const NotSubscriptable: string := "'int' object is not subscriptable"
  /** What Python raises for `int(o)` when `o` is an object. */
  const NotConvertible: string := "int() argument must be a string, a bytes-like object or a real number, not 'dict'"
  /** What Python's `KeyError` reads as for `v['justification']` when the key is absent. */
  const NoJustification: string := "'justification'"

  const WellDoneMessage: string := "Well done! Your answer meets the requirements."
  const PartialMessage: string := "The answer is partially correct; there is still room for improvement."
  const InsufficientMessage: string := "The answer is insufficient."

  /** A Python exception, told apart only as far as `evaluate_answer`'s handlers do. */
  datatype PyError = ValueError(message: string) | OtherError(message: string)

  /** The value under one key of the parsed rubric object. */
  datatype Value =
    | Category(points: int, justification: Option<string>)  // {"points": <integer>, "justification": <string>}, the latter possibly absent
    | Score(n: int)                                 // a bare integer
    | Unreadable(error: PyError)                    // any other shape; what reading its points raises

  /** The result of `json.loads` on the grading model's reply. */
  datatype Parsed =
    | NotJson                                   // `json.JSONDecodeError`
    | Object(entries: Dict<Value>)              // a JSON object
    | Collection(holdsAll: bool, error: PyError) // a JSON array or string: `k in evaluation` works, `.keys()` raises `error`
    | Scalar(error: PyError)                    // a number, `true`, `false` or `null`: `k in evaluation` raises `error`

  /** Why grading failed: unparsable text, or an exception raised while checking. */
  datatype Failure = Malformed | Raised(error: PyError)

  datatype Verdict = WellDone | Partial | Insufficient

  /** A successful grading: the pass/fail signal and the feedback HTML. */
  datatype Graded = Graded(answered: bool, feedback: string)

  /** `int(v["points"])`. */
  function Points(v: Value): (r: Result<int, PyError>)
    ensures r.Success? <==> v.Category?
    ensures v.Score? ==> r == Failure(OtherError(NotSubscriptable))
    ensures v.Unreadable? ==> r == Failure(v.error)
  {
    match v
    case Category(p, _) => Success(p)
    case Score(_) => Failure(OtherError(NotSubscriptable))
    case Unreadable(e) => Failure(e)
  }

  /** `int(v)`. */
  function AsInt(v: Value): (r: Result<int, PyError>)
    ensures r.Success? <==> v.Score?
    ensures v.Category? ==> r == Failure(OtherError(NotConvertible))
    ensures v.Unreadable? ==> r == Failure(v.error)
  {
    match v
    case Score(n) => Success(n)
    case Category(_, _) => Failure(OtherError(NotConvertible))
    case Unreadable(e) => Failure(e)
  }

  /** `all(k in evaluation for k in required_categories)`. */
  predicate AllPresent(e: Dict<Value>) {
    forall i :: 0 <= i < |RequiredKeys| ==> RequiredKeys[i] in Keys(e)
  }

  /** The entries other than the total, in the rubric's own order. */
  function Categories(e: seq<(string, Value)>): (cs: seq<(string, Value)>)
    ensures |cs| <= |e|
  {
    if e == [] then []
    else (if e[0].0 != TotalKey then [e[0]] else []) + Categories(e[1..])
  }

  /** The categories are exactly the entries whose key is not the total. */
  lemma {:induction false} CategoriesMembers(e: seq<(string, Value)>)
    ensures forall p :: p in Categories(e) <==> p in e && p.0 != TotalKey
  {
    if e != [] {
      CategoriesMembers(e[1..]);
      assert e == [e[0]] + e[1..];
    }
  }

  /** Filtering the total out commutes with concatenation, so the categories keep their input order. */
  lemma {:induction false} CategoriesAppend(a: seq<(string, Value)>, b: seq<(string, Value)>)
    ensures Categories(a + b) == Categories(a) + Categories(b)
  {
    if a == [] {
      assert a + b == b;
    } else {
      assert (a + b)[0] == a[0];
      assert (a + b)[1..] == a[1..] + b;
      CategoriesAppend(a[1..], b);
    }
  }

  predicate AllCategories(cs: seq<(string, Value)>) {
    forall i :: 0 <= i < |cs| ==> cs[i].1.Category?
  }

  /** Every category also carries a justification, so the feedback can be formatted. */
  predicate AllJustified(cs: seq<(string, Value)>) {
    forall i :: 0 <= i < |cs| ==> cs[i].1.Category? && cs[i].1.justification.Some?
  }

  /** The plain sum of the category points. */
  function PointSum(cs: seq<(string, Value)>): int
    requires AllCategories(cs)
  {
    if cs == [] then 0 else cs[0].1.points + PointSum(cs[1..])
  }

  /**
   * `sum(int(evaluation[k]["points"]) for k in categories)`: succeeds exactly
   * when every category is a scored object, with the plain sum; otherwise it
   * raises what the first unreadable value raises.
   */
  function SumPoints(cs: seq<(string, Value)>): (r: Result<int, PyError>)
    ensures r.Success? <==> AllCategories(cs)
    ensures r.Success? ==> r.value == PointSum(cs)
    ensures r.Failure? ==> exists i :: 0 <= i < |cs| && !cs[i].1.Category?
                                       && Points(cs[i].1) == Failure(r.error)
                                       && AllCategories(cs[..i])
  {
    if cs == [] then Success(0)
    else
      match Points(cs[0].1)
      case Failure(err) =>
        assert AllCategories(cs[..0]);
        Failure(err)
      case Success(p) =>
        var rest := SumPoints(cs[1..]);
        if rest.Failure? then
          var i :| 0 <= i < |cs[1..]| && !cs[1..][i].1.Category?
                   && Points(cs[1..][i].1) == Failure(rest.error) && AllCategories(cs[1..][..i]);
          assert cs[..i + 1] == [cs[0]] + cs[1..][..i];
          Failure(rest.error)
        else
          Success(p + rest.value)
  }

  /** `max_total`: ten points for every key that is not the total. */
  function MaxTotal(e: seq<(string, Value)>): int {
    |Categories(e)| * MaxPointsPerCategory
  }

  /** `threshold = max_total * 0.5`, computed exactly. */
  function Threshold(maxTotal: int): real {
    maxTotal as real * 0.5
  }

  /** The pass/fail decision, as the source writes it and as an integer comparison. */
  function IsAnswered(total: int, maxTotal: int): (answered: bool)
    ensures answered <==> 2 * total >= maxTotal
  {
    total as real >= Threshold(maxTotal)
  }

  /** The three verdict tiers, each characterised without the real-valued threshold. */
  function VerdictOf(total: int, maxTotal: nat): (v: Verdict)
    ensures v == WellDone <==> 2 * total >= maxTotal
    ensures v == Partial <==> 2 * total < maxTotal <= 4 * total
    ensures v == Insufficient <==> 4 * total < maxTotal
  {
    var threshold := Threshold(maxTotal);
    if total as real >= threshold then WellDone
    else if total as real >= threshold / 2.0 then Partial
    else Insufficient
  }

  function VerdictMessage(v: Verdict): string {
    match v
    case WellDone => WellDoneMessage
    case Partial => PartialMessage
    case Insufficient => InsufficientMessage
  }

  /** One `<p>` line for a category. */
  function CategoryLine(k: string, points: int, justification: string): string {
    "<p><strong>" + k + "</strong> [" + IntToString(points) + "/" + IntToString(MaxPointsPerCategory)
      + "]: " + justification + "</p>"
  }

  /** The category lines, concatenated in the order the categories arrive. */
  function CategoryLines(cs: seq<(string, Value)>): string
    requires AllJustified(cs)
  {
    if cs == [] then ""
    else CategoryLine(cs[0].0, cs[0].1.points, cs[0].1.justification.value) + CategoryLines(cs[1..])
  }

  /** The closing line with the total, the maximum and the verdict. */
  function TotalLine(total: int, maxTotal: nat): string {
    "<p><strong>Total score</strong> [" + IntToString(total) + "/" + IntToString(maxTotal) + "]: "
      + VerdictMessage(VerdictOf(total, maxTotal)) + "</p>"
  }

  /** Grading a parsed reply of the grading model (the `try` block of `evaluate_answer`). */
  function Evaluate(p: Parsed): (r: Result<Graded, Failure>)
    ensures r == Failure(Malformed) <==> p.NotJson?
    ensures r.Success? ==> p.Object? && AllPresent(p.entries)
  {
    match p
    case NotJson => Failure(Malformed)
    case Scalar(err) => Failure(Raised(err))
    case Collection(holdsAll, err) =>
      if !holdsAll then Failure(Raised(ValueError(MissingMessage))) else Failure(Raised(err))
    case Object(e) =>
      if !AllPresent(e) then Failure(Raised(ValueError(MissingMessage)))
      else
        assert RequiredKeys[4] in Keys(e);
        Check(Categories(e), Get(e, TotalKey).value)
  }

  /**
   * The checks after the key test: sum the categories, read the total,
   * compare, grade, and format the feedback, which reads each justification.
   */
  function Check(cs: seq<(string, Value)>, totalValue: Value): (r: Result<Graded, Failure>)
    ensures r.Failure? ==> r.error.Raised?
    ensures r.Success? <==>
              SumPoints(cs).Success? && AsInt(totalValue) == Success(SumPoints(cs).value) && AllJustified(cs)
  {
    match SumPoints(cs)
    case Failure(err) => Failure(Raised(err))
    case Success(sum) =>
      match AsInt(totalValue)
      case Failure(err) => Failure(Raised(err))
      case Success(total) =>
        if sum != total then Failure(Raised(ValueError(MismatchMessage)))
        else if !AllJustified(cs) then Failure(Raised(OtherError(NoJustification)))
        else
          var maxTotal := |cs| * MaxPointsPerCategory;
          Success(Graded(IsAnswered(total, maxTotal), CategoryLines(cs) + TotalLine(total, maxTotal)))
  }

  /** The `evaluation` text `evaluate_answer` returns for each failure. */
  function FailureMessage(f: Failure): (r: string)
    ensures f.Malformed? ==> r == MalformedMessage
    ensures f.Raised? ==> |r| > |f.error.message| && r[|r| - |f.error.message|..] == f.error.message
  {
    match f
    case Malformed => MalformedMessage
    case Raised(ValueError(m)) => "Valuation error: " + m
    case Raised(OtherError(m)) => "Unknown error: " + m
  }
}

/** What the grading promises, proved about `Rubric.Evaluate`. */
module RubricProperties {
  import opened Common
  import opened Text
  import opened PyDict
  import opened Rubric

  /** A rubric lacking any required key is refused with the "not all categories" message. */
  lemma MissingKeyRejected(e: Dict<Value>, missing: nat)
    requires missing < |RequiredKeys| && RequiredKeys[missing] !in Keys(e)
    ensures Evaluate(Object(e)) == Failure(Raised(ValueError(MissingMessage)))
  {
  }

  /** Only a JSON object can be graded; any other JSON value raises, or misses a key. */
  lemma OnlyObjectsGraded(p: Parsed)
    ensures Evaluate(p).Success? ==> p.Object?
    ensures p.Scalar? ==> Evaluate(p) == Failure(Raised(p.error))
    ensures p.Collection? ==> Evaluate(p) == Failure(Raised(if p.holdsAll then p.error else ValueError(MissingMessage)))
  {
  }

  /**
   * Grading succeeds exactly when all five keys are present, every non-total
   * key holds a scored category, the total is the sum of their points, and
   * every category has a justification.
   */
  lemma SuccessExactly(e: Dict<Value>)
    ensures Evaluate(Object(e)).Success? <==>
              && AllPresent(e)
              && AllCategories(Categories(e))
              && Get(e, TotalKey) == Some(Score(PointSum(Categories(e))))
              && AllJustified(Categories(e))
  {
    if AllPresent(e) {
      assert RequiredKeys[4] in Keys(e);
    }
  }

  /** A total that differs from the sum is refused, whichever value is wrong. */
  lemma MismatchRejected(e: Dict<Value>, total: int)
    requires AllPresent(e) && AllCategories(Categories(e))
    requires Get(e, TotalKey) == Some(Score(total))
    requires total != PointSum(Categories(e))
    ensures Evaluate(Object(e)) == Failure(Raised(ValueError(MismatchMessage)))
  {
    assert RequiredKeys[4] in Keys(e);
  }

  /**
   * A correct total whose categories are not all justified fails only when
   * the feedback is formatted, with the `KeyError` for "justification".
   */
  lemma UnjustifiedRejected(e: Dict<Value>)
    requires AllPresent(e) && AllCategories(Categories(e))
    requires Get(e, TotalKey) == Some(Score(PointSum(Categories(e))))
    requires !AllJustified(Categories(e))
    ensures Evaluate(Object(e)) == Failure(Raised(OtherError(NoJustification)))
  {
    assert RequiredKeys[4] in Keys(e);
  }

  /** The reply text tells a `ValueError` from any other exception and keeps the exception's own text. */
  lemma RaisedMessageInjective(a: PyError, b: PyError)
    requires FailureMessage(Raised(a)) == FailureMessage(Raised(b))
    ensures a == b
  {
    var ra, rb := FailureMessage(Raised(a)), FailureMessage(Raised(b));
    assert ra[0] == (if a.ValueError? then 'V' else 'U');
    assert rb[0] == (if b.ValueError? then 'V' else 'U');
    assert a.message == ra[|ra| - |a.message|..];
    assert b.message == rb[|rb| - |b.message|..];
  }

  /** The `evaluation` text that failure is reported with. */
  lemma UnjustifiedMessage()
    ensures FailureMessage(Raised(OtherError(NoJustification))) == "Unknown error: 'justification'"
  {
  }

  /**
   * On success: the pass signal is `2 * total >= max_total`, the feedback is
   * the category lines followed by the total line, and that line carries the
   * "well done" verdict exactly when the answer passed, the partial one when
   * `4 * total >= max_total` but it did not pass, and the failing one otherwise.
   */
  lemma GradedShape(e: Dict<Value>, total: int)
    requires Get(e, TotalKey) == Some(Score(total))
    requires Evaluate(Object(e)).Success?
    ensures AllPresent(e) && AllCategories(Categories(e)) && total == PointSum(Categories(e))
    ensures AllJustified(Categories(e))
    ensures var g := Evaluate(Object(e)).value;
            && (g.answered <==> 2 * total >= MaxTotal(e))
            && g.feedback == CategoryLines(Categories(e)) + TotalLine(total, MaxTotal(e))
            && (VerdictOf(total, MaxTotal(e)) == WellDone <==> g.answered)
            && (VerdictOf(total, MaxTotal(e)) == Partial <==> !g.answered && 4 * total >= MaxTotal(e))
            && (VerdictOf(total, MaxTotal(e)) == Insufficient <==> 4 * total < MaxTotal(e))
  {
    SuccessExactly(e);
    assert RequiredKeys[4] in Keys(e);
  }

  lemma AllJustifiedAppend(a: seq<(string, Value)>, b: seq<(string, Value)>)
    requires AllJustified(a) && AllJustified(b)
    ensures AllJustified(a + b)
  {
    forall i | 0 <= i < |a + b|
      ensures (a + b)[i].1.Category? && (a + b)[i].1.justification.Some?
    {
      if i >= |a| {
        assert (a + b)[i] == b[i - |a|];
      }
    }
  }

  /** Concatenating rubrics concatenates their category lines. */
  lemma {:induction false} CategoryLinesAppend(a: seq<(string, Value)>, b: seq<(string, Value)>)
    requires AllJustified(a) && AllJustified(b)
    ensures AllJustified(a + b)
    ensures CategoryLines(a + b) == CategoryLines(a) + CategoryLines(b)
  {
    AllJustifiedAppend(a, b);
    if a == [] {
      assert a + b == b;
    } else {
      assert (a + b)[0] == a[0];
      assert (a + b)[1..] == a[1..] + b;
      CategoryLinesCons(a);
      CategoryLinesCons(a + b);
      CategoryLinesAppend(a[1..], b);
    }
  }

  /** A non-empty category list prints its first line, then the rest. */
  lemma CategoryLinesCons(cs: seq<(string, Value)>)
    requires AllJustified(cs) && cs != []
    ensures AllJustified(cs[1..])
    ensures CategoryLines(cs) == CategoryLine(cs[0].0, cs[0].1.points, cs[0].1.justification.value) + CategoryLines(cs[1..])
  {
    forall i | 0 <= i < |cs[1..]|
      ensures cs[1..][i].1.Category? && cs[1..][i].1.justification.Some?
    {
      assert cs[1..][i] == cs[i + 1];
    }
  }

  /**
   * The feedback follows the rubric's own key order: a category that sits
   * between `a` and `b` in the input has its line between theirs.
   */
  lemma FeedbackInInputOrder(a: seq<(string, Value)>, k: string, points: int, justification: string,
                             b: seq<(string, Value)>)
    requires k != TotalKey
    requires AllJustified(Categories(a)) && AllJustified(Categories(b))
    ensures var e := a + [(k, Category(points, Some(justification)))] + b;
            && AllJustified(Categories(e))
            && CategoryLines(Categories(e))
               == CategoryLines(Categories(a)) + CategoryLine(k, points, justification) + CategoryLines(Categories(b))
  {
    var x := [(k, Category(points, Some(justification)))];
    var ca, cb := Categories(a), Categories(b);
    CategoriesAppend(a + x, b);
    CategoriesAppend(a, x);
    SingleCategory(k, points, justification);
    assert Categories(a + x + b) == ca + x + cb;
    CategoryLinesAppend(ca, x);
    CategoryLinesAppend(ca + x, cb);
  }

  /** A rubric of one justified entry other than the total is its own category list, with one line. */
  lemma SingleCategory(k: string, points: int, justification: string)
    requires k != TotalKey
    ensures var x := [(k, Category(points, Some(justification)))];
            Categories(x) == x && AllJustified(x) && CategoryLines(x) == CategoryLine(k, points, justification)
  {
    var x := [(k, Category(points, Some(justification)))];
    assert x[1..] == [];
    assert Categories(x) == x + Categories(x[1..]);
    assert CategoryLines(x) == CategoryLine(k, points, justification) + CategoryLines(x[1..]);
  }

  /**
   * The rubric shape the grading model is asked for, with the given points
   * and total, and with the first category's justification as given
   * (`None`: the model left that key out).
   */
  function AskedRubric(first: Option<string>, accuracy: int, argumentation: int, context: int, originality: int,
                       total: int): Dict<Value>
  {
    [("Accuracy of content", Category(accuracy, first)),
     ("Quality of argumentation", Category(argumentation, Some("b"))),
     ("Contextual reference", Category(context, Some("c"))),
     ("Originality", Category(originality, Some("d"))),
     (TotalKey, Score(total))]
  }

  /** The asked-for rubric with every justification present. */
  function FourCategoryRubric(accuracy: int, argumentation: int, context: int, originality: int, total: int)
    : Dict<Value>
  {
    AskedRubric(Some("a"), accuracy, argumentation, context, originality, total)
  }

  /** The asked-for rubric has all required keys and its total under "Total score". */
  lemma FourCategoryKeys(first: Option<string>, accuracy: int, argumentation: int, context: int, originality: int,
                         total: int)
    ensures var e := AskedRubric(first, accuracy, argumentation, context, originality, total);
            AllPresent(e) && Get(e, TotalKey) == Some(Score(total))
  {
    var e := AskedRubric(first, accuracy, argumentation, context, originality, total);
    assert Keys(e) == RequiredKeys;
    assert e[4] == (TotalKey, Score(total));
  }

  /** Its categories are its first four entries, so its maximum is 40. */
  lemma FourCategoryList(first: Option<string>, accuracy: int, argumentation: int, context: int, originality: int,
                         total: int)
    ensures var e := AskedRubric(first, accuracy, argumentation, context, originality, total);
            Categories(e) == e[..4] && MaxTotal(e) == 40
  {
    var e := AskedRubric(first, accuracy, argumentation, context, originality, total);
    assert Categories(e[4..]) == [] by {
      assert e[4..][1..] == [];
    }
    assert Categories(e[3..]) == [e[3]] by {
      assert e[3..][1..] == e[4..];
      assert e[3].0[0] != TotalKey[0];
    }
    assert Categories(e[2..]) == [e[2], e[3]] by {
      assert e[2..][1..] == e[3..];
      assert e[2].0[0] != TotalKey[0];
    }
    assert Categories(e[1..]) == [e[1], e[2], e[3]] by {
      assert e[1..][1..] == e[2..];
      assert e[1].0[0] != TotalKey[0];
    }
    assert e[0].0[0] != TotalKey[0];
  }

  /** Its category points add up to the four points given, and all are justified iff the first is. */
  lemma FourCategorySum(first: Option<string>, accuracy: int, argumentation: int, context: int, originality: int,
                        total: int)
    ensures var cs := AskedRubric(first, accuracy, argumentation, context, originality, total)[..4];
            && AllCategories(cs) && PointSum(cs) == accuracy + argumentation + context + originality
            && (AllJustified(cs) <==> first.Some?)
  {
    var cs := AskedRubric(first, accuracy, argumentation, context, originality, total)[..4];
    assert cs[3..][1..] == [];
    assert PointSum(cs[3..]) == originality;
    assert cs[2..][1..] == cs[3..];
    assert PointSum(cs[2..]) == context + originality;
    assert cs[1..][1..] == cs[2..];
    assert PointSum(cs[1..]) == argumentation + context + originality;
  }

  lemma FourCategoryFacts(first: Option<string>, accuracy: int, argumentation: int, context: int, originality: int,
                          total: int)
    ensures var e := AskedRubric(first, accuracy, argumentation, context, originality, total);
            && AllPresent(e)
            && Categories(e) == e[..4]
            && AllCategories(Categories(e))
            && PointSum(Categories(e)) == accuracy + argumentation + context + originality
            && (AllJustified(Categories(e)) <==> first.Some?)
            && Get(e, TotalKey) == Some(Score(total))
            && MaxTotal(e) == 40
  {
    FourCategoryKeys(first, accuracy, argumentation, context, originality, total);
    FourCategoryList(first, accuracy, argumentation, context, originality, total);
    FourCategorySum(first, accuracy, argumentation, context, originality, total);
  }

  lemma EndsWithAppend(a: string, b: string)
    ensures EndsWith(a + b, b)
  {
    assert (a + b)[|a|..] == b;
  }

  /**
   * The asked-for rubric with a correct total is graded: it passes exactly when
   * the total reaches 20, and the feedback ends with the total line out of 40.
   */
  lemma FourCategoryGraded(accuracy: int, argumentation: int, context: int, originality: int, total: int)
    requires total == accuracy + argumentation + context + originality
    ensures var r := Evaluate(Object(FourCategoryRubric(accuracy, argumentation, context, originality, total)));
            && r.Success? && (r.value.answered <==> total >= 20)
            && EndsWith(r.value.feedback, TotalLine(total, 40))
  {
    var e := FourCategoryRubric(accuracy, argumentation, context, originality, total);
    FourCategoryFacts(Some("a"), accuracy, argumentation, context, originality, total);
    SuccessExactly(e);
    GradedShape(e, total);
    EndsWithAppend(CategoryLines(Categories(e)), TotalLine(total, 40));
  }

  /** With four categories the pass mark is 20 of 40: 20 passes and 19 does not. */
  lemma PassMarkIsTwenty()
    ensures Evaluate(Object(FourCategoryRubric(5, 5, 5, 5, 20))).Success?
    ensures Evaluate(Object(FourCategoryRubric(5, 5, 5, 5, 20))).value.answered
    ensures Evaluate(Object(FourCategoryRubric(5, 5, 5, 4, 19))).Success?
    ensures !Evaluate(Object(FourCategoryRubric(5, 5, 5, 4, 19))).value.answered
  {
    FourCategoryGraded(5, 5, 5, 5, 20);
    FourCategoryGraded(5, 5, 5, 4, 19);
  }

  /** The total line for 26 of 40 carries the "well done" verdict. */
  lemma WellDoneLine()
    ensures TotalLine(26, 40) == "<p><strong>Total score</strong> [" + "26" + "/" + "40" + "]: " + WellDoneMessage + "</p>"
  {
    assert IntToString(26) == "26" by { assert NatToString(26) == NatToString(2) + [Digit(6)]; }
    assert IntToString(40) == "40" by { assert NatToString(40) == NatToString(4) + [Digit(0)]; }
    assert VerdictOf(26, 40) == WellDone;
  }

  /** The total line for 8 of 40 carries the "insufficient" verdict. */
  lemma InsufficientLine()
    ensures TotalLine(8, 40) == "<p><strong>Total score</strong> [" + "8" + "/" + "40" + "]: " + InsufficientMessage + "</p>"
  {
    assert IntToString(8) == "8";
    assert IntToString(40) == "40" by { assert NatToString(40) == NatToString(4) + [Digit(0)]; }
    assert VerdictOf(8, 40) == Insufficient;
  }

  /** Points 8, 7, 6, 5 with total 26 pass, and the last line reads "[26/40]: Well done! ...". */
  lemma WellDoneScenario()
    ensures var r := Evaluate(Object(FourCategoryRubric(8, 7, 6, 5, 26)));
            && r.Success? && r.value.answered
            && EndsWith(r.value.feedback,
                 "<p><strong>Total score</strong> [" + "26" + "/" + "40" + "]: " + WellDoneMessage + "</p>")
  {
    FourCategoryGraded(8, 7, 6, 5, 26);
    WellDoneLine();
  }

  /** Points 2, 2, 2, 2 with total 8 fail, with the "insufficient" verdict (8 is below 10). */
  lemma InsufficientScenario()
    ensures var r := Evaluate(Object(FourCategoryRubric(2, 2, 2, 2, 8)));
            && r.Success? && !r.value.answered
            && EndsWith(r.value.feedback,
                 "<p><strong>Total score</strong> [" + "8" + "/" + "40" + "]: " + InsufficientMessage + "</p>")
  {
    FourCategoryGraded(2, 2, 2, 2, 8);
    InsufficientLine();
  }

  /**
   * A first category without "justification" (points 8, 7, 6, 5): with the
   * correct total 26 it fails at formatting with "Unknown error:
   * 'justification'"; with total 25 the mismatch is reported first.
   */
  lemma UnjustifiedScenario()
    ensures Evaluate(Object(AskedRubric(None, 8, 7, 6, 5, 26))) == Failure(Raised(OtherError(NoJustification)))
    ensures FailureMessage(Evaluate(Object(AskedRubric(None, 8, 7, 6, 5, 26))).error) == "Unknown error: 'justification'"
    ensures Evaluate(Object(AskedRubric(None, 8, 7, 6, 5, 25))) == Failure(Raised(ValueError(MismatchMessage)))
  {
    FourCategoryFacts(None, 8, 7, 6, 5, 26);
    UnjustifiedRejected(AskedRubric(None, 8, 7, 6, 5, 26));
    UnjustifiedMessage();
    FourCategoryFacts(None, 8, 7, 6, 5, 25);
    MismatchRejected(AskedRubric(None, 8, 7, 6, 5, 25), 25);
  }

  /** The rubric asked for, with a fifth category "Bonus" the grading model added. */
  function FiveCategoryRubric(points: int, bonus: int, total: int): Dict<Value> {
    var e := FourCategoryRubric(points, points, points, points, total) + [("Bonus", Category(bonus, Some("e")))];
    assert Keys(e) == RequiredKeys + ["Bonus"];
    e
  }

  /** The five-key rubric's categories are the four asked for plus "Bonus". */
  lemma FiveCategoryList(points: int, bonus: int, total: int)
    ensures var e := FiveCategoryRubric(points, bonus, total);
            && Categories(e) == e[..4] + [e[5]]
            && AllCategories(Categories(e)) && AllJustified(Categories(e))
            && PointSum(Categories(e)) == 4 * points + bonus
            && MaxTotal(e) == 50
  {
    var e4 := FourCategoryRubric(points, points, points, points, total);
    var extra := [("Bonus", Category(bonus, Some("e")))];
    var e := FiveCategoryRubric(points, bonus, total);
    assert e == e4 + extra;
    FourCategoryList(Some("a"), points, points, points, points, total);
    FourCategorySum(Some("a"), points, points, points, points, total);
    CategoriesAppend(e4, extra);
    assert Categories(extra) == extra + Categories([]);
    assert PointSum(extra) == bonus by {
      assert extra[1..] == [];
    }
    PointSumAppend(e4[..4], extra);
    AllJustifiedAppend(e4[..4], extra);
    assert Categories(e) == e4[..4] + extra;
    assert PointSum(e4[..4]) == 4 * points;
  }

  /** Its keys include all required ones, and its total sits under "Total score". */
  lemma FiveCategoryKeys(points: int, bonus: int, total: int)
    ensures var e := FiveCategoryRubric(points, bonus, total);
            AllPresent(e) && Get(e, TotalKey) == Some(Score(total))
  {
    var e := FiveCategoryRubric(points, bonus, total);
    assert Keys(e) == RequiredKeys + ["Bonus"];
    assert e[4] == (TotalKey, Score(total));
  }

  /**
   * The maximum follows the number of keys that arrive, not a fixed 40: a
   * fifth category is accepted and raises it to 50, so 24 points (which
   * would pass out of 40) do not pass.
   */
  lemma ExtraCategoryRaisesMaximum()
    ensures var r := Evaluate(Object(FiveCategoryRubric(5, 4, 24)));
            && MaxTotal(FiveCategoryRubric(5, 4, 24)) == 50
            && r.Success? && !r.value.answered
  {
    FiveCategoryList(5, 4, 24);
    FiveCategoryGraded(5, 4, 24);
  }

  /** The five-key rubric with a correct total is graded, and passes exactly from 25 of 50. */
  lemma FiveCategoryGraded(points: int, bonus: int, total: int)
    requires total == 4 * points + bonus
    ensures var r := Evaluate(Object(FiveCategoryRubric(points, bonus, total)));
            r.Success? && (r.value.answered <==> 2 * total >= 50)
  {
    var e := FiveCategoryRubric(points, bonus, total);
    FiveCategoryList(points, bonus, total);
    FiveCategoryKeys(points, bonus, total);
    SuccessExactly(e);
    GradedShape(e, total);
  }

  lemma {:induction false} PointSumAppend(a: seq<(string, Value)>, b: seq<(string, Value)>)
    requires AllCategories(a) && AllCategories(b)
    ensures AllCategories(a + b) && PointSum(a + b) == PointSum(a) + PointSum(b)
  {
    if a == [] {
      assert a + b == b;
    } else {
      assert (a + b)[1..] == a[1..] + b;
      PointSumAppend(a[1..], b);
    }
  }
}
