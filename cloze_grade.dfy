/** `evaluateAnswer` and `arraysEqualOrdered` of the back script of the cloze
    card. Unlike the basic evaluator, an inferred "I don't know" is written back
    into the caller's response object, the basic kind counts as correct
    unless "I don't know" was declared (a card with no stored response is
    evaluated with it declared, and so is skipped), and ordered answers are compared trimmed and case-insensitively. */
module ClozeGrade {
  import opened Wrappers
  import opened JsText
  import opened JsValue
  import opened FieldGrammar
  import opened QuizKind
  import opened ClozeBack
  import BasicBack

  // ------------------------------------------------------ verdicts

  /** One entry of `individualResults` for a matching question; `None` is `undefined`. */
  datatype PairResult = PairResult(isCorrect: bool, userChoiceId: Option<string>, correctChoiceId: Option<string>)

  /** `individualResults`: `{}`, a map of pair results, or the exact-answer array. */
  datatype Details = NoDetails | Pairs(pairs: map<string, PairResult>) | PerInput(results: seq<bool>)

  /** The object `evaluateAnswer` returns, or `Thrown` where it raises a `TypeError`. */
  datatype Verdict = Verdict(isCorrect: bool, skipped: bool, details: Details) | Thrown

  // ------------------------------------------- don't-know inference

  /** The left items this card asks about: those whose revealed text shows a span. */
  function OnCard(lefts: seq<IdText>): (r: seq<IdText>)
    ensures |r| <= |lefts|
  {
    if lefts == [] then []
    else (if Contains(lefts[0].text, ClozeSpanOpen()) then [lefts[0]] else []) + OnCard(lefts[1..])
  }

  lemma {:induction false} OnCardMembers(lefts: seq<IdText>)
    ensures forall l :: l in OnCard(lefts) <==> l in lefts && Contains(l.text, ClozeSpanOpen())
  {
    if lefts != [] {
      OnCardMembers(lefts[1..]);
      assert lefts == [lefts[0]] + lefts[1..];
    }
  }

  /** `correctAnswerIsExpected`. */
  predicate Expected(q: ClozeQuestion) {
    match q.kind
    case Matching => |OnCard(q.leftOptions)| > 0
    case SingleChoice => |q.correctAnswers| > 0
    case MultipleChoice => |q.correctAnswers| > 0
    case Ordering => |q.correctAnswers| > 0
    case SentenceFormation => |q.correctAnswers| > 0
    case ExactAnswer => |q.correctAnswers| > 0
    case _ => false
  }

  /** The value of `userResponse.idk` after the inference block. */
  predicate IdkAfter(q: ClozeQuestion, ua: Answer, idk: bool) {
    idk || (q.kind != Basic && IsFunctionallyEmpty(ua) && Expected(q))
  }

  // ------------------------------------------------------ matching

  /** `userAnswer || {}`. */
  function MatchingAnswer(ua: Answer): (r: Answer)
    ensures !r.Null?
  {
    if Truthy(ua) then ua else Dict(map[])
  }

  predicate PairOk(uas: Answer, m: map<string, string>, l: IdText) {
    Prop(uas, l.id) == BasicBack.Lookup(m, l.id)
  }

  /** `correctMatches` after the `forEach`. */
  function CorrectPairs(uas: Answer, m: map<string, string>, lefts: seq<IdText>): (n: nat)
    ensures n <= |lefts|
  {
    if lefts == [] then 0
    else CorrectPairs(uas, m, lefts[..|lefts| - 1]) + (if PairOk(uas, m, lefts[|lefts| - 1]) then 1 else 0)
  }

  lemma {:induction false} CorrectPairsAll(uas: Answer, m: map<string, string>, lefts: seq<IdText>)
    ensures CorrectPairs(uas, m, lefts) == |lefts| <==> forall i :: 0 <= i < |lefts| ==> PairOk(uas, m, lefts[i])
  {
    if lefts != [] {
      var init := lefts[..|lefts| - 1];
      CorrectPairsAll(uas, m, init);
      assert forall i :: 0 <= i < |init| ==> init[i] == lefts[i];
    }
  }

  function PairResultFor(uas: Answer, m: map<string, string>, id: string): PairResult {
    PairResult(Prop(uas, id) == BasicBack.Lookup(m, id), Prop(uas, id), BasicBack.Lookup(m, id))
  }

  /** `individualResults` after the `forEach`. */
  function PairsOf(uas: Answer, m: map<string, string>, lefts: seq<IdText>): map<string, PairResult> {
    if lefts == [] then map[]
    else
      var l := lefts[|lefts| - 1];
      PairsOf(uas, m, lefts[..|lefts| - 1])[l.id := PairResultFor(uas, m, l.id)]
  }

  /** One entry per left id on the card, each the comparison of the user's
      choice with the correct one. */
  lemma {:induction false} PairsOfMeans(uas: Answer, m: map<string, string>, lefts: seq<IdText>)
    ensures forall id :: id in PairsOf(uas, m, lefts) <==> exists i :: 0 <= i < |lefts| && lefts[i].id == id
    ensures forall id :: id in PairsOf(uas, m, lefts) ==> PairsOf(uas, m, lefts)[id] == PairResultFor(uas, m, id)
  {
    if lefts != [] {
      var init := lefts[..|lefts| - 1];
      PairsOfMeans(uas, m, init);
      assert forall i :: 0 <= i < |init| ==> init[i] == lefts[i];
      forall id | exists i :: 0 <= i < |lefts| && lefts[i].id == id
        ensures id in PairsOf(uas, m, lefts)
      {
        var i :| 0 <= i < |lefts| && lefts[i].id == id;
        if i < |init| { assert init[i].id == id; }
      }
    }
  }

  function MatchingVerdict(q: ClozeQuestion, ua: Answer): Verdict {
    var uas := MatchingAnswer(ua);
    var lefts := OnCard(q.leftOptions);
    if |lefts| == 0 then Verdict(true, true, NoDetails)
    else
      Verdict(CorrectPairs(uas, q.correctAnswersMap, lefts) == |lefts| && KeyCount(uas) == |lefts|,
              false, Pairs(PairsOf(uas, q.correctAnswersMap, lefts)))
  }

  // ------------------------------------------- ordered comparison

  /** `(x || '').trim().toLowerCase()`. */
  function Norm(x: string): string {
    Lower(Trim(x))
  }

  /** Position-by-position equality after trimming and lowering. */
  predicate NormEqual(xs: seq<string>, b: seq<string>) {
    |xs| == |b| && forall i :: 0 <= i < |b| ==> Norm(xs[i]) == Norm(b[i])
  }

  /** `arraysEqualOrdered(a, b)` with `b` the correct answers. */
  predicate OrderedMatch(a: Answer, b: seq<string>) {
    BasicBack.Indexed(a).Some? && NormEqual(BasicBack.Indexed(a).value, b)
  }

  function Norms(xs: seq<string>): seq<string> {
    seq(|xs|, i requires 0 <= i < |xs| => Norm(xs[i]))
  }

  /** The comparison is equality of the normalised sequences. */
  lemma NormEqualMeans(xs: seq<string>, b: seq<string>)
    ensures NormEqual(xs, b) <==> Norms(xs) == Norms(b)
  {
    if Norms(xs) == Norms(b) {
      assert |xs| == |b|;
      forall i | 0 <= i < |b| ensures Norm(xs[i]) == Norm(b[i]) {
        assert Norms(xs)[i] == Norms(b)[i];
      }
    }
  }

  /** The index loop of `arraysEqualOrdered`. */
  method ArraysEqualOrdered(a: Answer, b: seq<string>) returns (r: bool)
    ensures r == OrderedMatch(a, b)
  {
    var view := BasicBack.Indexed(a);
    if view.None? || |view.value| != |b| {
      return false;
    }
    var xs := view.value;
    for i := 0 to |xs|
      invariant NormPrefix(xs, b, i)
    {
      if Norm(xs[i]) != Norm(b[i]) {
        NormDiffers(xs, b, i);
        return false;
      }
      NormPrefixStep(xs, b, i);
    }
    NormPrefixAll(xs, b);
    return true;
  }

  /** The first `i` positions agree after normalising. */
  predicate NormPrefix(xs: seq<string>, b: seq<string>, i: nat) {
    |xs| == |b| && i <= |b| && forall k :: 0 <= k < i ==> Norm(xs[k]) == Norm(b[k])
  }

  lemma NormPrefixStep(xs: seq<string>, b: seq<string>, i: nat)
    requires NormPrefix(xs, b, i) && i < |b| && Norm(xs[i]) == Norm(b[i])
    ensures NormPrefix(xs, b, i + 1)
  {
  }

  lemma NormDiffers(xs: seq<string>, b: seq<string>, i: nat)
    requires i < |xs| && i < |b| && Norm(xs[i]) != Norm(b[i])
    ensures !NormEqual(xs, b)
  {
  }

  lemma NormPrefixAll(xs: seq<string>, b: seq<string>)
    requires NormPrefix(xs, b, |b|)
    ensures NormEqual(xs, b)
  {
  }

  lemma TrimParis()
    ensures Trim(" Paris") == "Paris" && Trim("paris") == "paris"
  {
    assert LeadingSpaces(" Paris", 0) == 1;
    assert LeadingSpaces("Paris", 0) == 0;
    assert " Paris"[1..] == "Paris";
    assert "Paris"[0..] == "Paris";
    assert TrimStart(" Paris") == TrimStart("Paris");
    TrimNoSpace("Paris");
    TrimNoSpace("paris");
  }

  lemma LowerParis()
    ensures Lower("Paris") == "paris" && Lower("paris") == "paris"
  {
    assert Lower("Paris")[0] == 'p';
  }

  /** The two variants part ways: the cloze comparison ignores case and
      surrounding spaces, the basic one compares exactly. */
  lemma OrderedVariantsDiffer()
    ensures OrderedMatch(List([" Paris"]), ["paris"])
    ensures !BasicBack.OrderedEqual(List([" Paris"]), ["paris"])
  {
    TrimParis();
    LowerParis();
    assert Norm(" Paris") == Norm("paris");
    assert [" Paris"] != ["paris"] by { assert [" Paris"][0][0] != ["paris"][0][0]; }
  }

  // ----------------------------------------------------- exact answer

  /** `(userAnswersArray[index] || '')` for an answer that is not an object:
      an array is read by index, any other answer is the one element of `[userAnswer]`. */
  function ExactInput(ua: Answer, i: nat): string
    requires !ua.Dict?
  {
    match ua
    case List(xs) => if i < |xs| then xs[i] else ""
    case Str(s) => if i == 0 then s else ""
    case Null => ""
  }

  /** `results`: one flag per correct answer. */
  function ExactResults(ua: Answer, ca: seq<string>): seq<bool>
    requires !ua.Dict?
  {
    seq(|ca|, i requires 0 <= i < |ca| => Norm(ExactInput(ua, i)) == Norm(ca[i]))
  }

  predicate AllTrue(rs: seq<bool>) {
    forall i :: 0 <= i < |rs| ==> rs[i]
  }

  /** An object answer throws on `.trim()` once there is a correct answer to compare with. */
  function ExactVerdict(ua: Answer, ca: seq<string>): Verdict {
    if ua.Dict? then (if ca == [] then Verdict(true, false, PerInput([])) else Thrown)
    else Verdict(AllTrue(ExactResults(ua, ca)), false, PerInput(ExactResults(ua, ca)))
  }

  /** The `map` over the correct answers. */
  method ExactLoop(ua: Answer, ca: seq<string>) returns (results: seq<bool>)
    requires !ua.Dict?
    ensures results == ExactResults(ua, ca)
  {
    results := [];
    for i := 0 to |ca|
      invariant results == ExactResults(ua, ca)[..i]
    {
      assert ExactResults(ua, ca)[..i + 1] == ExactResults(ua, ca)[..i] + [ExactResults(ua, ca)[i]];
      results := results + [Norm(ExactInput(ua, i)) == Norm(ca[i])];
    }
    assert ExactResults(ua, ca)[..|ca|] == ExactResults(ua, ca);
  }

  // -------------------------------------------------- choice answers

  function TrimSet(xs: seq<string>): set<string> {
    set i | 0 <= i < |xs| :: Trim(xs[i])
  }

  /** `new Set((userAnswer || []).map(u => u.trim()))`; `None` where `.map` is missing. */
  function UserSet(ua: Answer): Option<set<string>> {
    match ua
    case Null => Some({})
    case Str(s) => if s == [] then Some({}) else None
    case List(xs) => Some(TrimSet(xs))
    case Dict(_) => None
  }

  /** The same size and every user item correct. */
  predicate SetsAgree(u: set<string>, c: set<string>) {
    |u| == |c| && forall x :: x in u ==> x in c
  }

  /** Equal size plus inclusion is set equality. */
  lemma SetsAgreeMeans(u: set<string>, c: set<string>)
    ensures SetsAgree(u, c) <==> u == c
  {
    if SetsAgree(u, c) {
      assert u <= c;
      assert |c - u| == |c| - |u|;
      assert c - u == {};
    }
  }

  function MultipleChoiceVerdict(ua: Answer, ca: seq<string>): Verdict {
    match UserSet(ua)
    case None => Thrown
    case Some(u) => Verdict(SetsAgree(u, TrimSet(ca)), false, NoDetails)
  }

  /** `userAnswer === q.correctAnswers[0]`; with no correct answer the right side is `undefined`. */
  predicate SingleChoiceCorrect(ua: Answer, ca: seq<string>) {
    |ca| > 0 && ua == Str(ca[0])
  }

  // ------------------------------------------------------- the evaluator

  /** The result of `evaluateAnswer(q, {answer: ua, idk})`. */
  function Evaluate(q: ClozeQuestion, ua: Answer, idk: bool): Verdict {
    if IdkAfter(q, ua, idk) then Verdict(false, true, NoDetails)
    else
      match q.kind
      case Matching => MatchingVerdict(q, ua)
      case Ordering => Verdict(OrderedMatch(if Truthy(ua) then ua else List([]), q.correctAnswers), false, NoDetails)
      case SentenceFormation => Verdict(OrderedMatch(if Truthy(ua) then ua else List([]), q.correctAnswers), false, NoDetails)
      case ExactAnswer => ExactVerdict(ua, q.correctAnswers)
      case MultipleChoice => MultipleChoiceVerdict(ua, q.correctAnswers)
      case SingleChoice => Verdict(SingleChoiceCorrect(ua, q.correctAnswers), false, NoDetails)
      case _ => Verdict(true, false, NoDetails)
  }

  /** The `userResponse` object the caller hands in and reads back. */
  class UserResponse {
    var answer: Answer
    var idk: bool

    constructor(answer: Answer, idk: bool)
      ensures this.answer == answer && this.idk == idk
    {
      this.answer := answer;
      this.idk := idk;
    }
  }

  /** The `forEach` that counts `correctMatches`. */
  method CountPairs(uas: Answer, m: map<string, string>, lefts: seq<IdText>) returns (n: nat)
    ensures n == CorrectPairs(uas, m, lefts)
  {
    n := 0;
    for i := 0 to |lefts|
      invariant n == CorrectPairs(uas, m, lefts[..i])
    {
      assert lefts[..i + 1][..i] == lefts[..i];
      if Prop(uas, lefts[i].id) == BasicBack.Lookup(m, lefts[i].id) {
        n := n + 1;
      }
    }
    assert lefts[..|lefts|] == lefts;
  }

  /** The same `forEach`, filling `individualResults`. */
  method CollectPairs(uas: Answer, m: map<string, string>, lefts: seq<IdText>) returns (pairs: map<string, PairResult>)
    ensures pairs == PairsOf(uas, m, lefts)
  {
    pairs := map[];
    for i := 0 to |lefts|
      invariant pairs == PairsOf(uas, m, lefts[..i])
    {
      assert lefts[..i + 1][..i] == lefts[..i];
      pairs := pairs[lefts[i].id := PairResultFor(uas, m, lefts[i].id)];
    }
    assert lefts[..|lefts|] == lefts;
  }

  /** `evaluateAnswer(q, userResponse)`: may set `userResponse.idk`, then grades. */
  method EvaluateAnswer(q: ClozeQuestion, response: UserResponse) returns (v: Verdict)
    modifies response
    ensures response.answer == old(response.answer)
    ensures response.idk == IdkAfter(q, old(response.answer), old(response.idk))
    ensures v == Evaluate(q, old(response.answer), old(response.idk))
  {
    if q.kind != Basic && !response.idk {
      if IsFunctionallyEmpty(response.answer) && Expected(q) {
        response.idk := true;
      }
    }
    if response.idk {
      return Verdict(false, true, NoDetails);
    }
    var ua := response.answer;
    if q.kind == Matching {
      var uas := MatchingAnswer(ua);
      var lefts := OnCard(q.leftOptions);
      if |lefts| == 0 {
        return Verdict(true, true, NoDetails);
      }
      var n := CountPairs(uas, q.correctAnswersMap, lefts);
      var pairs := CollectPairs(uas, q.correctAnswersMap, lefts);
      v := Verdict(n == |lefts| && KeyCount(uas) == |lefts|, false, Pairs(pairs));
    } else if q.kind == Ordering || q.kind == SentenceFormation {
      var ok := ArraysEqualOrdered(if Truthy(ua) then ua else List([]), q.correctAnswers);
      v := Verdict(ok, false, NoDetails);
    } else if q.kind == ExactAnswer {
      if ua.Dict? {
        v := if q.correctAnswers == [] then Verdict(true, false, PerInput([])) else Thrown;
      } else {
        var results := ExactLoop(ua, q.correctAnswers);
        v := Verdict(AllTrue(results), false, PerInput(results));
      }
    } else if q.kind == MultipleChoice {
      v := MultipleChoiceVerdict(ua, q.correctAnswers);
    } else if q.kind == SingleChoice {
      v := Verdict(SingleChoiceCorrect(ua, q.correctAnswers), false, NoDetails);
    } else {
      v := Verdict(true, false, NoDetails);
    }
  }

  // --------------------------------------------------------- lemmas

  /** A skipped, incorrect verdict means exactly "I don't know", given or
      inferred; the only other skipped verdict is a matching card with no
      left item on it, and that one counts as correct. */
  lemma SkippedMeans(q: ClozeQuestion, ua: Answer, idk: bool)
    ensures Evaluate(q, ua, idk) == Verdict(false, true, NoDetails) <==> IdkAfter(q, ua, idk)
    ensures Evaluate(q, ua, idk).Verdict? && Evaluate(q, ua, idk).skipped && Evaluate(q, ua, idk).isCorrect <==>
              !IdkAfter(q, ua, idk) && q.kind == Matching && OnCard(q.leftOptions) == []
  {
  }

  /** Inference fires on a non-basic question exactly for an empty answer
      where an answer is expected; a basic question never infers it, so it
      is correct unless "I don't know" was declared, and then it is skipped. */
  lemma IdkInference(q: ClozeQuestion, ua: Answer)
    ensures IdkAfter(q, ua, false) <==> q.kind != Basic && IsFunctionallyEmpty(ua) && Expected(q)
    ensures q.kind == Basic ==> Evaluate(q, ua, false) == Verdict(true, false, NoDetails)
    ensures q.kind == Basic ==> Evaluate(q, ua, true) == Verdict(false, true, NoDetails)
  {
  }

  /** Matching with left items on the card: correct exactly when every left
      id holds its correct right id and the answer has no other key; fewer
      keys than left items is never correct. */
  lemma MatchingMeans(q: ClozeQuestion, ua: Answer)
    requires q.kind == Matching && !IdkAfter(q, ua, false) && OnCard(q.leftOptions) != []
    ensures Evaluate(q, ua, false).Verdict? && !Evaluate(q, ua, false).skipped
    ensures Evaluate(q, ua, false).isCorrect <==>
              KeyCount(MatchingAnswer(ua)) == |OnCard(q.leftOptions)| &&
              forall l :: l in OnCard(q.leftOptions) ==> Prop(MatchingAnswer(ua), l.id) == BasicBack.Lookup(q.correctAnswersMap, l.id)
    ensures KeyCount(MatchingAnswer(ua)) < |OnCard(q.leftOptions)| ==> !Evaluate(q, ua, false).isCorrect
  {
    var lefts := OnCard(q.leftOptions);
    CorrectPairsAll(MatchingAnswer(ua), q.correctAnswersMap, lefts);
    assert (forall i :: 0 <= i < |lefts| ==> PairOk(MatchingAnswer(ua), q.correctAnswersMap, lefts[i])) <==>
           (forall l :: l in lefts ==> PairOk(MatchingAnswer(ua), q.correctAnswersMap, l));
  }

  /** Ordering and sentence formation compare the answer, or `[]` for a falsy
      one, trimmed and lowercased position by position with the correct answers. */
  lemma OrderedMeans(q: ClozeQuestion, ua: Answer)
    requires (q.kind == Ordering || q.kind == SentenceFormation) && !IdkAfter(q, ua, false)
    ensures Evaluate(q, ua, false).Verdict? && !Evaluate(q, ua, false).skipped
    ensures Evaluate(q, ua, false).isCorrect <==>
              if Truthy(ua) then BasicBack.Indexed(ua).Some? && Norms(BasicBack.Indexed(ua).value) == Norms(q.correctAnswers)
              else q.correctAnswers == []
  {
    if Truthy(ua) {
      if BasicBack.Indexed(ua).Some? {
        NormEqualMeans(BasicBack.Indexed(ua).value, q.correctAnswers);
      }
    }
  }

  /** Exact answer: index-aligned over the correct answers, so extra inputs
      never matter and no correct answer at all means correct. */
  lemma ExactMeans(ua: Answer, ca: seq<string>)
    ensures ua.Dict? && ca != [] <==> ExactVerdict(ua, ca).Thrown?
    ensures ca == [] ==> ExactVerdict(ua, ca).Verdict? && ExactVerdict(ua, ca).isCorrect
    ensures ExactVerdict(ua, ca).Verdict? ==>
              (ExactVerdict(ua, ca).isCorrect <==> forall i :: 0 <= i < |ca| ==> Norm(ExactInput(ua, i)) == Norm(ca[i]))
  {
    if !ua.Dict? {
      var rs := ExactResults(ua, ca);
      assert forall i :: 0 <= i < |ca| ==> (rs[i] <==> Norm(ExactInput(ua, i)) == Norm(ca[i]));
    }
  }

  /** Inputs beyond the number of correct answers do not change the verdict. */
  lemma ExtraInputsIgnored(xs: seq<string>, extra: seq<string>, ca: seq<string>)
    requires |ca| <= |xs|
    ensures ExactVerdict(List(xs + extra), ca) == ExactVerdict(List(xs), ca)
  {
    assert ExactResults(List(xs + extra), ca) == ExactResults(List(xs), ca);
  }

  /** Multiple choice: equality of the trimmed sets, so order and repeated
      choices do not matter; a non-empty string or an object throws. */
  lemma MultipleChoiceMeans(ua: Answer, ca: seq<string>)
    ensures MultipleChoiceVerdict(ua, ca).Thrown? <==> ua.Dict? || (ua.Str? && ua.s != [])
    ensures ua.List? ==>
              MultipleChoiceVerdict(ua, ca).Verdict? &&
              (MultipleChoiceVerdict(ua, ca).isCorrect <==> TrimSet(ua.items) == TrimSet(ca))
  {
    if ua.List? {
      SetsAgreeMeans(TrimSet(ua.items), TrimSet(ca));
    }
  }

  /** A repeated choice collapses into one. */
  lemma RepeatedChoice(x: string, xs: seq<string>, ca: seq<string>)
    requires x in xs
    ensures MultipleChoiceVerdict(List(xs + [x]), ca) == MultipleChoiceVerdict(List(xs), ca)
  {
    var i :| 0 <= i < |xs| && xs[i] == x;
    assert (xs + [x])[i] == x;
    assert TrimSet(xs + [x]) == TrimSet(xs) by {
      forall y | y in TrimSet(xs + [x]) ensures y in TrimSet(xs) {
        var k :| 0 <= k < |xs + [x]| && y == Trim((xs + [x])[k]);
        if k < |xs| { assert (xs + [x])[k] == xs[k]; } else { assert Trim(xs[i]) == y; }
      }
      forall y | y in TrimSet(xs) ensures y in TrimSet(xs + [x]) {
        var k :| 0 <= k < |xs| && y == Trim(xs[k]);
        assert (xs + [x])[k] == xs[k];
      }
    }
  }

  /** Single choice: only the string that is the first correct answer. */
  lemma SingleChoiceMeans(q: ClozeQuestion, ua: Answer)
    requires q.kind == SingleChoice && !IdkAfter(q, ua, false)
    ensures Evaluate(q, ua, false).Verdict? &&
            (Evaluate(q, ua, false).isCorrect <==> q.correctAnswers != [] && ua == Str(q.correctAnswers[0]))
  {
  }
}
