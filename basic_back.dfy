/** The evaluator of the basic (non-cloze) card: the two array comparers and
    `evaluateAnswer` of the back script. */
module BasicBack {
  import opened Wrappers
  import opened JsText
  import opened JsValue
  import opened FieldGrammar
  import opened BasicFront

  // ------------------------------------------------------- array views

  /** The one-character strings `s[0]`, `s[1]`, ... of a string. */
  function Chars(s: string): seq<string> {
    seq(|s|, i requires 0 <= i < |s| => [s[i]])
  }

  /** What `a.length` and `a[i]` see in an answer that passes `!a`: the
      characters of a non-empty string or the items of an array. `null` and
      `""` are falsy, and on an object `length` is never the number the
      comparers test it against, so these have no view. */
  function Indexed(v: Answer): (r: Option<seq<string>>)
    ensures r.Some? ==> Truthy(v)
  {
    match v
    case Str(s) => if s == [] then None else Some(Chars(s))
    case List(xs) => Some(xs)
    case _ => None
  }

  // ------------------------------------------------- string ordering

  /** The order `Array.prototype.sort` uses without a comparator:
      lexicographic on characters. */
  predicate StrLe(a: string, b: string)
    decreases |a|
  {
    a == [] || (b != [] && (a[0] < b[0] || (a[0] == b[0] && StrLe(a[1..], b[1..]))))
  }

  lemma StrLeTotal(a: string, b: string)
    ensures StrLe(a, b) || StrLe(b, a)
    decreases |a|
  {
    if a != [] && b != [] && a[0] == b[0] {
      StrLeTotal(a[1..], b[1..]);
    }
  }

  lemma StrLeReflexive(a: string)
    ensures StrLe(a, a)
    decreases |a|
  {
    if a != [] { StrLeReflexive(a[1..]); }
  }

  lemma StrLeAntisymmetric(a: string, b: string)
    requires StrLe(a, b) && StrLe(b, a)
    ensures a == b
    decreases |a|
  {
    if a != [] {
      StrLeAntisymmetric(a[1..], b[1..]);
      assert a == [a[0]] + a[1..] && b == [b[0]] + b[1..];
    }
  }

  lemma StrLeTransitive(a: string, b: string, c: string)
    requires StrLe(a, b) && StrLe(b, c)
    ensures StrLe(a, c)
    decreases |a|
  {
    if a != [] && a[0] == b[0] && b[0] == c[0] {
      StrLeTransitive(a[1..], b[1..], c[1..]);
    }
  }

  predicate Sorted(s: seq<string>) {
    forall i, j :: 0 <= i < j < |s| ==> StrLe(s[i], s[j])
  }

  // --------------------------------------------------------- sorting

  /** Insertion of one string into a sorted sequence. */
  function Insert(x: string, s: seq<string>): (r: seq<string>)
    ensures multiset(r) == multiset(s) + multiset{x}
  {
    if s == [] then [x]
    else if StrLe(x, s[0]) then [x] + s
    else
      assert s == [s[0]] + s[1..];
      [s[0]] + Insert(x, s[1..])
  }

  lemma {:induction false} InsertSorted(x: string, s: seq<string>)
    requires Sorted(s)
    ensures Sorted(Insert(x, s))
  {
    if s == [] {
    } else if StrLe(x, s[0]) {
      forall e | e in s ensures StrLe(x, e) {
        SortedHeadLeast(s, e);
        StrLeTransitive(x, s[0], e);
      }
      ConsSorted(x, s);
      assert Sorted(Insert(x, s));
    } else {
      SortedTail(s);
      InsertSorted(x, s[1..]);
      HeadBelowInsert(x, s);
      ConsSorted(s[0], Insert(x, s[1..]));
      assert Sorted(Insert(x, s));
    }
  }

  /** The head of a sorted sequence stays below what is inserted after it. */
  lemma HeadBelowInsert(x: string, s: seq<string>)
    requires Sorted(s) && s != [] && !StrLe(x, s[0])
    ensures forall e :: e in Insert(x, s[1..]) ==> StrLe(s[0], e)
  {
    StrLeTotal(x, s[0]);
    var rest := Insert(x, s[1..]);
    forall e | e in rest ensures StrLe(s[0], e) {
      assert e in multiset(rest);
      if e != x {
        assert e in multiset(s[1..]);
        var j :| 0 <= j < |s[1..]| && s[1..][j] == e;
        assert s[j + 1] == e;
      }
    }
  }

  /** A head at most every element of a sorted tail gives a sorted sequence. */
  lemma ConsSorted(h: string, rest: seq<string>)
    requires Sorted(rest) && forall e :: e in rest ==> StrLe(h, e)
    ensures Sorted([h] + rest)
  {
    var r := [h] + rest;
    forall i, j | 0 <= i < j < |r| ensures StrLe(r[i], r[j]) {
      if i == 0 {
        assert r[j] == rest[j - 1] && rest[j - 1] in rest;
      } else {
        assert r[i] == rest[i - 1] && r[j] == rest[j - 1];
      }
    }
  }

  /** `[...a].sort()`: a sorted copy. */
  function Sort(xs: seq<string>): (r: seq<string>)
    ensures multiset(r) == multiset(xs)
  {
    if xs == [] then []
    else
      assert xs == [xs[0]] + xs[1..];
      Insert(xs[0], Sort(xs[1..]))
  }

  lemma {:induction false} SortSorted(xs: seq<string>)
    ensures Sorted(Sort(xs))
  {
    if xs != [] {
      SortSorted(xs[1..]);
      InsertSorted(xs[0], Sort(xs[1..]));
    }
  }

  lemma SortedTail(a: seq<string>)
    requires Sorted(a) && a != []
    ensures Sorted(a[1..])
  {
    forall i, j | 0 <= i < j < |a| - 1 ensures StrLe(a[1..][i], a[1..][j]) {
      assert a[1..][i] == a[i + 1] && a[1..][j] == a[j + 1];
    }
  }

  /** The head of a sorted sequence is at most every element. */
  lemma SortedHeadLeast(a: seq<string>, x: string)
    requires Sorted(a) && x in a
    ensures StrLe(a[0], x)
  {
    var i :| 0 <= i < |a| && a[i] == x;
    if i == 0 { StrLeReflexive(x); }
  }

  /** Two sorted sequences with the same elements are the same sequence. */
  lemma {:induction false} SortedUnique(a: seq<string>, b: seq<string>)
    requires Sorted(a) && Sorted(b) && multiset(a) == multiset(b)
    ensures a == b
  {
    if a == [] {
      assert |multiset(b)| == 0;
    } else {
      assert |b| == |multiset(b)| == |multiset(a)| == |a|;
      assert a[0] in multiset(b) && b[0] in multiset(a);
      SortedHeadLeast(b, a[0]);
      SortedHeadLeast(a, b[0]);
      StrLeAntisymmetric(a[0], b[0]);
      var a', b' := a[1..], b[1..];
      assert a == [a[0]] + a' && b == [b[0]] + b';
      assert multiset(a') == multiset(b') by {
        assert multiset(a) == multiset{a[0]} + multiset(a');
        assert multiset(b) == multiset{a[0]} + multiset(b');
        forall z ensures multiset(a')[z] == multiset(b')[z] {
          assert multiset(a)[z] == multiset{a[0]}[z] + multiset(a')[z];
          assert multiset(b)[z] == multiset{a[0]}[z] + multiset(b')[z];
        }
      }
      SortedTail(a);
      SortedTail(b);
      SortedUnique(a', b');
    }
  }

  // ------------------------------------------------------- comparers

  /** `arraysEqualUnordered(a, b)`: false when `a` is missing or the lengths
      differ, otherwise whether the sorted copies agree element by element. */
  function ArraysEqualUnordered(a: Answer, b: seq<string>): bool {
    match Indexed(a)
    case None => false
    case Some(xs) => |xs| == |b| && Sort(xs) == Sort(b)
  }

  /** The sorted comparison is multiset equality: order is irrelevant,
      repetitions count. */
  lemma ArraysEqualUnorderedMeans(a: Answer, b: seq<string>)
    ensures ArraysEqualUnordered(a, b) <==> Indexed(a).Some? && multiset(Indexed(a).value) == multiset(b)
    ensures !Truthy(a) || a.Dict? ==> !ArraysEqualUnordered(a, b)
  {
    if Indexed(a).Some? {
      var xs := Indexed(a).value;
      if multiset(xs) == multiset(b) {
        assert |xs| == |multiset(xs)| == |multiset(b)| == |b|;
        SortSorted(xs);
        SortSorted(b);
        SortedUnique(Sort(xs), Sort(b));
      }
    }
  }

  /** Permuting the response does not change the multiple-choice verdict. */
  lemma ArraysEqualUnorderedPermutation(xs: seq<string>, ys: seq<string>, b: seq<string>)
    requires multiset(xs) == multiset(ys)
    ensures ArraysEqualUnordered(List(xs), b) == ArraysEqualUnordered(List(ys), b)
  {
    ArraysEqualUnorderedMeans(List(xs), b);
    ArraysEqualUnorderedMeans(List(ys), b);
  }

  /** `arraysEqualOrdered(a, b)`: false when `a` is missing or the lengths
      differ, then `===` position by position, without trimming or case folding. */
  method ArraysEqualOrdered(a: Answer, b: seq<string>) returns (r: bool)
    ensures r <==> Indexed(a).Some? && |Indexed(a).value| == |b| &&
                   forall i :: 0 <= i < |b| ==> Indexed(a).value[i] == b[i]
  {
    var view := Indexed(a);
    if view.None? || |view.value| != |b| {
      return false;
    }
    var xs := view.value;
    var i := 0;
    while i < |xs|
      invariant 0 <= i <= |xs|
      invariant forall k :: 0 <= k < i ==> xs[k] == b[k]
    {
      if xs[i] != b[i] {
        assert Indexed(a).value[i] != b[i];
        return false;
      }
      i := i + 1;
    }
    return true;
  }

  /** Position-by-position equality is sequence equality. */
  predicate OrderedEqual(a: Answer, b: seq<string>) {
    Indexed(a) == Some(b)
  }

  lemma OrderedEqualMeans(a: Answer, b: seq<string>)
    ensures OrderedEqual(a, b) <==> Indexed(a).Some? && |Indexed(a).value| == |b| &&
                                    forall i :: 0 <= i < |b| ==> Indexed(a).value[i] == b[i]
  {
    if Indexed(a).Some? && |Indexed(a).value| == |b| && forall i :: 0 <= i < |b| ==> Indexed(a).value[i] == b[i] {
      assert Indexed(a).value == b;
    }
  }

  // ------------------------------------------------------ evaluation

  /** `{ isCorrect, answeredIdk }`. `isCorrect` is `None` for JavaScript
      `null`; the falsy `""` the choice evaluator can produce is `Some(false)`,
      which is how the result screen reads it. */
  datatype Evaluation = Evaluation(isCorrect: Option<bool>, answeredIdk: bool)

  /** The expected-answer test: the kind's correct answer is non-empty. */
  predicate AnswerExpected(b: Body) {
    match b
    case SingleChoiceQ(_, ca) => ca != []
    case TrueFalseQ(_, ca) => ca != []
    case MultipleChoiceQ(_, cas) => cas != []
    case ExactAnswerQ(ans) => Trim(ans) != []
    case MatchingQ(_, _, m) => m != map[]
    case OrderingQ(_, co) => co != []
    case SentenceQ(_, ws) => ws != []
    case BasicQ(_) => false
  }

  /** The don't-know flag after inference: for every kind but basic, an empty
      answer where one was expected counts as "I don't know". */
  function InferIdk(b: Body, ua: Answer, idk: bool): bool {
    if b.BasicQ? then idk else idk || (IsFunctionallyEmpty(ua) && AnswerExpected(b))
  }

  /** `userAnswer && userAnswer[0] === q.correctAnswer`. */
  function ChoiceGrade(ua: Answer, ca: string): Option<bool> {
    if ua.Null? then None
    else if !Truthy(ua) then Some(false)
    else Some(First(ua) == Some(ca))
  }

  /** The exact-answer text: `userAnswer[0]` when that is a non-empty string, else `""`. */
  function ExactText(ua: Answer): string {
    if Truthy(ua) && First(ua).Some? && First(ua).value != [] then First(ua).value else ""
  }

  /** `correctAnswersMap[key]`; `None` is `undefined`. */
  function Lookup(m: map<string, string>, key: string): Option<string> {
    if key in m then Some(m[key]) else None
  }

  /** `userAnswer[l.id] === q.correctAnswersMap[l.id]`: two missing values are equal. */
  predicate PairCorrect(ua: Answer, m: map<string, string>, l: Opt) {
    Prop(ua, l.id) == Lookup(m, l.id)
  }

  /** The number of left items whose pair is correct. */
  function CorrectMatches(ua: Answer, left: seq<Opt>, m: map<string, string>): (n: nat)
    ensures n <= |left|
  {
    if left == [] then 0
    else CorrectMatches(ua, left[..|left| - 1], m) + (if PairCorrect(ua, m, left[|left| - 1]) then 1 else 0)
  }

  /** Every left item is counted exactly when every pair is correct. */
  lemma {:induction false} CorrectMatchesAll(ua: Answer, left: seq<Opt>, m: map<string, string>)
    ensures CorrectMatches(ua, left, m) == |left| <==> forall i :: 0 <= i < |left| ==> PairCorrect(ua, m, left[i])
  {
    if left != [] {
      var init := left[..|left| - 1];
      CorrectMatchesAll(ua, init, m);
      assert forall i :: 0 <= i < |init| ==> init[i] == left[i];
    }
  }

  /** The matching verdict: a truthy response with exactly one key per left
      item, every one of them correct. */
  function MatchingGrade(ua: Answer, left: seq<Opt>, m: map<string, string>): bool {
    Truthy(ua) && KeyCount(ua) == |left| && CorrectMatches(ua, left, m) == |left|
  }

  /** The verdict of the kind's evaluator, for an answer not marked "I don't know". */
  function Grade(b: Body, ua: Answer): Option<bool> {
    match b
    case SingleChoiceQ(_, ca) => ChoiceGrade(ua, ca)
    case TrueFalseQ(_, ca) => ChoiceGrade(ua, ca)
    case MultipleChoiceQ(_, cas) => Some(ArraysEqualUnordered(ua, cas))
    case ExactAnswerQ(ans) => Some(Lower(Trim(ExactText(ua))) == Lower(Trim(ans)))
    case MatchingQ(left, _, m) => Some(MatchingGrade(ua, left, m))
    case OrderingQ(_, co) => Some(OrderedEqual(ua, co))
    case SentenceQ(_, ws) => Some(OrderedEqual(ua, ws))
    case BasicQ(_) => None
  }

  /** The result of `evaluateAnswer(q, {answer: ua, idk})`. */
  function Evaluate(b: Body, ua: Answer, idk: bool): Evaluation {
    var answeredIdk := InferIdk(b, ua, idk);
    var isCorrect := if b.BasicQ? then None else if answeredIdk then Some(false) else Grade(b, ua);
    Evaluation(isCorrect, answeredIdk)
  }

  /** The matching loop: counts the left items whose pair is correct. */
  method CountCorrectMatches(ua: Answer, left: seq<Opt>, m: map<string, string>) returns (n: nat)
    ensures n == CorrectMatches(ua, left, m)
  {
    n := 0;
    for i := 0 to |left|
      invariant n == CorrectMatches(ua, left[..i], m)
    {
      assert left[..i + 1][..i] == left[..i];
      if Prop(ua, left[i].id) == Lookup(m, left[i].id) {
        n := n + 1;
      }
    }
    assert left[..|left|] == left;
  }

  /** `evaluateAnswer`: infers the don't-know flag on a local copy (the
      caller's flag is a value and stays as it was), then grades. */
  method EvaluateAnswer(q: Question, ua: Answer, idk: bool) returns (ev: Evaluation)
    ensures ev == Evaluate(q.body, ua, idk)
  {
    var answeredIdk := idk;
    if !q.body.BasicQ? {
      var isEmpty := IsFunctionallyEmpty(ua);
      var expected := AnswerExpected(q.body);
      if !answeredIdk && isEmpty && expected {
        answeredIdk := true;
      }
    }
    var isCorrect: Option<bool>;
    if q.body.BasicQ? {
      isCorrect := None;
    } else if answeredIdk {
      isCorrect := Some(false);
    } else {
      match q.body {
        case SingleChoiceQ(_, ca) => isCorrect := ChoiceGrade(ua, ca);
        case TrueFalseQ(_, ca) => isCorrect := ChoiceGrade(ua, ca);
        case MultipleChoiceQ(_, cas) => isCorrect := Some(ArraysEqualUnordered(ua, cas));
        case ExactAnswerQ(ans) =>
          var text := ExactText(ua);
          isCorrect := Some(Lower(Trim(text)) == Lower(Trim(ans)));
        case MatchingQ(left, _, m) =>
          if !Truthy(ua) {
            isCorrect := Some(false);
          } else if KeyCount(ua) == |left| {
            var correct := CountCorrectMatches(ua, left, m);
            isCorrect := Some(correct == |left|);
          } else {
            isCorrect := Some(false);
          }
        case OrderingQ(_, co) =>
          var same := ArraysEqualOrdered(ua, co);
          OrderedEqualMeans(ua, co);
          isCorrect := Some(same);
        case SentenceQ(_, ws) =>
          var same := ArraysEqualOrdered(ua, ws);
          OrderedEqualMeans(ua, ws);
          isCorrect := Some(same);
      }
    }
    ev := Evaluation(isCorrect, answeredIdk);
  }

  // ------------------------------------------------------ properties

  /** A basic card is never graded and its flag is never inferred; on
      every other kind "I don't know" means incorrect. */
  lemma BasicAndIdk(b: Body, ua: Answer, idk: bool)
    ensures b.BasicQ? ==> Evaluate(b, ua, idk) == Evaluation(None, idk)
    ensures !b.BasicQ? && Evaluate(b, ua, idk).answeredIdk ==> Evaluate(b, ua, idk).isCorrect == Some(false)
    ensures idk ==> Evaluate(b, ua, idk).answeredIdk
  {
  }

  /** The inference fires exactly on an empty answer where one was expected. */
  lemma IdkInference(b: Body, ua: Answer)
    requires !b.BasicQ?
    ensures Evaluate(b, ua, false).answeredIdk <==> IsFunctionallyEmpty(ua) && AnswerExpected(b)
  {
  }

  lemma EmptyAnswerText(ua: Answer)
    requires IsFunctionallyEmpty(ua)
    ensures ExactText(ua) == ""
  {
  }

  /** The exact-answer evaluation, unfolded. */
  lemma ExactEvaluation(ans: string, ua: Answer)
    ensures Evaluate(ExactAnswerQ(ans), ua, false) ==
              var idk := IsFunctionallyEmpty(ua) && Trim(ans) != [];
              Evaluation(Some(!idk && Lower(Trim(ExactText(ua))) == Lower(Trim(ans))), idk)
  {
  }

  /** A blank text never equals a non-blank expected answer. */
  lemma BlankNeverMatches(ans: string)
    requires Trim(ans) != []
    ensures Lower(Trim("")) != Lower(Trim(ans))
  {
    TrimEmpty();
  }

  /** Exact answer: correct exactly when the trimmed lowercased texts agree. */
  lemma ExactAnswerCorrect(ans: string, ua: Answer)
    ensures Evaluate(ExactAnswerQ(ans), ua, false).isCorrect == Some(true) <==>
              Trim(Lower(ExactText(ua))) == Trim(Lower(ans))
  {
    ExactEvaluation(ans, ua);
    LowerTrimCommute(ExactText(ua));
    LowerTrimCommute(ans);
    if IsFunctionallyEmpty(ua) && Trim(ans) != [] {
      EmptyAnswerText(ua);
      BlankNeverMatches(ans);
    }
  }

  /** Matching: correct exactly when the response has one key per left item
      and every left id carries its expected right id (both missing also
      agree); fewer pairs than left items is never correct. */
  lemma MatchingCorrect(left: seq<Opt>, right: seq<Opt>, m: map<string, string>, ua: Answer)
    requires !Evaluate(MatchingQ(left, right, m), ua, false).answeredIdk
    ensures Evaluate(MatchingQ(left, right, m), ua, false).isCorrect == Some(true) <==>
              Truthy(ua) && KeyCount(ua) == |left| && forall i :: 0 <= i < |left| ==> PairCorrect(ua, m, left[i])
    ensures Truthy(ua) && KeyCount(ua) < |left| ==> Evaluate(MatchingQ(left, right, m), ua, false).isCorrect == Some(false)
  {
    CorrectMatchesAll(ua, left, m);
  }

  /** Multiple choice ignores order: correct exactly when the response holds
      the same strings as the correct list, as a multiset. */
  lemma MultipleChoiceCorrect(opts: seq<Opt>, cas: seq<string>, ua: Answer)
    requires !Evaluate(MultipleChoiceQ(opts, cas), ua, false).answeredIdk
    ensures Evaluate(MultipleChoiceQ(opts, cas), ua, false).isCorrect == Some(true) <==>
              Indexed(ua).Some? && multiset(Indexed(ua).value) == multiset(cas)
  {
    ArraysEqualUnorderedMeans(ua, cas);
  }

  /** Ordering and sentence formation are strict: correct exactly when the
      response is the correct list, position by position. */
  lemma OrderedKindsCorrect(items: seq<Opt>, words: seq<string>, expected: seq<string>, ua: Answer)
    requires !Evaluate(OrderingQ(items, expected), ua, false).answeredIdk
    ensures Evaluate(OrderingQ(items, expected), ua, false).isCorrect == Some(true) <==> Indexed(ua) == Some(expected)
    ensures Evaluate(SentenceQ(words, expected), ua, false).isCorrect == Some(true) <==> Indexed(ua) == Some(expected)
  {
  }

  /** Single choice and true/false: correct exactly when the first element of
      a truthy response is the correct id; a `null` response yields `null`
      when no answer was expected. */
  lemma ChoiceCorrect(opts: seq<Opt>, ca: string, ua: Answer)
    requires !Evaluate(SingleChoiceQ(opts, ca), ua, false).answeredIdk
    ensures Evaluate(SingleChoiceQ(opts, ca), ua, false).isCorrect == Some(true) <==> Truthy(ua) && First(ua) == Some(ca)
    ensures ua.Null? ==> ca == [] && Evaluate(SingleChoiceQ(opts, ca), ua, false).isCorrect == None
  {
  }
}
