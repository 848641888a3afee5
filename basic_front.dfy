/** The question builder of the basic (non-cloze) card: `parseFields` of
    the front script, of which the back script carries a copy that computes
    the same question from the same fields. */
module BasicFront {
  import opened Wrappers
  import opened JsText
  import opened FieldGrammar
  import opened QuizKind
  import opened MapFill

  /** The raw card fields; an absent field is the empty string. */
  datatype Fields = Fields(tags: string, question: string, hints: string,
                           options: string, answer: string, explanation: string)

  /** A hint: its title and, when the hint has a `<br>`, the content after it. */
  datatype Hint = Hint(title: string, content: Option<string>)

  /** No explanation (empty field), one general text, or one text per option id. */
  datatype Explanation = NoExplanation | General(text: string) | PerOption(byId: map<string, string>)

  /** The per-kind part of the question. */
  datatype Body =
    | SingleChoiceQ(options: seq<Opt>, correctAnswer: string)
    | TrueFalseQ(options: seq<Opt>, correctAnswer: string)
    | MultipleChoiceQ(options: seq<Opt>, correctAnswers: seq<string>)
    | ExactAnswerQ(answer: string)
    | MatchingQ(leftOptions: seq<Opt>, rightOptions: seq<Opt>, correctAnswersMap: map<string, string>)
    | OrderingQ(allOptions: seq<Opt>, correctOrder: seq<string>)
    | SentenceQ(wordBankOptions: seq<string>, correctSentenceWords: seq<string>)
    | BasicQ(answer: string)
  {
    /** The kind a body is for. */
    function Kind(): Kind {
      match this
      case SingleChoiceQ(_, _) => SingleChoice
      case TrueFalseQ(_, _) => TrueFalse
      case MultipleChoiceQ(_, _) => MultipleChoice
      case ExactAnswerQ(_) => ExactAnswer
      case MatchingQ(_, _, _) => Matching
      case OrderingQ(_, _) => Ordering
      case SentenceQ(_, _) => SentenceFormation
      case BasicQ(_) => Basic
    }
  }

  datatype Question = Question(text: string, tags: seq<string>, hints: seq<Hint>,
                               explanation: Explanation, body: Body)

  // ---------------------------------------------------------------- tags

  /** The kind: the first tag the table knows, `basic` when none. */
  function TagKind(tags: seq<string>): Kind {
    KindAt(BasicTable, tags, FirstTypeTag(BasicTable, tags))
  }

  /** Every tag except the one that fixed the kind, `_` shown as a space. */
  function ThematicTags(tags: seq<string>): seq<string> {
    var first := FirstTypeTag(BasicTable, tags);
    if first.Some? then UnderscoresAll(tags[..first.value] + tags[first.value + 1..])
    else UnderscoresAll(tags)
  }

  lemma {:induction false} FirstTypeTagSnoc(table: string -> Option<Kind>, tags: seq<string>, t: string)
    ensures FirstTypeTag(table, tags + [t]) ==
              if FirstTypeTag(table, tags).Some? then FirstTypeTag(table, tags)
              else if IsTypeTag(table, t) then Some(|tags|) else None
  {
    if tags != [] {
      assert (tags + [t])[1..] == tags[1..] + [t];
      FirstTypeTagSnoc(table, tags[1..], t);
    }
  }

  /** Appending a tag to the list appends it to the thematic tags, unless it
      is the first type tag. */
  lemma ThematicTagsSnoc(tags: seq<string>, t: string)
    ensures ThematicTags(tags + [t]) ==
              ThematicTags(tags) + (if FirstTypeTag(BasicTable, tags).None? && IsTypeTag(BasicTable, t)
                                    then [] else [UnderscoresToSpaces(t)])
  {
    FirstTypeTagSnoc(BasicTable, tags, t);
    var first := FirstTypeTag(BasicTable, tags);
    if first.Some? {
      var i := first.value;
      DropSnoc(tags, i, t);
      UnderscoresAllSnoc(tags[..i] + tags[i + 1..], t);
    } else if IsTypeTag(BasicTable, t) {
      DropSnoc(tags, |tags|, t);
    } else {
      UnderscoresAllSnoc(tags, t);
    }
  }

  /** Dropping position `i` commutes with appending after it. */
  lemma DropSnoc<T>(xs: seq<T>, i: nat, t: T)
    requires i <= |xs|
    ensures i < |xs| ==> (xs + [t])[..i] + (xs + [t])[i + 1..] == (xs[..i] + xs[i + 1..]) + [t]
    ensures i == |xs| ==> (xs + [t])[..i] + (xs + [t])[i + 1..] == xs
  {
  }

  lemma UnderscoresAllSnoc(tags: seq<string>, t: string)
    ensures UnderscoresAll(tags + [t]) == UnderscoresAll(tags) + [UnderscoresToSpaces(t)]
  {
  }

  /** The kind detected so far: the one of the first type tag, if any. */
  function Detected(tags: seq<string>): Option<Kind> {
    var first := FirstTypeTag(BasicTable, tags);
    if first.Some? then Some(KindAt(BasicTable, tags, first)) else None
  }

  /** One more tag: it fixes the kind exactly when none was detected yet and
      the table knows it. */
  lemma DetectedSnoc(tags: seq<string>, t: string)
    ensures Detected(tags + [t]) ==
              if Detected(tags).None? && BasicTable(Lower(t)).Some? then BasicTable(Lower(t)) else Detected(tags)
  {
    FirstTypeTagSnoc(BasicTable, tags, t);
    var first := FirstTypeTag(BasicTable, tags);
    if first.Some? {
      assert (tags + [t])[first.value] == tags[first.value];
    }
  }

  /** One step of the tag loop, in the terms the loop tests. */
  lemma TagStep(tags: seq<string>, t: string)
    ensures var fixes := Detected(tags).None? && BasicTable(Lower(t)).Some?;
            Detected(tags + [t]) == (if fixes then BasicTable(Lower(t)) else Detected(tags)) &&
            ThematicTags(tags + [t]) == ThematicTags(tags) + (if fixes then [] else [UnderscoresToSpaces(t)])
  {
    DetectedSnoc(tags, t);
    ThematicTagsSnoc(tags, t);
  }

  /** The tag loop over the words of the tags field: the first known tag
      fixes the kind; every other tag, later type codes included, is pushed
      as a thematic tag. */
  method ParseTags(tags: seq<string>) returns (kind: Kind, thematic: seq<string>)
    ensures kind == TagKind(tags) && thematic == ThematicTags(tags)
  {
    var detected: Option<Kind> := None;
    thematic := [];
    var j := 0;
    assert tags[..0] == [];
    TagsEmpty();
    while j < |tags|
      invariant 0 <= j <= |tags|
      invariant detected == Detected(tags[..j])
      invariant thematic == ThematicTags(tags[..j])
    {
      ghost var prefix := tags[..j];
      assert tags[..j + 1] == prefix + [tags[j]];
      TagStep(prefix, tags[j]);
      var code := BasicTable(Lower(tags[j]));
      if code.Some? && detected.None? {
        detected := code;
      } else {
        thematic := thematic + [UnderscoresToSpaces(tags[j])];
      }
      assert thematic == ThematicTags(prefix + [tags[j]]);
      j := j + 1;
    }
    assert tags[..j] == tags;
    DetectedKind(tags);
    kind := if detected.Some? then detected.value else Basic;
  }

  lemma TagsEmpty()
    ensures Detected([]) == None && ThematicTags([]) == []
  {
  }

  lemma DetectedKind(tags: seq<string>)
    ensures TagKind(tags) == if Detected(tags).Some? then Detected(tags).value else Basic
  {
  }

  /** The first type tag wins; a later type tag such as `sc` stays a thematic tag. */
  lemma TagsFirstWinsExample()
    ensures TagKind(["mc", "sc", "a_b"]) == MultipleChoice
    ensures ThematicTags(["mc", "sc", "a_b"]) == ["sc", "a b"]
  {
    var tags := ["mc", "sc", "a_b"];
    assert Lower("mc") == "mc" by { assert Lower("mc")[0] == 'm' && Lower("mc")[1] == 'c'; }
    assert FirstTypeTag(BasicTable, tags) == Some(0);
    assert tags[..0] + tags[1..] == ["sc", "a_b"];
    assert UnderscoresToSpaces("a_b") == "a b" by {
      var u := UnderscoresToSpaces("a_b");
      assert u[0] == 'a' && u[1] == ' ' && u[2] == 'b';
    }
    assert UnderscoresToSpaces("sc") == "sc" by {
      var u := UnderscoresToSpaces("sc");
      assert u[0] == 's' && u[1] == 'c';
    }
  }

  /** Exactly one tag is consumed by the kind when a type tag is present,
      and the thematic tags keep the order of the others. */
  lemma ThematicTagsCount(tags: seq<string>)
    ensures |ThematicTags(tags)| == |tags| - (if FirstTypeTag(BasicTable, tags).Some? then 1 else 0)
    ensures FirstTypeTag(BasicTable, tags).None? ==> TagKind(tags) == Basic
    ensures forall j :: 0 <= j < |tags| && Some(j) != FirstTypeTag(BasicTable, tags) ==>
              UnderscoresToSpaces(tags[j]) in ThematicTags(tags)
  {
    var first := FirstTypeTag(BasicTable, tags);
    if first.Some? {
      var i := first.value;
      var rest := tags[..i] + tags[i + 1..];
      forall j | 0 <= j < |tags| && j != i ensures UnderscoresToSpaces(tags[j]) in ThematicTags(tags) {
        var k := if j < i then j else j - 1;
        DropIndex(tags, i, j);
        assert ThematicTags(tags)[k] == UnderscoresToSpaces(tags[j]);
      }
    } else {
      forall j | 0 <= j < |tags| ensures UnderscoresToSpaces(tags[j]) in ThematicTags(tags) {
        assert ThematicTags(tags)[j] == UnderscoresToSpaces(tags[j]);
      }
    }
  }

  /** After dropping position `i`, an element of another position `j` sits
      at `j` or one place earlier. */
  lemma DropIndex<T>(xs: seq<T>, i: nat, j: nat)
    requires i < |xs| && j < |xs| && j != i
    ensures var k := if j < i then j else j - 1;
            k < |xs| - 1 && (xs[..i] + xs[i + 1..])[k] == xs[j]
  {
  }

  // --------------------------------------------------------------- hints

  /** The length of a `<br>` tag (regex `<br\s*\/?>`, any letter case) at `i`. */
  function BrTagAt(s: string, i: nat): (n: Option<nat>)
    ensures n.Some? ==> i + n.value <= |s| && n.value >= 4
  {
    if i + 3 <= |s| && s[i] == '<' && LowerChar(s[i + 1]) == 'b' && LowerChar(s[i + 2]) == 'r' then
      var p := i + 3 + LeadingSpaces(s[i + 3..], 0);
      if p < |s| && s[p] == '>' then Some(p + 1 - i)
      else if p + 1 < |s| && s[p] == '/' && s[p + 1] == '>' then Some(p + 2 - i)
      else None
    else None
  }

  /** `s.split(/<br\s*\/?>/i)`, scanning from `k`. */
  function SplitBrFrom(s: string, k: nat): (parts: seq<string>)
    requires k <= |s|
    ensures |parts| >= 1
    decreases |s|, |s| - k
  {
    if k == |s| then [s]
    else match BrTagAt(s, k)
      case Some(n) => [s[..k]] + SplitBrFrom(s[k + n..], 0)
      case None => SplitBrFrom(s, k + 1)
  }

  predicate NoBrFrom(s: string, k: nat) {
    forall i :: k <= i <= |s| ==> BrTagAt(s, i).None?
  }

  lemma {:induction false} SplitBrNoTag(s: string, k: nat)
    requires k <= |s| && NoBrFrom(s, k)
    ensures SplitBrFrom(s, k) == [s]
    decreases |s| - k
  {
    if k < |s| { SplitBrNoTag(s, k + 1); }
  }

  /** One hint piece: blank pieces are dropped; the title is what comes
      before the first `<br>`, the content the rest, rejoined with `<br>`. */
  function HintOf(piece: string): (h: Option<Hint>)
    ensures h.None? <==> Trim(piece) == []
  {
    var t := Trim(piece);
    if t == [] then None
    else
      var parts := SplitBrFrom(t, 0);
      Some(Hint(Trim(parts[0]), if |parts| > 1 then Some(Trim(Join(parts[1..], "<br>"))) else None))
  }

  function HintsOf(pieces: seq<string>): seq<Hint> {
    if pieces == [] then []
    else match HintOf(pieces[0])
      case Some(h) => [h] + HintsOf(pieces[1..])
      case None => HintsOf(pieces[1..])
  }

  /** The `|`-separated hints field. */
  function Hints(raw: string): seq<Hint> {
    HintsOf(Split(raw, IsPipe))
  }

  /** One hint per non-blank piece. */
  lemma {:induction false} HintsCount(pieces: seq<string>)
    ensures |HintsOf(pieces)| == |NonEmpty(TrimAll(pieces))|
  {
    if pieces != [] {
      HintsCount(pieces[1..]);
      assert TrimAll(pieces)[1..] == TrimAll(pieces[1..]);
    }
  }

  /** A hint without a `<br>` is all title. */
  lemma HintWithoutBr(piece: string)
    requires Trim(piece) != [] && NoBrFrom(Trim(piece), 0)
    ensures HintOf(piece) == Some(Hint(Trim(piece), None))
  {
    SplitBrNoTag(Trim(piece), 0);
    TrimIdempotent(piece);
  }

  // -------------------------------------------------------- explanations

  /** One explanation segment that matches the id pattern with non-blank
      text: its id and its text with literal `\n` as `<br>`. */
  function ExplPart(part: string): Option<(string, string)> {
    var m := MatchIdToken(Trim(part));
    if m.Some? && m.value.rest != [] && Trim(m.value.rest) != []
    then Some((Trim(m.value.id), EscapedNewlinesToBr(Trim(m.value.rest))))
    else None
  }

  /** One turn of the explanation loop on a valid segment. */
  lemma ExplLoopStep(parts: seq<string>, i: nat)
    requires i < |parts| && (forall k :: 0 <= k < i ==> ExplPart(parts[k]).Some?) && ExplPart(parts[i]).Some?
    ensures forall k :: 0 <= k < i + 1 ==> ExplPart(parts[k]).Some?
    ensures Fill(parts[..i + 1], ExplPart) == Put(Fill(parts[..i], ExplPart), ExplPart(parts[i]))
  {
    FillStep(parts, ExplPart, i);
  }

  /** Whether the field looks like per-option explanations at all. */
  predicate ExplGate(parts: seq<string>) {
    |parts| > 1 || (|parts| == 1 && HasIdPrefix(Trim(parts[0])))
  }

  predicate AllExplPartsValid(parts: seq<string>) {
    forall i :: 0 <= i < |parts| ==> ExplPart(parts[i]).Some?
  }

  /** The explanation the builder keeps. */
  function ExplanationOf(expl: string): Explanation {
    if expl == [] then NoExplanation
    else
      var parts := Split(expl, IsPipe);
      if ExplGate(parts) && AllExplPartsValid(parts) && |Fill(parts, ExplPart)| > 0
      then PerOption(Fill(parts, ExplPart))
      else General(EscapedNewlinesToBr(expl))
  }

  /** The explanation loop: it gives up at the first segment that fails. */
  method ParseExplanation(expl: string) returns (e: Explanation)
    ensures e == ExplanationOf(expl)
  {
    if expl == [] {
      return NoExplanation;
    }
    var parts := Split(expl, IsPipe);
    var allValid := true;
    var found: map<string, string> := map[];
    if |parts| > 1 || (|parts| == 1 && HasIdPrefix(Trim(parts[0]))) {
      var i := 0;
      while i < |parts|
        invariant 0 <= i <= |parts|
        invariant allValid
        invariant forall k :: 0 <= k < i ==> ExplPart(parts[k]).Some?
        invariant found == Fill(parts[..i], ExplPart)
      {
        var p := ExplPart(parts[i]);
        if p.Some? {
          ExplLoopStep(parts, i);
          found := found[p.value.0 := p.value.1];
        } else {
          allValid := false;
          break;
        }
        i := i + 1;
      }
      if allValid {
        assert parts[..i] == parts;
      }
    } else {
      allValid := false;
    }
    if allValid && |found| > 0 {
      e := PerOption(found);
    } else {
      e := General(EscapedNewlinesToBr(expl));
    }
  }

  /** The explanation is per option exactly when the field looks like it and
      every segment, empty ones included, carries an id and non-blank text;
      otherwise the whole field is the general text. */
  lemma ExplanationCases(expl: string)
    ensures expl == [] <==> ExplanationOf(expl) == NoExplanation
    ensures ExplanationOf(expl).PerOption? ==>
              ExplGate(Split(expl, IsPipe)) && AllExplPartsValid(Split(expl, IsPipe))
    ensures expl != [] && ExplGate(Split(expl, IsPipe)) && AllExplPartsValid(Split(expl, IsPipe)) ==>
              ExplanationOf(expl).PerOption?
    ensures expl != [] && !(ExplGate(Split(expl, IsPipe)) && AllExplPartsValid(Split(expl, IsPipe))) ==>
              ExplanationOf(expl) == General(EscapedNewlinesToBr(expl))
  {
    var parts := Split(expl, IsPipe);
    if expl != [] && ExplGate(parts) && AllExplPartsValid(parts) {
      // the first segment is valid, so its id is a key of the filled object
      var first := ExplPart(parts[0]).value;
      assert EntryAt(parts, ExplPart, 0, first.0, first.1);
      FillKeys(parts, ExplPart, first.0);
      assert first.0 in Fill(parts, ExplPart);
    }
  }

  /** A segment without an id makes the whole explanation general. */
  lemma GeneralExplanationExample()
    ensures ExplanationOf("See map") == General("See map")
  {
    var s := "See map";
    var parts := Split(s, IsPipe);
    assert parts == [s] by {
      assert forall i :: 0 <= i < |s| ==> !IsPipe(s[i]);
      assert SplitFrom(s, IsPipe, 0) == [s] by { SplitFromNoSep(s, IsPipe, 0); }
    }
    assert !HasIdPrefix(Trim(s)) by {
      TrimKeepsSolidEnds(s);
      assert forall k :: 0 <= k < |s| ==> !IsIdDelim(s[k]);
      LastIdDelimMeans(s, |s| - 1);
    }
    EscapedNewlinesWithoutBackslash(s);
  }

  lemma {:induction false} SplitFromNoSep(s: string, isSep: char -> bool, k: nat)
    requires k <= |s| && forall i :: 0 <= i < |s| ==> !isSep(s[i])
    ensures SplitFrom(s, isSep, k) == [s]
    decreases |s| - k
  {
    if k < |s| { SplitFromNoSep(s, isSep, k + 1); }
  }

  // ------------------------------------------------------------- options

  /** `pieces.map(parseOpt).filter(Boolean)`. */
  function OptsOf(pieces: seq<string>): (r: seq<Opt>)
    ensures |r| <= |pieces|
  {
    if pieces == [] then []
    else
      match ParseOpt(pieces[0])
      case Some(o) => [o] + OptsOf(pieces[1..])
      case None => OptsOf(pieces[1..])
  }

  /** Every parsed option has a non-empty id and text, and its value is its id. */
  lemma {:induction false} OptsOfShape(pieces: seq<string>)
    ensures forall o :: o in OptsOf(pieces) ==> o.id != [] && o.text != [] && o.id == o.value
  {
    if pieces != [] {
      OptsOfShape(pieces[1..]);
      ParseOptShape(pieces[0]);
    }
  }

  /** `opts.split('|').map(parseOpt).filter(Boolean)`. */
  function ParseOptions(opts: string): seq<Opt> {
    OptsOf(Split(opts, IsPipe))
  }

  /** `/^\d+$/.test(id)`: a right-hand item of a matching question. */
  predicate IsRightId(id: string) { id != [] && AllDigits(id) }

  /** `/^[a-zA-Z]/.test(id)` on an id that is not all digits: a left-hand item. */
  predicate IsLeftId(id: string) { !IsRightId(id) && id != [] && IsAsciiLetter(id[0]) }

  function RightItems(all: seq<Opt>): (r: seq<Opt>)
    ensures |r| <= |all|
  {
    if all == [] then []
    else RightItems(all[..|all| - 1]) + (if IsRightId(all[|all| - 1].id) then [all[|all| - 1]] else [])
  }

  function LeftItems(all: seq<Opt>): (r: seq<Opt>)
    ensures |r| <= |all|
  {
    if all == [] then []
    else LeftItems(all[..|all| - 1]) + (if IsLeftId(all[|all| - 1].id) then [all[|all| - 1]] else [])
  }

  /** The right-hand side keeps exactly the options with an all-digit id,
      the left-hand side exactly those with a letter-initial id that is not
      all digits; an option is never on both sides. */
  lemma {:induction false} SidesMembers(all: seq<Opt>)
    ensures forall o :: o in RightItems(all) <==> o in all && IsRightId(o.id)
    ensures forall o :: o in LeftItems(all) <==> o in all && IsLeftId(o.id)
    ensures forall o :: !(o in LeftItems(all) && o in RightItems(all))
  {
    if all != [] {
      var n := |all| - 1;
      SidesMembers(all[..n]);
      assert all == all[..n] + [all[n]];
    }
  }

  /** The `forEach` that pushes each option to the side its id selects and
      drops the options whose id is neither all digits nor letter-initial. */
  method PartitionMatching(all: seq<Opt>) returns (left: seq<Opt>, right: seq<Opt>)
    ensures left == LeftItems(all) && right == RightItems(all)
  {
    left, right := [], [];
    var i := 0;
    while i < |all|
      invariant 0 <= i <= |all|
      invariant left == LeftItems(all[..i]) && right == RightItems(all[..i])
    {
      assert all[..i + 1][..i] == all[..i];
      var o := all[i];
      if IsRightId(o.id) {
        right := right + [o];
      } else if |o.id| > 0 && IsAsciiLetter(o.id[0]) {
        left := left + [o];
      }
      i := i + 1;
    }
    assert all[..i] == all;
  }

  /** One `left-right` pair of the answer field, as a map entry: the
      piece must split on `-` into exactly two parts. */
  function PairEntry(piece: string): Option<(string, string)> {
    var parts := Split(Trim(piece), IsDash);
    if |parts| == 2 then Some((CleanId(parts[0]), Trim(parts[1]))) else None
  }

  /** `ans.split(/[;,]/).forEach(...)` filling `correctAnswersMap`. */
  method ParsePairs(ans: string) returns (m: map<string, string>)
    ensures m == Fill(Split(ans, IsPairSeparator), PairEntry)
  {
    var pieces := Split(ans, IsPairSeparator);
    m := map[];
    var i := 0;
    while i < |pieces|
      invariant 0 <= i <= |pieces|
      invariant m == Fill(pieces[..i], PairEntry)
    {
      FillStep(pieces, PairEntry, i);
      var parts := Split(Trim(pieces[i]), IsDash);
      if |parts| == 2 {
        m := m[CleanId(parts[0]) := Trim(parts[1])];
      }
      i := i + 1;
    }
    assert pieces[..i] == pieces;
  }

  /** `ans.split(',').map(cleanId).filter(Boolean)`. */
  function CleanIdsOf(pieces: seq<string>): (r: seq<string>)
    ensures |r| <= |pieces|
  {
    if pieces == [] then []
    else if CleanId(pieces[0]) == [] then CleanIdsOf(pieces[1..])
    else [CleanId(pieces[0])] + CleanIdsOf(pieces[1..])
  }

  /** Piece `i` cleans to `x`. */
  predicate CleanedAt(pieces: seq<string>, i: int, x: string) {
    0 <= i < |pieces| && CleanId(pieces[i]) == x
  }

  /** The list holds exactly the non-empty cleaned pieces. */
  lemma {:induction false} CleanIdsOfMembers(pieces: seq<string>, x: string)
    ensures x in CleanIdsOf(pieces) <==> x != [] && exists i :: CleanedAt(pieces, i, x)
  {
    if pieces != [] {
      var tail := pieces[1..];
      CleanIdsOfMembers(tail, x);
      if exists i :: CleanedAt(pieces, i, x) {
        var i :| CleanedAt(pieces, i, x);
        if i > 0 {
          assert CleanedAt(tail, i - 1, x);
        }
      }
      if exists i :: CleanedAt(tail, i, x) {
        var i :| CleanedAt(tail, i, x);
        assert CleanedAt(pieces, i + 1, x);
      }
      if x == CleanId(pieces[0]) {
        assert CleanedAt(pieces, 0, x);
      }
    }
  }

  function CleanIdList(ans: string): seq<string> {
    CleanIdsOf(Split(ans, IsComma))
  }

  /** The answer field of a true/false card names `'true'` or not. */
  function TrueFalseAnswer(ans: string): (r: string)
    ensures r == "true" || r == "false"
    ensures r == "true" <==> Trim(Lower(ans)) == "true"
  {
    if Trim(Lower(ans)) == "true" then "true" else "false"
  }

  /** The two options a true/false card always offers, whatever its options field. */
  const TrueFalseOptions: seq<Opt> := [Opt("true", "True", "true"), Opt("false", "False", "false")]

  // ------------------------------------------------------------ question

  /** The per-kind part, from the options and answer fields. */
  function BodyOf(kind: Kind, opts: string, ans: string): (b: Body)
  {
    match kind
    case SingleChoice => SingleChoiceQ(ParseOptions(opts), CleanId(ans))
    case TrueFalse => TrueFalseQ(TrueFalseOptions, TrueFalseAnswer(ans))
    case MultipleChoice => MultipleChoiceQ(ParseOptions(opts), CleanIdList(ans))
    case ExactAnswer => ExactAnswerQ(ans)
    case Matching =>
      var all := ParseOptions(opts);
      MatchingQ(LeftItems(all), RightItems(all), Fill(Split(ans, IsPairSeparator), PairEntry))
    case Ordering => OrderingQ(ParseOptions(opts), CleanIdList(ans))
    case SentenceFormation => SentenceQ(NonEmpty(TrimAll(Split(opts, IsPipe))), Words(ans))
    case Basic => BasicQ(ans)
  }

  /** The question `parseFields` returns for the given fields. */
  function QuestionOf(f: Fields): (q: Question)
  {
    var tags := Words(f.tags);
    Question(f.question, ThematicTags(tags), Hints(f.hints), ExplanationOf(f.explanation),
             BodyOf(TagKind(tags), f.options, f.answer))
  }

  /** `parseFields`: fills the question field by field. */
  method ParseFields(f: Fields) returns (q: Question)
    ensures q == QuestionOf(f)
  {
    var kind, thematic := ParseTags(Words(f.tags));
    var hints := Hints(f.hints);
    var explanation := ParseExplanation(f.explanation);
    var body: Body;
    match kind {
      case SingleChoice => body := SingleChoiceQ(ParseOptions(f.options), CleanId(f.answer));
      case TrueFalse => body := TrueFalseQ(TrueFalseOptions, TrueFalseAnswer(f.answer));
      case MultipleChoice => body := MultipleChoiceQ(ParseOptions(f.options), CleanIdList(f.answer));
      case ExactAnswer => body := ExactAnswerQ(f.answer);
      case Matching =>
        var left, right := PartitionMatching(ParseOptions(f.options));
        var pairs := ParsePairs(f.answer);
        body := MatchingQ(left, right, pairs);
      case Ordering => body := OrderingQ(ParseOptions(f.options), CleanIdList(f.answer));
      case SentenceFormation =>
        body := SentenceQ(NonEmpty(TrimAll(Split(f.options, IsPipe))), Words(f.answer));
      case Basic => body := BasicQ(f.answer);
    }
    q := Question(f.question, thematic, hints, explanation, body);
  }

  /** True/false: the fixed two options, and `'true'` exactly when the
      trimmed lowercased answer field is `'true'`. */
  lemma TrueFalseBody(opts: string, ans: string)
    ensures BodyOf(TrueFalse, opts, ans).options == TrueFalseOptions
    ensures BodyOf(TrueFalse, opts, ans).correctAnswer == (if Trim(Lower(ans)) == "true" then "true" else "false")
  {
  }

  // -------------------------------------------------------------- helpers

  /** `shuffleArray`: Fisher-Yates on a copy. The random index is any
      `j` in `0..i`; the argument is not modified (no `modifies` clause). */
  method Shuffle<T>(a: array<T>) returns (r: seq<T>)
    ensures |r| == a.Length && multiset(r) == multiset(a[..])
  {
    var copy := a[..];
    var n := new T[|copy|](i requires 0 <= i < |copy| => copy[i]);
    assert n[..] == copy;
    var i := n.Length - 1;
    while i > 0
      invariant -1 <= i < n.Length
      invariant multiset(n[..]) == multiset(copy)
    {
      var j :| 0 <= j <= i;
      n[i], n[j] := n[j], n[i];
      i := i - 1;
    }
    r := n[..];
  }

  /** The index arithmetic of `updateFocus`: an index before the first item
      wraps to the last, one past the last wraps to the first, and an empty
      zone has no focus (-1). */
  function WrapFocus(newIndex: int, count: nat): (r: int)
    ensures count == 0 <==> r == -1
    ensures count > 0 ==> 0 <= r < count
    ensures 0 <= newIndex < count ==> r == newIndex
    ensures count > 0 && newIndex < 0 ==> r == count - 1
    ensures count > 0 && newIndex >= count ==> r == 0
  {
    var wrapped := if newIndex < 0 then count - 1 else if newIndex >= count then 0 else newIndex;
    if count > 0 then wrapped else -1
  }
}
