/** `parseFields` of the back script of the cloze card: the type tag (the
    last one wins), the revealed text, the explanations, and the correct
    answers of each kind, taken from the deletions this card asks for. */
module ClozeBack {
  import opened Wrappers
  import opened JsText
  import opened FieldGrammar
  import opened QuizKind
  import opened MapFill
  import opened ClozeScan
  import opened ClozeFront

  // ---------------------------------------------------------------- tags

  /** The kind on the back: the last tag the cloze table knows. */
  function BackKind(tags: seq<string>): Kind {
    KindAt(ClozeTable, tags, LastTypeTag(ClozeTable, tags))
  }

  /** Every tag the table does not know, `_` shown as a space. */
  function BackThematic(tags: seq<string>): seq<string> {
    UnderscoresAll(NonTypeTags(ClozeTable, tags))
  }

  lemma {:induction false} NonTypeTagsSnoc(tags: seq<string>, t: string)
    ensures NonTypeTags(ClozeTable, tags + [t]) ==
              NonTypeTags(ClozeTable, tags) + (if IsTypeTag(ClozeTable, t) then [] else [t])
  {
    if tags != [] {
      assert (tags + [t])[1..] == tags[1..] + [t];
      NonTypeTagsSnoc(tags[1..], t);
    }
  }

  /** The `filter` over the tags whose callback overwrites the kind on
      every known tag and keeps the others, then the `map` that turns `_`
      into a space. */
  method ParseTags(tags: seq<string>) returns (kind: Kind, thematic: seq<string>)
    ensures kind == BackKind(tags) && thematic == BackThematic(tags)
  {
    kind := Basic;
    var kept: seq<string> := [];
    for j := 0 to |tags|
      invariant kind == KindAt(ClozeTable, tags[..j], LastTypeTag(ClozeTable, tags[..j]))
      invariant kept == NonTypeTags(ClozeTable, tags[..j])
    {
      assert tags[..j + 1] == tags[..j] + [tags[j]];
      assert tags[..j + 1][..j] == tags[..j];
      NonTypeTagsSnoc(tags[..j], tags[j]);
      var code := ClozeTable(Lower(tags[j]));
      if code.Some? {
        kind := code.value;
      } else {
        kept := kept + [tags[j]];
      }
    }
    assert tags[..|tags|] == tags;
    thematic := UnderscoresAll(kept);
  }

  /** The two scripts of one card disagree on `mc sc`: the front asks a
      multiple-choice question, the back grades a single-choice one. */
  lemma TagsDivergence()
    ensures FrontKind(["mc", "sc"]) == MultipleChoice
    ensures BackKind(["mc", "sc"]) == SingleChoice
  {
    assert Lower("mc") == "mc" by { assert Lower("mc")[0] == 'm' && Lower("mc")[1] == 'c'; }
    assert Lower("sc") == "sc" by { assert Lower("sc")[0] == 's' && Lower("sc")[1] == 'c'; }
    assert ["mc", "sc"][..1] == ["mc"];
  }

  // ---------------------------------------------------------- revealing

  function ClozeSpanOpen(): string { "<span class=\"cloze\">" }

  function ClozeSpan(content: string): string {
    ClozeSpanOpen() + content + "</span>"
  }

  /** The replacement callback of `revealCloze` for one deletion. */
  function BackReplacement(c: Card, overlapper: bool, d: Deletion): string {
    if c.reviewAll then (if d.num < c.maxNum then ClozeSpan(d.content) else "")
    else if d.num == c.ordinal then ClozeSpan(d.content)
    else if c.hasReview && d.num == c.maxNum then ""
    else if overlapper then d.content
    else InactivePlaceholder(PlaceholderText(d))
  }

  function BackReplacer(c: Card, overlapper: bool): Deletion -> string {
    d => BackReplacement(c, overlapper, d)
  }

  /** `revealCloze(text, isOverlapper)`. */
  function RevealCloze(text: string, overlapper: bool, c: Card): string {
    if text == [] then [] else Rewrite(Scan(text), BackReplacer(c, overlapper))
  }

  /** Front and back treat every deletion alike: the review marker vanishes
      on both, a deletion the card asks for is a placeholder on the front
      and its revealed content on the back, and any other deletion looks
      the same on both. */
  lemma FrontBackAgree(c: Card, overlapper: bool, d: Deletion)
    ensures Hidden(c, d) ==> FrontReplacement(c, overlapper, d) == "" && BackReplacement(c, overlapper, d) == ""
    ensures Active(c, d) ==> FrontReplacement(c, overlapper, d) == ActivePlaceholder(PlaceholderText(d)) &&
                             BackReplacement(c, overlapper, d) == ClozeSpan(d.content)
    ensures !Active(c, d) && !Hidden(c, d) ==> FrontReplacement(c, overlapper, d) == BackReplacement(c, overlapper, d)
  {
  }

  lemma ContainsLeft(a: string, b: string, sub: string)
    requires Contains(a, sub)
    ensures Contains(a + b, sub)
  {
    var i :| OccursAt(a, sub, i);
    assert (a + b)[i..i + |sub|] == a[i..i + |sub|];
    assert OccursAt(a + b, sub, i);
  }

  lemma ContainsRight(a: string, b: string, sub: string)
    requires Contains(b, sub)
    ensures Contains(a + b, sub)
  {
    var i :| OccursAt(b, sub, i);
    assert (a + b)[|a| + i..|a| + i + |sub|] == b[i..i + |sub|];
    assert OccursAt(a + b, sub, |a| + i);
  }

  /** A replacement that holds `sub` puts `sub` in the rewritten text. */
  lemma {:induction false} RewriteContains(pieces: seq<Piece>, f: Deletion -> string, d: Deletion, sub: string)
    requires d in DeletionsOf(pieces) && Contains(f(d), sub)
    ensures Contains(Rewrite(pieces, f), sub)
  {
    var head := match pieces[0] case Lit(t) => t case Del(e) => f(e);
    if pieces[0] == Del(d) {
      ContainsLeft(head, Rewrite(pieces[1..], f), sub);
    } else {
      assert d in DeletionsOf(pieces[1..]);
      RewriteContains(pieces[1..], f, d, sub);
      ContainsRight(head, Rewrite(pieces[1..], f), sub);
    }
  }

  /** A text with a deletion the card asks for shows a revealed span. */
  lemma RevealShowsSpan(text: string, overlapper: bool, c: Card, d: Deletion)
    requires d in Deletions(text) && Active(c, d)
    ensures Contains(RevealCloze(text, overlapper, c), ClozeSpanOpen())
  {
    var s := ClozeSpan(d.content);
    assert s[..|ClozeSpanOpen()|] == ClozeSpanOpen();
    assert OccursAt(s, ClozeSpanOpen(), 0);
    RewriteContains(Scan(text), BackReplacer(c, overlapper), d, ClozeSpanOpen());
  }

  /** `clozeMatchesForCard.map(m => m[2].trim())`: the trimmed contents of
      the deletions this card asks for, in document order. */
  function CardAnswers(answer: string, ordinal: nat): seq<string> {
    var dels := Deletions(answer);
    Contents(Selected(CardOf(dels, ordinal), dels))
  }

  const Paris := Deletion(1, "1", "Paris", None)
  const France := Deletion(2, "2", "France", None)
  const Marker := Deletion(3, "3", "", None)

  /** The field `{{c1::Paris}} {{c2::France}} {{c3::}}`. */
  function ExampleField(): string {
    Three(Paris, France, Marker)
  }

  lemma ExampleFieldText()
    ensures ExampleField() == "{{c1::Paris}} {{c2::France}} {{c3::}}"
  {
  }

  lemma ExampleCanonical()
    ensures Canonical(Paris) && Canonical(France) && Canonical(Marker)
  {
    assert DigitsValue("1") == 1 && DigitsValue("2") == 2 && DigitsValue("3") == 3;
  }

  /** Three deletions written one space apart. */
  function Three(a: Deletion, b: Deletion, c: Deletion): string {
    Source(a) + " " + Source(b) + " " + Source(c)
  }

  /** Where the parts of `Three(a, b, c)` lie. */
  lemma ThreeParts(a: Deletion, b: Deletion, c: Deletion)
    ensures var s, m, n := Three(a, b, c), |Source(a)|, |Source(a)| + 1 + |Source(b)|;
            |s| == n + 1 + |Source(c)| && s[m] == ' ' && s[n] == ' ' &&
            s[0..0 + |Source(a)|] == Source(a) && s[m + 1..m + 1 + |Source(b)|] == Source(b) &&
            s[n + 1..n + 1 + |Source(c)|] == Source(c)
  {
  }

  /** The last deletion, after a space, ends the text. */
  lemma LastSpaced(s: string, n: nat, c: Deletion)
    requires Canonical(c) && |s| == n + 1 + |Source(c)| && s[n] == ' '
    requires s[n + 1..n + 1 + |Source(c)|] == Source(c)
    ensures DeletionsOf(ScanFrom(s, n)) == [c]
  {
    SpacedWritten(s, n, n + 1, |s|, c);
    NoOpenNoDeletion(s, |s|, Source);
    assert DeletionsOf([Lit(s[|s|..])]) == [] + DeletionsOf([]);
  }

  lemma TwoSpaced(s: string, b: Deletion, c: Deletion, m: nat, n: nat)
    requires Canonical(b) && Canonical(c)
    requires n == m + 1 + |Source(b)| && |s| == n + 1 + |Source(c)| && s[m] == ' ' && s[n] == ' '
    requires s[m + 1..m + 1 + |Source(b)|] == Source(b) && s[n + 1..n + 1 + |Source(c)|] == Source(c)
    ensures DeletionsOf(ScanFrom(s, m)) == [b, c]
  {
    SpacedWritten(s, m, m + 1, n, b);
    LastSpaced(s, n, c);
  }

  /** Any text made of three canonical deletions one space apart. */
  lemma SpacedThree(s: string, a: Deletion, b: Deletion, c: Deletion, m: nat, n: nat)
    requires Canonical(a) && Canonical(b) && Canonical(c)
    requires m == |Source(a)| && n == m + 1 + |Source(b)| && |s| == n + 1 + |Source(c)| && s[m] == ' ' && s[n] == ' '
    requires s[0..0 + |Source(a)|] == Source(a) && s[m + 1..m + 1 + |Source(b)|] == Source(b)
    requires s[n + 1..n + 1 + |Source(c)|] == Source(c)
    ensures Deletions(s) == [a, b, c]
  {
    SpacedWritten(s, 0, 0, m, a);
    TwoSpaced(s, b, c, m, n);
  }

  /** Three canonical deletions written one space apart are read back as written. */
  lemma ThreeDeletions(a: Deletion, b: Deletion, c: Deletion)
    requires Canonical(a) && Canonical(b) && Canonical(c)
    ensures Deletions(Three(a, b, c)) == [a, b, c]
  {
    ThreeParts(a, b, c);
    SpacedThree(Three(a, b, c), a, b, c, |Source(a)|, |Source(a)| + 1 + |Source(b)|);
  }

  /** In the example field, index 3 is the largest and its deletion is blank. */
  lemma ExampleReviewMarker(dels: seq<Deletion>)
    requires dels == [Paris, France, Marker]
    ensures MaxNum(dels) == 3 && HasReviewCloze(dels)
  {
    var two, one := [Paris, France], [Paris];
    assert dels[..2] == two && two[..1] == one && one[..0] == [];
    assert MaxNum(one) == 1;
    assert MaxNum(two) == 2;
    var tail, last := [France, Marker], [Marker];
    assert dels[1..] == tail && tail[1..] == last;
    assert FirstWithNum(last, 3) == Some(Marker);
    TrimEmpty();
  }

  /** The deletions a card of the example field selects. */
  lemma ExampleSelected(dels: seq<Deletion>, c: Card)
    requires dels == [Paris, France, Marker] && c.maxNum == 3
    requires c.reviewAll || c.ordinal == 1
    ensures c.reviewAll ==> Selected(c, dels) == [Paris, France]
    ensures !c.reviewAll ==> Selected(c, dels) == [Paris]
  {
    var tail, last := [France, Marker], [Marker];
    assert dels[1..] == tail && tail[1..] == last && last[1..] == [];
    assert Selected(c, last) == [];
  }

  /** The trimmed contents of the deletions the example's cards select. */
  lemma ExampleContents()
    ensures Contents([Paris, France]) == ["Paris", "France"]
    ensures Contents([Paris]) == ["Paris"]
  {
    TrimNoSpace("Paris");
    TrimNoSpace("France");
  }

  /** The deletions of the example field, taken card by card. */
  lemma ExampleCards(dels: seq<Deletion>)
    requires dels == [Paris, France, Marker]
    ensures Contents(Selected(CardOf(dels, 3), dels)) == ["Paris", "France"]
    ensures Contents(Selected(CardOf(dels, 1), dels)) == ["Paris"]
  {
    ExampleReviewMarker(dels);
    ExampleSelected(dels, CardOf(dels, 3));
    ExampleSelected(dels, CardOf(dels, 1));
    ExampleContents();
  }

  /** The review marker `{{c3::}}` makes card 3 the review-all card, which
      asks for every other deletion; card 1 asks for its own deletion only. */
  lemma ExampleCardAnswers()
    ensures ExampleField() == "{{c1::Paris}} {{c2::France}} {{c3::}}"
    ensures CardAnswers(ExampleField(), 3) == ["Paris", "France"]
    ensures CardAnswers(ExampleField(), 1) == ["Paris"]
  {
    ExampleFieldText();
    ExampleCanonical();
    ThreeDeletions(Paris, France, Marker);
    ExampleCards(Deletions(ExampleField()));
  }

  // ------------------------------------------------------- explanations

  /** One segment: `part.trim().match(idRegex)` sets the trimmed groups. */
  function ExplEntry(part: string): Option<(string, string)> {
    match MatchIdToken(Trim(part))
    case Some(m) => Some((Trim(m.id), Trim(m.rest)))
    case None => None
  }

  /** The `forEach` over the segments that fills `q.explanations`. */
  method FillExplanations(source: string) returns (m: map<string, string>)
    ensures m == Fill(Split(source, IsPipe), ExplEntry)
  {
    var parts := Split(source, IsPipe);
    m := map[];
    for i := 0 to |parts|
      invariant m == Fill(parts[..i], ExplEntry)
    {
      FillStep(parts, ExplEntry, i);
      var e := ExplEntry(parts[i]);
      if e.Some? {
        m := m[e.value.0 := e.value.1];
      }
    }
    assert parts[..|parts|] == parts;
  }

  /** The general explanation: the trimmed field, when no segment set an entry. */
  function GeneralExplanation(m: map<string, string>, source: string): (r: Option<string>)
    ensures r.Some? <==> |m| == 0 && Trim(source) != []
  {
    if |m| == 0 && Trim(source) != [] then Some(Trim(source)) else None
  }

  /** Unlike the basic card, every segment that carries an id is kept, whatever
      the other segments hold; the last segment for an id wins. */
  lemma ExplanationsKeepEvery(source: string, id: string)
    ensures id in Fill(Split(source, IsPipe), ExplEntry) <==>
              exists i, t :: EntryAt(Split(source, IsPipe), ExplEntry, i, id, t)
    ensures id in Fill(Split(source, IsPipe), ExplEntry) ==>
              exists i :: EntryAt(Split(source, IsPipe), ExplEntry, i, id, Fill(Split(source, IsPipe), ExplEntry)[id]) &&
                          NoLaterEntry(Split(source, IsPipe), ExplEntry, i, id)
  {
    FillKeys(Split(source, IsPipe), ExplEntry, id);
    if id in Fill(Split(source, IsPipe), ExplEntry) {
      FillLastWins(Split(source, IsPipe), ExplEntry, id);
    }
  }

  // ------------------------------------------------------ choice answers

  /** Every selected content parses as an item (none is blank); otherwise
      `parseIdAndText(s).id` throws. */
  predicate AllParse(contents: seq<string>) {
    forall i :: 0 <= i < |contents| ==> ParseIdAndText(contents[i]).Some?
  }

  /** `correctTextSet`: the lowercased contents. */
  function TextSet(contents: seq<string>): set<string> {
    set i | 0 <= i < |contents| :: Lower(contents[i])
  }

  /** `correctIdSet`: the lowercased ids of the parsed contents. */
  function IdSet(contents: seq<string>): set<string>
    requires AllParse(contents)
  {
    set i | 0 <= i < |contents| :: Lower(ParseIdAndText(contents[i]).value.id)
  }

  /** An option counts when its text or its id names a selected deletion. */
  predicate Names(o: IdText, texts: set<string>, ids: set<string>) {
    Lower(o.text) in texts || Lower(o.id) in ids
  }

  /** `allOptions.filter(...).map(opt => opt.id)`. */
  function ChoiceIds(opts: seq<IdText>, texts: set<string>, ids: set<string>): (r: seq<string>)
    ensures |r| <= |opts|
  {
    if opts == [] then []
    else (if Names(opts[0], texts, ids) then [opts[0].id] else []) + ChoiceIds(opts[1..], texts, ids)
  }

  /** The correct answers of a choice question, `None` when a blank content throws. */
  function ChoiceAnswers(opts: seq<IdText>, contents: seq<string>): Option<seq<string>> {
    if AllParse(contents) then Some(ChoiceIds(opts, TextSet(contents), IdSet(contents))) else None
  }

  /** The ids listed are exactly those of the options named by a selected
      deletion, through their text or their id, ignoring case. */
  lemma {:induction false} ChoiceIdsMembers(opts: seq<IdText>, texts: set<string>, ids: set<string>)
    ensures forall x :: x in ChoiceIds(opts, texts, ids) <==> exists o :: o in opts && o.id == x && Names(o, texts, ids)
  {
    if opts != [] {
      ChoiceIdsMembers(opts[1..], texts, ids);
      assert opts == [opts[0]] + opts[1..];
      forall x | exists o :: o in opts && o.id == x && Names(o, texts, ids)
        ensures x in ChoiceIds(opts, texts, ids)
      {
        var o :| o in opts && o.id == x && Names(o, texts, ids);
        if o != opts[0] { assert o in opts[1..]; }
      }
    }
  }

  /** Choice answers throw exactly when a selected content is blank, and
      otherwise name the options whose text or id equals, ignoring case, a
      selected content or its parsed id. */
  lemma ChoiceAnswersMeans(opts: seq<IdText>, contents: seq<string>)
    ensures ChoiceAnswers(opts, contents).None? <==> exists i :: 0 <= i < |contents| && Trim(contents[i]) == []
    ensures ChoiceAnswers(opts, contents).Some? ==>
              forall x :: x in ChoiceAnswers(opts, contents).value <==>
                exists o :: o in opts && o.id == x &&
                  exists i :: 0 <= i < |contents| &&
                    (Lower(o.text) == Lower(contents[i]) || Lower(o.id) == Lower(ParseIdAndText(contents[i]).value.id))
  {
    forall i | 0 <= i < |contents| ensures ParseIdAndText(contents[i]).None? <==> Trim(contents[i]) == [] {
      SplitIdTextShape(contents[i]);
    }
    if AllParse(contents) {
      ChoiceIdsMembers(opts, TextSet(contents), IdSet(contents));
    }
  }

  // ------------------------------------------------------------ ordering

  /** `clozeMatchesForCard.map(m => getMappedId(m[2].trim()))`. */
  function MapIds(m: map<string, string>, contents: seq<string>): (r: seq<string>)
    ensures |r| == |contents| && forall i :: 0 <= i < |contents| ==> r[i] == MappedId(m, contents[i])
  {
    seq(|contents|, i requires 0 <= i < |contents| => MappedId(m, contents[i]))
  }

  /** The correct order on the back is the sequence of ids the front attaches
      to the items it shuffles. */
  lemma OrderingAgrees(dels: seq<Deletion>, m: map<string, string>)
    ensures |MapIds(m, Contents(dels))| == |OrderItemsOf(dels, m)|
    ensures forall i :: 0 <= i < |dels| ==> MapIds(m, Contents(dels))[i] == OrderItemsOf(dels, m)[i].id
  {
    OrderItemsOfMeans(dels, m);
  }

  // ------------------------------------------------------------ matching

  /** The first right item whose trimmed text equals `t`, ignoring case. */
  function FindRight(rights: seq<IdText>, t: string): (r: Option<IdText>)
    ensures r.Some? ==> r.value in rights && Lower(Trim(r.value.text)) == Lower(t)
  {
    if rights == [] then None
    else if Lower(Trim(rights[0].text)) == Lower(t) then Some(rights[0])
    else FindRight(rights[1..], t)
  }

  /** The first deletion of a text: `text.match(clozeContentRegex)`. */
  function FirstDeletion(text: string): Option<Deletion> {
    var dels := Deletions(text);
    if dels == [] then None else Some(dels[0])
  }

  /** The pair one left item adds to `correctAnswersMap`: its first
      deletion's content, when not empty, names the right item. */
  function PairEntryOf(rights: seq<IdText>, left: IdText): Option<(string, string)> {
    match FirstDeletion(left.text)
    case None => None
    case Some(d) =>
      if d.content == [] then None
      else
        match FindRight(rights, Trim(d.content))
        case None => None
        case Some(r) => Some((left.id, r.id))
  }

  function PairEntryFor(rights: seq<IdText>): IdText -> Option<(string, string)> {
    left => PairEntryOf(rights, left)
  }

  /** The `forEach` over the left items that fills `correctAnswersMap`. */
  method FillMatchingMap(lefts: seq<IdText>, rights: seq<IdText>) returns (m: map<string, string>)
    ensures m == Fill(lefts, PairEntryFor(rights))
  {
    m := map[];
    for i := 0 to |lefts|
      invariant m == Fill(lefts[..i], PairEntryFor(rights))
    {
      FillStep(lefts, PairEntryFor(rights), i);
      var e := PairEntryOf(rights, lefts[i]);
      if e.Some? {
        m := m[e.value.0 := e.value.1];
      }
    }
    assert lefts[..|lefts|] == lefts;
  }

  /** A left id maps to the id of a right item whose text is the content of
      the left item's first deletion, ignoring case and surrounding spaces. */
  lemma MatchingMapMeans(lefts: seq<IdText>, rights: seq<IdText>, id: string)
    requires id in Fill(lefts, PairEntryFor(rights))
    ensures exists i :: 0 <= i < |lefts| && lefts[i].id == id && FirstDeletion(lefts[i].text).Some? &&
              exists r :: r in rights && r.id == Fill(lefts, PairEntryFor(rights))[id] &&
                Lower(Trim(r.text)) == Lower(Trim(FirstDeletion(lefts[i].text).value.content))
  {
    FillLastWins(lefts, PairEntryFor(rights), id);
    var i :| EntryAt(lefts, PairEntryFor(rights), i, id, Fill(lefts, PairEntryFor(rights))[id]) &&
             NoLaterEntry(lefts, PairEntryFor(rights), i, id);
    var d := FirstDeletion(lefts[i].text).value;
    var r := FindRight(rights, Trim(d.content)).value;
    assert r in rights;
  }

  /** `item.text = revealCloze(item.text, true)` for one item. */
  function RevealItem(it: IdText, c: Card): IdText {
    IdText(it.id, RevealCloze(it.text, true, c))
  }

  /** `q.leftOptions.forEach(item => { item.text = revealCloze(item.text, true); })`:
      each left item's text is rewritten in place, ids untouched. */
  method RevealLeftTexts(lefts: array<IdText>, c: Card)
    modifies lefts
    ensures forall i :: 0 <= i < lefts.Length ==> lefts[i] == RevealItem(old(lefts[i]), c)
  {
    for i := 0 to lefts.Length
      invariant forall k :: 0 <= k < i ==> lefts[k] == RevealItem(old(lefts[k]), c)
      invariant forall k :: i <= k < lefts.Length ==> lefts[k] == old(lefts[k])
    {
      lefts[i] := RevealItem(lefts[i], c);
    }
  }

  function RevealItems(items: seq<IdText>, c: Card): (r: seq<IdText>)
    ensures |r| == |items| && forall i :: 0 <= i < |items| ==> r[i] == RevealItem(items[i], c)
  {
    seq(|items|, i requires 0 <= i < |items| => RevealItem(items[i], c))
  }

  // ------------------------------------------------------------ question

  /** The fields the back script reads; an absent field is `""`. */
  datatype ClozeFields = ClozeFields(tags: string, question: string, options: string,
                                     answer: string, explanation: string, hints: string)

  /** `q` as `parseFields` returns it. Fields a kind does not set keep
      their initial value (`[]`, `{}`). */
  datatype ClozeQuestion = ClozeQuestion(
    kind: Kind, tags: seq<string>, text: string, hints: seq<string>, isReviewAll: bool,
    explanations: map<string, string>, generalExplanation: Option<string>,
    allOptions: seq<IdText>, correctAnswers: seq<string>,
    leftOptions: seq<IdText>, rightOptions: seq<IdText>, correctAnswersMap: map<string, string>)

  /** `q.text` before the kind is looked at. */
  function QuestionText(f: ClozeFields, c: Card): string {
    if f.question != [] then "<p>" + f.question + "</p>" + RevealCloze(f.answer, false, c)
    else RevealCloze(f.answer, false, c)
  }

  /** The fields every kind shares. */
  function BaseQuestion(f: ClozeFields, c: Card): ClozeQuestion {
    var tags := Words(f.tags);
    var expl := Fill(Split(f.explanation, IsPipe), ExplEntry);
    ClozeQuestion(BackKind(tags), BackThematic(tags), QuestionText(f, c), NonEmpty(TrimAll(Split(f.hints, IsPipe))),
                  c.reviewAll, expl, GeneralExplanation(expl, f.explanation), [], [], [], [], map[])
  }

  /** The kind-specific part of the question, from the shared part `q`. */
  function KindQuestion(q: ClozeQuestion, f: ClozeFields, c: Card, contents: seq<string>): Option<ClozeQuestion> {
    match q.kind
    case SingleChoice => KindPart(q, ChoiceAnswers(ParseItems(f.options), contents), ParseItems(f.options))
    case MultipleChoice => KindPart(q, ChoiceAnswers(ParseItems(f.options), contents), ParseItems(f.options))
    case Ordering =>
      var items := ParseItems(f.options);
      Some(q.(allOptions := items, correctAnswers := MapIds(OptionIdMap(items), contents)))
    case Matching =>
      var lefts := ParseItems(f.answer);
      var rights := ParseItems(f.options);
      Some(q.(text := f.question, leftOptions := RevealItems(lefts, c), rightOptions := rights,
              correctAnswersMap := Fill(lefts, PairEntryFor(rights))))
    case _ => Some(q.(correctAnswers := contents))
  }

  function KindPart(q: ClozeQuestion, answers: Option<seq<string>>, items: seq<IdText>): Option<ClozeQuestion> {
    if answers.None? then None else Some(q.(allOptions := items, correctAnswers := answers.value))
  }

  /** The question of card `ordinal`, `None` where the script throws. */
  function ClozeQuestionOf(f: ClozeFields, ordinal: nat): Option<ClozeQuestion> {
    var dels := Deletions(f.answer);
    var c := CardOf(dels, ordinal);
    KindQuestion(BaseQuestion(f, c), f, c, CardAnswers(f.answer, ordinal))
  }

  /** The statements of `parseFields` that every kind runs. */
  method ParseShared(f: ClozeFields, ordinal: nat) returns (q: ClozeQuestion, c: Card, contents: seq<string>)
    ensures c == CardOf(Deletions(f.answer), ordinal) && q == BaseQuestion(f, c)
    ensures contents == CardAnswers(f.answer, ordinal)
  {
    var tags := Words(f.tags);
    var kind, thematic := ParseTags(tags);
    var hints := NonEmpty(TrimAll(Split(f.hints, IsPipe)));
    var dels := Deletions(f.answer);
    var max := MaxClozeNum(dels);
    var review := HasReviewCloze(dels);
    c := Card(ordinal, max, review, review && ordinal == max);
    var expl := FillExplanations(f.explanation);
    q := ClozeQuestion(kind, thematic, QuestionText(f, c), hints, c.reviewAll, expl,
                       GeneralExplanation(expl, f.explanation), [], [], [], [], map[]);
    contents := Contents(Selected(c, dels));
  }

  /** The branch of `parseFields` on the kind. */
  method ParseKind(q: ClozeQuestion, f: ClozeFields, c: Card, contents: seq<string>) returns (r: Option<ClozeQuestion>)
    ensures r == KindQuestion(q, f, c, contents)
  {
    if q.kind == SingleChoice || q.kind == MultipleChoice {
      var items := ParseItems(f.options);
      var answers := ChoiceAnswers(items, contents);
      r := KindPart(q, answers, items);
      assert r == KindQuestion(q, f, c, contents);
    } else if q.kind == Ordering {
      var items := ParseItems(f.options);
      var m := FillOptionIdMap(items);
      r := Some(q.(allOptions := items, correctAnswers := MapIds(m, contents)));
      assert r == KindQuestion(q, f, c, contents);
    } else if q.kind == Matching {
      r := ParseMatching(q, f, c);
      assert r == KindQuestion(q, f, c, contents);
    } else {
      r := Some(q.(correctAnswers := contents));
      assert r == KindQuestion(q, f, c, contents);
    }
  }

  /** The matching branch: the pairs map, and the left items with their
      placeholders revealed in place. */
  method ParseMatching(q: ClozeQuestion, f: ClozeFields, c: Card) returns (r: Option<ClozeQuestion>)
    ensures var lefts := ParseItems(f.answer);
            var rights := ParseItems(f.options);
            r == Some(q.(text := f.question, leftOptions := RevealItems(lefts, c), rightOptions := rights,
                         correctAnswersMap := Fill(lefts, PairEntryFor(rights))))
  {
    var lefts := ParseItems(f.answer);
    var rights := ParseItems(f.options);
    var m := FillMatchingMap(lefts, rights);
    var a := new IdText[|lefts|](i requires 0 <= i < |lefts| => lefts[i]);
    RevealLeftTexts(a, c);
    assert a[..] == RevealItems(lefts, c);
    r := Some(q.(text := f.question, leftOptions := a[..], rightOptions := rights, correctAnswersMap := m));
  }

  /** `parseFields()` with the field values and the card ordinal as inputs. */
  method ParseFields(f: ClozeFields, ordinal: nat) returns (r: Option<ClozeQuestion>)
    ensures r == ClozeQuestionOf(f, ordinal)
  {
    var q, c, contents := ParseShared(f, ordinal);
    r := ParseKind(q, f, c, contents);
  }
}
