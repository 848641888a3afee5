/** The front script of the cloze card: the type tag, the placeholders a
    field shows for this card, the data each kind derives from the
    deletions this card asks for, and the answer values the input
    handlers build. */
module ClozeFront {
  import opened Wrappers
  import opened JsText
  import opened FieldGrammar
  import opened QuizKind
  import opened MapFill
  import opened ClozeScan
  import BasicFront

  // ---------------------------------------------------------------- tags

  /** The kind on the front: the first tag the cloze table knows, `basic` when none. */
  function FrontKind(tags: seq<string>): Kind {
    KindAt(ClozeTable, tags, FirstTypeTag(ClozeTable, tags))
  }

  /** The tag loop: the first known tag fixes the kind and the loop breaks. */
  method DetectKind(tags: seq<string>) returns (kind: Kind)
    ensures kind == FrontKind(tags)
  {
    kind := Basic;
    var j := 0;
    while j < |tags|
      invariant 0 <= j <= |tags|
      invariant forall k :: 0 <= k < j ==> !IsTypeTag(ClozeTable, tags[k])
    {
      var code := ClozeTable(Lower(tags[j]));
      if code.Some? {
        kind := code.value;
        assert FirstTypeTag(ClozeTable, tags) == Some(j);
        return;
      }
      j := j + 1;
    }
  }

  /** The thematic tags of the front: every tag the table does not know, so a
      second type code is dropped, not kept. */
  function FrontThematic(tags: seq<string>): seq<string> {
    NonTypeTags(ClozeTable, tags)
  }

  /** With `mc` before `sc` the front asks a multiple-choice question and
      shows neither code as a topic. */
  lemma FrontTagsExample()
    ensures FrontKind(["mc", "sc", "a_b"]) == MultipleChoice
    ensures FrontThematic(["mc", "sc", "a_b"]) == ["a_b"]
  {
    assert Lower("mc") == "mc" by { assert Lower("mc")[0] == 'm' && Lower("mc")[1] == 'c'; }
    assert Lower("sc") == "sc" by { assert Lower("sc")[0] == 's' && Lower("sc")[1] == 'c'; }
    var l := Lower("a_b");
    assert l == "a_b" by { assert l[0] == 'a' && l[1] == '_' && l[2] == 'b'; }
    assert ["mc", "sc", "a_b"][1..] == ["sc", "a_b"];
    assert ["sc", "a_b"][1..] == ["a_b"];
  }

  /** `quizTypeForCard`: every branch of the review adjustment keeps the
      detected kind. */
  function QuizTypeForCard(detected: Kind, c: Card): (k: Kind)
    ensures k == detected
  {
    if c.hasReview && (detected == Ordering || detected == SentenceFormation) then detected
    else if c.hasReview && detected == ExactAnswer then (if !c.reviewAll then ExactAnswer else detected)
    else detected
  }

  // --------------------------------------------------------- placeholders

  /** `placeholder || "..."`: an absent or empty placeholder shows as `...`. */
  function PlaceholderText(d: Deletion): (p: string)
    ensures p != []
  {
    if d.placeholder.Some? && d.placeholder.value != [] then d.placeholder.value else "..."
  }

  function ActivePlaceholder(p: string): string {
    "<span class=\"cloze-placeholder-active\">[" + p + "]</span>"
  }

  function InactivePlaceholder(p: string): string {
    "<span class=\"cloze-placeholder-inactive\">[" + p + "]</span>"
  }

  /** The replacement callback of `processFieldForCloze` for one deletion. */
  function FrontReplacement(c: Card, overlapper: bool, d: Deletion): string {
    var p := PlaceholderText(d);
    if c.reviewAll then (if d.num < c.maxNum then ActivePlaceholder(p) else "")
    else if d.num == c.ordinal then ActivePlaceholder(p)
    else if c.hasReview && d.num == c.maxNum then ""
    else if overlapper then d.content
    else InactivePlaceholder(p)
  }

  /** The callback as a value. */
  function FrontReplacer(c: Card, overlapper: bool): Deletion -> string {
    d => FrontReplacement(c, overlapper, d)
  }

  /** `processFieldForCloze(field, isOverlapper)`. */
  function ProcessFieldForCloze(field: string, overlapper: bool, c: Card): string {
    if field == [] then [] else Rewrite(Scan(field), FrontReplacer(c, overlapper))
  }

  /** A deletion this card asks for becomes the active placeholder, the
      review marker disappears, and any other deletion shows its content
      (overlapper) or the inactive placeholder, its hint or `...` inside. */
  lemma FrontReplacementCases(c: Card, overlapper: bool, d: Deletion)
    ensures Active(c, d) ==> FrontReplacement(c, overlapper, d) == ActivePlaceholder(PlaceholderText(d))
    ensures Hidden(c, d) ==> FrontReplacement(c, overlapper, d) == ""
    ensures !Active(c, d) && !Hidden(c, d) ==>
              FrontReplacement(c, overlapper, d) == (if overlapper then d.content else InactivePlaceholder(PlaceholderText(d)))
  {
  }

  /** Text without a deletion shows as it is. */
  lemma ProcessFieldPlain(field: string, overlapper: bool, c: Card)
    requires forall i :: !OpenAt(field, i)
    ensures ProcessFieldForCloze(field, overlapper, c) == field
  {
    NoOpenNoDeletion(field, 0, FrontReplacer(c, overlapper));
  }

  // ------------------------------------------------------------- items

  /** `pieces.map(parseIdAndText).filter(Boolean)`. */
  function ItemsOf(pieces: seq<string>): (r: seq<IdText>)
    ensures |r| <= |pieces|
  {
    if pieces == [] then []
    else (match ParseIdAndText(pieces[0]) case Some(it) => [it] case None => []) + ItemsOf(pieces[1..])
  }

  /** `(s || '').split('|').map(parseIdAndText).filter(Boolean)`. */
  function ParseItems(s: string): seq<IdText> {
    ItemsOf(Split(s, IsPipe))
  }

  /** Every parsed item has a non-empty id and a non-empty text. */
  lemma {:induction false} ItemsOfShape(pieces: seq<string>)
    ensures forall it :: it in ItemsOf(pieces) ==> it.id != [] && it.text != []
  {
    if pieces != [] {
      ItemsOfShape(pieces[1..]);
      SplitIdTextShape(pieces[0]);
    }
  }

  // ----------------------------------------------------------- matching

  /** The literal `{{c<ordinal>::` the front looks for in a left item. */
  function CardMarker(ordinal: nat): string {
    "{{c" + NatToString(ordinal) + "::"
  }

  /** `leftItemsAll.filter(item => /\{\{c<ordinal>::/.test(item.text))`. */
  function LeftItemsForCard(items: seq<IdText>, ordinal: nat): (r: seq<IdText>)
    ensures |r| <= |items|
  {
    if items == [] then []
    else (if Contains(items[0].text, CardMarker(ordinal)) then [items[0]] else []) + LeftItemsForCard(items[1..], ordinal)
  }

  /** A left item is on this card exactly when its text holds the card's marker. */
  lemma {:induction false} LeftItemsForCardMembers(items: seq<IdText>, ordinal: nat)
    ensures forall it :: it in LeftItemsForCard(items, ordinal) <==> it in items && Contains(it.text, CardMarker(ordinal))
  {
    if items != [] {
      LeftItemsForCardMembers(items[1..], ordinal);
      assert items == [items[0]] + items[1..];
    }
  }

  /** The marker of card 1 does not select an item written for card 10,
      while the marker of card 10 does. */
  lemma MarkerExample()
    ensures !Contains("{{c10::x}}", CardMarker(1))
    ensures Contains("{{c10::x}}", CardMarker(10))
  {
    var s := "{{c10::x}}";
    assert NatToString(1) == "1";
    assert NatToString(10) == "10";
    assert CardMarker(1) == "{{c1::";
    assert CardMarker(10) == "{{c10::";
    forall i | 0 <= i && i + 6 <= |s| ensures !OccursAt(s, "{{c1::", i) {
      if i == 0 {
        assert s[i..i + 6][4] != ':';
      } else {
        assert s[i..i + 6][1] != '{';
      }
    }
    assert s[0..7] == "{{c10::";
    assert OccursAt(s, "{{c10::", 0);
  }

  /** The `select` elements after a change: each row is its left id and the
      chosen right id, `""` when none is chosen. */
  function SelectEntry(row: (string, string)): Option<(string, string)> {
    if row.1 != [] then Some(row) else None
  }

  /** The change handler: `userAnswer = {}` and then, row by row,
      `if (s.value) userAnswer[leftId] = s.value`. */
  method CollectMatching(rows: seq<(string, string)>) returns (m: map<string, string>)
    ensures m == Fill(rows, SelectEntry)
  {
    m := map[];
    for i := 0 to |rows|
      invariant m == Fill(rows[..i], SelectEntry)
    {
      FillStep(rows, SelectEntry, i);
      if rows[i].1 != [] {
        m := m[rows[i].0 := rows[i].1];
      }
    }
    assert rows[..|rows|] == rows;
  }

  /** A left id is in the answer exactly when some row chose a right item
      for it, and it holds the choice of the last such row. */
  lemma CollectMatchingMeans(rows: seq<(string, string)>, leftId: string)
    ensures leftId in Fill(rows, SelectEntry) <==> exists i :: 0 <= i < |rows| && rows[i].0 == leftId && rows[i].1 != []
    ensures leftId in Fill(rows, SelectEntry) ==>
              exists i :: 0 <= i < |rows| && rows[i] == (leftId, Fill(rows, SelectEntry)[leftId]) &&
                          forall j :: i < j < |rows| ==> rows[j].0 != leftId || rows[j].1 == []
  {
    FillKeys(rows, SelectEntry, leftId);
    if exists i :: 0 <= i < |rows| && rows[i].0 == leftId && rows[i].1 != [] {
      var i :| 0 <= i < |rows| && rows[i].0 == leftId && rows[i].1 != [];
      assert EntryAt(rows, SelectEntry, i, leftId, rows[i].1);
    }
    if leftId in Fill(rows, SelectEntry) {
      FillLastWins(rows, SelectEntry, leftId);
      var i :| EntryAt(rows, SelectEntry, i, leftId, Fill(rows, SelectEntry)[leftId]) &&
               NoLaterEntry(rows, SelectEntry, i, leftId);
      forall j | i < j < |rows| ensures rows[j].0 != leftId || rows[j].1 == [] {
        assert !(SelectEntry(rows[j]).Some? && SelectEntry(rows[j]).value.0 == leftId);
      }
    }
  }

  // ------------------------------------------------- sentence formation

  /** The words this card asks for, in document order, trimmed. */
  function CorrectWords(c: Card, dels: seq<Deletion>): seq<string> {
    Contents(Selected(c, dels))
  }

  /** `(optionsSource || '').split('|').map(o => o.trim()).filter(Boolean)`. */
  function Distractors(options: string): seq<string> {
    NonEmpty(TrimAll(Split(options, IsPipe)))
  }

  /** `shuffleArray([...correctWords, ...distractors])`. */
  method WordBank(c: Card, dels: seq<Deletion>, options: string) returns (bank: seq<string>)
    ensures multiset(bank) == multiset(CorrectWords(c, dels) + Distractors(options))
  {
    var words := CorrectWords(c, dels) + Distractors(options);
    var a := new string[|words|](i requires 0 <= i < |words| => words[i]);
    assert a[..] == words;
    bank := BasicFront.Shuffle(a);
  }

  /** The correct words are the trimmed contents of exactly the deletions the
      card asks for, one per deletion, in order. */
  lemma CorrectWordsMeans(c: Card, dels: seq<Deletion>)
    ensures |CorrectWords(c, dels)| == |Selected(c, dels)|
    ensures forall i :: 0 <= i < |Selected(c, dels)| ==> CorrectWords(c, dels)[i] == Trim(Selected(c, dels)[i].content)
    ensures forall d :: d in Selected(c, dels) <==> d in dels && Active(c, d)
  {
    SelectedMembers(c, dels);
  }

  // ---------------------------------------------------------- ordering

  /** `optionIdMap.set(opt.text.toLowerCase(), opt.id)`. */
  function TextIdEntry(o: IdText): Option<(string, string)> {
    Some((Lower(o.text), o.id))
  }

  function OptionIdMap(items: seq<IdText>): map<string, string> {
    Fill(items, TextIdEntry)
  }

  /** The `forEach` that fills `optionIdMap`. */
  method FillOptionIdMap(items: seq<IdText>) returns (m: map<string, string>)
    ensures m == OptionIdMap(items)
  {
    m := map[];
    for i := 0 to |items|
      invariant m == Fill(items[..i], TextIdEntry)
    {
      FillStep(items, TextIdEntry, i);
      m := m[Lower(items[i].text) := items[i].id];
    }
    assert items[..|items|] == items;
  }

  /** `getMappedId(text)`: `optionIdMap.get(text.toLowerCase()) || text`. */
  function MappedId(m: map<string, string>, t: string): string {
    if Lower(t) in m && m[Lower(t)] != [] then m[Lower(t)] else t
  }

  /** A text no option carries (ignoring case) keeps itself as its id;
      otherwise its id is that of the last option with that text. */
  lemma MappedIdMeans(items: seq<IdText>, t: string)
    requires forall it :: it in items ==> it.id != []
    ensures (forall i :: 0 <= i < |items| ==> Lower(items[i].text) != Lower(t)) ==> MappedId(OptionIdMap(items), t) == t
    ensures (exists i :: 0 <= i < |items| && Lower(items[i].text) == Lower(t)) ==>
              exists i :: 0 <= i < |items| && Lower(items[i].text) == Lower(t) && MappedId(OptionIdMap(items), t) == items[i].id &&
                          forall j :: i < j < |items| ==> Lower(items[j].text) != Lower(t)
  {
    var key := Lower(t);
    FillKeys(items, TextIdEntry, key);
    if exists i :: 0 <= i < |items| && Lower(items[i].text) == key {
      var i :| 0 <= i < |items| && Lower(items[i].text) == key;
      assert EntryAt(items, TextIdEntry, i, key, items[i].id);
      FillLastWins(items, TextIdEntry, key);
      var k :| EntryAt(items, TextIdEntry, k, key, OptionIdMap(items)[key]) && NoLaterEntry(items, TextIdEntry, k, key);
      assert items[k] in items;
      forall j | k < j < |items| ensures Lower(items[j].text) != key {
        assert !(TextIdEntry(items[j]).Some? && TextIdEntry(items[j]).value.0 == key);
      }
    }
  }

  /** The items to order: the trimmed content of each deletion the card
      asks for, with its mapped id. */
  function OrderItemsOf(dels: seq<Deletion>, m: map<string, string>): (r: seq<IdText>)
    ensures |r| == |dels|
  {
    if dels == [] then []
    else [IdText(MappedId(m, Trim(dels[0].content)), Trim(dels[0].content))] + OrderItemsOf(dels[1..], m)
  }

  function OrderItems(c: Card, dels: seq<Deletion>, options: string): seq<IdText> {
    OrderItemsOf(Selected(c, dels), OptionIdMap(ParseItems(options)))
  }

  /** The items are the correct words, in order, each with its mapped id. */
  lemma {:induction false} OrderItemsOfMeans(dels: seq<Deletion>, m: map<string, string>)
    ensures forall i :: 0 <= i < |dels| ==>
              OrderItemsOf(dels, m)[i] == IdText(MappedId(m, Contents(dels)[i]), Contents(dels)[i])
  {
    if dels != [] {
      OrderItemsOfMeans(dels[1..], m);
      forall i | 0 <= i < |dels|
        ensures OrderItemsOf(dels, m)[i] == IdText(MappedId(m, Contents(dels)[i]), Contents(dels)[i])
      {
        if i > 0 {
          assert OrderItemsOf(dels, m)[i] == OrderItemsOf(dels[1..], m)[i - 1];
          assert Contents(dels)[i] == Contents(dels[1..])[i - 1];
        }
      }
    }
  }

  // ------------------------------------------------------- exact answer

  /** The inputs the exact-answer card renders: a numbered list of
      `count` inputs (none at all when `count` is not positive) or one
      text area. */
  datatype ExactInputs = MultiInputs(count: int) | SingleInput

  /** Review card: one input per index below the maximum; otherwise one per
      deletion of this card when there is more than one. */
  function ExactInputsFor(c: Card, dels: seq<Deletion>): (r: ExactInputs)
    ensures c.reviewAll ==> r == MultiInputs(c.maxNum - 1)
    ensures !c.reviewAll ==> (r.MultiInputs? <==> |Selected(c, dels)| > 1)
    ensures !c.reviewAll && r.MultiInputs? ==> r.count == |Selected(c, dels)|
  {
    var instances := Selected(Card(c.ordinal, c.maxNum, c.hasReview, false), dels);
    var multi := !c.reviewAll && |instances| > 1;
    if c.reviewAll || multi then MultiInputs(if c.reviewAll then c.maxNum - 1 else |instances|)
    else SingleInput
  }

  /** The answer when the exact-answer card appears: `''` per input, or `[]`. */
  function InitialExactAnswer(inputs: ExactInputs): (r: seq<string>)
    ensures inputs.MultiInputs? && inputs.count > 0 ==> |r| == inputs.count && forall i :: 0 <= i < |r| ==> r[i] == ""
    ensures !(inputs.MultiInputs? && inputs.count > 0) ==> r == []
  {
    if inputs.MultiInputs? && inputs.count > 0 then seq(inputs.count, _ => "") else []
  }

  /** The answer array of a card with several inputs, updated as the user types. */
  class MultiInputAnswer {
    var values: array<string>

    /** `new Array(n).fill('')`. */
    constructor(n: nat)
      ensures fresh(values) && values[..] == seq(n, _ => "")
    {
      values := new string[n](_ => "");
    }

    /** `userAnswer[idx] = input.value` for the input numbered `idx`. */
    method Type(idx: nat, value: string)
      requires idx < values.Length
      modifies values
      ensures values[..] == old(values[..])[idx := value]
    {
      values[idx] := value;
    }
  }

  // ------------------------------------------------------ answer arrays

  /** `xs.filter(v => v !== value)`. */
  function Without(xs: seq<string>, value: string): (r: seq<string>)
    ensures |r| <= |xs|
  {
    if xs == [] then []
    else (if xs[0] != value then [xs[0]] else []) + Without(xs[1..], value)
  }

  /** Unchecking removes every copy of the value and keeps everything else, in order. */
  lemma {:induction false} WithoutMembers(xs: seq<string>, value: string)
    ensures forall x :: x in Without(xs, value) <==> x in xs && x != value
  {
    if xs != [] {
      WithoutMembers(xs[1..], value);
      assert xs == [xs[0]] + xs[1..];
    }
  }

  /** Checking a box and unchecking it again leaves the answer as if it had
      not been checked (minus earlier copies of the value). */
  lemma {:induction false} WithoutPush(xs: seq<string>, value: string)
    ensures Without(xs + [value], value) == Without(xs, value)
  {
    if xs != [] {
      assert (xs + [value])[1..] == xs[1..] + [value];
      WithoutPush(xs[1..], value);
    } else {
      assert Without([value], value) == [] + Without([], value);
    }
  }

  /** The answer list of the sentence and multiple-choice cards. */
  class AnswerList {
    var items: seq<string>

    /** `userAnswer = []`. */
    constructor()
      ensures items == []
    {
      items := [];
    }

    /** `userAnswer.push(value)`: a word or a checked box. */
    method Push(value: string)
      modifies this
      ensures items == old(items) + [value]
    {
      items := items + [value];
    }

    /** `userAnswer = userAnswer.filter(v => v !== value)`: an unchecked box. */
    method Uncheck(value: string)
      modifies this
      ensures items == Without(old(items), value)
    {
      items := Without(items, value);
    }

    /** `userAnswer.splice(index, 1)`: a word taken back from the answer. */
    method RemoveAt(index: nat)
      requires index < |items|
      modifies this
      ensures items == old(items)[..index] + old(items)[index + 1..]
      ensures |items| == |old(items)| - 1
    {
      items := items[..index] + items[index + 1..];
    }
  }
}
