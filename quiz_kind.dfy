/** The question kinds and the tag tables that select them. */
module QuizKind {
  import opened Wrappers
  import opened JsText

  /** The eight kinds; `TrueFalse` is the string `'true-falso'` in the scripts. */
  datatype Kind = SingleChoice | MultipleChoice | TrueFalse | ExactAnswer
                | Matching | Ordering | SentenceFormation | Basic

  /** `knownQuizTypes[code]` of the basic scripts. */
  function BasicTable(code: string): (k: Option<Kind>)
  {
    if code == "sc" then Some(SingleChoice)
    else if code == "mc" then Some(MultipleChoice)
    else if code == "tf" then Some(TrueFalse)
    else if code == "ae" then Some(ExactAnswer)
    else if code == "r" then Some(Matching)
    else if code == "o" then Some(Ordering)
    else if code == "f" then Some(SentenceFormation)
    else if code == "b" then Some(Basic)
    else None
  }

  /** `knownQuizTypes[code]` of the cloze scripts: the same codes without `tf`. */
  function ClozeTable(code: string): (k: Option<Kind>)
    ensures k.Some? ==> k == BasicTable(code) && k != Some(TrueFalse)
  {
    if code == "tf" then None else BasicTable(code)
  }

  /** The codes each table knows. */
  lemma TableCodes(code: string)
    ensures BasicTable(code).Some? <==> code in {"sc", "mc", "tf", "ae", "r", "o", "f", "b"}
    ensures ClozeTable(code).Some? <==> code in {"sc", "mc", "ae", "r", "o", "f", "b"}
  {
  }

  /** A tag, compared lowercased, that the table knows. */
  predicate IsTypeTag(table: string -> Option<Kind>, tag: string) {
    table(Lower(tag)).Some?
  }

  /** The index of the first type tag. */
  function FirstTypeTag(table: string -> Option<Kind>, tags: seq<string>): (r: Option<nat>)
    ensures r.Some? ==> r.value < |tags| && IsTypeTag(table, tags[r.value])
    ensures r.Some? ==> forall j :: 0 <= j < r.value ==> !IsTypeTag(table, tags[j])
    ensures r.None? ==> forall j :: 0 <= j < |tags| ==> !IsTypeTag(table, tags[j])
  {
    if tags == [] then None
    else if IsTypeTag(table, tags[0]) then Some(0)
    else match FirstTypeTag(table, tags[1..])
      case None => None
      case Some(i) => Some(i + 1)
  }

  /** The index of the last type tag. */
  function LastTypeTag(table: string -> Option<Kind>, tags: seq<string>): (r: Option<nat>)
    ensures r.Some? ==> r.value < |tags| && IsTypeTag(table, tags[r.value])
    ensures r.Some? ==> forall j :: r.value < j < |tags| ==> !IsTypeTag(table, tags[j])
    ensures r.None? ==> forall j :: 0 <= j < |tags| ==> !IsTypeTag(table, tags[j])
  {
    if tags == [] then None
    else if IsTypeTag(table, tags[|tags| - 1]) then Some(|tags| - 1)
    else LastTypeTag(table, tags[..|tags| - 1])
  }

  /** The kind a tag index selects, `basic` when there is none. */
  function KindAt(table: string -> Option<Kind>, tags: seq<string>, i: Option<nat>): Kind
  {
    if i.Some? && i.value < |tags| && table(Lower(tags[i.value])).Some?
    then table(Lower(tags[i.value])).value else Basic
  }

  /** `.map(t => t.replace(/_/g, ' '))`. */
  function UnderscoresAll(tags: seq<string>): (r: seq<string>)
    ensures |r| == |tags| && forall i :: 0 <= i < |tags| ==> r[i] == UnderscoresToSpaces(tags[i])
  {
    if tags == [] then [] else [UnderscoresToSpaces(tags[0])] + UnderscoresAll(tags[1..])
  }

  /** The tags the table does not know, in order: `allTags.filter(t => !knownQuizTypes[t.toLowerCase()])`. */
  function NonTypeTags(table: string -> Option<Kind>, tags: seq<string>): (r: seq<string>)
    ensures forall t :: t in r <==> t in tags && !IsTypeTag(table, t)
    ensures |r| <= |tags|
  {
    if tags == [] then []
    else if IsTypeTag(table, tags[0]) then NonTypeTags(table, tags[1..])
    else [tags[0]] + NonTypeTags(table, tags[1..])
  }
}
