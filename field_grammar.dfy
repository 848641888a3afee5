/** The option-token grammar shared by every script: a field piece
    `"<id>. <text>"` or `"<id>) <text>"`, matched by the regular expression
    `^([a-zA-Z0-9_.-]+)[.)]\s*(.+)` (dot matching every character), with
    the whole piece serving as its own id when it does not match. */
module FieldGrammar {
  import opened Wrappers
  import opened JsText

  predicate IsIdChar(c: char) {
    IsAsciiLetter(c) || IsAsciiDigit(c) || c == '_' || c == '.' || c == '-'
  }

  predicate IsIdDelim(c: char) { c == '.' || c == ')' }

  /** The prefix `s[..k]` is made of id characters and `s[k]` is a delimiter:
      the regex `^[a-zA-Z0-9_.-]+[.)]` can match with its id group ending at `k`. */
  predicate IdDelimAt(s: string, k: int) {
    1 <= k < |s| && (forall i :: 0 <= i < k ==> IsIdChar(s[i])) && IsIdDelim(s[k])
  }

  /** The same, with at least one character left for the text group `(.+)`. */
  predicate IdSplitAt(s: string, k: int) {
    IdDelimAt(s, k) && k + 2 <= |s|
  }

  /** The largest `k <= hi` at which `IdDelimAt` holds. The id group is
      greedy, so the regex engine tries the longest id first and backtracks
      one character at a time: this search follows it. */
  function LastIdDelim(s: string, hi: int): (r: Option<nat>)
    ensures r.Some? ==> 1 <= r.value <= hi && r.value < |s|
    decreases hi
  {
    if hi < 1 then None
    else if IdDelimAt(s, hi) then Some(hi)
    else LastIdDelim(s, hi - 1)
  }

  /** The search finds the largest split point, and none when there is none. */
  lemma {:induction false} LastIdDelimMeans(s: string, hi: int)
    ensures LastIdDelim(s, hi).Some? ==> IdDelimAt(s, LastIdDelim(s, hi).value)
    ensures LastIdDelim(s, hi).Some? ==> forall k :: LastIdDelim(s, hi).value < k <= hi ==> !IdDelimAt(s, k)
    ensures LastIdDelim(s, hi).None? ==> forall k :: k <= hi ==> !IdDelimAt(s, k)
    decreases hi
  {
    if hi >= 1 && !IdDelimAt(s, hi) {
      LastIdDelimMeans(s, hi - 1);
    }
  }

  /** `/^[a-zA-Z0-9_.-]+[.)]/.test(s)`. */
  predicate HasIdPrefix(s: string) {
    LastIdDelim(s, |s| - 1).Some?
  }

  lemma HasIdPrefixMeans(s: string)
    ensures HasIdPrefix(s) <==> exists k :: IdDelimAt(s, k)
  {
    LastIdDelimMeans(s, |s| - 1);
    if !HasIdPrefix(s) {
      forall k | IdDelimAt(s, k) ensures false {
      }
    }
  }

  /** The two capture groups `m[1]` and `m[2]` of a successful match. */
  datatype IdMatch = IdMatch(id: string, rest: string)

  /** `s.match(/^([a-zA-Z0-9_.-]+)[.)]\s*(.+)/s)`. The id group ends at the
      largest split point that leaves text after the delimiter; `\s*` then
      takes the white space after the delimiter but must leave at least one
      character for `(.+)`, which takes everything else. */
  function MatchIdToken(s: string): (m: Option<IdMatch>)
    ensures m.Some? ==> m.value.rest != [] && |m.value.id| + 2 <= |s|
  {
    var found := LastIdDelim(s, |s| - 2);
    if found.None? then None
    else
      var k := found.value;
      var after := s[k + 1..];
      var ws := LeadingSpaces(after, 0);
      var skip := if ws < |after| then ws else |after| - 1;
      Some(IdMatch(s[..k], after[skip..]))
  }

  /** The match fails exactly when no split point leaves text behind the
      delimiter, and otherwise its id ends at the last such point; the text
      is a suffix of the input. */
  lemma MatchIdTokenMeans(s: string)
    ensures MatchIdToken(s).None? <==> forall k :: !IdSplitAt(s, k)
    ensures MatchIdToken(s).Some? ==>
              exists k :: IdSplitAt(s, k) && MatchIdToken(s).value.id == s[..k]
                          && (forall j :: k < j ==> !IdSplitAt(s, j))
    ensures MatchIdToken(s).Some? ==> MatchIdToken(s).value.rest == s[|s| - |MatchIdToken(s).value.rest|..]
  {
    var found := LastIdDelim(s, |s| - 2);
    LastIdDelimMeans(s, |s| - 2);
    if found.None? {
      forall k | IdSplitAt(s, k) ensures false { }
    } else {
      var k := found.value;
      forall j | k < j && IdSplitAt(s, j) ensures false { }
      assert IdSplitAt(s, k);
    }
  }

  /** An option or item after parsing: its id and its display text. */
  datatype IdText = IdText(id: string, text: string)

  /** The parse both `parseOpt` (basic scripts) and `parseIdAndText` (cloze
      scripts) perform: trim; nothing for a blank piece; the trimmed groups
      of the token match; otherwise the trimmed piece as both id and text. */
  function SplitIdText(s: string): (r: Option<IdText>)
  {
    var t := Trim(s);
    if t == [] then None
    else
      match MatchIdToken(t)
      case Some(m) => Some(IdText(Trim(m.id), Trim(m.rest)))
      case None => Some(IdText(t, t))
  }

  /** An option of a choice question: `{id, text, value}`. */
  datatype Opt = Opt(id: string, text: string, value: string)

  /** `parseOpt(s)` of the basic scripts. */
  function ParseOpt(s: string): (r: Option<Opt>)
  {
    match SplitIdText(s)
    case None => None
    case Some(it) => Some(Opt(it.id, it.text, it.id))
  }

  /** `parseIdAndText(s)` of the cloze scripts. */
  function ParseIdAndText(s: string): (r: Option<IdText>)
  {
    SplitIdText(s)
  }

  /** On a string ending in a non-space character, both groups of a match
      survive trimming: the id has no white space and the text keeps the
      final character. */
  lemma MatchedGroupsShape(t: string)
    requires t != [] && !IsSpace(t[|t| - 1]) && MatchIdToken(t).Some?
    ensures Trim(MatchIdToken(t).value.id) == MatchIdToken(t).value.id
    ensures Trim(MatchIdToken(t).value.rest) != []
  {
    IdGroupTrimmed(t);
    RestGroupSolid(t);
  }

  lemma IdGroupTrimmed(t: string)
    requires MatchIdToken(t).Some?
    ensures Trim(MatchIdToken(t).value.id) == MatchIdToken(t).value.id
  {
    MatchIdTokenMeans(t);
    var m := MatchIdToken(t).value;
    var k :| IdSplitAt(t, k) && m.id == t[..k];
    assert forall i :: 0 <= i < |m.id| ==> IsIdChar(m.id[i]);
    TrimNoSpace(m.id);
  }

  lemma RestGroupSolid(t: string)
    requires t != [] && !IsSpace(t[|t| - 1]) && MatchIdToken(t).Some?
    ensures Trim(MatchIdToken(t).value.rest) != []
  {
    MatchIdTokenMeans(t);
    var m := MatchIdToken(t).value;
    assert m.rest[|m.rest| - 1] == t[|t| - 1];
    TrimKeepsSolidLast(m.rest);
  }

  /** A blank piece gives nothing; otherwise id and text are non-empty, and
      the id is either the whole trimmed piece or ends at the last split point. */
  lemma SplitIdTextShape(s: string)
    ensures SplitIdText(s).None? <==> Trim(s) == []
    ensures SplitIdText(s).Some? ==> SplitIdText(s).value.id != [] && SplitIdText(s).value.text != []
    ensures SplitIdText(s).Some? && MatchIdToken(Trim(s)).None? ==>
              SplitIdText(s).value == IdText(Trim(s), Trim(s))
    ensures SplitIdText(s).Some? && MatchIdToken(Trim(s)).Some? ==>
              exists k :: IdSplitAt(Trim(s), k) && SplitIdText(s).value.id == Trim(s)[..k]
                          && (forall j :: k < j ==> !IdSplitAt(Trim(s), j))
  {
    var t := Trim(s);
    TrimEnds(s);
    if t != [] && MatchIdToken(t).Some? {
      MatchIdTokenMeans(t);
      MatchedGroupsShape(t);
    }
  }

  /** `parseOpt` returns nothing on blank input and otherwise an option
      whose value is its id. */
  lemma ParseOptShape(s: string)
    ensures ParseOpt(s).None? <==> Trim(s) == []
    ensures ParseOpt(s).Some? ==> ParseOpt(s).value.id == ParseOpt(s).value.value
    ensures ParseOpt(s).Some? ==> ParseOpt(s).value.id != [] && ParseOpt(s).value.text != []
  {
    SplitIdTextShape(s);
  }

  /** The longest-id rule: `"1.5 kg"` is option `1` with text `5 kg`,
      because the id `1.5` leaves no delimiter behind it. */
  lemma ParseOptDecimalExample()
    ensures ParseOpt("1.5 kg") == Some(Opt("1", "5 kg", "1"))
  {
    var s := "1.5 kg";
    TrimKeepsSolidEnds(s);
    assert !IdDelimAt(s, 4) && !IdDelimAt(s, 3) && !IdDelimAt(s, 2);
    assert IdDelimAt(s, 1);
    assert LastIdDelim(s, 4) == Some(1);
    assert s[2..] == "5 kg" && s[..1] == "1";
    assert LeadingSpaces("5 kg", 0) == 0;
    assert MatchIdToken(s) == Some(IdMatch("1", "5 kg"));
    TrimKeepsSolidEnds("1");
    TrimKeepsSolidEnds("5 kg");
  }

  /** A piece without a delimiter after its id is its own id and text. */
  lemma ParseOptSelfIdExample()
    ensures ParseOpt("Paris") == Some(Opt("Paris", "Paris", "Paris"))
  {
    var s := "Paris";
    assert Trim(s) == s by { assert !IsSpace(s[0]) && !IsSpace(s[4]); }
    assert !IsIdDelim(s[1]) && !IsIdDelim(s[2]) && !IsIdDelim(s[3]);
    assert LastIdDelim(s, 3).None?;
  }

  /** `cleanId(s)`: trim, then drop one trailing `.` or `)`. */
  function CleanId(s: string): (r: string)
    ensures StartsWith(Trim(s), r) && |Trim(s)| - 1 <= |r| <= |Trim(s)|
    ensures |r| < |Trim(s)| <==> Trim(s) != [] && IsIdDelim(Trim(s)[|Trim(s)| - 1])
  {
    var t := Trim(s);
    if t != [] && IsIdDelim(t[|t| - 1]) then t[..|t| - 1] else t
  }

  /** `cleanId` removes at most one delimiter, so it is not idempotent. */
  lemma CleanIdNotIdempotent()
    ensures CleanId("a..") == "a." && CleanId(CleanId("a..")) == "a"
  {
    assert Trim("a..") == "a.." by { assert !IsSpace('a') && !IsSpace('.'); }
    assert Trim("a.") == "a." by { assert !IsSpace('a') && !IsSpace('.'); }
  }
}
