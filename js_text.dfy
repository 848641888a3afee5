/** String primitives the quiz scripts use through JavaScript's built-ins:
    `trim`, `toLowerCase`, `split`, `join`, `includes`, `replace`.
    Strings are sequences of Dafny characters, that is of Unicode scalar
    values, whereas the browser's strings are sequences of UTF-16 code
    units; the two agree on text without surrogate pairs. */
module JsText {

  /** The characters that `String.prototype.trim` and the regex class `\s`
      treat as white space (ECMAScript WhiteSpace and LineTerminator). */
  predicate IsSpace(c: char) {
    || c == ' ' || '\t' <= c <= '\r' || c == '\U{00A0}' || c == '\U{1680}'
    || '\U{2000}' <= c <= '\U{200A}' || c == '\U{2028}' || c == '\U{2029}'
    || c == '\U{202F}' || c == '\U{205F}' || c == '\U{3000}' || c == '\U{FEFF}'
  }

  predicate IsAsciiDigit(c: char) { '0' <= c <= '9' }

  predicate IsAsciiLetter(c: char) { 'a' <= c <= 'z' || 'A' <= c <= 'Z' }

  predicate AllDigits(s: string) { forall i :: 0 <= i < |s| ==> IsAsciiDigit(s[i]) }

  /** The index of the first non-space character of `s` at or after `k`,
      or `|s|` when there is none. */
  function LeadingSpaces(s: string, k: nat): (n: nat)
    requires k <= |s|
    ensures k <= n <= |s|
    ensures n < |s| ==> !IsSpace(s[n])
    decreases |s| - k
  {
    if k < |s| && IsSpace(s[k]) then LeadingSpaces(s, k + 1) else k
  }

  /** What `LeadingSpaces` skips is white space. */
  lemma {:induction false} LeadingSpacesSkipsSpaces(s: string, k: nat)
    requires k <= |s|
    ensures forall i :: k <= i < LeadingSpaces(s, k) ==> IsSpace(s[i])
    decreases |s| - k
  {
    if k < |s| && IsSpace(s[k]) {
      LeadingSpacesSkipsSpaces(s, k + 1);
    }
  }

  /** The length of `s[..k]` without its trailing white space. */
  function TrailingStart(s: string, k: nat): (n: nat)
    requires k <= |s|
    ensures n <= k
    ensures n > 0 ==> !IsSpace(s[n - 1])
  {
    if k > 0 && IsSpace(s[k - 1]) then TrailingStart(s, k - 1) else k
  }

  /** What `TrailingStart` skips is white space. */
  lemma {:induction false} TrailingStartSkipsSpaces(s: string, k: nat)
    requires k <= |s|
    ensures forall i :: TrailingStart(s, k) <= i < k ==> IsSpace(s[i])
  {
    if k > 0 && IsSpace(s[k - 1]) {
      TrailingStartSkipsSpaces(s, k - 1);
    }
  }

  /** Drops leading white space. */
  function TrimStart(s: string): (r: string)
    ensures |r| <= |s|
    ensures r != [] ==> !IsSpace(r[0])
  {
    s[LeadingSpaces(s, 0)..]
  }

  /** Drops trailing white space. */
  function TrimEnd(s: string): (r: string)
    ensures |r| <= |s|
    ensures r != [] ==> !IsSpace(r[|r| - 1])
  {
    s[..TrailingStart(s, |s|)]
  }

  /** `s.trim()`. */
  function Trim(s: string): (r: string)
  {
    TrimEnd(TrimStart(s))
  }

  /** What `trim` removes is white space at both ends, and nothing else. */
  lemma TrimIsInfix(s: string)
    ensures exists i, j :: 0 <= i <= j <= |s| && Trim(s) == s[i..j]
                          && (forall k :: 0 <= k < i ==> IsSpace(s[k]))
                          && (forall k :: j <= k < |s| ==> IsSpace(s[k]))
  {
    var n := LeadingSpaces(s, 0);
    LeadingSpacesSkipsSpaces(s, 0);
    var t := s[n..];
    var m := TrailingStart(t, |t|);
    TrailingStartSkipsSpaces(t, |t|);
    assert Trim(s) == s[n..n + m];
    forall k | n + m <= k < |s| ensures IsSpace(s[k]) {
      assert s[k] == t[k - n];
    }
  }

  /** A trimmed string begins and ends with non-space characters. */
  lemma TrimEnds(s: string)
    ensures Trim(s) != [] ==> !IsSpace(Trim(s)[0]) && !IsSpace(Trim(s)[|Trim(s)| - 1])
  {
    var t := TrimStart(s);
    if Trim(s) != [] {
      assert Trim(s)[0] == t[0];
    }
  }

  /** A string that begins and ends with non-space characters is its own trim. */
  lemma TrimKeepsSolidEnds(s: string)
    requires s != [] && !IsSpace(s[0]) && !IsSpace(s[|s| - 1])
    ensures Trim(s) == s
  {
    assert LeadingSpaces(s, 0) == 0;
    assert s[0..] == s;
    assert TrailingStart(s, |s|) == |s|;
  }

  /** A string without white space is its own trim. */
  lemma TrimNoSpace(s: string)
    requires forall i :: 0 <= i < |s| ==> !IsSpace(s[i])
    ensures Trim(s) == s
  {
    if s != [] {
      TrimKeepsSolidEnds(s);
    }
  }

  /** Trimming keeps a final non-space character. */
  lemma TrimKeepsSolidLast(s: string)
    requires s != [] && !IsSpace(s[|s| - 1])
    ensures Trim(s) != [] && Trim(s)[|Trim(s)| - 1] == s[|s| - 1]
  {
    var n := LeadingSpaces(s, 0);
    LeadingSpacesSkipsSpaces(s, 0);
    assert n < |s|;
    var t := s[n..];
    assert t[|t| - 1] == s[|s| - 1];
    assert TrailingStart(t, |t|) == |t|;
  }

  lemma TrimStartIdempotent(s: string)
    ensures TrimStart(TrimStart(s)) == TrimStart(s)
  {
    var t := TrimStart(s);
    if t != [] {
      assert LeadingSpaces(t, 0) == 0;
      assert t[0..] == t;
    }
  }

  /** Trimming twice changes nothing more. */
  lemma TrimIdempotent(s: string)
    ensures Trim(Trim(s)) == Trim(s)
  {
    TrimEnds(s);
    var r := Trim(s);
    if r != [] {
      TrimKeepsSolidEnds(r);
    }
  }

  /** The empty string trims to itself. */
  lemma TrimEmpty()
    ensures Trim("") == ""
  {
    assert LeadingSpaces("", 0) == 0;
  }

  /** `toLowerCase` on one character. Only the ASCII letters are mapped;
      the rest of the Unicode case mapping is not part of this model. */
  function LowerChar(c: char): (r: char)
    ensures 'A' <= c <= 'Z' ==> r != c && 'a' <= r <= 'z'
    ensures !('A' <= c <= 'Z') ==> r == c
  {
    if 'A' <= c <= 'Z' then (c as int + 32) as char else c
  }

  /** `s.toLowerCase()`, character by character. */
  function Lower(s: string): (r: string)
    ensures |r| == |s| && forall i :: 0 <= i < |s| ==> r[i] == LowerChar(s[i])
  {
    if s == [] then [] else [LowerChar(s[0])] + Lower(s[1..])
  }

  lemma LowerIdempotent(s: string)
    ensures Lower(Lower(s)) == Lower(s)
  {
  }

  lemma LowerPreservesSpaces(s: string)
    ensures forall i :: 0 <= i < |s| ==> (IsSpace(Lower(s)[i]) <==> IsSpace(s[i]))
  {
  }

  lemma {:induction false} LeadingSpacesLower(s: string, k: nat)
    requires k <= |s|
    ensures LeadingSpaces(Lower(s), k) == LeadingSpaces(s, k)
    decreases |s| - k
  {
    if k < |s| {
      assert Lower(s)[k] == LowerChar(s[k]);
      if IsSpace(s[k]) {
        LeadingSpacesLower(s, k + 1);
      }
    }
  }

  lemma {:induction false} TrailingStartLower(s: string, k: nat)
    requires k <= |s|
    ensures TrailingStart(Lower(s), k) == TrailingStart(s, k)
  {
    if k > 0 {
      assert Lower(s)[k - 1] == LowerChar(s[k - 1]);
      if IsSpace(s[k - 1]) {
        TrailingStartLower(s, k - 1);
      }
    }
  }

  /** Lowering commutes with trimming, because no ASCII capital is white space. */
  lemma LowerTrimStartCommute(s: string)
    ensures Lower(TrimStart(s)) == TrimStart(Lower(s))
  {
    var n := LeadingSpaces(s, 0);
    LeadingSpacesLower(s, 0);
    assert Lower(s[n..]) == Lower(s)[n..];
  }

  lemma LowerTrimEndCommute(s: string)
    ensures Lower(TrimEnd(s)) == TrimEnd(Lower(s))
  {
    var n := TrailingStart(s, |s|);
    TrailingStartLower(s, |s|);
    assert Lower(s[..n]) == Lower(s)[..n];
  }

  lemma LowerTrimCommute(s: string)
    ensures Lower(Trim(s)) == Trim(Lower(s))
  {
    LowerTrimStartCommute(s);
    LowerTrimEndCommute(TrimStart(s));
  }

  /** `s.split(sep)` where `isSep` tells which characters separate: one
      character for a string separator, a character class such as `[;,]`
      for a regex one. The pieces between separators, empty ones included. */
  function Split(s: string, isSep: char -> bool): (parts: seq<string>)
    ensures |parts| >= 1
  {
    SplitFrom(s, isSep, 0)
  }

  function SplitFrom(s: string, isSep: char -> bool, k: nat): (parts: seq<string>)
    requires k <= |s|
    ensures |parts| >= 1
    decreases |s| - k
  {
    if k == |s| then [s]
    else if isSep(s[k]) then [s[..k]] + SplitFrom(s[k + 1..], isSep, 0)
    else SplitFrom(s, isSep, k + 1)
  }

  lemma {:induction false} SplitFromNoSeparator(s: string, isSep: char -> bool, k: nat)
    requires k <= |s| && forall i :: 0 <= i < k ==> !isSep(s[i])
    ensures forall p :: p in SplitFrom(s, isSep, k) ==> forall i :: 0 <= i < |p| ==> !isSep(p[i])
    decreases |s| - k
  {
    if k < |s| {
      if isSep(s[k]) {
        SplitFromNoSeparator(s[k + 1..], isSep, 0);
      } else {
        SplitFromNoSeparator(s, isSep, k + 1);
      }
    }
  }

  /** No piece of a split contains a separator. */
  lemma SplitNoSeparator(s: string, isSep: char -> bool)
    ensures forall p :: p in Split(s, isSep) ==> forall i :: 0 <= i < |p| ==> !isSep(p[i])
  {
    SplitFromNoSeparator(s, isSep, 0);
  }

  predicate IsPipe(c: char) { c == '|' }

  predicate IsComma(c: char) { c == ',' }

  predicate IsPairSeparator(c: char) { c == ';' || c == ',' }

  predicate IsDash(c: char) { c == '-' }

  /** `parts.join(sep)`. */
  function Join(parts: seq<string>, sep: string): (r: string)
  {
    if parts == [] then []
    else if |parts| == 1 then parts[0]
    else parts[0] + sep + Join(parts[1..], sep)
  }

  lemma {:induction false} SplitFromJoin(s: string, isSep: char -> bool, c: char, k: nat)
    requires k <= |s|
    requires forall i :: 0 <= i < k ==> !isSep(s[i])
    requires forall x :: isSep(x) <==> x == c
    ensures Join(SplitFrom(s, isSep, k), [c]) == s
    decreases |s| - k
  {
    if k == |s| {
    } else if isSep(s[k]) {
      SplitFromJoin(s[k + 1..], isSep, c, 0);
      var rest := SplitFrom(s[k + 1..], isSep, 0);
      assert ([s[..k]] + rest)[1..] == rest;
      assert s == s[..k] + [c] + s[k + 1..];
    } else {
      SplitFromJoin(s, isSep, c, k + 1);
    }
  }

  /** Splitting on one separator character and joining with it again gives
      the input back. */
  lemma SplitJoin(s: string, isSep: char -> bool, c: char)
    requires forall x :: isSep(x) <==> x == c
    ensures Join(Split(s, isSep), [c]) == s
  {
    SplitFromJoin(s, isSep, c, 0);
  }

  /** Keeps the non-empty strings, in order: `.filter(Boolean)` on strings. */
  function NonEmpty(ss: seq<string>): (r: seq<string>)
    ensures |r| <= |ss|
  {
    if ss == [] then []
    else if ss[0] == [] then NonEmpty(ss[1..])
    else [ss[0]] + NonEmpty(ss[1..])
  }

  /** The filter keeps exactly the non-empty strings. */
  lemma {:induction false} NonEmptyMembers(ss: seq<string>)
    ensures forall x :: x in NonEmpty(ss) <==> x in ss && x != []
  {
    if ss != [] {
      NonEmptyMembers(ss[1..]);
      assert ss == [ss[0]] + ss[1..];
    }
  }

  /** `.map(s => s.trim())`. */
  function TrimAll(ss: seq<string>): (r: seq<string>)
    ensures |r| == |ss| && forall i :: 0 <= i < |ss| ==> r[i] == Trim(ss[i])
  {
    if ss == [] then [] else [Trim(ss[0])] + TrimAll(ss[1..])
  }

  /** `s.split(/\s+/).map(t => t.trim()).filter(Boolean)`: the maximal runs
      of non-space characters. Splitting at every white-space character
      instead of at every run only adds empty pieces, which the filter drops. */
  function Words(s: string): (r: seq<string>)
  {
    NonEmpty(TrimAll(Split(s, IsSpace)))
  }

  /** Every word is non-empty and free of white space. */
  lemma WordsShape(s: string)
    ensures forall w :: w in Words(s) ==> w != [] && forall i :: 0 <= i < |w| ==> !IsSpace(w[i])
  {
    var parts := Split(s, IsSpace);
    SplitNoSeparator(s, IsSpace);
    NonEmptyMembers(TrimAll(parts));
    forall w | w in Words(s)
      ensures w != [] && forall i :: 0 <= i < |w| ==> !IsSpace(w[i])
    {
      var k :| 0 <= k < |parts| && TrimAll(parts)[k] == w;
      assert parts[k] in parts;
      TrimNoSpace(parts[k]);
    }
  }

  /** Every non-empty white-space-free piece of the input survives as a word. */
  lemma WordsKeepPieces(s: string)
    ensures forall p :: p in Split(s, IsSpace) && p != [] ==> p in Words(s)
  {
    var parts := Split(s, IsSpace);
    SplitNoSeparator(s, IsSpace);
    NonEmptyMembers(TrimAll(parts));
    forall p | p in parts && p != [] ensures p in Words(s) {
      var k :| 0 <= k < |parts| && parts[k] == p;
      TrimNoSpace(p);
      assert TrimAll(parts)[k] == p;
    }
  }

  /** `s.replace(/_/g, ' ')`. */
  function UnderscoresToSpaces(s: string): (r: string)
    ensures |r| == |s|
    ensures forall i :: 0 <= i < |s| ==> r[i] == (if s[i] == '_' then ' ' else s[i])
  {
    if s == [] then [] else [if s[0] == '_' then ' ' else s[0]] + UnderscoresToSpaces(s[1..])
  }

  /** `s.replace(/\\n/g, '<br>')`: every two-character sequence backslash,
      `n` becomes a `<br>` tag, scanning left to right. */
  function EscapedNewlinesToBr(s: string): (r: string)
  {
    if |s| >= 2 && s[0] == '\\' && s[1] == 'n' then "<br>" + EscapedNewlinesToBr(s[2..])
    else if s == [] then []
    else [s[0]] + EscapedNewlinesToBr(s[1..])
  }

  /** Text without a backslash is left as it is. */
  lemma {:induction false} EscapedNewlinesWithoutBackslash(s: string)
    requires forall i :: 0 <= i < |s| ==> s[i] != '\\'
    ensures EscapedNewlinesToBr(s) == s
  {
    if s != [] {
      EscapedNewlinesWithoutBackslash(s[1..]);
    }
  }

  predicate StartsWith(s: string, prefix: string) {
    |prefix| <= |s| && s[..|prefix|] == prefix
  }

  predicate OccursAt(s: string, sub: string, i: int) {
    0 <= i && i + |sub| <= |s| && s[i..i + |sub|] == sub
  }

  /** `s.includes(sub)`, computed by scanning from position `k`. */
  function ContainsFrom(s: string, sub: string, k: nat): (b: bool)
    requires k <= |s|
    ensures b <==> exists i :: k <= i && OccursAt(s, sub, i)
    decreases |s| - k
  {
    if k + |sub| > |s| then false
    else if s[k..k + |sub|] == sub then assert OccursAt(s, sub, k); true
    else ContainsFrom(s, sub, k + 1)
  }

  function Contains(s: string, sub: string): (b: bool)
    ensures b <==> exists i :: OccursAt(s, sub, i)
  {
    ContainsFrom(s, sub, 0)
  }

  /** The decimal numeral of `n`, as `${n}` renders it. */
  function NatToString(n: nat): (r: string)
    ensures r != [] && AllDigits(r)
    ensures n < 10 ==> |r| == 1
  {
    if n < 10 then [(48 + n) as char] else NatToString(n / 10) + [(48 + n % 10) as char]
  }

  /** The value of a string of decimal digits, as `parseInt(s)` reads it. */
  function DigitsValue(s: string): (n: nat)
    requires AllDigits(s)
  {
    if s == [] then 0 else DigitsValue(s[..|s| - 1]) * 10 + (s[|s| - 1] as int - 48)
  }

  /** `parseInt` reads back what `${n}` writes. */
  lemma {:induction false} DigitsValueOfNatToString(n: nat)
    ensures DigitsValue(NatToString(n)) == n
  {
    if n >= 10 {
      DigitsValueOfNatToString(n / 10);
      var r := NatToString(n);
      assert r[..|r| - 1] == NatToString(n / 10);
    }
  }
}
