/** The cloze deletions of a field and the card-level facts derived from
    them. A deletion is what the regular expression
    `\{\{c(\d+)::([\s\S]*?)(::([\s\S]*?))?\}\}` matches, scanned left to
    right as `matchAll` and `replace` with the global flag do. */
module ClozeScan {
  import opened Wrappers
  import opened JsText

  /** One match: `parseInt(m[1])`, the digits `m[1]`, the content `m[2]`
      and the placeholder `m[4]` (`None` when the optional group did not
      take part). */
  datatype Deletion = Deletion(num: nat, digits: string, content: string, placeholder: Option<string>)

  /** A field cut into the text between matches and the matches themselves. */
  datatype Piece = Lit(text: string) | Del(d: Deletion)

  // ---------------------------------------------------------- scanner

  predicate PairAt(s: string, i: int, a: char, b: char) {
    0 <= i && i + 1 < |s| && s[i] == a && s[i + 1] == b
  }

  /** `{{c` starts at `k`. */
  predicate OpenAt(s: string, k: int) {
    PairAt(s, k, '{', '{') && k + 2 < |s| && s[k + 2] == 'c'
  }

  /** A place where the lazy content group can stop: `::` or `}}`. */
  predicate StopAt(s: string, i: int) {
    PairAt(s, i, ':', ':') || PairAt(s, i, '}', '}')
  }

  /** The end of the run of ASCII digits from `k` (`\d+` is greedy, and
      backing off a digit would put a digit where `::` must be). */
  function DigitRun(s: string, k: nat): (e: nat)
    requires k <= |s|
    ensures k <= e <= |s| && AllDigits(s[k..e])
    decreases |s| - k
  {
    if k < |s| && IsAsciiDigit(s[k]) then
      var e := DigitRun(s, k + 1);
      assert s[k..e] == [s[k]] + s[k + 1..e];
      e
    else k
  }

  /** The first stop at or after `k`. */
  function StopFrom(s: string, k: nat): (q: Option<nat>)
    requires k <= |s|
    ensures q.Some? ==> k <= q.value && StopAt(s, q.value)
    decreases |s| - k
  {
    if k + 1 >= |s| then None
    else if StopAt(s, k) then Some(k)
    else StopFrom(s, k + 1)
  }

  lemma {:induction false} StopFromFirst(s: string, k: nat)
    requires k <= |s|
    ensures StopFrom(s, k).Some? ==> forall i :: k <= i < StopFrom(s, k).value ==> !StopAt(s, i)
    ensures StopFrom(s, k).None? ==> forall i :: k <= i ==> !StopAt(s, i)
    decreases |s| - k
  {
    if k + 1 < |s| && !StopAt(s, k) {
      StopFromFirst(s, k + 1);
    }
  }

  /** The first `}}` at or after `k`. */
  function CloseFrom(s: string, k: nat): (r: Option<nat>)
    requires k <= |s|
    ensures r.Some? ==> k <= r.value && PairAt(s, r.value, '}', '}')
    decreases |s| - k
  {
    if k + 1 >= |s| then None
    else if PairAt(s, k, '}', '}') then Some(k)
    else CloseFrom(s, k + 1)
  }

  lemma {:induction false} CloseFromFirst(s: string, k: nat)
    requires k <= |s|
    ensures CloseFrom(s, k).Some? ==> forall i :: k <= i < CloseFrom(s, k).value ==> !PairAt(s, i, '}', '}')
    decreases |s| - k
  {
    if k + 1 < |s| && !PairAt(s, k, '}', '}') {
      CloseFromFirst(s, k + 1);
    }
  }

  /** Where the parts of a match starting at `k` lie: the digits end at
      `e`, the content at `q`, the placeholder (if any) at `r`, the match at
      `end`. */
  datatype Span = Span(e: nat, q: nat, r: Option<nat>, end: nat)

  /** The positions of the match starting at `k`. The content group is
      lazy: it ends at the first stop. At a `}}` the match ends there; at a
      `::` the placeholder runs, lazily, to the next `}}`, and with no `}}`
      left the match fails. */
  function SpanAt(s: string, k: nat): (sp: Option<Span>)
    requires k <= |s|
    ensures sp.Some? ==> var x := sp.value;
              k + 3 < x.e && x.e + 2 <= x.q && x.q + 2 <= x.end <= |s| &&
              (x.r.Some? ==> x.q + 2 <= x.r.value && x.end == x.r.value + 2)
  {
    if !OpenAt(s, k) then None
    else
      var e := DigitRun(s, k + 3);
      if e == k + 3 || !PairAt(s, e, ':', ':') then None
      else
        match StopFrom(s, e + 2)
        case None => None
        case Some(q) =>
          if PairAt(s, q, '}', '}') then Some(Span(e, q, None, q + 2))
          else
            match CloseFrom(s, q + 2)
            case None => None
            case Some(r) => Some(Span(e, q, Some(r), r + 2))
  }

  /** The landmarks of a match: `{{c`, the digits, `::`, the first stop,
      and either `}}` there or `::` and the next `}}`. */
  lemma SpanAtFacts(s: string, k: nat)
    requires k <= |s| && SpanAt(s, k).Some?
    ensures var x := SpanAt(s, k).value;
            OpenAt(s, k) && x.e == DigitRun(s, k + 3) && PairAt(s, x.e, ':', ':') &&
            StopFrom(s, x.e + 2) == Some(x.q) &&
            (x.r.None? ==> PairAt(s, x.q, '}', '}') && x.end == x.q + 2) &&
            (x.r.Some? ==> !PairAt(s, x.q, '}', '}') && CloseFrom(s, x.q + 2) == x.r)
  {
  }

  /** The match starting at `k`, with the position after it. */
  function MatchAt(s: string, k: nat): (r: Option<(Deletion, nat)>)
    requires k <= |s|
    ensures r.Some? ==> k < r.value.1 <= |s|
  {
    match SpanAt(s, k)
    case None => None
    case Some(x) =>
      var digits := s[k + 3..x.e];
      var p := if x.r.Some? then Some(s[x.q + 2..x.r.value]) else None;
      Some((Deletion(DigitsValue(digits), digits, s[x.e + 2..x.q], p), x.end))
  }

  /** The first position at or after `k` where a match starts. */
  function NextMatch(s: string, k: nat): (p: Option<nat>)
    requires k <= |s|
    ensures p.Some? ==> k <= p.value <= |s| && MatchAt(s, p.value).Some?
    decreases |s| - k
  {
    if k >= |s| then None
    else if OpenAt(s, k) && MatchAt(s, k).Some? then Some(k)
    else NextMatch(s, k + 1)
  }

  lemma {:induction false} NextMatchFirst(s: string, k: nat)
    requires k <= |s|
    ensures forall i :: k <= i < (if NextMatch(s, k).Some? then NextMatch(s, k).value else |s|) ==> MatchAt(s, i).None?
    decreases |s| - k
  {
    if k < |s| && MatchAt(s, k).None? {
      NextMatchFirst(s, k + 1);
    }
  }

  /** The pieces of `s[k..]`: text, a match, text, a match, ..., text. */
  function ScanFrom(s: string, k: nat): seq<Piece>
    requires k <= |s|
    decreases |s| - k
  {
    match NextMatch(s, k)
    case None => [Lit(s[k..])]
    case Some(p) =>
      var m := MatchAt(s, p).value;
      [Lit(s[k..p]), Del(m.0)] + ScanFrom(s, m.1)
  }

  function Scan(s: string): seq<Piece> {
    ScanFrom(s, 0)
  }

  /** The text a deletion was written as. */
  function Source(d: Deletion): string {
    "{{c" + d.digits + "::" + d.content + Closing(d)
  }

  /** What follows the content: the placeholder, if any, and the `}}`. */
  function Closing(d: Deletion): string {
    if d.placeholder.Some? then "::" + d.placeholder.value + "}}" else "}}"
  }

  /** `s.replace(clozeRegex, f)`: every match replaced by `f` of it, the
      text between matches kept. */
  function Rewrite(pieces: seq<Piece>, f: Deletion -> string): string {
    if pieces == [] then ""
    else (match pieces[0] case Lit(t) => t case Del(d) => f(d)) + Rewrite(pieces[1..], f)
  }

  /** The matches, in document order: `Array.from(s.matchAll(clozeRegex))`. */
  function DeletionsOf(pieces: seq<Piece>): seq<Deletion> {
    if pieces == [] then []
    else (match pieces[0] case Lit(_) => [] case Del(d) => [d]) + DeletionsOf(pieces[1..])
  }

  function Deletions(s: string): seq<Deletion> {
    DeletionsOf(Scan(s))
  }

  // ------------------------------------------------- scanner properties

  lemma SliceSplit(s: string, i: nat, j: nat, k: nat)
    requires i <= j <= k <= |s|
    ensures s[i..k] == s[i..j] + s[j..k]
  {
  }

  /** The closing text between a stop at `q` and the end of a match. */
  lemma ClosingAt(s: string, q: nat, r: Option<nat>, end: nat)
    requires r.None? ==> PairAt(s, q, '}', '}') && end == q + 2
    requires r.Some? ==> PairAt(s, q, ':', ':') && q + 2 <= r.value && PairAt(s, r.value, '}', '}') && end == r.value + 2
    ensures q + 2 <= end <= |s|
    ensures s[q..end] == if r.Some? then "::" + s[q + 2..r.value] + "}}" else "}}"
  {
    if r.Some? {
      var t := r.value;
      assert s[q..q + 2] == "::" && s[t..t + 2] == "}}";
      SliceSplit(s, q, q + 2, t);
      SliceSplit(s, q, t, t + 2);
    } else {
      assert s[q..q + 2] == "}}";
    }
  }

  /** The end of a match is its closing text. */
  lemma MatchAtClosing(s: string, k: nat)
    requires k <= |s| && MatchAt(s, k).Some?
    ensures var x := SpanAt(s, k).value;
            x.q + 2 <= MatchAt(s, k).value.1 &&
            s[x.q..MatchAt(s, k).value.1] == Closing(MatchAt(s, k).value.0)
  {
    var x := SpanAt(s, k).value;
    SpanAtFacts(s, k);
    assert StopAt(s, x.q);
    ClosingAt(s, x.q, x.r, x.end);
  }

  /** A match is exactly the text it was written as. */
  lemma MatchAtSource(s: string, k: nat)
    requires k <= |s| && MatchAt(s, k).Some?
    ensures Source(MatchAt(s, k).value.0) == s[k..MatchAt(s, k).value.1]
  {
    var x := SpanAt(s, k).value;
    var d := MatchAt(s, k).value.0;
    var end := MatchAt(s, k).value.1;
    SpanAtFacts(s, k);
    MatchAtClosing(s, k);
    assert s[k..k + 3] == "{{c";
    assert s[x.e..x.e + 2] == "::";
    assert d.digits == s[k + 3..x.e] && d.content == s[x.e + 2..x.q];
    SliceSplit(s, k, k + 3, x.e);
    SliceSplit(s, k, x.e, x.e + 2);
    SliceSplit(s, k, x.e + 2, x.q);
    SliceSplit(s, k, x.q, end);
  }

  /** The laziness of the groups: the content holds no `::` and no `}}`,
      the placeholder no `}}`, and the digits are a non-empty numeral. */
  lemma MatchAtLazy(s: string, k: nat)
    requires k <= |s| && MatchAt(s, k).Some?
    ensures var d := MatchAt(s, k).value.0;
            d.digits != [] && AllDigits(d.digits) && d.num == DigitsValue(d.digits) &&
            (forall i :: !StopAt(d.content, i)) &&
            (d.placeholder.Some? ==> forall i :: !PairAt(d.placeholder.value, i, '}', '}'))
  {
    var x := SpanAt(s, k).value;
    var d := MatchAt(s, k).value.0;
    SpanAtFacts(s, k);
    StopFromFirst(s, x.e + 2);
    forall i | StopAt(d.content, i) ensures false {
      assert StopAt(s, x.e + 2 + i);
    }
    if d.placeholder.Some? {
      CloseFromFirst(s, x.q + 2);
      forall i | PairAt(d.placeholder.value, i, '}', '}') ensures false {
        assert PairAt(s, x.q + 2 + i, '}', '}');
      }
    }
  }

  /** A deletion as the scanner can read it back: a non-empty numeral whose
      value is `num`, a content in which the lazy group cannot stop early,
      and a placeholder in which it cannot close early. */
  predicate Canonical(d: Deletion) {
    && d.digits != [] && AllDigits(d.digits) && d.num == DigitsValue(d.digits)
    && (forall i :: 0 <= i < |d.content| ==> !StopAt(d.content + Closing(d), i))
    && (d.placeholder.Some? ==> forall i :: 0 <= i < |d.placeholder.value| ==> !PairAt(d.placeholder.value + "}}", i, '}', '}'))
  }

  /** A pair of characters inside a slice is the same pair in the whole text. */
  lemma PairShift(s: string, t: string, off: nat, j: nat, a: char, b: char)
    requires off + |t| <= |s| && s[off..off + |t|] == t && j + 1 < |t|
    ensures PairAt(s, off + j, a, b) <==> PairAt(t, j, a, b)
  {
    assert s[off + j] == t[j] && s[off + j + 1] == t[j + 1];
  }

  /** A slice of a slice. */
  lemma SubSlice(s: string, u: string, k: nat, i: nat, j: nat)
    requires k + |u| <= |s| && s[k..k + |u|] == u && i <= j <= |u|
    ensures s[k + i..k + j] == u[i..j]
  {
    forall x | 0 <= x < j - i ensures s[k + i..k + j][x] == u[i..j][x] {
      assert s[k..k + |u|][i + x] == s[k + i + x];
    }
  }

  /** The parts of the text a deletion is written as. */
  lemma SourceParts(d: Deletion)
    ensures var n := |d.digits|;
            var c := |d.content|;
            var src := Source(d);
            |src| == 5 + n + c + |Closing(d)| &&
            src[0] == '{' && src[1] == '{' && src[2] == 'c' &&
            src[3..3 + n] == d.digits && src[3 + n] == ':' && src[4 + n] == ':' &&
            src[5 + n..] == d.content + Closing(d) && src[5 + n..5 + n + c] == d.content &&
            src[5 + n + c..] == Closing(d)
  {
    var pre := "{{c" + d.digits + "::";
    assert Source(d) == pre + (d.content + Closing(d));
  }

  lemma ClosingParts(p: string)
    ensures var t := "::" + p + "}}";
            t[2..] == p + "}}" && t[2..2 + |p|] == p
  {
    var t := "::" + p + "}}";
    assert t == "::" + (p + "}}");
  }

  lemma {:induction false} DigitRunEnds(s: string, k: nat, e: nat)
    requires k <= e < |s| && AllDigits(s[k..e]) && !IsAsciiDigit(s[e])
    ensures DigitRun(s, k) == e
    decreases e - k
  {
    if k < e {
      assert IsAsciiDigit(s[k..e][0]);
      assert s[k + 1..e] == s[k..e][1..];
      DigitRunEnds(s, k + 1, e);
    }
  }

  lemma {:induction false} StopFromFinds(s: string, k: nat, q: nat)
    requires k <= q && StopAt(s, q) && forall i :: k <= i < q ==> !StopAt(s, i)
    ensures StopFrom(s, k) == Some(q)
    decreases q - k
  {
    if k < q {
      StopFromFinds(s, k + 1, q);
    }
  }

  lemma {:induction false} CloseFromFinds(s: string, k: nat, r: nat)
    requires k <= r && PairAt(s, r, '}', '}') && forall i :: k <= i < r ==> !PairAt(s, i, '}', '}')
    ensures CloseFrom(s, k) == Some(r)
    decreases r - k
  {
    if k < r {
      CloseFromFinds(s, k + 1, r);
    }
  }

  /** The content group stops at the end of the content, given the text
      `t` (content and closing) written at `c`. */
  lemma WrittenContent(s: string, c: nat, end: nat, d: Deletion)
    requires Canonical(d)
    requires end == c + |d.content| + |Closing(d)| && end <= |s| && s[c..end] == d.content + Closing(d)
    ensures StopFrom(s, c) == Some(c + |d.content|)
  {
    var t := d.content + Closing(d);
    assert s[c..c + |t|] == t;
    assert t[|d.content|] == Closing(d)[0] && t[|d.content| + 1] == Closing(d)[1];
    PairShift(s, t, c, |d.content|, ':', ':');
    PairShift(s, t, c, |d.content|, '}', '}');
    forall i | c <= i < c + |d.content| ensures !StopAt(s, i) {
      assert !StopAt(t, i - c);
      PairShift(s, t, c, i - c, ':', ':');
      PairShift(s, t, c, i - c, '}', '}');
    }
    StopFromFinds(s, c, c + |d.content|);
  }

  /** The placeholder group closes at the end of the placeholder. */
  lemma WrittenPlaceholder(s: string, q: nat, p: string)
    requires (forall i :: 0 <= i < |p| ==> !PairAt(p + "}}", i, '}', '}'))
    requires q + 2 + |p| + 2 <= |s| && s[q..q + 2 + |p| + 2] == "::" + p + "}}"
    ensures CloseFrom(s, q + 2) == Some(q + 2 + |p|) && s[q + 2..q + 2 + |p|] == p
  {
    var t := p + "}}";
    ClosingParts(p);
    SubSlice(s, "::" + p + "}}", q, 2, |p| + 4);
    SubSlice(s, "::" + p + "}}", q, 2, |p| + 2);
    PairShift(s, t, q + 2, |p|, '}', '}');
    forall i | q + 2 <= i < q + 2 + |p| ensures !PairAt(s, i, '}', '}') {
      PairShift(s, t, q + 2, i - q - 2, '}', '}');
    }
    CloseFromFinds(s, q + 2, q + 2 + |p|);
  }

  /** The opening of a deletion written at `k`, and where its content and
      closing lie. */
  lemma WrittenOpening(s: string, k: nat, d: Deletion)
    requires Canonical(d) && k + |Source(d)| <= |s| && s[k..k + |Source(d)|] == Source(d)
    ensures var e := k + 3 + |d.digits|;
            var q := e + 2 + |d.content|;
            var end := k + |Source(d)|;
            OpenAt(s, k) && DigitRun(s, k + 3) == e && PairAt(s, e, ':', ':') &&
            end == q + |Closing(d)| &&
            s[e + 2..end] == d.content + Closing(d) && s[q..end] == Closing(d)
  {
    var n := |d.digits|;
    var src := Source(d);
    SourceParts(d);
    assert s[k] == src[0] && s[k + 1] == src[1] && s[k + 2] == src[2];
    assert s[k + 3 + n] == src[3 + n] && s[k + 4 + n] == src[4 + n];
    SubSlice(s, src, k, 3, 3 + n);
    DigitRunEnds(s, k + 3, k + 3 + n);
    SubSlice(s, src, k, 5 + n, |src|);
    SubSlice(s, src, k, 5 + n + |d.content|, |src|);
  }

  /** What follows the content tells the two forms apart, and a placeholder
      closes at its end. */
  lemma WrittenClosing(s: string, q: nat, end: nat, d: Deletion)
    requires Canonical(d) && end == q + |Closing(d)| && end <= |s| && s[q..end] == Closing(d)
    ensures PairAt(s, q, '}', '}') <==> d.placeholder.None?
    ensures d.placeholder.Some? ==> CloseFrom(s, q + 2) == Some(q + 2 + |d.placeholder.value|) &&
                                    |Closing(d)| == |d.placeholder.value| + 4
    ensures d.placeholder.None? ==> |Closing(d)| == 2
  {
    assert s[q] == Closing(d)[0] && s[q + 1] == Closing(d)[1];
    if d.placeholder.Some? {
      assert s[q..q + 2 + |d.placeholder.value| + 2] == Closing(d);
      WrittenPlaceholder(s, q, d.placeholder.value);
    }
  }

  /** The span of a canonical deletion written at `k`. */
  lemma WrittenSpan(s: string, k: nat, d: Deletion)
    requires Canonical(d) && k + |Source(d)| <= |s| && s[k..k + |Source(d)|] == Source(d)
    ensures SpanAt(s, k) == Some(WrittenSpanOf(k, d))
  {
    var e := k + 3 + |d.digits|;
    var q := e + 2 + |d.content|;
    var end := k + |Source(d)|;
    var r := if d.placeholder.Some? then Some(q + 2 + |d.placeholder.value|) else None;
    assert WrittenSpanOf(k, d) == Span(e, q, r, end);
    WrittenLandmarks(s, k, d, e, q, r, end);
    SpanAtFrom(s, k, e, q, r, end);
  }

  /** The landmarks the scanner finds in a canonical deletion written at `k`. */
  lemma WrittenLandmarks(s: string, k: nat, d: Deletion, e: nat, q: nat, r: Option<nat>, end: nat)
    requires Canonical(d) && k + |Source(d)| <= |s| && s[k..k + |Source(d)|] == Source(d)
    requires e == k + 3 + |d.digits| && q == e + 2 + |d.content| && end == k + |Source(d)|
    requires r == if d.placeholder.Some? then Some(q + 2 + |d.placeholder.value|) else None
    ensures OpenAt(s, k) && DigitRun(s, k + 3) == e && k + 3 < e && PairAt(s, e, ':', ':')
    ensures StopFrom(s, e + 2) == Some(q)
    ensures r.None? ==> PairAt(s, q, '}', '}') && end == q + 2
    ensures r.Some? ==> !PairAt(s, q, '}', '}') && CloseFrom(s, q + 2) == r && end == r.value + 2
  {
    WrittenOpening(s, k, d);
    WrittenContent(s, e + 2, end, d);
    WrittenClosing(s, q, end, d);
  }

  /** `SpanAt` from its landmarks. */
  lemma SpanAtFrom(s: string, k: nat, e: nat, q: nat, r: Option<nat>, end: nat)
    requires k <= |s| && OpenAt(s, k) && DigitRun(s, k + 3) == e && k + 3 < e && PairAt(s, e, ':', ':')
    requires StopFrom(s, e + 2) == Some(q)
    requires r.None? ==> PairAt(s, q, '}', '}') && end == q + 2
    requires r.Some? ==> !PairAt(s, q, '}', '}') && CloseFrom(s, q + 2) == r && end == r.value + 2
    ensures SpanAt(s, k) == Some(Span(e, q, r, end))
  {
  }

  /** Where the parts of a deletion written at `k` lie. */
  function WrittenSpanOf(k: nat, d: Deletion): Span {
    var e := k + 3 + |d.digits|;
    var q := e + 2 + |d.content|;
    Span(e, q, if d.placeholder.Some? then Some(q + 2 + |d.placeholder.value|) else None, k + |Source(d)|)
  }

  /** The groups of a canonical deletion written at `k`. */
  lemma WrittenGroups(s: string, k: nat, d: Deletion)
    requires k + |Source(d)| <= |s| && s[k..k + |Source(d)|] == Source(d)
    ensures var e := k + 3 + |d.digits|;
            var q := e + 2 + |d.content|;
            s[k + 3..e] == d.digits && s[e + 2..q] == d.content &&
            (d.placeholder.Some? ==> s[q + 2..q + 2 + |d.placeholder.value|] == d.placeholder.value)
  {
    var src := Source(d);
    var n, c := |d.digits|, |d.content|;
    SourceParts(d);
    GroupAt(s, src, k, 3, 3 + n, d.digits);
    GroupAt(s, src, k, 5 + n, 5 + n + c, d.content);
    if d.placeholder.Some? {
      GroupAt(s, src, k, 5 + n + c, |src|, Closing(d));
      PlaceholderGroup(s, k + 5 + n + c, k + |src|, d.placeholder.value);
    }
  }

  /** A part of the text written at `k` sits at the same offset in `s`. */
  lemma GroupAt(s: string, src: string, k: nat, i: nat, j: nat, g: string)
    requires k + |src| <= |s| && s[k..k + |src|] == src && i <= j <= |src| && src[i..j] == g
    ensures s[k + i..k + j] == g
  {
    SubSlice(s, src, k, i, j);
  }

  lemma PlaceholderGroup(s: string, q: nat, end: nat, p: string)
    requires end == q + |p| + 4 && end <= |s| && s[q..end] == "::" + p + "}}"
    ensures s[q + 2..q + 2 + |p|] == p
  {
    ClosingParts(p);
    SubSlice(s, "::" + p + "}}", q, 2, 2 + |p|);
  }

  /** The scanner reads a canonical deletion back from its source: the
      converse of `MatchAtSource` and `MatchAtLazy`. */
  lemma MatchAtWritten(s: string, k: nat, d: Deletion)
    requires Canonical(d) && k + |Source(d)| <= |s| && s[k..k + |Source(d)|] == Source(d)
    ensures MatchAt(s, k) == Some((d, k + |Source(d)|))
  {
    var x := WrittenSpanOf(k, d);
    WrittenSpan(s, k, d);
    WrittenGroups(s, k, d);
    MatchAtOfSpan(s, k, x, d);
  }

  /** The match read at `k` from a span whose groups are those of `d`. */
  lemma MatchAtOfSpan(s: string, k: nat, x: Span, d: Deletion)
    requires k <= |s| && SpanAt(s, k) == Some(x)
    requires s[k + 3..x.e] == d.digits && d.num == DigitsValue(d.digits) && s[x.e + 2..x.q] == d.content
    requires x.r.Some? <==> d.placeholder.Some?
    requires x.r.Some? ==> s[x.q + 2..x.r.value] == d.placeholder.value
    ensures MatchAt(s, k) == Some((d, x.end))
  {
    MatchAtFrom(s, k, x);
  }

  /** `MatchAt` from the span of the match. */
  lemma MatchAtFrom(s: string, k: nat, x: Span)
    requires k <= |s| && SpanAt(s, k) == Some(x)
    ensures x.e <= x.q && (x.r.Some? ==> x.q + 2 <= x.r.value) && x.end <= |s|
    ensures var digits := s[k + 3..x.e];
            var p := if x.r.Some? then Some(s[x.q + 2..x.r.value]) else None;
            MatchAt(s, k) == Some((Deletion(DigitsValue(digits), digits, s[x.e + 2..x.q], p), x.end))
  {
  }

  /** Rewriting every match back to its source gives the field back: the
      pieces cover the text exactly, and the text between matches is kept. */
  lemma {:induction false} ScanFromRoundTrip(s: string, k: nat)
    requires k <= |s|
    ensures Rewrite(ScanFrom(s, k), Source) == s[k..]
    decreases |s| - k
  {
    match NextMatch(s, k)
    case None =>
      assert Rewrite([Lit(s[k..])], Source) == s[k..] + Rewrite([], Source);
    case Some(p) =>
      ScanFromRoundTrip(s, MatchAt(s, p).value.1);
      RoundTripStep(s, k, p);
  }

  /** One match and the text before it round-trip. */
  lemma RoundTripStep(s: string, k: nat, p: nat)
    requires k <= |s| && NextMatch(s, k) == Some(p)
    requires Rewrite(ScanFrom(s, MatchAt(s, p).value.1), Source) == s[MatchAt(s, p).value.1..]
    ensures Rewrite(ScanFrom(s, k), Source) == s[k..]
  {
    var m := MatchAt(s, p).value;
    MatchAtSource(s, p);
    ScanFromStep(s, k, p);
    RewriteStep(s[k..p], m.0, ScanFrom(s, m.1), Source);
    JoinThree(s, k, p, m.1);
  }

  /** The pieces from `k` when the next match is at `p`. */
  lemma ScanFromStep(s: string, k: nat, p: nat)
    requires k <= |s| && NextMatch(s, k) == Some(p)
    ensures var m := MatchAt(s, p).value;
            ScanFrom(s, k) == [Lit(s[k..p]), Del(m.0)] + ScanFrom(s, m.1)
  {
  }

  lemma JoinThree(s: string, i: nat, j: nat, k: nat)
    requires i <= j <= k <= |s|
    ensures s[i..j] + s[j..k] + s[k..] == s[i..]
  {
    SliceSplit(s, i, j, k);
    SliceSplit(s, i, k, |s|);
  }

  lemma RewriteStep(t: string, d: Deletion, rest: seq<Piece>, f: Deletion -> string)
    ensures Rewrite([Lit(t), Del(d)] + rest, f) == t + f(d) + Rewrite(rest, f)
  {
    var pieces := [Lit(t), Del(d)] + rest;
    assert pieces[1..] == [Del(d)] + rest && pieces[1..][1..] == rest;
  }

  lemma ScanRoundTrip(s: string)
    ensures Rewrite(Scan(s), Source) == s
  {
    ScanFromRoundTrip(s, 0);
  }

  /** Text without `{{c` has no deletions and is rewritten to itself. */
  lemma {:induction false} NoOpenNoDeletion(s: string, k: nat, f: Deletion -> string)
    requires k <= |s| && forall i :: k <= i ==> !OpenAt(s, i)
    ensures ScanFrom(s, k) == [Lit(s[k..])] && Rewrite(ScanFrom(s, k), f) == s[k..]
    decreases |s| - k
  {
    if k < |s| {
      assert MatchAt(s, k).None?;
      NoOpenNoDeletion(s, k + 1, f);
      assert NextMatch(s, k) == NextMatch(s, k + 1);
    }
    assert Rewrite([Lit(s[k..])], f) == s[k..] + Rewrite([], f);
  }

  lemma NoOpenNoMatch(s: string, k: nat)
    requires k <= |s| && !OpenAt(s, k)
    ensures MatchAt(s, k).None?
  {
  }

  /** Text without `{{c` is skipped by the search for the next match. */
  lemma NextMatchSame(s: string, k: nat, p: nat)
    requires k <= p <= |s| && forall i :: k <= i < p ==> !OpenAt(s, i)
    ensures NextMatch(s, k) == NextMatch(s, p)
  {
    var j := p;
    while j > k
      invariant k <= j <= p
      invariant NextMatch(s, j) == NextMatch(s, p)
    {
      NoOpenSkip(s, j - 1);
      j := j - 1;
    }
  }

  /** The first match at or after `k` is the one at `p` when no `{{c` lies between. */
  lemma NextMatchIs(s: string, k: nat, p: nat)
    requires k <= p <= |s| && (forall i :: k <= i < p ==> !OpenAt(s, i)) && MatchAt(s, p).Some?
    ensures NextMatch(s, k) == Some(p)
  {
    NextMatchSame(s, k, p);
    NextMatchHere(s, p);
  }

  lemma NoOpenSkip(s: string, k: nat)
    requires k < |s| && !OpenAt(s, k)
    ensures NextMatch(s, k) == NextMatch(s, k + 1)
  {
    NoOpenNoMatch(s, k);
    NextMatchSkip(s, k);
  }

  lemma NextMatchSkip(s: string, k: nat)
    requires k < |s| && MatchAt(s, k).None?
    ensures NextMatch(s, k) == NextMatch(s, k + 1)
  {
  }

  lemma NextMatchHere(s: string, k: nat)
    requires k <= |s| && MatchAt(s, k).Some?
    ensures NextMatch(s, k) == Some(k)
  {
  }

  /** The deletions from `k` on: the one at `p`, then those after it. */
  lemma DeletionsFromStep(s: string, k: nat, p: nat)
    requires k <= p <= |s| && (forall i :: k <= i < p ==> !OpenAt(s, i)) && MatchAt(s, p).Some?
    ensures DeletionsOf(ScanFrom(s, k)) == [MatchAt(s, p).value.0] + DeletionsOf(ScanFrom(s, MatchAt(s, p).value.1))
  {
    NextMatchIs(s, k, p);
    var m := MatchAt(s, p).value;
    var pieces := [Lit(s[k..p]), Del(m.0)] + ScanFrom(s, m.1);
    assert ScanFrom(s, k) == pieces;
    assert pieces[1..] == [Del(m.0)] + ScanFrom(s, m.1) && pieces[1..][1..] == ScanFrom(s, m.1);
  }

  /** After spaces, the match at `p` is the next one the scanner reads. */
  lemma SpacedDeletion(s: string, k: nat, p: nat, end: nat, d: Deletion)
    requires k <= p <= |s| && MatchAt(s, p) == Some((d, end))
    requires forall i :: k <= i < p ==> s[i] == ' '
    ensures DeletionsOf(ScanFrom(s, k)) == [d] + DeletionsOf(ScanFrom(s, end))
  {
    forall i | k <= i < p ensures !OpenAt(s, i) {
      assert s[i] == ' ';
    }
    DeletionsFromStep(s, k, p);
  }

  /** After spaces, a canonical deletion written at `p` is the next one read. */
  lemma SpacedWritten(s: string, k: nat, p: nat, end: nat, d: Deletion)
    requires Canonical(d) && k <= p && end == p + |Source(d)| && end <= |s| && s[p..p + |Source(d)|] == Source(d)
    requires forall i :: k <= i < p ==> s[i] == ' '
    ensures DeletionsOf(ScanFrom(s, k)) == [d] + DeletionsOf(ScanFrom(s, end))
  {
    MatchAtWritten(s, p, d);
    SpacedDeletion(s, k, p, end, d);
  }

  // ------------------------------------------------------ card facts

  /** `maxClozeNum`: the largest index, 0 when there is none. */
  function MaxNum(dels: seq<Deletion>): nat {
    if dels == [] then 0
    else
      var rest := MaxNum(dels[..|dels| - 1]);
      if dels[|dels| - 1].num > rest then dels[|dels| - 1].num else rest
  }

  /** The `forEach` that computes `maxClozeNum` with `Math.max`. */
  method MaxClozeNum(dels: seq<Deletion>) returns (max: nat)
    ensures max == MaxNum(dels)
  {
    max := 0;
    for i := 0 to |dels|
      invariant max == MaxNum(dels[..i])
    {
      assert dels[..i + 1][..i] == dels[..i];
      if dels[i].num > max {
        max := dels[i].num;
      }
    }
    assert dels[..|dels|] == dels;
  }

  /** The maximum bounds every index and is one of them. */
  lemma {:induction false} MaxNumIsMax(dels: seq<Deletion>)
    ensures forall i :: 0 <= i < |dels| ==> dels[i].num <= MaxNum(dels)
    ensures dels != [] ==> exists i :: 0 <= i < |dels| && dels[i].num == MaxNum(dels)
  {
    if dels != [] {
      var init := dels[..|dels| - 1];
      MaxNumIsMax(init);
      forall i | 0 <= i < |init| ensures dels[i] == init[i] { }
      if init != [] && MaxNum(dels) == MaxNum(init) {
        var i :| 0 <= i < |init| && init[i].num == MaxNum(init);
        assert dels[i].num == MaxNum(dels);
      } else {
        assert dels[|dels| - 1].num == MaxNum(dels);
      }
    }
  }

  /** `find(m => parseInt(m[1]) === n)`: the first deletion with index `n`. */
  function FirstWithNum(dels: seq<Deletion>, n: nat): (r: Option<Deletion>)
    ensures r.Some? ==> r.value in dels && r.value.num == n
  {
    if dels == [] then None
    else if dels[0].num == n then Some(dels[0])
    else FirstWithNum(dels[1..], n)
  }

  /** `j` is the first position holding index `n`. */
  predicate FirstIndex(dels: seq<Deletion>, n: nat, j: int) {
    0 <= j < |dels| && dels[j].num == n && forall k :: 0 <= k < j ==> dels[k].num != n
  }

  lemma FirstIndexUnique(dels: seq<Deletion>, n: nat, j: int, j': int)
    requires FirstIndex(dels, n, j) && FirstIndex(dels, n, j')
    ensures j == j'
  {
  }

  /** When some position holds `n`, the search finds the first one. */
  lemma {:induction false} FirstWithNumFound(dels: seq<Deletion>, n: nat, i: nat)
    requires i < |dels| && dels[i].num == n
    ensures exists j :: FirstIndex(dels, n, j) && FirstWithNum(dels, n) == Some(dels[j])
  {
    if dels[0].num != n {
      FirstWithNumFound(dels[1..], n, i - 1);
      var j :| FirstIndex(dels[1..], n, j) && FirstWithNum(dels[1..], n) == Some(dels[1..][j]);
      assert FirstWithNum(dels, n) == Some(dels[j + 1]);
      forall k | 0 <= k < j + 1 ensures dels[k].num != n {
        if k > 0 { assert dels[k] == dels[1..][k - 1]; }
      }
      assert FirstIndex(dels, n, j + 1);
    } else {
      assert FirstIndex(dels, n, 0);
    }
  }

  /** `hasReviewCloze`: the first deletion with the largest index has blank content. */
  predicate HasReviewCloze(dels: seq<Deletion>) {
    var last := FirstWithNum(dels, MaxNum(dels));
    dels != [] && last.Some? && Trim(last.value.content) == []
  }

  /** Whenever there are deletions, one carries the maximum (so the search
      never comes back empty), and the review marker is the first of them,
      in document order, with blank content. */
  lemma ReviewClozeMeans(dels: seq<Deletion>)
    ensures dels != [] ==> FirstWithNum(dels, MaxNum(dels)).Some?
    ensures HasReviewCloze(dels) <==> exists j :: FirstIndex(dels, MaxNum(dels), j) && Trim(dels[j].content) == []
  {
    if dels != [] {
      MaxNumIsMax(dels);
      var i :| 0 <= i < |dels| && dels[i].num == MaxNum(dels);
      FirstWithNumFound(dels, MaxNum(dels), i);
      var j :| FirstIndex(dels, MaxNum(dels), j) && FirstWithNum(dels, MaxNum(dels)) == Some(dels[j]);
      forall j' | FirstIndex(dels, MaxNum(dels), j') ensures j' == j {
        FirstIndexUnique(dels, MaxNum(dels), j, j');
      }
    }
  }

  /** What every renderer of one card needs: the ordinal, the maximum, the
      review marker and whether this is the review-all card. */
  datatype Card = Card(ordinal: nat, maxNum: nat, hasReview: bool, reviewAll: bool)

  /** `isReviewAllCard`: a review marker exists and this card's ordinal is the maximum. */
  function CardOf(dels: seq<Deletion>, ordinal: nat): (c: Card)
    ensures c.reviewAll <==> HasReviewCloze(dels) && ordinal == MaxNum(dels)
    ensures c.ordinal == ordinal && c.maxNum == MaxNum(dels) && c.hasReview == HasReviewCloze(dels)
  {
    var max := MaxNum(dels);
    var review := HasReviewCloze(dels);
    Card(ordinal, max, review, review && ordinal == max)
  }

  /** A deletion this card asks for: on the review-all card every index
      below the maximum, otherwise the card's own index. */
  predicate Active(c: Card, d: Deletion) {
    if c.reviewAll then d.num < c.maxNum else d.num == c.ordinal
  }

  /** A deletion this card hides completely: the review marker itself. */
  predicate Hidden(c: Card, d: Deletion) {
    if c.reviewAll then d.num >= c.maxNum else d.num != c.ordinal && c.hasReview && d.num == c.maxNum
  }

  /** The deletions of this card, in document order. */
  function Selected(c: Card, dels: seq<Deletion>): (r: seq<Deletion>)
    ensures |r| <= |dels|
  {
    if dels == [] then []
    else (if Active(c, dels[0]) then [dels[0]] else []) + Selected(c, dels[1..])
  }

  lemma {:induction false} SelectedMembers(c: Card, dels: seq<Deletion>)
    ensures forall d :: d in Selected(c, dels) <==> d in dels && Active(c, d)
  {
    if dels != [] {
      SelectedMembers(c, dels[1..]);
      assert dels == [dels[0]] + dels[1..];
    }
  }

  /** `m[2].trim()` of each. */
  function Contents(dels: seq<Deletion>): (r: seq<string>)
    ensures |r| == |dels| && forall i :: 0 <= i < |dels| ==> r[i] == Trim(dels[i].content)
  {
    if dels == [] then [] else [Trim(dels[0].content)] + Contents(dels[1..])
  }

  /** The two kinds of deletion are disjoint, and on the review-all card every
      deletion is one or the other. */
  lemma ActiveHiddenDisjoint(c: Card, d: Deletion)
    ensures !(Active(c, d) && Hidden(c, d))
    ensures c.reviewAll ==> Active(c, d) || Hidden(c, d)
  {
  }
}
