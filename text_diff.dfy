/** The character diff the result screens show under an exact answer:
    `getDiffParts`, a longest-common-subsequence table compared without
    letter case, walked back from its last cell. */
module TextDiff {
  import opened Wrappers
  import opened JsText

  /** One token of the diff. `Common` and `Added` carry a character of the
      first string (the user's text), `Removed` one of the second (the
      expected text). */
  datatype Part = Common(value: char) | Removed(value: char) | Added(value: char)

  /** `a.toLowerCase() === b.toLowerCase()` on single characters. */
  predicate Same(a: char, b: char) {
    LowerChar(a) == LowerChar(b)
  }

  function Max(a: nat, b: nat): nat {
    if a >= b then a else b
  }

  /** The value `dp[i][j]` the table holds: the length of a longest common
      subsequence, up to letter case, of `s1[..i]` and `s2[..j]`. */
  function Lcs(s1: string, s2: string, i: nat, j: nat): (n: nat)
    requires i <= |s1| && j <= |s2|
    ensures n <= i && n <= j
  {
    if i == 0 || j == 0 then 0
    else if Same(s1[i - 1], s2[j - 1]) then Lcs(s1, s2, i - 1, j - 1) + 1
    else Max(Lcs(s1, s2, i - 1, j), Lcs(s1, s2, i, j - 1))
  }

  /** One step of the walk back from cell `(i, j)`: the next cell and the token. */
  datatype Move = Move(i: nat, j: nat, part: Part)

  /** The step the walk takes from a cell other than `(0, 0)`. The walk's
      fourth branch (`break`) is not here: one of the first three always
      applies. */
  function Back(s1: string, s2: string, i: nat, j: nat): (mv: Move)
    requires i <= |s1| && j <= |s2| && (i > 0 || j > 0)
    ensures mv.part.Common? ==> i > 0 && j > 0 && mv == Move(i - 1, j - 1, Common(s1[i - 1])) && Same(s1[i - 1], s2[j - 1])
    ensures mv.part.Removed? ==> j > 0 && mv == Move(i, j - 1, Removed(s2[j - 1]))
    ensures mv.part.Added? ==> i > 0 && mv == Move(i - 1, j, Added(s1[i - 1]))
  {
    if i > 0 && j > 0 && Same(s1[i - 1], s2[j - 1]) then Move(i - 1, j - 1, Common(s1[i - 1]))
    else if j > 0 && (i == 0 || Lcs(s1, s2, i, j - 1) >= Lcs(s1, s2, i - 1, j)) then Move(i, j - 1, Removed(s2[j - 1]))
    else Move(i - 1, j, Added(s1[i - 1]))
  }

  /** Each step follows the table: a `common` step leaves one match behind,
      the others none. */
  lemma BackLcs(s1: string, s2: string, i: nat, j: nat)
    requires i <= |s1| && j <= |s2| && (i > 0 || j > 0)
    ensures var mv := Back(s1, s2, i, j);
            Lcs(s1, s2, i, j) == Lcs(s1, s2, mv.i, mv.j) + (if mv.part.Common? then 1 else 0)
  {
  }

  /** The tokens the walk back from cell `(i, j)` produces, in the order
      they end up in the result. */
  function Walk(s1: string, s2: string, i: nat, j: nat): seq<Part>
    requires i <= |s1| && j <= |s2|
    decreases i + j
  {
    if i == 0 && j == 0 then []
    else
      var mv := Back(s1, s2, i, j);
      Walk(s1, s2, mv.i, mv.j) + [mv.part]
  }

  /** The table holds `Lcs` in every cell. */
  predicate TableHolds(s1: string, s2: string, dp: array2<nat>)
    reads dp
  {
    dp.Length0 == |s1| + 1 && dp.Length1 == |s2| + 1 &&
    forall x, y :: 0 <= x <= |s1| && 0 <= y <= |s2| ==> dp[x, y] == Lcs(s1, s2, x, y)
  }

  /** The cells already computed when the inner loop is at `(i, j)`: every
      earlier row, the current row before `j`, and column 0. */
  predicate FilledUpTo(s1: string, s2: string, dp: array2<nat>, i: nat, j: nat)
    reads dp
  {
    dp.Length0 == |s1| + 1 && dp.Length1 == |s2| + 1 &&
    forall x, y :: 0 <= x <= |s1| && 0 <= y <= |s2| && (x < i || (x == i && y < j) || y == 0) ==>
                   dp[x, y] == Lcs(s1, s2, x, y)
  }

  /** The first half of `getDiffParts`: the `(n+1) x (m+1)` table of zeros,
      filled row by row. */
  method FillTable(s1: string, s2: string) returns (dp: array2<nat>)
    ensures fresh(dp) && TableHolds(s1, s2, dp)
  {
    dp := new nat[|s1| + 1, |s2| + 1]((_, _) => 0);
    for i := 1 to |s1| + 1
      invariant FilledUpTo(s1, s2, dp, i, 0)
    {
      FillRow(s1, s2, dp, i);
    }
  }

  /** One turn of the outer loop: row `i`, left to right. */
  method FillRow(s1: string, s2: string, dp: array2<nat>, i: nat)
    requires 1 <= i <= |s1| && FilledUpTo(s1, s2, dp, i, 0)
    modifies dp
    ensures FilledUpTo(s1, s2, dp, i + 1, 0)
  {
    for j := 1 to |s2| + 1
      invariant FilledUpTo(s1, s2, dp, i, j)
    {
      if LowerChar(s1[i - 1]) == LowerChar(s2[j - 1]) {
        dp[i, j] := dp[i - 1, j - 1] + 1;
      } else {
        dp[i, j] := Max(dp[i - 1, j], dp[i, j - 1]);
      }
    }
  }

  /** The second half: the walk back from the last cell, putting each token
      in front of the result. Its fourth branch is the source's `break`,
      which no state reaches. */
  method WalkBack(s1: string, s2: string, dp: array2<nat>) returns (parts: seq<Part>)
    requires TableHolds(s1, s2, dp)
    ensures parts == Walk(s1, s2, |s1|, |s2|)
  {
    var i, j := |s1|, |s2|;
    parts := [];
    while i > 0 || j > 0
      invariant 0 <= i <= |s1| && 0 <= j <= |s2|
      invariant Walk(s1, s2, |s1|, |s2|) == Walk(s1, s2, i, j) + parts
      decreases i + j
    {
      ghost var mv := Back(s1, s2, i, j);
      ghost var rest := parts;
      WalkUnfold(s1, s2, i, j, rest);
      if i > 0 && j > 0 && LowerChar(s1[i - 1]) == LowerChar(s2[j - 1]) {
        assert mv == Move(i - 1, j - 1, Common(s1[i - 1]));
        parts := [Common(s1[i - 1])] + parts;
        i, j := i - 1, j - 1;
      } else if j > 0 && (i == 0 || dp[i, j - 1] >= dp[i - 1, j]) {
        assert mv == Move(i, j - 1, Removed(s2[j - 1]));
        parts := [Removed(s2[j - 1])] + parts;
        j := j - 1;
      } else if i > 0 && (j == 0 || dp[i, j - 1] < dp[i - 1, j]) {
        assert mv == Move(i - 1, j, Added(s1[i - 1]));
        parts := [Added(s1[i - 1])] + parts;
        i := i - 1;
      } else {
        assert false;
        break;
      }
      assert parts == [mv.part] + rest && i == mv.i && j == mv.j;
    }
  }

  /** The walk from a cell is the walk from the next cell, then that step's token. */
  lemma WalkUnfold(s1: string, s2: string, i: nat, j: nat, rest: seq<Part>)
    requires i <= |s1| && j <= |s2| && (i > 0 || j > 0)
    ensures Walk(s1, s2, i, j) + rest ==
              Walk(s1, s2, Back(s1, s2, i, j).i, Back(s1, s2, i, j).j) + ([Back(s1, s2, i, j).part] + rest)
  {
  }

  /** `getDiffParts(str1, str2)`. */
  method GetDiffParts(s1: string, s2: string) returns (parts: seq<Part>)
    ensures parts == Walk(s1, s2, |s1|, |s2|)
  {
    var dp := FillTable(s1, s2);
    parts := WalkBack(s1, s2, dp);
  }

  // ------------------------------------------------------ projections

  /** The characters of the non-`removed` tokens, in order. */
  function FirstSide(parts: seq<Part>): string {
    if parts == [] then []
    else FirstSide(parts[..|parts| - 1]) + (if parts[|parts| - 1].Removed? then [] else [parts[|parts| - 1].value])
  }

  /** The characters of the non-`added` tokens, in order. */
  function SecondSide(parts: seq<Part>): string {
    if parts == [] then []
    else SecondSide(parts[..|parts| - 1]) + (if parts[|parts| - 1].Added? then [] else [parts[|parts| - 1].value])
  }

  /** The number of `common` tokens. */
  function CommonCount(parts: seq<Part>): nat {
    if parts == [] then 0
    else CommonCount(parts[..|parts| - 1]) + (if parts[|parts| - 1].Common? then 1 else 0)
  }

  lemma SnocInit(parts: seq<Part>, p: Part)
    ensures (parts + [p])[..|parts + [p]| - 1] == parts && (parts + [p])[|parts|] == p
  {
  }

  /** The non-`removed` tokens spell the first string exactly. */
  lemma {:induction false} WalkFirstSide(s1: string, s2: string, i: nat, j: nat)
    requires i <= |s1| && j <= |s2|
    ensures FirstSide(Walk(s1, s2, i, j)) == s1[..i]
    decreases i + j
  {
    if i > 0 || j > 0 {
      var mv := Back(s1, s2, i, j);
      WalkFirstSide(s1, s2, mv.i, mv.j);
      SnocInit(Walk(s1, s2, mv.i, mv.j), mv.part);
      if !mv.part.Removed? {
        assert s1[..i] == s1[..i - 1] + [s1[i - 1]];
      }
    }
  }

  /** The non-`added` tokens spell the second string up to letter case
      (a `common` token carries the first string's character). */
  lemma {:induction false} WalkSecondSide(s1: string, s2: string, i: nat, j: nat)
    requires i <= |s1| && j <= |s2|
    ensures Lower(SecondSide(Walk(s1, s2, i, j))) == Lower(s2[..j])
    decreases i + j
  {
    if i > 0 || j > 0 {
      var mv := Back(s1, s2, i, j);
      var before := Walk(s1, s2, mv.i, mv.j);
      WalkSecondSide(s1, s2, mv.i, mv.j);
      SecondSideStep(before, mv.part);
      if !mv.part.Added? {
        SecondSideKept(s1, s2, i, j, SecondSide(before));
      }
    }
  }

  lemma SecondSideStep(before: seq<Part>, p: Part)
    ensures SecondSide(before + [p]) == SecondSide(before) + (if p.Added? then [] else [p.value])
  {
    SnocInit(before, p);
  }

  /** A `common` or `removed` step extends the second side by a character
      equal, up to case, to `s2[j - 1]`. */
  lemma SecondSideKept(s1: string, s2: string, i: nat, j: nat, side: string)
    requires i <= |s1| && j <= |s2| && (i > 0 || j > 0) && !Back(s1, s2, i, j).part.Added?
    requires Lower(side) == Lower(s2[..Back(s1, s2, i, j).j])
    ensures j > 0 && Lower(side + [Back(s1, s2, i, j).part.value]) == Lower(s2[..j])
  {
    var mv := Back(s1, s2, i, j);
    BackSecond(s1, s2, i, j);
    LowerSnoc(side, s2[..j - 1], mv.part.value, s2[j - 1]);
    assert s2[..j] == s2[..j - 1] + [s2[j - 1]];
  }

  /** A step that is not `added` consumes `s2[j - 1]`, with a character
      equal to it up to case. */
  lemma BackSecond(s1: string, s2: string, i: nat, j: nat)
    requires i <= |s1| && j <= |s2| && (i > 0 || j > 0) && !Back(s1, s2, i, j).part.Added?
    ensures j > 0 && Back(s1, s2, i, j).j == j - 1 && Same(Back(s1, s2, i, j).part.value, s2[j - 1])
  {
    var mv := Back(s1, s2, i, j);
    if mv.part.Common? {
      assert Same(s1[i - 1], s2[j - 1]);
    } else {
      assert mv.part.value == s2[j - 1];
    }
  }

  lemma LowerSnoc(a: string, b: string, c: char, d: char)
    requires Lower(a) == Lower(b) && LowerChar(c) == LowerChar(d)
    ensures Lower(a + [c]) == Lower(b + [d])
  {
    assert |Lower(a)| == |Lower(b)|;
    assert forall k :: 0 <= k < |a| ==> LowerChar(a[k]) == Lower(a)[k] == Lower(b)[k] == LowerChar(b[k]);
  }

  /** The `common` tokens are as many as the table's last cell says. */
  lemma {:induction false} WalkCommonCount(s1: string, s2: string, i: nat, j: nat)
    requires i <= |s1| && j <= |s2|
    ensures CommonCount(Walk(s1, s2, i, j)) == Lcs(s1, s2, i, j)
    decreases i + j
  {
    if i > 0 || j > 0 {
      var mv := Back(s1, s2, i, j);
      WalkCommonCount(s1, s2, mv.i, mv.j);
      SnocInit(Walk(s1, s2, mv.i, mv.j), mv.part);
      BackLcs(s1, s2, i, j);
    }
  }

  /** Every step emits one token, one character of one side. */
  lemma {:induction false} WalkLength(s1: string, s2: string, i: nat, j: nat)
    requires i <= |s1| && j <= |s2|
    ensures |Walk(s1, s2, i, j)| == i + j - Lcs(s1, s2, i, j)
    ensures Walk(s1, s2, i, j) == [] <==> i == 0 && j == 0
    decreases i + j
  {
    if i > 0 || j > 0 {
      var mv := Back(s1, s2, i, j);
      WalkLength(s1, s2, mv.i, mv.j);
      BackLcs(s1, s2, i, j);
    }
  }

  /** Comparing a text with itself gives only `common` tokens, one per character. */
  lemma {:induction false} WalkSelf(s: string, i: nat)
    requires i <= |s|
    ensures |Walk(s, s, i, i)| == i
    ensures forall k :: 0 <= k < i ==> Walk(s, s, i, i)[k] == Common(s[k])
  {
    if i > 0 {
      assert Back(s, s, i, i) == Move(i - 1, i - 1, Common(s[i - 1]));
      WalkSelf(s, i - 1);
      SnocInit(Walk(s, s, i - 1, i - 1), Common(s[i - 1]));
    }
  }

  /** `getDiffParts(a, a)` is all `common`. */
  lemma DiffSelf(s: string)
    ensures |Walk(s, s, |s|, |s|)| == |s|
    ensures forall k :: 0 <= k < |s| ==> Walk(s, s, |s|, |s|)[k] == Common(s[k])
  {
    WalkSelf(s, |s|);
  }

  /** A small diff: `"cat"` against `"cut"` keeps `c` and `t`, adds `a` and removes `u`. */
  lemma DiffExample()
    ensures Walk("cat", "cut", 3, 3) == [Common('c'), Added('a'), Removed('u'), Common('t')]
  {
    var s1, s2 := "cat", "cut";
    assert !Same('a', 'u') && Same('c', 'c') && Same('t', 't') && !Same('a', 'c');
    assert Lcs(s1, s2, 1, 1) == 1;
    assert Lcs(s1, s2, 2, 1) == 1;
    assert Lcs(s1, s2, 1, 2) == 1;
    assert Back(s1, s2, 1, 1) == Move(0, 0, Common('c'));
    assert Back(s1, s2, 2, 1) == Move(1, 1, Added('a'));
    assert Back(s1, s2, 2, 2) == Move(2, 1, Removed('u'));
    assert Back(s1, s2, 3, 3) == Move(2, 2, Common('t'));
    assert Walk(s1, s2, 1, 1) == [Common('c')];
    assert Walk(s1, s2, 2, 1) == [Common('c'), Added('a')];
    assert Walk(s1, s2, 2, 2) == [Common('c'), Added('a'), Removed('u')];
  }

  // ------------------------------------------------ cloze variant

  /** `str || ''`: a missing text is empty. */
  function OrEmpty(s: Option<string>): string {
    if s.Some? then s.value else ""
  }

  /** The cloze scripts' `getDiffParts`: missing texts are empty, and two
      texts equal up to letter case give no tokens at all. */
  method ClozeDiffParts(str1: Option<string>, str2: Option<string>) returns (parts: seq<Part>)
    ensures Lower(OrEmpty(str1)) == Lower(OrEmpty(str2)) ==> parts == []
    ensures Lower(OrEmpty(str1)) != Lower(OrEmpty(str2)) ==>
              parts == Walk(OrEmpty(str1), OrEmpty(str2), |OrEmpty(str1)|, |OrEmpty(str2)|)
  {
    var s1, s2 := OrEmpty(str1), OrEmpty(str2);
    if Lower(s1) == Lower(s2) {
      return [];
    }
    parts := GetDiffParts(s1, s2);
  }

  /** The cloze diff is empty exactly for texts equal up to letter case. */
  lemma ClozeDiffEmpty(s1: string, s2: string)
    ensures Lower(s1) != Lower(s2) ==> Walk(s1, s2, |s1|, |s2|) != []
  {
    WalkLength(s1, s2, |s1|, |s2|);
    if |s1| == 0 && |s2| == 0 {
      assert s1 == s2;
    }
  }
}
