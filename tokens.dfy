/** The version token model (`versionName`, `versionNumber`): the unanchored
    pattern `/(\w+)-(.+)/` splits a token such as `iojs-v1.1.0` into a
    distribution name (`iojs`) and a version number (`v1.1.0`). A token the
    pattern does not match has no name, and the whole token is its number. */
module Tokens {
  import opened Strings
  import opened Wrappers

  /** The positions of one match of the pattern in a token: group 1 is
      `token[start..dash]`, the hyphen is at `dash`, group 2 is `token[dash + 1..end]`. */
  datatype Groups = Groups(start: nat, dash: nat, end: nat)

  /** Every way the pattern matches somewhere in `s`: one or more word
      characters, a hyphen, then one or more characters other than a line terminator. */
  predicate IsMatch(s: string, g: Groups) {
    && g.start < g.dash && g.dash + 1 < g.end <= |s|
    && (forall i | g.start <= i < g.dash :: IsWordChar(s[i]))
    && s[g.dash] == '-'
    && (forall i | g.dash < i < g.end :: !IsLineTerminator(s[i]))
  }

  /** The order in which a backtracking matcher tries the matches: an earlier start
      first, then a longer `\w+`, then a longer `.+`. */
  predicate TriedBefore(g: Groups, h: Groups) {
    || g.start < h.start
    || (g.start == h.start && g.dash > h.dash)
    || (g.start == h.start && g.dash == h.dash && g.end > h.end)
  }

  /** The match that `String.prototype.match` reports: no other match is tried before it. */
  ghost predicate IsFirstMatch(s: string, g: Groups) {
    IsMatch(s, g) && forall h | IsMatch(s, h) :: !TriedBefore(h, g)
  }

  /** The first match is unique. */
  lemma FirstMatchUnique(s: string, g: Groups, h: Groups)
    requires IsFirstMatch(s, g) && IsFirstMatch(s, h)
    ensures g == h
  {
    assert !TriedBefore(h, g) && !TriedBefore(g, h);
  }

  /** Position `i` of `s` holds a word character. */
  predicate WordCharAt(s: string, i: int) {
    0 <= i < |s| && IsWordChar(s[i])
  }

  /** Position `i` of `s` holds a character other than a line terminator. */
  predicate LineCharAt(s: string, i: int) {
    0 <= i < |s| && !IsLineTerminator(s[i])
  }

  /** The end of the run of word characters that starts at `i`. */
  function WordRunEnd(s: string, i: nat): (j: nat)
    requires i <= |s|
    decreases |s| - i
    ensures i <= j <= |s|
    ensures forall k | i <= k < j :: IsWordChar(s[k])
    ensures j == |s| || !IsWordChar(s[j])
  {
    if i < |s| && IsWordChar(s[i]) then WordRunEnd(s, i + 1) else i
  }

  /** The end of the run of characters without a line terminator that starts at `i`. */
  function LineEnd(s: string, i: nat): (j: nat)
    requires i <= |s|
    decreases |s| - i
    ensures i <= j <= |s|
    ensures forall k | i <= k < j :: !IsLineTerminator(s[k])
    ensures j == |s| || IsLineTerminator(s[j])
  {
    if i < |s| && !IsLineTerminator(s[i]) then LineEnd(s, i + 1) else i
  }

  /** A match that starts at `p` has its hyphen where the run of word characters from `p` ends. */
  lemma MatchHyphenAtRunEnd(s: string, p: nat)
    requires p <= |s|
    ensures forall h | IsMatch(s, h) && h.start == p :: h.dash == WordRunEnd(s, p)
  {
    var q := WordRunEnd(s, p);
    forall h | IsMatch(s, h) && h.start == p ensures h.dash == q {
      assert h.dash < q ==> WordCharAt(s, h.dash);
      assert h.dash > q ==> WordCharAt(s, q);
    }
  }

  /** A match with its hyphen at `q` ends no later than the line that follows the hyphen. */
  lemma MatchEndsByLineEnd(s: string, p: nat, q: nat)
    requires q < |s|
    ensures forall h | IsMatch(s, h) && h.start == p && h.dash == q :: h.end <= LineEnd(s, q + 1)
  {
    var e := LineEnd(s, q + 1);
    forall h | IsMatch(s, h) && h.start == p && h.dash == q ensures h.end <= e {
      assert h.end > e ==> LineCharAt(s, e);
    }
  }

  /** A match of the pattern as the matcher finds it when it tries the start
      positions from `p` on: at each start, the longest `\w+`, which must be followed
      by a hyphen and a character of the same line, and then the longest `.+`. */
  function MatchFrom(s: string, p: nat): (m: Option<Groups>)
    requires p <= |s|
    decreases |s| - p
    ensures m.None? <==> forall h | IsMatch(s, h) :: h.start < p
    ensures m.Some? ==> IsMatch(s, m.value) && p <= m.value.start
    ensures m.Some? ==> forall h | IsMatch(s, h) && p <= h.start :: !TriedBefore(h, m.value)
  {
    if p == |s| then None
    else
      var q := WordRunEnd(s, p);
      MatchHyphenAtRunEnd(s, p);
      if q > p && q + 1 < |s| && s[q] == '-' && !IsLineTerminator(s[q + 1]) then
        var g := Groups(p, q, LineEnd(s, q + 1));
        MatchEndsByLineEnd(s, p, q);
        Some(g)
      else
        MatchFrom(s, p + 1)
  }

  /** `token.match(VERSION_REGEX)`: the first match, or none when the pattern
      matches nowhere in the token. */
  function VersionMatch(token: string): (m: Option<Groups>)
    ensures m.None? <==> forall h :: !IsMatch(token, h)
    ensures m.Some? ==> IsFirstMatch(token, m.value)
  {
    MatchFrom(token, 0)
  }

  /** `versionName`: group 1 of the first match, or null. */
  function VersionName(token: string): (name: Option<string>)
    ensures name.None? <==> forall h :: !IsMatch(token, h)
    ensures name.Some? ==> name.value != [] && forall i | 0 <= i < |name.value| :: IsWordChar(name.value[i])
  {
    match VersionMatch(token)
    case Some(g) => Some(token[g.start..g.dash])
    case None => None
  }

  /** `versionNumber`: group 2 of the first match, or the whole token. */
  function VersionNumber(token: string): (number: string)
    ensures (forall h :: !IsMatch(token, h)) ==> number == token
    ensures VersionName(token).Some? ==> number != [] && forall i | 0 <= i < |number| :: !IsLineTerminator(number[i])
    ensures number == [] ==> token == []
  {
    match VersionMatch(token)
    case Some(g) => token[g.dash + 1..g.end]
    case None => token
  }

  /** The name of a named token starts a run of word characters: it is preceded by
      the start of the token or by a character that is not a word character. */
  lemma NameStartsWord(token: string)
    requires VersionName(token).Some?
    ensures var g := VersionMatch(token).value;
      && VersionName(token).value == token[g.start..g.dash] && token[g.dash] == '-'
      && VersionNumber(token) == token[g.dash + 1..g.end]
      && (g.start == 0 || !IsWordChar(token[g.start - 1]))
  {
    var g := VersionMatch(token).value;
    if g.start > 0 {
      var h := Groups(g.start - 1, g.dash, g.end);
      assert IsWordChar(token[g.start - 1]) ==> IsMatch(token, h) && TriedBefore(h, g);
    }
  }

  /** In a text without line terminators the first match runs to the end of the text. */
  lemma FirstMatchRunsToEnd(token: string, g: Groups)
    requires IsFirstMatch(token, g)
    requires forall i | 0 <= i < |token| :: !IsLineTerminator(token[i])
    ensures g.end == |token|
  {
    if g.end < |token| {
      var h := Groups(g.start, g.dash, g.end + 1);
      assert IsMatch(token, h) && TriedBefore(h, g);
    }
  }

  /** A text that ends with a hyphen-separated pair ends with the first part, the hyphen and the second part. */
  lemma CutAtHyphen(s: string, start: nat, dash: nat)
    requires start <= dash < |s| && s[dash] == '-'
    ensures var name, number := s[start..dash], s[dash + 1..|s|];
      var n := |name| + 1 + |number|;
      n <= |s| && s[|s| - n..] == name + "-" + number
  {
    assert s[start..] == s[start..dash] + "-" + s[dash + 1..|s|];
  }

  /** A named token without line terminators ends with `name-number`. */
  lemma NamedTokenEnds(token: string)
    requires VersionName(token).Some?
    requires forall i | 0 <= i < |token| :: !IsLineTerminator(token[i])
    ensures var name, number := VersionName(token).value, VersionNumber(token);
      var n := |name| + 1 + |number|;
      n <= |token| && token[|token| - n..] == name + "-" + number
  {
    var g := VersionMatch(token).value;
    FirstMatchTail(token, g);
  }

  /** A match at the start of the text that ends at the text's end or at a line
      terminator is the first match. */
  lemma FirstMatchAtStart(s: string, g: Groups)
    requires IsMatch(s, g) && g.start == 0
    requires g.end == |s| || IsLineTerminator(s[g.end])
    ensures IsFirstMatch(s, g)
  {
    forall h | IsMatch(s, h) ensures !TriedBefore(h, g) {
      if h.start == 0 {
        assert !IsWordChar(s[h.dash]) && !IsWordChar(s[g.dash]);
      }
    }
  }

  /** A line terminator after the number ends group 2 there: `.` does not match it. */
  lemma NumberStopsAtTerminator(name: string, number: string, c: char, rest: string)
    requires name != [] && forall i | 0 <= i < |name| :: IsWordChar(name[i])
    requires number != [] && forall i | 0 <= i < |number| :: !IsLineTerminator(number[i])
    requires IsLineTerminator(c)
    ensures VersionName(name + "-" + number + [c] + rest) == Some(name)
    ensures VersionNumber(name + "-" + number + [c] + rest) == number
  {
    var token := name + "-" + number + [c] + rest;
    var g := Groups(0, |name|, |name| + 1 + |number|);
    assert token[..|name|] == name;
    assert token[|name| + 1..g.end] == number;
    assert forall i | 0 <= i < |name| :: token[i] == token[..|name|][i];
    assert forall i | |name| < i < g.end :: token[i] == token[|name| + 1..g.end][i - |name| - 1];
    assert token[|name|] == '-' && token[g.end] == c;
    FirstMatchAtStart(token, g);
    FirstMatchUnique(token, g, VersionMatch(token).value);
  }

  /** Why `NamedTokenEnds` excludes line terminators: `a-b\rc` is named `a`, has the
      number `b`, and does not end with `a-b`. */
  lemma TerminatorInsideToken()
    ensures var token := "a" + "-" + "b" + ['\r'] + "c";
      && VersionName(token) == Some("a") && VersionNumber(token) == "b"
      && token[|token| - 3..] != "a-b"
  {
    assert IsWordChar("a"[0]) && !IsLineTerminator("b"[0]) && IsLineTerminator('\r');
    NumberStopsAtTerminator("a", "b", '\r', "c");
    var token := "a" + "-" + "b" + ['\r'] + "c";
    assert token[2] == 'b';
  }

  /** The first match in a text without line terminators takes the end of the text. */
  lemma FirstMatchTail(token: string, g: Groups)
    requires IsFirstMatch(token, g)
    requires forall i | 0 <= i < |token| :: !IsLineTerminator(token[i])
    ensures var name, number := token[g.start..g.dash], token[g.dash + 1..g.end];
      var n := |name| + 1 + |number|;
      n <= |token| && token[|token| - n..] == name + "-" + number
  {
    FirstMatchRunsToEnd(token, g);
    CutAtHyphen(token, g.start, g.dash);
  }

  /** A token without a hyphen has no name, and its number is the whole token. */
  lemma HyphenlessToken(token: string)
    requires '-' !in token
    ensures VersionName(token) == None && VersionNumber(token) == token
  {
    forall h ensures !IsMatch(token, h) {
    }
  }

  /** In `name-number` the first match takes the whole name and the whole number. */
  lemma JoinedIsFirstMatch(name: string, number: string)
    requires name != [] && forall i | 0 <= i < |name| :: IsWordChar(name[i])
    requires number != [] && forall i | 0 <= i < |number| :: !IsLineTerminator(number[i])
    ensures IsFirstMatch(name + "-" + number, Groups(0, |name|, |name| + 1 + |number|))
  {
    var token := name + "-" + number;
    var g := Groups(0, |name|, |token|);
    assert forall i | 0 <= i < |name| :: token[i] == name[i];
    assert token[|name|] == '-';
    forall h | IsMatch(token, h) ensures !TriedBefore(h, g) {
      assert h.dash >= |name|;
      assert h.start == 0 ==> h.dash <= |name|;
    }
    assert IsMatch(token, g);
  }

  /** Splitting inverts building a token from a name and a number. */
  lemma SplitToken(name: string, number: string)
    requires name != [] && forall i | 0 <= i < |name| :: IsWordChar(name[i])
    requires number != [] && forall i | 0 <= i < |number| :: !IsLineTerminator(number[i])
    ensures VersionName(name + "-" + number) == Some(name)
    ensures VersionNumber(name + "-" + number) == number
  {
    var token := name + "-" + number;
    var g := Groups(0, |name|, |token|);
    JoinedIsFirstMatch(name, number);
    FirstMatchUnique(token, g, VersionMatch(token).value);
    assert token[..|name|] == name;
    assert token[|name| + 1..] == number;
  }
}
