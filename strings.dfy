/** The JavaScript string primitives the version parser relies on:
    the character classes of JavaScript regular expressions, `String.prototype.trim`,
    `String.prototype.split` on one separator character and `Array.prototype.join`,
    and substring search as `String.prototype.match` does it for a literal pattern. */
module Strings {

  /** The LineTerminator characters of ECMAScript: `^` in a multiline regular
      expression matches after them, `.` does not match them. */
  predicate IsLineTerminator(c: char) {
    c == '\n' || c == '\r' || c == '\U{2028}' || c == '\U{2029}'
  }

  /** WhiteSpace or LineTerminator, the characters `trim` removes: tab, vertical tab,
      form feed, the byte-order mark, the space separators of Unicode and the line terminators. */
  predicate IsJsSpace(c: char) {
    || c == '\t' || c == '\U{0b}' || c == '\U{0c}' || c == ' ' || c == '\U{a0}'
    || c == '\U{FEFF}' || c == '\U{1680}' || ('\U{2000}' <= c <= '\U{200A}')
    || c == '\U{202F}' || c == '\U{205F}' || c == '\U{3000}'
    || IsLineTerminator(c)
  }

  /** `\w` of a regular expression without the unicode flag: `[A-Za-z0-9_]`. */
  predicate IsWordChar(c: char) {
    ('a' <= c <= 'z') || ('A' <= c <= 'Z') || ('0' <= c <= '9') || c == '_'
  }

  /** `t` occurs in `s` at position `i`. */
  predicate OccursAt(s: string, t: string, i: int) {
    0 <= i && i + |t| <= |s| && s[i..i + |t|] == t
  }

  /** `t` occurs somewhere in `s`: a match of the literal pattern `t`. */
  predicate Contains(s: string, t: string) {
    exists i | 0 <= i <= |s| :: OccursAt(s, t, i)
  }

  /** A string that `trim` leaves alone. */
  predicate IsTrimmed(s: string) {
    s == [] || (!IsJsSpace(s[0]) && !IsJsSpace(s[|s| - 1]))
  }

  /** Leading white space removed: the longest all-space prefix is cut off. */
  function TrimStart(s: string): (r: string)
    ensures |r| <= |s| && r == s[|s| - |r|..]
    ensures r == [] || !IsJsSpace(r[0])
    ensures forall i | 0 <= i < |s| - |r| :: IsJsSpace(s[i])
  {
    if s != [] && IsJsSpace(s[0]) then TrimStart(s[1..]) else s
  }

  /** Trailing white space removed: the longest all-space suffix is cut off. */
  function TrimEnd(s: string): (r: string)
    ensures |r| <= |s| && r == s[..|r|]
    ensures r == [] || !IsJsSpace(r[|r| - 1])
    ensures forall i | |r| <= i < |s| :: IsJsSpace(s[i])
  {
    if s != [] && IsJsSpace(s[|s| - 1]) then TrimEnd(s[..|s| - 1]) else s
  }

  /** `r` is `s` with the white space before position `a` and after `r` cut off. */
  predicate IsTrimOf(s: string, r: string, a: int) {
    && OccursAt(s, r, a)
    && (forall i | 0 <= i < a :: IsJsSpace(s[i]))
    && (forall i | a + |r| <= i < |s| :: IsJsSpace(s[i]))
  }

  /** `String.prototype.trim`: a trimmed piece of `s` from which only white space was cut. */
  function Trim(s: string): (r: string)
    ensures IsTrimmed(r)
    ensures exists a | 0 <= a <= |s| :: IsTrimOf(s, r, a)
  {
    TrimIsTrimOf(s);
    TrimEnd(TrimStart(s))
  }

  /** Trimming the start and then the end cuts off white space on both sides. */
  lemma TrimIsTrimOf(s: string)
    ensures IsTrimOf(s, TrimEnd(TrimStart(s)), |s| - |TrimStart(s)|)
  {
    var t := TrimStart(s);
    TrimOfParts(s, t, TrimEnd(t), |s| - |t|);
  }

  /** White space before a suffix of `s`, and white space after a prefix of that suffix,
      leave the prefix as a piece of `s` trimmed of white space. */
  lemma TrimOfParts(s: string, t: string, r: string, a: nat)
    requires a + |t| == |s| && t == s[a..] && |r| <= |t| && r == t[..|r|]
    requires forall i | 0 <= i < a :: IsJsSpace(s[i])
    requires forall i | |r| <= i < |t| :: IsJsSpace(t[i])
    ensures IsTrimOf(s, r, a)
  {
    assert s[a..a + |r|] == r by {
      assert forall i | 0 <= i < |r| :: r[i] == s[a + i];
    }
    forall i | a + |r| <= i < |s| ensures IsJsSpace(s[i]) {
      assert s[i] == t[i - a];
    }
  }

  /** Trimming is the identity on a trimmed string, so it is idempotent. */
  lemma TrimOfTrimmed(s: string)
    requires IsTrimmed(s)
    ensures Trim(s) == s
  {
  }

  /** `idx` picks `r` out of `s`: `r[k]` is `s[idx[k]]`, and the positions increase,
      so `r` is `s` with some characters left out and the rest in their order. */
  predicate Picks(r: string, s: string, idx: seq<nat>) {
    && |idx| == |r|
    && (forall k | 0 <= k < |idx| :: idx[k] < |s| && r[k] == s[idx[k]])
    && (forall k, l | 0 <= k < l < |idx| :: idx[k] < idx[l])
  }

  /** Every position moved up by `d`. */
  function Shift(idx: seq<nat>, d: nat): (moved: seq<nat>)
    ensures |moved| == |idx| && forall k | 0 <= k < |idx| :: moved[k] == idx[k] + d
  {
    seq(|idx|, k requires 0 <= k < |idx| => idx[k] + d)
  }

  /** Positions picked from a suffix are positions of the whole text, moved up. */
  lemma PicksFromSuffix(r: string, s: string, idx: seq<nat>, d: nat)
    requires d <= |s| && Picks(r, s[d..], idx)
    ensures Picks(r, s, Shift(idx, d))
  {
    forall k | 0 <= k < |idx| ensures r[k] == s[idx[k] + d] {
      assert s[d..][idx[k]] == s[idx[k] + d];
    }
  }

  /** Keeping the first character and picking from the rest picks from the whole text. */
  lemma PicksCons(r: string, s: string, idx: seq<nat>)
    requires s != [] && Picks(r, s[1..], idx)
    ensures Picks([s[0]] + r, s, [0] + Shift(idx, 1))
  {
    PicksFromSuffix(r, s, idx, 1);
    var moved := [0] + Shift(idx, 1);
    forall k | 1 <= k < |moved| ensures ([s[0]] + r)[k] == s[moved[k]] {
      assert ([s[0]] + r)[k] == r[k - 1] && moved[k] == Shift(idx, 1)[k - 1];
    }
  }

  /** The index of the first occurrence of `c` in `s`. */
  function IndexOf(s: string, c: char): (k: nat)
    requires c in s
    ensures k < |s| && s[k] == c && c !in s[..k]
  {
    if s[0] == c then 0 else 1 + IndexOf(s[1..], c)
  }

  /** `s.split(sep)` for a one-character separator: the pieces between the
      separators, in order; there is always one piece more than separators. */
  function Split(s: string, sep: char): (pieces: seq<string>)
    decreases |s|
    ensures |pieces| >= 1
    ensures forall k | 0 <= k < |pieces| :: sep !in pieces[k]
  {
    if sep in s then
      var k := IndexOf(s, sep);
      [s[..k]] + Split(s[k + 1..], sep)
    else
      [s]
  }

  /** `pieces.join(sep)`. */
  function Join(pieces: seq<string>, sep: char): string
  {
    if |pieces| == 0 then ""
    else if |pieces| == 1 then pieces[0]
    else pieces[0] + [sep] + Join(pieces[1..], sep)
  }

  /** Joining the pieces of a split gives the original text back. */
  lemma {:induction false} JoinSplit(s: string, sep: char)
    ensures Join(Split(s, sep), sep) == s
    decreases |s|
  {
    if sep in s {
      var k := IndexOf(s, sep);
      var rest := s[k + 1..];
      JoinSplit(rest, sep);
      assert Split(s, sep) == [s[..k]] + Split(rest, sep);
      assert s == s[..k] + [sep] + rest;
    }
  }

  /** Splitting a join of separator-free pieces gives the pieces back. */
  lemma {:induction false} SplitJoin(pieces: seq<string>, sep: char)
    requires pieces != []
    requires forall k | 0 <= k < |pieces| :: sep !in pieces[k]
    ensures Split(Join(pieces, sep), sep) == pieces
  {
    if |pieces| > 1 {
      var s := Join(pieces, sep);
      var head := pieces[0];
      assert s == head + [sep] + Join(pieces[1..], sep);
      assert s[|head|] == sep && s[..|head|] == head;
      assert IndexOf(s, sep) == |head|;
      assert s[|head| + 1..] == Join(pieces[1..], sep);
      SplitJoin(pieces[1..], sep);
      assert pieces == [head] + pieces[1..];
    }
  }

  /** A character other than the separator is in a join exactly when it is in one of the pieces. */
  lemma {:induction false} InJoin(pieces: seq<string>, sep: char, c: char)
    requires c != sep
    ensures c in Join(pieces, sep) <==> exists k | 0 <= k < |pieces| :: c in pieces[k]
  {
    if |pieces| > 1 {
      InJoin(pieces[1..], sep, c);
      assert Join(pieces, sep) == pieces[0] + ([sep] + Join(pieces[1..], sep));
      if exists k | 1 <= k < |pieces| :: c in pieces[k] {
        var k :| 1 <= k < |pieces| && c in pieces[k];
        assert c in pieces[1..][k - 1];
      }
    }
  }

  /** `Join` on a list with a first element and a non-empty rest. */
  lemma JoinCons(head: string, rest: seq<string>, sep: char)
    requires rest != []
    ensures Join([head] + rest, sep) == head + [sep] + Join(rest, sep)
  {
    assert ([head] + rest)[1..] == rest;
  }

  /** Every character of `s` is white space. */
  predicate AllSpace(s: string) {
    forall i | 0 <= i < |s| :: IsJsSpace(s[i])
  }

  /** `TrimStart` cuts at the first position that does not hold white space. */
  lemma TrimStartAt(s: string, k: nat)
    requires k <= |s| && (forall i | 0 <= i < k :: IsJsSpace(s[i])) && (k == |s| || !IsJsSpace(s[k]))
    ensures TrimStart(s) == s[k..]
  {
  }

  /** Leading white space in front of a text that does not start with white space is cut off exactly. */
  lemma TrimStartOfPadded(p: string, t: string)
    requires AllSpace(p) && (t == [] || !IsJsSpace(t[0]))
    ensures TrimStart(p + t) == t
  {
    var s := p + t;
    assert forall i | 0 <= i < |p| :: s[i] == p[i];
    assert |p| < |s| ==> s[|p|] == t[0];
    TrimStartAt(s, |p|);
    assert s[|p|..] == t;
  }

  /** Trimming a trimmed text behind white space gives the text. */
  lemma TrimOfPadded(p: string, t: string)
    requires AllSpace(p) && IsTrimmed(t)
    ensures Trim(p + t) == t
  {
    TrimStartOfPadded(p, t);
  }

  /** A text that lacks one of the characters of `t` does not contain `t`. */
  lemma AbsentCharNotContained(s: string, t: string, c: char)
    requires c in t && c !in s
    ensures !Contains(s, t)
  {
  }

  /** A text contains whatever occurs in it. */
  lemma ContainsInMiddle(a: string, t: string, b: string)
    ensures Contains(a + t + b, t)
  {
    var s := a + t + b;
    assert s[|a|..|a| + |t|] == t;
    assert OccursAt(s, t, |a|);
  }
}
