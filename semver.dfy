/** A small concrete model of the `semver` library calls the matcher makes, used
    to state the repository's own examples: versions are triples of natural
    numbers written `[v]major.minor.patch` without leading zeros; a range is a
    list of comparators separated by spaces, all of which must hold, where each
    comparator is an optional operator (`>=`, `<=`, `>`, `<`, `=`), possibly
    followed by spaces, and a partial version that is widened the way semver
    widens X-ranges (`0.10` is `>=0.10.0 <0.11.0`). */
module Semver {
  import opened Wrappers
  import opened Strings
  import Selection

  predicate IsDigit(c: char) {
    '0' <= c <= '9'
  }

  predicate AllDigits(s: string) {
    forall i | 0 <= i < |s| :: IsDigit(s[i])
  }

  /** A numeric identifier of semver: `0`, or digits that do not start with `0`. */
  predicate IsNumeric(s: string) {
    s != [] && AllDigits(s) && (s[0] != '0' || |s| == 1)
  }

  /** The value of a string of decimal digits. */
  function DigitsValue(s: string): nat
    requires AllDigits(s)
  {
    if s == [] then 0 else 10 * DigitsValue(s[..|s| - 1]) + (s[|s| - 1] as int - '0' as int)
  }

  /** The decimal numeral of `n`. */
  function NatToString(n: nat): (s: string)
    ensures IsNumeric(s) && DigitsValue(s) == n
    ensures s[0] == '0' <==> n == 0
  {
    var last := ('0' as int + n % 10) as char;
    if n < 10 then [last]
    else
      var front := NatToString(n / 10);
      var s := front + [last];
      assert s[..|s| - 1] == front;
      s
  }

  /** A numeral that does not start with `0` denotes a positive number. */
  lemma {:induction false} LeadingDigitPositive(s: string)
    requires s != [] && AllDigits(s) && s[0] != '0'
    ensures DigitsValue(s) > 0
  {
    if |s| > 1 {
      LeadingDigitPositive(s[..|s| - 1]);
    }
  }

  /** Every numeric identifier is the numeral of its value: numerals are unique. */
  lemma {:induction false} NumericIsNumeral(s: string)
    requires IsNumeric(s)
    ensures NatToString(DigitsValue(s)) == s
  {
    if |s| > 1 {
      var front := s[..|s| - 1];
      LeadingDigitPositive(front);
      NumericIsNumeral(front);
      var n := DigitsValue(s);
      assert n / 10 == DigitsValue(front) && n % 10 == s[|s| - 1] as int - '0' as int;
      assert s == front + [s[|s| - 1]];
    }
  }

  datatype Version = Version(major: nat, minor: nat, patch: nat)

  /** The canonical text of a version. */
  function FormatVersion(v: Version): string {
    NatToString(v.major) + "." + NatToString(v.minor) + "." + NatToString(v.patch)
  }

  /** Drops one leading `v`. */
  function DropV(s: string): (t: string)
    ensures t == s || (s != [] && s[0] == 'v' && t == s[1..])
  {
    if s != [] && s[0] == 'v' then s[1..] else s
  }

  /** The values of a list of numeric identifiers, or nothing when one is not numeric. */
  function NumericValues(pieces: seq<string>): (r: Option<seq<nat>>)
    ensures r.Some? <==> forall k | 0 <= k < |pieces| :: IsNumeric(pieces[k])
    ensures r.Some? ==> |r.value| == |pieces| && forall k | 0 <= k < |pieces| :: r.value[k] == DigitsValue(pieces[k])
  {
    if pieces == [] then Some([])
    else if !IsNumeric(pieces[0]) then None
    else match NumericValues(pieces[1..])
      case Some(rest) => Some([DigitsValue(pieces[0])] + rest)
      case None => None
  }

  /** The numbers of a partial version `[v]M[.m[.p]]`, or nothing. */
  function ParseParts(s: string): (parts: Option<seq<nat>>)
    ensures parts.Some? ==> 1 <= |parts.value| <= 3
  {
    var pieces := Split(DropV(s), '.');
    if |pieces| <= 3 then NumericValues(pieces) else None
  }

  /** `new SemVer(s)` for a version without prerelease or build part: the version, or nothing. */
  function ParseVersion(s: string): (v: Option<Version>)
  {
    match ParseParts(s)
    case Some(parts) => if |parts| == 3 then Some(Version(parts[0], parts[1], parts[2])) else None
    case None => None
  }

  /** A numeral holds no dot. */
  lemma NumeralHasNoDot(n: nat)
    ensures '.' !in NatToString(n)
  {
    var s := NatToString(n);
    assert forall i | 0 <= i < |s| :: s[i] != '.';
  }

  /** Two dot-free pieces joined by a dot split back into them. */
  lemma SplitTwo(a: string, b: string)
    requires '.' !in a && '.' !in b
    ensures Split(a + "." + b, '.') == [a, b]
  {
    assert Join([a, b], '.') == a + "." + b by {
      assert [a, b][1..] == [b];
    }
    SplitJoin([a, b], '.');
  }

  /** Three dot-free pieces joined by dots split back into them. */
  lemma SplitThree(a: string, b: string, c: string)
    requires '.' !in a && '.' !in b && '.' !in c
    ensures Split(a + "." + b + "." + c, '.') == [a, b, c]
  {
    var bc := b + "." + c;
    SplitTwo(b, c);
    var s := a + "." + bc;
    assert s == a + "." + b + "." + c;
    assert s[|a|] == '.' && s[..|a|] == a && s[|a| + 1..] == bc;
    assert IndexOf(s, '.') == |a|;
    assert [a] + [b, c] == [a, b, c];
  }

  lemma ValuesOfTwo(a: string, b: string)
    requires IsNumeric(a) && IsNumeric(b)
    ensures NumericValues([a, b]) == Some([DigitsValue(a), DigitsValue(b)])
  {
    assert [b][1..] == [];
    assert [DigitsValue(b)] + [] == [DigitsValue(b)];
    assert NumericValues([b]) == Some([DigitsValue(b)]);
    assert [a, b][1..] == [b];
    assert [DigitsValue(a)] + [DigitsValue(b)] == [DigitsValue(a), DigitsValue(b)];
  }

  lemma ValuesOfThree(a: string, b: string, c: string)
    requires IsNumeric(a) && IsNumeric(b) && IsNumeric(c)
    ensures NumericValues([a, b, c]) == Some([DigitsValue(a), DigitsValue(b), DigitsValue(c)])
  {
    ValuesOfTwo(b, c);
    assert [a, b, c][1..] == [b, c];
    assert [DigitsValue(a)] + [DigitsValue(b), DigitsValue(c)] == [DigitsValue(a), DigitsValue(b), DigitsValue(c)];
  }

  /** The optional `v` in front of a text that starts with a digit is dropped. */
  lemma DropPrefix(prefix: string, text: string)
    requires prefix == "" || prefix == "v"
    requires text != [] && IsDigit(text[0])
    ensures DropV(prefix + text) == text
  {
    if prefix == "v" {
      assert (prefix + text)[1..] == text;
    } else {
      assert prefix + text == text;
    }
  }

  /** The pieces of a formatted version, with or without the `v`. */
  lemma FormattedParts(v: Version, prefix: string)
    requires prefix == "" || prefix == "v"
    ensures ParseParts(prefix + FormatVersion(v)) == Some([v.major, v.minor, v.patch])
  {
    var a, b, c := NatToString(v.major), NatToString(v.minor), NatToString(v.patch);
    NumeralHasNoDot(v.major);
    NumeralHasNoDot(v.minor);
    NumeralHasNoDot(v.patch);
    SplitThree(a, b, c);
    DropPrefix(prefix, FormatVersion(v));
    ValuesOfThree(a, b, c);
  }

  /** Reading a formatted version, with or without a `v` in front, gives it back. */
  lemma ParseFormatted(v: Version, prefix: string)
    requires prefix == "" || prefix == "v"
    ensures ParseVersion(prefix + FormatVersion(v)) == Some(v)
  {
    FormattedParts(v, prefix);
  }

  /** Version order: lexicographic on the three numbers. */
  predicate Less(a: Version, b: Version) {
    || a.major < b.major
    || (a.major == b.major && a.minor < b.minor)
    || (a.major == b.major && a.minor == b.minor && a.patch < b.patch)
  }

  /** The order on read versions: a version is above anything that does not read as one. */
  predicate Above(a: Option<Version>, b: Option<Version>) {
    match (a, b)
    case (Some(x), Some(y)) => Less(y, x)
    case (Some(_), None) => true
    case (None, _) => false
  }

  /** `semver.gt(a, b)`. Semver throws on a string that is not a version; the
      matcher never compares one, and here it sorts below every version. */
  function Gt(a: string, b: string): bool {
    Above(ParseVersion(a), ParseVersion(b))
  }

  /** `Gt` is a strict weak order, as the matcher's tie rule needs. */
  lemma GtIsStrictWeakOrder()
    ensures Selection.StrictWeakOrder(Gt)
  {
    forall a ensures !Gt(a, a) {
    }
    forall a, b, c | Gt(a, b) && Gt(b, c) ensures Gt(a, c) {
    }
    forall a, b, c | Gt(a, c) ensures Gt(a, b) || Gt(b, c) {
    }
  }

  datatype Op = LessThan | AtMost | GreaterThan | AtLeast | Equal

  datatype Comparator = Comparator(op: Op, bound: Version)

  /** Whether `v` passes the comparator. */
  predicate Holds(c: Comparator, v: Version) {
    match c.op
    case LessThan => Less(v, c.bound)
    case AtMost => !Less(c.bound, v)
    case GreaterThan => Less(c.bound, v)
    case AtLeast => !Less(v, c.bound)
    case Equal => v == c.bound
  }

  /** The comparators a partial version with an operator stands for: missing numbers
      widen the comparator to the whole minor or major series. */
  function Widen(op: Op, parts: seq<nat>): seq<Comparator>
    requires 1 <= |parts| <= 3
  {
    var major := parts[0];
    var minor := if |parts| >= 2 then parts[1] else 0;
    var patch := if |parts| == 3 then parts[2] else 0;
    var low := Version(major, minor, patch);
    var next := if |parts| == 1 then Version(major + 1, 0, 0) else Version(major, minor + 1, 0);
    if |parts| == 3 then [Comparator(op, low)]
    else match op
      case Equal => [Comparator(AtLeast, low), Comparator(LessThan, next)]
      case AtLeast => [Comparator(AtLeast, low)]
      case GreaterThan => [Comparator(AtLeast, next)]
      case LessThan => [Comparator(LessThan, low)]
      case AtMost => [Comparator(LessThan, next)]
  }

  /** The operator a comparator starts with, and the rest of it. */
  function SplitOperator(word: string): (Op, string) {
    if |word| >= 2 && word[0] == '>' && word[1] == '=' then (AtLeast, word[2..])
    else if |word| >= 2 && word[0] == '<' && word[1] == '=' then (AtMost, word[2..])
    else if |word| >= 1 && word[0] == '>' then (GreaterThan, word[1..])
    else if |word| >= 1 && word[0] == '<' then (LessThan, word[1..])
    else if |word| >= 1 && word[0] == '=' then (Equal, word[1..])
    else (Equal, word)
  }

  /** A word that is an operator alone (`>=`, `<=`, `>`, `<` or `=`), to be joined with the version after it. */
  predicate IsOperator(word: string) {
    || (|word| == 2 && (word[0] == '>' || word[0] == '<') && word[1] == '=')
    || (|word| == 1 && (word[0] == '>' || word[0] == '<' || word[0] == '='))
  }

  /** The non-empty space-separated words of a range. */
  function Words(s: string): (words: seq<string>)
    ensures forall k | 0 <= k < |words| :: words[k] != ""
  {
    var pieces := Split(s, ' ');
    NonEmpty(pieces)
  }

  function NonEmpty(pieces: seq<string>): (r: seq<string>)
    ensures forall k | 0 <= k < |r| :: r[k] != ""
  {
    if pieces == [] then []
    else (if pieces[0] == "" then [] else [pieces[0]]) + NonEmpty(pieces[1..])
  }

  /** The comparators one word stands for, or nothing when it is not a comparator. */
  function ParseComparator(word: string): Option<seq<Comparator>> {
    var (op, text) := SplitOperator(word);
    match ParseParts(text)
    case Some(parts) => Some(Widen(op, parts))
    case None => None
  }

  /** The comparators of `word` in front of those of the rest of the range. */
  function Prepend(word: string, rest: Option<seq<Comparator>>): Option<seq<Comparator>> {
    match (ParseComparator(word), rest)
    case (Some(c), Some(cs)) => Some(c + cs)
    case _ => None
  }

  /** The comparators of a list of words, an operator alone taking the next word
      as its version; nothing when a word is not a comparator. */
  function ParseWords(words: seq<string>): Option<seq<Comparator>>
    decreases |words|
  {
    if words == [] then Some([])
    else if IsOperator(words[0]) && |words| >= 2 then Prepend(words[0] + words[1], ParseWords(words[2..]))
    else Prepend(words[0], ParseWords(words[1..]))
  }

  /** `new Range(s)` for a range of plain comparators: its comparators, or nothing. */
  function ParseRange(s: string): Option<seq<Comparator>> {
    ParseWords(Words(s))
  }

  /** `semver.satisfies(version, range)`: the version reads as one, the range reads as
      one (an unreadable range makes semver return false), and every comparator holds. */
  predicate Satisfies(version: string, range: string) {
    match (ParseVersion(version), ParseRange(range))
    case (Some(v), Some(cs)) => forall k | 0 <= k < |cs| :: Holds(cs[k], v)
    case _ => false
  }

  /** The empty string satisfies no range. */
  lemma SatisfiesRejectsEmpty()
    ensures Selection.RejectsEmpty(Satisfies)
  {
    forall range ensures !Satisfies("", range) {
      assert Split("", '.') == [""];
    }
  }

  /** Digits and dots, the characters of a formatted version. */
  predicate NumeralText(s: string) {
    forall i | 0 <= i < |s| :: IsDigit(s[i]) || s[i] == '.'
  }

  lemma NumeralTextConcat(a: string, b: string)
    requires NumeralText(a) && NumeralText(b)
    ensures NumeralText(a + b)
  {
    assert forall i | 0 <= i < |a + b| :: (a + b)[i] == if i < |a| then a[i] else b[i - |a|];
  }

  /** `major.minor`, a partial version as a range names a minor series. */
  function FormatPartial(major: nat, minor: nat): string {
    NatToString(major) + "." + NatToString(minor)
  }

  /** Formatted versions and partial versions are digits and dots, and start and end with a digit. */
  lemma FormattedChars(v: Version, major: nat, minor: nat)
    ensures var s := FormatVersion(v);
      s != [] && IsDigit(s[0]) && IsDigit(s[|s| - 1]) && NumeralText(s)
    ensures var s := FormatPartial(major, minor);
      s != [] && IsDigit(s[0]) && IsDigit(s[|s| - 1]) && NumeralText(s)
  {
    var a, b, c := NatToString(v.major), NatToString(v.minor), NatToString(v.patch);
    assert NumeralText(a) && NumeralText(b) && NumeralText(c) && NumeralText(".");
    NumeralTextConcat(a, ".");
    NumeralTextConcat(a + ".", b);
    NumeralTextConcat(a + "." + b, ".");
    NumeralTextConcat(a + "." + b + ".", c);
    var m, n := NatToString(major), NatToString(minor);
    assert NumeralText(m) && NumeralText(n);
    NumeralTextConcat(m, ".");
    NumeralTextConcat(m + ".", n);
  }

  /** The numbers of a partial version, with or without the `v`. */
  lemma PartialParts(major: nat, minor: nat, prefix: string)
    requires prefix == "" || prefix == "v"
    ensures ParseParts(prefix + FormatPartial(major, minor)) == Some([major, minor])
  {
    var a, b := NatToString(major), NatToString(minor);
    NumeralHasNoDot(major);
    NumeralHasNoDot(minor);
    SplitTwo(a, b);
    DropPrefix(prefix, FormatPartial(major, minor));
    ValuesOfTwo(a, b);
  }

  /** A word without spaces is the one word of a range. */
  lemma WordsOfOne(s: string)
    requires s != [] && ' ' !in s
    ensures Words(s) == [s]
  {
    assert Split(s, ' ') == [s];
    assert NonEmpty([s]) == [s] + NonEmpty([s][1..]);
    assert [s][1..] == [];
  }

  /** Three words without spaces, separated by single spaces. */
  lemma WordsOfThree(a: string, b: string, c: string)
    requires a != [] && b != [] && c != []
    requires ' ' !in a && ' ' !in b && ' ' !in c
    ensures Words(a + " " + b + " " + c) == [a, b, c]
  {
    var pieces := [a, b, c];
    assert pieces[1..] == [b, c] && [b, c][1..] == [c];
    assert Join([b, c], ' ') == b + " " + c;
    assert Join(pieces, ' ') == a + " " + b + " " + c;
    SplitJoin(pieces, ' ');
    assert NonEmpty([c]) == [c] by {
      assert [c][1..] == [];
    }
    assert NonEmpty([b, c]) == [b, c] by {
      assert [b, c][1..] == [c];
    }
    assert NonEmpty(pieces) == [a] + NonEmpty([b, c]);
  }

  /** A comparator that starts with a digit or a `v` has no operator: it means `=`. */
  lemma NoOperator(word: string)
    requires word != [] && (IsDigit(word[0]) || word[0] == 'v')
    ensures !IsOperator(word) && SplitOperator(word) == (Equal, word)
  {
  }

  /** A range that starts with a comparator word. */
  lemma ParseWordsCons(word: string, rest: seq<string>, op: Op, text: string, parts: seq<nat>, cs: seq<Comparator>)
    requires !IsOperator(word) && SplitOperator(word) == (op, text)
    requires ParseParts(text) == Some(parts) && ParseWords(rest) == Some(cs)
    ensures ParseWords([word] + rest) == Some(Widen(op, parts) + cs)
  {
    assert ([word] + rest)[0] == word && ([word] + rest)[1..] == rest;
  }

  /** A range that starts with an operator alone, followed by its version. */
  lemma ParseWordsJoined(opWord: string, word: string, rest: seq<string>, op: Op, text: string,
                         parts: seq<nat>, cs: seq<Comparator>)
    requires IsOperator(opWord) && SplitOperator(opWord + word) == (op, text)
    requires ParseParts(text) == Some(parts) && ParseWords(rest) == Some(cs)
    ensures ParseWords([opWord, word] + rest) == Some(Widen(op, parts) + cs)
  {
    var words := [opWord, word] + rest;
    assert words[0] == opWord && words[1] == word && words[2..] == rest;
  }

  lemma ParseNoWords()
    ensures ParseWords([]) == Some([])
  {
  }

  /** A full version as a range is satisfied by that version alone. */
  lemma RangeOfVersion(w: Version)
    ensures ParseRange(FormatVersion(w)) == Some([Comparator(Equal, w)])
  {
    var t := FormatVersion(w);
    FormattedChars(w, 0, 0);
    WordsOfOne(t);
    NoOperator(t);
    FormattedParts(w, "");
    assert "" + t == t;
    ParseNoWords();
    ParseWordsCons(t, [], Equal, t, [w.major, w.minor, w.patch], []);
    assert [t] + [] == [t];
    assert Widen(Equal, [w.major, w.minor, w.patch]) + [] == [Comparator(Equal, w)];
  }

  /** A partial version `[v]M.m` as a range is the minor series `>=M.m.0 <M.(m+1).0`. */
  lemma RangeOfPartial(major: nat, minor: nat, prefix: string)
    requires prefix == "" || prefix == "v"
    ensures ParseRange(prefix + FormatPartial(major, minor))
      == Some([Comparator(AtLeast, Version(major, minor, 0)), Comparator(LessThan, Version(major, minor + 1, 0))])
  {
    var p := FormatPartial(major, minor);
    var t := prefix + p;
    FormattedChars(Version(0, 0, 0), major, minor);
    assert ' ' !in t && t != [] && t[0] == (if prefix == "v" then 'v' else p[0]);
    WordsOfOne(t);
    NoOperator(t);
    PartialParts(major, minor, prefix);
    ParseNoWords();
    ParseWordsCons(t, [], Equal, t, [major, minor], []);
    assert [t] + [] == [t];
    assert Widen(Equal, [major, minor]) + []
      == [Comparator(AtLeast, Version(major, minor, 0)), Comparator(LessThan, Version(major, minor + 1, 0))];
  }

  /** The two comparators of `>=p < h`, word by word. */
  lemma BetweenWords(p: string, h: string)
    requires p != [] && h != [] && IsDigit(h[0]) && ' ' !in p && ' ' !in h
    ensures Words(">=" + p + " < " + h) == [">=" + p, "<", h]
    ensures !IsOperator(">=" + p) && SplitOperator(">=" + p) == (AtLeast, p)
    ensures IsOperator("<") && SplitOperator("<" + h) == (LessThan, h)
  {
    var low, last := ">=" + p, "<" + h;
    assert ' ' !in low;
    assert ">=" + p + " < " + h == low + " " + "<" + " " + h;
    WordsOfThree(low, "<", h);
    assert |low| > 2 && low[0] == '>' && low[1] == '=' && low[2..] == p;
    assert last[0] == '<' && last[1] == h[0] && last[1..] == h;
  }

  /** `>=p < h` for texts `p` and `h` that read as a partial and a full version. */
  lemma RangeOfBetweenWords(p: string, h: string, major: nat, minor: nat, high: Version)
    requires p != [] && h != [] && IsDigit(h[0]) && ' ' !in p && ' ' !in h
    requires ParseParts(p) == Some([major, minor])
    requires ParseParts(h) == Some([high.major, high.minor, high.patch])
    ensures ParseRange(">=" + p + " < " + h)
      == Some([Comparator(AtLeast, Version(major, minor, 0)), Comparator(LessThan, high)])
  {
    var low := ">=" + p;
    BetweenWords(p, h);
    ParseNoWords();
    ParseWordsJoined("<", h, [], LessThan, h, [high.major, high.minor, high.patch], []);
    var top := Comparator(LessThan, high);
    assert Widen(LessThan, [high.major, high.minor, high.patch]) == [top];
    assert ParseWords(["<", h]) == Some([top]) by {
      assert ["<", h] + [] == ["<", h];
      assert [top] + [] == [top];
    }
    ParseWordsCons(low, ["<", h], AtLeast, p, [major, minor], [top]);
    var bottom := Comparator(AtLeast, Version(major, minor, 0));
    assert Widen(AtLeast, [major, minor]) == [bottom];
    assert ParseWords([low, "<", h]) == Some([bottom, top]) by {
      assert [low] + ["<", h] == [low, "<", h];
      assert [bottom] + [top] == [bottom, top];
    }
    assert ParseRange(">=" + p + " < " + h) == ParseWords([low, "<", h]);
  }

  /** What the range parser needs to know of a partial version's text. */
  lemma PartialText(major: nat, minor: nat)
    ensures var p := FormatPartial(major, minor);
      p != [] && IsDigit(p[0]) && ' ' !in p && ParseParts(p) == Some([major, minor])
  {
    var p := FormatPartial(major, minor);
    FormattedChars(Version(0, 0, 0), major, minor);
    assert ' ' !in p;
    PartialParts(major, minor, "");
    assert "" + p == p;
  }

  /** What the range parser needs to know of a version's text. */
  lemma VersionText(w: Version)
    ensures var h := FormatVersion(w);
      h != [] && IsDigit(h[0]) && ' ' !in h && ParseParts(h) == Some([w.major, w.minor, w.patch])
  {
    var h := FormatVersion(w);
    FormattedChars(w, 0, 0);
    assert ' ' !in h;
    FormattedParts(w, "");
    assert "" + h == h;
  }

  /** `>=M.m < V`: from the start of a minor series up to, not including, a version. */
  lemma RangeBetween(major: nat, minor: nat, high: Version)
    ensures ParseRange(">=" + FormatPartial(major, minor) + " < " + FormatVersion(high))
      == Some([Comparator(AtLeast, Version(major, minor, 0)), Comparator(LessThan, high)])
  {
    PartialText(major, minor);
    VersionText(high);
    RangeOfBetweenWords(FormatPartial(major, minor), FormatVersion(high), major, minor, high);
  }

  /** A version against a range of one comparator. */
  lemma SatisfiesOne(version: string, range: string, v: Version, c: Comparator)
    requires ParseVersion(version) == Some(v) && ParseRange(range) == Some([c])
    ensures Satisfies(version, range) <==> Holds(c, v)
  {
    assert Satisfies(version, range) <==> forall k | 0 <= k < 1 :: Holds([c][k], v);
    assert [c][0] == c;
  }

  /** A version against a range of two comparators. */
  lemma SatisfiesTwo(version: string, range: string, v: Version, c: Comparator, d: Comparator)
    requires ParseVersion(version) == Some(v) && ParseRange(range) == Some([c, d])
    ensures Satisfies(version, range) <==> Holds(c, v) && Holds(d, v)
  {
    assert Satisfies(version, range) <==> forall k | 0 <= k < 2 :: Holds([c, d][k], v);
    assert [c, d][0] == c && [c, d][1] == d;
  }

  /** A formatted version satisfies a full version exactly when it is that version. */
  lemma SatisfiesExact(v: Version, prefix: string, w: Version)
    requires prefix == "" || prefix == "v"
    ensures Satisfies(prefix + FormatVersion(v), FormatVersion(w)) <==> v == w
  {
    ParseFormatted(v, prefix);
    RangeOfVersion(w);
    SatisfiesOne(prefix + FormatVersion(v), FormatVersion(w), v, Comparator(Equal, w));
  }

  /** A formatted version satisfies a partial version exactly when it is in that minor series. */
  lemma SatisfiesPartial(v: Version, prefix: string, major: nat, minor: nat, rangePrefix: string)
    requires prefix == "" || prefix == "v"
    requires rangePrefix == "" || rangePrefix == "v"
    ensures Satisfies(prefix + FormatVersion(v), rangePrefix + FormatPartial(major, minor))
      <==> v.major == major && v.minor == minor
  {
    ParseFormatted(v, prefix);
    RangeOfPartial(major, minor, rangePrefix);
    var low, top := Comparator(AtLeast, Version(major, minor, 0)), Comparator(LessThan, Version(major, minor + 1, 0));
    SatisfiesTwo(prefix + FormatVersion(v), rangePrefix + FormatPartial(major, minor), v, low, top);
    assert Holds(low, v) <==> !Less(v, Version(major, minor, 0));
    assert Holds(top, v) <==> Less(v, Version(major, minor + 1, 0));
  }

  /** A formatted version satisfies `>=M.m < V` exactly when it is at least `M.m.0` and below `V`. */
  lemma SatisfiesBetween(v: Version, prefix: string, major: nat, minor: nat, high: Version)
    requires prefix == "" || prefix == "v"
    ensures Satisfies(prefix + FormatVersion(v), ">=" + FormatPartial(major, minor) + " < " + FormatVersion(high))
      <==> !Less(v, Version(major, minor, 0)) && Less(v, high)
  {
    ParseFormatted(v, prefix);
    RangeBetween(major, minor, high);
    var low, top := Comparator(AtLeast, Version(major, minor, 0)), Comparator(LessThan, high);
    SatisfiesTwo(prefix + FormatVersion(v), ">=" + FormatPartial(major, minor) + " < " + FormatVersion(high), v, low, top);
    assert Holds(low, v) <==> !Less(v, Version(major, minor, 0));
    assert Holds(top, v) <==> Less(v, high);
  }

  /** Between formatted versions, `gt` is the version order. */
  lemma GtFormatted(v: Version, prefix: string, w: Version, wPrefix: string)
    requires prefix == "" || prefix == "v"
    requires wPrefix == "" || wPrefix == "v"
    ensures Gt(prefix + FormatVersion(v), wPrefix + FormatVersion(w)) <==> Less(w, v)
  {
    ParseFormatted(v, prefix);
    ParseFormatted(w, wPrefix);
  }
}
