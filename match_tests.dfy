/** The repository's matching examples, stated with the concrete semver model:
    the stubbed `nvm list` prints six versions, and `match` must pick the exact
    version, the greatest version of a minor series, the greatest version below a
    bound, or reject a series that is not installed; `findVersion` must keep io.js
    and node versions apart by their names. */
module MatchTests {
  import opened Wrappers
  import opened Strings
  import opened Tokens
  import opened Listing
  import opened Selection
  import opened Semver
  import ListingTests
  import Matcher

  /** The versions the stub lists, in order. */
  function StubVersions(): seq<Version> {
    [Version(0, 7, 12), Version(0, 10, 26), Version(0, 10, 28), Version(0, 10, 29), Version(0, 10, 101), Version(0, 11, 13)]
  }

  /** The stub writes every version with a `v` except `0.10.26`. */
  function StubPrefix(k: int): string {
    if k == 1 then "" else "v"
  }

  /** The `k`-th token of the stub. */
  function StubToken(k: int): string
    requires 0 <= k < 6
  {
    StubPrefix(k) + FormatVersion(StubVersions()[k])
  }

  function StubTokens(): seq<string> {
    [StubToken(0), StubToken(1), StubToken(2), StubToken(3), StubToken(4), StubToken(5)]
  }

  /** What the stub prints: `echo` of the tokens joined by line feeds, ended by a line feed. */
  function StubOutput(): string {
    Unlines(StubTokens())
  }

  /** The six tokens are the ones the stub's `echo` prints. */
  lemma StubTokensText()
    ensures StubTokens() == ["v0.7.12", "0.10.26", "v0.10.28", "v0.10.29", "v0.10.101", "v0.11.13"]
  {
    var vs := StubVersions();
    StubFirstVersionsText();
    StubLastVersionsText();
    assert StubToken(0) == "v" + "0.7.12" == "v0.7.12";
    assert StubToken(1) == "0.10.26";
    assert StubToken(2) == "v" + "0.10.28" == "v0.10.28";
    assert StubToken(3) == "v" + "0.10.29" == "v0.10.29";
    assert StubToken(4) == "v" + "0.10.101" == "v0.10.101";
    assert StubToken(5) == "v" + "0.11.13" == "v0.11.13";
  }

  lemma StubFirstVersionsText()
    ensures var vs := StubVersions();
      FormatVersion(vs[0]) == "0.7.12" && FormatVersion(vs[1]) == "0.10.26" && FormatVersion(vs[2]) == "0.10.28"
  {
  }

  lemma StubLastVersionsText()
    ensures var vs := StubVersions();
      FormatVersion(vs[3]) == "0.10.29" && FormatVersion(vs[4]) == "0.10.101" && FormatVersion(vs[5]) == "0.11.13"
  {
  }

  /** A version written with or without a `v` is a plain listing token without a hyphen,
      so it has no name and is its own number. */
  lemma VersionToken(v: Version, prefix: string)
    requires prefix == "" || prefix == "v"
    ensures var t := prefix + FormatVersion(v);
      && ListingTests.PlainToken(t) && '-' !in t
      && VersionName(t) == None && VersionNumber(t) == t
  {
    var s := FormatVersion(v);
    var t := prefix + s;
    FormattedChars(v, 0, 0);
    assert forall i | 0 <= i < |t| :: t[i] == if i < |prefix| then 'v' else s[i - |prefix|];
    assert t[0] != '-' && IsTrimmed(t);
    assert '-' !in t;
    HyphenlessToken(t);
  }

  lemma StubTokenAt(k: int)
    requires 0 <= k < 6
    ensures StubTokens()[k] == StubToken(k)
  {
  }

  /** Each token of the stub is plain, has no hyphen and reads as its version. */
  lemma StubFacts()
    ensures |StubTokens()| == |StubVersions()| == 6
    ensures forall k | 0 <= k < 6 ::
      && ListingTests.PlainToken(StubTokens()[k]) && '-' !in StubTokens()[k]
      && ParseVersion(StubTokens()[k]) == Some(StubVersions()[k])
  {
    forall k | 0 <= k < 6
      ensures ListingTests.PlainToken(StubTokens()[k]) && '-' !in StubTokens()[k]
      ensures ParseVersion(StubTokens()[k]) == Some(StubVersions()[k])
    {
      StubTokenAt(k);
      StubTokenFacts(k);
    }
  }

  /** The `k`-th token of the stub is plain, has no hyphen and reads as its version. */
  lemma StubTokenFacts(k: int)
    requires 0 <= k < 6
    ensures ListingTests.PlainToken(StubToken(k)) && '-' !in StubToken(k)
    ensures ParseVersion(StubToken(k)) == Some(StubVersions()[k])
  {
    var v, prefix := StubVersions()[k], StubPrefix(k);
    VersionToken(v, prefix);
    ParseFormatted(v, prefix);
  }

  /** The stub's listing parses into its six tokens. */
  lemma StubParses()
    ensures ParseVersions(StubOutput()) == StubTokens()
  {
    StubFacts();
    ListingTests.PlainLines(StubTokens());
    ParseUnlines(StubTokens());
  }

  /** Between unnamed tokens, eligibility is the range test on the whole token. */
  lemma EligibleUnnamed(v: string, matching: string)
    requires '-' !in v && '-' !in matching
    ensures Eligible(v, matching, Satisfies) <==> Satisfies(v, matching)
  {
    HyphenlessToken(v);
    HyphenlessToken(matching);
  }

  /** Among unnamed tokens that read as versions, the one `match` selects for an unnamed
      range is the satisfying token whose version is above those of all other satisfying tokens. */
  lemma ChosenAmong(tokens: seq<string>, versions: seq<Version>, range: string, w: nat, use: string)
    requires |tokens| == |versions| && w < |tokens| && '-' !in range
    requires forall k | 0 <= k < |tokens| :: '-' !in tokens[k] && ParseVersion(tokens[k]) == Some(versions[k])
    requires Satisfies(tokens[w], range)
    requires forall k | 0 <= k < |tokens| && k != w && Satisfies(tokens[k], range) :: Less(versions[k], versions[w])
    requires use in tokens && Eligible(use, range, Satisfies)
    requires Unbeaten(tokens, range, Satisfies, Gt, use)
    ensures use == tokens[w]
  {
    HyphenlessToken(range);
    forall k | 0 <= k < |tokens|
      ensures VersionName(tokens[k]) == None && VersionNumber(tokens[k]) == tokens[k]
    {
      HyphenlessToken(tokens[k]);
    }
    StrictMaximumIsChosen(tokens, range, Satisfies, Gt, tokens[w], use);
  }

  /** The resolution `match` gives for the `k`-th token of the stub. */
  function StubResolution(k: int): Result<Resolution, string>
    requires 0 <= k < 6
  {
    Ok(Resolution(StubToken(k), UseCommand(StubToken(k))))
  }

  /** If the stub's `w`-th token satisfies an unnamed range and its version is above those
      of the other satisfying tokens, `match` resolves with that token. */
  lemma StubChoice(range: string, w: nat, r: Result<Resolution, string>)
    requires '-' !in range && w < 6
    requires Satisfies(StubTokens()[w], range)
    requires forall k | 0 <= k < 6 && k != w && Satisfies(StubTokens()[k], range) ::
               Less(StubVersions()[k], StubVersions()[w])
    requires Matcher.MatchOutcome(StubOutput(), range, Satisfies, Gt, r)
    ensures r == StubResolution(w)
  {
    StubParses();
    StubFacts();
    EligibleUnnamed(StubTokens()[w], range);
    ChosenAmong(StubTokens(), StubVersions(), range, w, r.value.version);
    StubTokenAt(w);
  }

  /** When a range holds for none of the stub's tokens, `match` rejects. */
  lemma StubRejects(range: string, r: Result<Resolution, string>)
    requires '-' !in range
    requires forall k | 0 <= k < 6 :: !Satisfies(StubTokens()[k], range)
    requires Matcher.MatchOutcome(StubOutput(), range, Satisfies, Gt, r)
    ensures r == Err("no version matching " + range)
  {
    StubParses();
    StubFacts();
    var tokens := StubTokens();
    forall k | 0 <= k < |tokens| ensures !Eligible(tokens[k], range, Satisfies) {
      EligibleUnnamed(tokens[k], range);
    }
  }

  /** The stub's `k`-th token with a `v` in front of its version. */
  lemma StubTokenText(k: int, text: string, token: string, command: string)
    requires 0 <= k < 6 && k != 1
    requires FormatVersion(StubVersions()[k]) == text && "v" + text == token
    requires "nvm use " + token + " > /dev/null;" == command
    ensures StubResolution(k) == Ok(Resolution(token, command))
  {
  }

  /** `0.11.13`, the exact version of the first example. */
  function ExactRange(): string {
    FormatVersion(Version(0, 11, 13))
  }

  lemma ExactExample()
    ensures ExactRange() == "0.11.13"
    ensures StubResolution(5) == Ok(Resolution("v0.11.13", "nvm use v0.11.13 > /dev/null;"))
  {
    ExactText();
    StubTokenText(5, "0.11.13", "v0.11.13", "nvm use v0.11.13 > /dev/null;");
  }

  lemma ExactText()
    ensures FormatVersion(StubVersions()[5]) == ExactRange() == "0.11.13"
  {
  }

  /** A stub token satisfies `0.11.13` exactly when its version is `0.11.13`. */
  lemma ExactFacts()
    ensures forall k | 0 <= k < 6 :: Satisfies(StubTokens()[k], ExactRange()) <==> StubVersions()[k] == Version(0, 11, 13)
  {
    var range, target := ExactRange(), Version(0, 11, 13);
    forall k | 0 <= k < 6
      ensures Satisfies(StubTokens()[k], range) <==> StubVersions()[k] == target
    {
      StubTokenAt(k);
      SatisfiesExact(StubVersions()[k], StubPrefix(k), target);
    }
  }

  /** The stub lists `0.11.13` once, as its last version. */
  lemma ExactTop()
    ensures StubVersions()[5] == Version(0, 11, 13)
    ensures forall k | 0 <= k < 5 :: StubVersions()[k] != Version(0, 11, 13)
  {
  }

  /** Only `v0.11.13` satisfies `0.11.13`, so `match` resolves with it. */
  lemma ExactChoice(r: Result<Resolution, string>)
    requires Matcher.MatchOutcome(StubOutput(), ExactRange(), Satisfies, Gt, r)
    ensures r == StubResolution(5)
  {
    ExactFacts();
    ExactTop();
    VersionToken(Version(0, 11, 13), "");
    assert "" + ExactRange() == ExactRange();
    StubChoice(ExactRange(), 5, r);
  }

  /** `match('0.11.13')` resolves with the one installed `0.11.13`. */
  method MatchesExactVersion() returns (r: Result<Resolution, string>)
    ensures r == Ok(Resolution("v0.11.13", "nvm use v0.11.13 > /dev/null;"))
  {
    GtIsStrictWeakOrder();
    SatisfiesRejectsEmpty();
    ExactExample();
    r := Matcher.Match(StubOutput(), ExactRange(), Satisfies, Gt);
    ExactChoice(r);
  }

  /** `>=0.10 < 0.10.29`, the range of the second example. */
  function BetweenRange(): string {
    ">=" + FormatPartial(0, 10) + " < " + FormatVersion(Version(0, 10, 29))
  }

  lemma BetweenExample()
    ensures BetweenRange() == ">=0.10 < 0.10.29"
    ensures StubResolution(2) == Ok(Resolution("v0.10.28", "nvm use v0.10.28 > /dev/null;"))
  {
    BetweenText();
    BetweenWinnerText();
    StubTokenText(2, "0.10.28", "v0.10.28", "nvm use v0.10.28 > /dev/null;");
  }

  lemma BetweenWinnerText()
    ensures FormatVersion(StubVersions()[2]) == "0.10.28"
  {
  }

  lemma BetweenText()
    ensures BetweenRange() == ">=0.10 < 0.10.29"
  {
    var p, h := FormatPartial(0, 10), FormatVersion(Version(0, 10, 29));
    assert p == "0.10" && h == "0.10.29";
  }

  /** A stub token satisfies `>=0.10 < 0.10.29` exactly when its version lies in `[0.10.0, 0.10.29)`. */
  lemma BetweenFacts()
    ensures forall k | 0 <= k < 6 ::
      Satisfies(StubTokens()[k], BetweenRange()) <==> InBetween(StubVersions()[k])
  {
    var range, high := BetweenRange(), Version(0, 10, 29);
    forall k | 0 <= k < 6
      ensures Satisfies(StubTokens()[k], range) <==> InBetween(StubVersions()[k])
    {
      StubTokenAt(k);
      SatisfiesBetween(StubVersions()[k], StubPrefix(k), 0, 10, high);
    }
  }

  predicate InBetween(v: Version) {
    !Less(v, Version(0, 10, 0)) && Less(v, Version(0, 10, 29))
  }

  /** `0.10.28` is the greatest stub version in `[0.10.0, 0.10.29)`. */
  lemma BetweenTop()
    ensures InBetween(StubVersions()[2])
    ensures forall k | 0 <= k < 6 && k != 2 && InBetween(StubVersions()[k]) :: Less(StubVersions()[k], StubVersions()[2])
  {
  }

  /** `v0.10.26` and `v0.10.28` satisfy `>=0.10 < 0.10.29`; `match` resolves with the greater. */
  lemma BetweenChoice(r: Result<Resolution, string>)
    requires Matcher.MatchOutcome(StubOutput(), BetweenRange(), Satisfies, Gt, r)
    ensures r == StubResolution(2)
  {
    BetweenFacts();
    BetweenTop();
    BetweenHasNoHyphen();
    StubChoice(BetweenRange(), 2, r);
  }

  /** `match('>=0.10 < 0.10.29')` resolves with the greatest version in the range, `v0.10.28`. */
  method MatchesSemverSyntax() returns (r: Result<Resolution, string>)
    ensures r == Ok(Resolution("v0.10.28", "nvm use v0.10.28 > /dev/null;"))
  {
    GtIsStrictWeakOrder();
    SatisfiesRejectsEmpty();
    BetweenExample();
    r := Matcher.Match(StubOutput(), BetweenRange(), Satisfies, Gt);
    BetweenChoice(r);
  }

  /** `0.10`, the minor series of the third example. */
  function SeriesRange(): string {
    FormatPartial(0, 10)
  }

  lemma SeriesExample()
    ensures SeriesRange() == "0.10"
    ensures StubResolution(4) == Ok(Resolution("v0.10.101", "nvm use v0.10.101 > /dev/null;"))
  {
    SeriesText();
    StubTokenText(4, "0.10.101", "v0.10.101", "nvm use v0.10.101 > /dev/null;");
  }

  lemma SeriesText()
    ensures SeriesRange() == "0.10" && FormatVersion(StubVersions()[4]) == "0.10.101"
  {
  }

  /** A stub token satisfies `0.10` exactly when its version is in the `0.10` series. */
  lemma SeriesFacts()
    ensures forall k | 0 <= k < 6 ::
      Satisfies(StubTokens()[k], SeriesRange()) <==> StubVersions()[k].major == 0 && StubVersions()[k].minor == 10
  {
    var range := SeriesRange();
    assert "" + range == range;
    forall k | 0 <= k < 6
      ensures Satisfies(StubTokens()[k], range) <==> StubVersions()[k].major == 0 && StubVersions()[k].minor == 10
    {
      StubTokenAt(k);
      SatisfiesPartial(StubVersions()[k], StubPrefix(k), 0, 10, "");
    }
  }

  /** `0.10.101` is the greatest stub version of the `0.10` series, greater by version order and not by text. */
  lemma SeriesTop()
    ensures StubVersions()[4].major == 0 && StubVersions()[4].minor == 10
    ensures forall k | 0 <= k < 6 && k != 4 && StubVersions()[k].major == 0 && StubVersions()[k].minor == 10 ::
      Less(StubVersions()[k], StubVersions()[4])
  {
  }

  /** Four installed versions are in the `0.10` series; `match` resolves with the greatest, `v0.10.101`. */
  lemma SeriesChoice(r: Result<Resolution, string>)
    requires Matcher.MatchOutcome(StubOutput(), SeriesRange(), Satisfies, Gt, r)
    ensures r == StubResolution(4)
  {
    SeriesFacts();
    SeriesTop();
    PartialHasNoHyphen(0, 10);
    StubChoice(SeriesRange(), 4, r);
  }

  /** `match('0.10')` resolves with `v0.10.101`. */
  method ChoosesGreatestMatch() returns (r: Result<Resolution, string>)
    ensures r == Ok(Resolution("v0.10.101", "nvm use v0.10.101 > /dev/null;"))
  {
    GtIsStrictWeakOrder();
    SatisfiesRejectsEmpty();
    SeriesExample();
    r := Matcher.Match(StubOutput(), SeriesRange(), Satisfies, Gt);
    SeriesChoice(r);
  }

  /** `0.9`, a minor series the stub does not hold. */
  function MissingRange(): string {
    FormatPartial(0, 9)
  }

  lemma MissingExample()
    ensures MissingRange() == "0.9"
    ensures "no version matching " + MissingRange() == "no version matching 0.9"
  {
  }

  /** No installed version is in the `0.9` series. */
  lemma NoneInMissingSeries()
    ensures forall k | 0 <= k < 6 :: !Satisfies(StubTokens()[k], MissingRange())
  {
    var range := MissingRange();
    assert "" + range == range;
    forall k | 0 <= k < 6
      ensures Satisfies(StubTokens()[k], range) <==> StubVersions()[k].major == 0 && StubVersions()[k].minor == 9
    {
      StubTokenAt(k);
      SatisfiesPartial(StubVersions()[k], StubPrefix(k), 0, 9, "");
    }
    NoNineSeries();
  }

  lemma NoNineSeries()
    ensures forall k | 0 <= k < 6 :: StubVersions()[k].minor != 9
  {
  }

  /** So `match` rejects `0.9`. */
  lemma MissingChoice(r: Result<Resolution, string>)
    requires Matcher.MatchOutcome(StubOutput(), MissingRange(), Satisfies, Gt, r)
    ensures r == Err("no version matching " + MissingRange())
  {
    NoneInMissingSeries();
    PartialHasNoHyphen(0, 9);
    StubRejects(MissingRange(), r);
  }

  /** `match('0.9')` is rejected: no `0.9` version is installed. */
  method RejectsVersionsNotInstalled() returns (r: Result<Resolution, string>)
    ensures r == Err("no version matching 0.9")
  {
    GtIsStrictWeakOrder();
    SatisfiesRejectsEmpty();
    MissingExample();
    r := Matcher.Match(StubOutput(), MissingRange(), Satisfies, Gt);
    MissingChoice(r);
  }

  /** A partial version `M.m`, alone or with a `v` in front, has no hyphen. */
  lemma PartialHasNoHyphen(major: nat, minor: nat)
    ensures '-' !in FormatPartial(major, minor) && '-' !in "v" + FormatPartial(major, minor)
    ensures var t := "v" + FormatPartial(major, minor); forall i | 0 <= i < |t| :: !IsLineTerminator(t[i])
  {
    var s := FormatPartial(major, minor);
    FormattedChars(Version(0, 0, 0), major, minor);
    assert forall i | 0 <= i < |"v" + s| :: ("v" + s)[i] == if i == 0 then 'v' else s[i - 1];
  }

  /** The range `>=0.10 < 0.10.29` has no hyphen. */
  lemma BetweenHasNoHyphen()
    ensures '-' !in BetweenRange()
  {
    var p, h := FormatPartial(0, 10), FormatVersion(Version(0, 10, 29));
    FormattedChars(Version(0, 10, 29), 0, 10);
    var s := ">=" + p + " < " + h;
    assert forall i | 0 <= i < |s| :: s[i] == if i < 2 then ">="[i] else if i < 2 + |p| then p[i - 2]
                                             else if i < 5 + |p| then " < "[i - 2 - |p|] else h[i - 5 - |p|];
  }

  /** The io.js token of the examples, `iojs-v1.1.0`. */
  function IojsToken(): string {
    "iojs" + "-" + ("v" + FormatVersion(Version(1, 1, 0)))
  }

  /** The node token of the examples, `v0.12.0`. */
  function NodeToken(): string {
    "v" + FormatVersion(Version(0, 12, 0))
  }

  function IojsExample(): seq<string> {
    [IojsToken(), NodeToken()]
  }

  /** The io.js token is named `iojs` and numbered `v1.1.0`. */
  lemma IojsTokenSplits()
    ensures VersionName(IojsToken()) == Some("iojs")
    ensures VersionNumber(IojsToken()) == "v" + FormatVersion(Version(1, 1, 0))
  {
    var number := "v" + FormatVersion(Version(1, 1, 0));
    VersionToken(Version(1, 1, 0), "v");
    assert forall i | 0 <= i < |number| :: ListingTests.TokenChar(number[i]);
    assert forall i | 0 <= i < 4 :: IsWordChar("iojs"[i]);
    SplitToken("iojs", number);
  }

  /** Of two candidates of which exactly one is eligible, that one is selected. */
  lemma OneOfTwo(a: string, b: string, matching: string, satisfies: (string, string) -> bool,
                  gt: (string, string) -> bool, r: Option<string>)
    requires Eligible(a, matching, satisfies) != Eligible(b, matching, satisfies)
    requires IsHighestMatch([a, b], matching, satisfies, gt, r)
    ensures r == Some(if Eligible(a, matching, satisfies) then a else b)
  {
    var versions := [a, b];
    assert versions[0] == a && versions[1] == b;
    assert r.Some?;
    assert r.value == a || r.value == b;
  }

  /** `v0.12`, the node target of the fourth example. */
  function NodeRange(): string {
    "v" + FormatPartial(0, 12)
  }

  /** `iojs-v1.1`, the io.js target of the fifth example. */
  function IojsRange(): string {
    "iojs" + "-" + ("v" + FormatPartial(1, 1))
  }

  lemma IojsExamples()
    ensures IojsExample() == ["iojs-v1.1.0", "v0.12.0"]
    ensures NodeRange() == "v0.12" && IojsRange() == "iojs-v1.1"
  {
    assert FormatVersion(Version(1, 1, 0)) == "1.1.0" && FormatVersion(Version(0, 12, 0)) == "0.12.0";
    assert IojsToken() == "iojs-v1.1.0" && NodeToken() == "v0.12.0";
  }

  /** For `v0.12`, the io.js token is not eligible (it has a name, the target has none)
      and the node token is. */
  lemma NodeEligibility()
    ensures !Eligible(IojsToken(), NodeRange(), Satisfies)
    ensures Eligible(NodeToken(), NodeRange(), Satisfies)
  {
    IojsTokenSplits();
    VersionToken(Version(0, 12, 0), "v");
    PartialHasNoHyphen(0, 12);
    HyphenlessToken(NodeRange());
    SatisfiesPartial(Version(0, 12, 0), "v", 0, 12, "v");
  }

  /** For `v0.12`, the node token is selected. */
  lemma NodeChoice(r: Option<string>)
    requires IsHighestMatch(IojsExample(), NodeRange(), Satisfies, Gt, r)
    ensures r == Some(NodeToken())
  {
    NodeEligibility();
    OneOfTwo(IojsToken(), NodeToken(), NodeRange(), Satisfies, Gt, r);
  }

  /** `findVersion(['iojs-v1.1.0', 'v0.12.0'], 'v0.12')` picks the node version. */
  method FindsVersionBesideIojs() returns (r: Option<string>)
    ensures r == Some("v0.12.0")
  {
    GtIsStrictWeakOrder();
    SatisfiesRejectsEmpty();
    IojsExamples();
    r := FindVersion(IojsExample(), NodeRange(), Satisfies, Gt);
    NodeChoice(r);
  }

  /** For `iojs-v1.1`, the io.js token is eligible (the same name, and `v1.1.0` satisfies
      `v1.1`) and the node token is not (it has no name). */
  lemma IojsEligibility()
    ensures Eligible(IojsToken(), IojsRange(), Satisfies)
    ensures !Eligible(NodeToken(), IojsRange(), Satisfies)
  {
    IojsTokenSplits();
    var number := "v" + FormatPartial(1, 1);
    PartialHasNoHyphen(1, 1);
    assert forall i | 0 <= i < 4 :: IsWordChar("iojs"[i]);
    SplitToken("iojs", number);
    VersionToken(Version(0, 12, 0), "v");
    SatisfiesPartial(Version(1, 1, 0), "v", 1, 1, "v");
  }

  /** For `iojs-v1.1`, the io.js token is selected. */
  lemma IojsChoice(r: Option<string>)
    requires IsHighestMatch(IojsExample(), IojsRange(), Satisfies, Gt, r)
    ensures r == Some(IojsToken())
  {
    IojsEligibility();
    OneOfTwo(IojsToken(), NodeToken(), IojsRange(), Satisfies, Gt, r);
  }

  /** `findVersion(['iojs-v1.1.0', 'v0.12.0'], 'iojs-v1.1')` picks the io.js version. */
  method FindsIojsVersion() returns (r: Option<string>)
    ensures r == Some("iojs-v1.1.0")
  {
    GtIsStrictWeakOrder();
    SatisfiesRejectsEmpty();
    IojsExamples();
    r := FindVersion(IojsExample(), IojsRange(), Satisfies, Gt);
    IojsChoice(r);
  }
}
