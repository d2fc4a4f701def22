# avn-nvm version selection, modelled in Dafny

This project models how the avn plugin for nvm picks an installed version (`index.js`).

- **Parsing.** `parseVersions` cleans the text printed by `nvm list` into an ordered list of version tokens. It removes ANSI escape spans and one `->` marker at each line start, splits the text into lines, trims each line, and drops empty lines and lines mentioning `current`, `system` or `->`.
- **Token split.** `versionName` and `versionNumber` split a token with the pattern `/(\w+)-(.+)/`. For example, `iojs-v1.1.0` gives the name `iojs` and the number `v1.1.0`. A token the pattern does not match has no name, and the whole token is its number.
- **Selection.** `findVersion` walks the tokens once and keeps the highest match so far. A token is eligible when its name equals the target's name and its number satisfies the target's number as a semver range. A later eligible token replaces the current one only when its number is strictly greater.
- **Result.** `match` turns the selection into `{version, command: "nvm use <v> > /dev/null;"}`, or into the error `no version matching <specifier>`.

The `semver` library enters the model as two function parameters.

- `satisfies` stands for `semver.satisfies` and `gt` for `semver.gt`.
- The selection proofs assume only that `gt` is irreflexive and transitive.
- `findVersion` also needs the empty string never to be eligible, because `!highestMatch` is true of it: either no range accepts the empty string, or the list does not contain it. `match` needs neither condition, because no parsed token is empty.
- The rule that ties keep the earliest token is stated for a `gt` that is also a strict weak order.

A small concrete semver model (`semver.dfy`) instantiates both parameters so that the repository's test examples can be stated and proved.

Modules:

- **`Strings`**: JavaScript string primitives (`trim`, `split`, `join`, character classes, literal `match`).
- **`Tokens`**: the pattern, `versionName`, `versionNumber`.
- **`Listing`**: `parseVersions`.
- **`Selection`**: `findVersion` (an imperative loop) and the result step of `match`.
- **`Matcher`**: `match` put together.
- **`Semver`**: the concrete semver model.
- **`ListingTests`** and **`MatchTests`**: the repository's test cases, stated and proved.

Two facts about this `index.js` matter for what the model covers:

- It has no alias or `system` resolution. The specifier goes straight to `findVersion`, and every listing line that mentions `current`, `system` or `->` is dropped (index.js:58).
- `replace(/^->/gm, '')` (index.js:55) removes one arrow per line start, not every arrow. A line `->->x` becomes `->x` (`Listing.ArrowRemovedOnce`), and the filter then drops it for the arrow that is left (`ListingTests.DoubleArrowLine`).

## Model

| member | source | states |
|---|---|---|
| Strings.Trim | index.js:57 | the result is trimmed and is the input with only white space removed from its two ends (JavaScript's white space and line terminators) |
| Strings.TrimOfTrimmed | index.js:57 | trimming a trimmed line changes nothing, so `trim` is idempotent |
| Strings.Split | index.js:56 | `split('\n')` gives at least one piece, and no piece contains the separator |
| Strings.JoinSplit | index.js:56 | joining the pieces of a split with the separator gives back the original text |
| Strings.SplitJoin | index.js:56 | splitting a join of a non-empty list of separator-free pieces gives back the pieces |
| Tokens.MatchFrom | index.js:10 | trying start positions from `p` on: there is no result exactly when no match starts at or after `p`; otherwise the result is a match, and no other match from `p` on is tried before it (leftmost start, then greedy `\w+`, then greedy `.+`) |
| Tokens.VersionMatch | index.js:83 | `token.match(VERSION_REGEX)` is null exactly when the pattern matches nowhere; otherwise it is the first match a backtracking matcher finds |
| Tokens.FirstMatchUnique | index.js:10 | the first match of the pattern is unique |
| Tokens.VersionName | index.js:82-85 | the name is null exactly when the pattern matches nowhere in the token; otherwise it is a non-empty run of `[A-Za-z0-9_]` |
| Tokens.VersionNumber | index.js:95-98 | a token without a match is its own number; the number of a named token is non-empty and holds no line terminator; the number is empty only for the empty token |
| Tokens.NameStartsWord | index.js:83-84 | for a named token, the name is group 1 and is followed by the hyphen; the number is group 2; the name starts the token or follows a non-word character |
| Tokens.NamedTokenEnds | index.js:82-98 | a named token without line terminators ends with `name + "-" + number` |
| Tokens.FirstMatchAtStart | index.js:10 | a match that starts the text and ends at the text's end or at a line terminator is the first match |
| Tokens.NumberStopsAtTerminator | index.js:82-98 | in `name-number` followed by a line terminator and more text, the name is `name` and the number stops at the terminator |
| Tokens.TerminatorInsideToken | index.js:82-98 | the token `a-b\rc`, which holds a carriage return but no line feed, is named `a` with the number `b` and does not end with `a-b`, so `Tokens.NamedTokenEnds` needs its condition |
| Tokens.HyphenlessToken | index.js:82-98 | a token without a hyphen has a null name, and its number is the whole token |
| Tokens.SplitToken | index.js:82-98 | splitting `name-number`, for a word-character name and a one-line number, gives back `name` and `number` |
| Listing.StripAnsi | index.js:54 | after `replace(/\x1b[^m]*m/g, '')` no escape character is followed, anywhere later, by an `m`, and every character of the result comes from the input; its partner lemmas below say exactly what is kept and what is removed |
| Listing.StripAnsiKeepsPlain | index.js:54 | text before the first escape character is kept as it is |
| Listing.StripAnsiDropsSpan | index.js:54 | an escape, the following characters up to the first `m`, and that `m` are removed, and stripping goes on after the `m` |
| Listing.StripAnsiKeepsLoneEscape | index.js:54 | an escape with no `m` anywhere after it is kept |
| ListingTests.ColouredText | index.js:54 | a coloured value, `ESC colour m value ESC reset m`, strips down to the value |
| ListingTests.ColouredToken | index.js:54 | the green token `ESC[32m v0.10.26 ESC[0m` strips to `v0.10.26` |
| Listing.StripAnsiOfQuiet | index.js:54 | text without an escape span is left unchanged, so stripping escapes is idempotent |
| Listing.StripLineArrows | index.js:55 | `replace(/^->/gm, '')`; its contract is stated by the lemmas about it below |
| Listing.StripLineArrowsDeletes | index.js:55 | the result is the input with some characters left out and the rest in their order: result k is input character `ArrowKept[k]`, and these positions strictly increase |
| Listing.StripLineArrowsOfArrowless | index.js:55 | text without `->` is left unchanged |
| Listing.StripLineArrowsQuiet | index.js:55 | removing arrows never brings an escape character in front of an `m` |
| Listing.ArrowRemovedOnce | index.js:55 | one arrow is removed per line start: `->->x` becomes `->x` |
| Listing.Clean | index.js:53-55 | `stdout.replace(ansi, '').replace(/^->/gm, '')`; `Listing.CleanIsQuiet` states its contract |
| Listing.CleanIsQuiet | index.js:53-55 | the cleaned text has no escape span |
| Listing.StripLineArrowsJoin | index.js:55 | on lines without line terminators, joined by line feeds, arrow removal works line by line |
| Listing.TrimAll | index.js:57 | `map(line => line.trim())` keeps the number of lines and trims each one |
| Listing.Keep | index.js:58 | the filter's condition: a line is kept when it is non-empty and contains none of `current`, `system` and `->` |
| Listing.FilterKept | index.js:58 | the filter that keeps the lines `Listing.Keep` accepts; `Listing.FilterKeptIndices` states its contract |
| Listing.FilterKeptIndices | index.js:58 | the filter returns the kept lines in their order: result k is the line at the k-th kept position, the positions increase, and every kept line is among them |
| Listing.ParseVersions | index.js:52-59 | `parseVersions`; `Listing.ParseVersionsSelects` and `Listing.ParseVersionsCandidates` state its contract |
| Listing.ParseVersionsSelects | index.js:56-58 | `parseVersions` returns exactly the trimmed, cleaned lines that pass the filter, in listing order, with repeats kept |
| Listing.ParseVersionsCandidates | index.js:52-59 | every token is non-empty and trimmed, contains none of `current`, `system` and `->`, holds no line feed and no escape span; no escape in one token is followed by an `m` in a later one |
| Listing.ParseEmpty | index.js:52-59 | an empty listing has no versions |
| Listing.ParseJoinedCandidates | index.js:52-59 | such tokens, joined by line feeds and parsed again, come back unchanged |
| Listing.ParseVersionsIdempotent | index.js:52-59 | parsing the parsed tokens joined by line feeds gives the same tokens |
| Listing.ParseLineByLine | index.js:52-59 | a listing without escapes or stray line terminators is parsed line by line: each line loses a leading arrow, is trimmed, and is kept or dropped |
| Listing.ParseUnlines | index.js:52-59 | for `echo`-style output (lines each ended by a line feed) without escape characters, whose lines hold no other line terminator, the tokens are the cleaned lines in order |
| Selection.Eligible | index.js:117 | a candidate is eligible when its name equals the target's name and its number satisfies the target's number |
| Selection.FindVersion | index.js:107-125 | the result is null exactly when no candidate is eligible. Otherwise it is an eligible member of the list whose number no eligible candidate's number exceeds. When `gt` is a strict weak order it is also the first of its rank: every eligible candidate before its first appearance is strictly lower |
| Selection.ReplaceStep | index.js:119-120 | a candidate that beats the running best is beaten by no earlier eligible candidate and has not appeared before; when `gt` is a strict weak order it beats every earlier eligible candidate |
| Selection.SelectionIsUnique | index.js:107-125 | the clauses of the result leave exactly one possible answer |
| Selection.StrictMaximumIsChosen | index.js:113-124 | when one eligible candidate is above all others, it is the selection |
| Selection.UseCommand | index.js:151 | the command `nvm use <v> > /dev/null;`; `Selection.UseCommandTarget` states its contract |
| Selection.UseCommandTarget | index.js:151 | the command `nvm use <v> > /dev/null;` names exactly the chosen version |
| Selection.MatchResult | index.js:150-155 | a truthy selection resolves with that version and its `nvm use` command; a null or empty selection is rejected with `no version matching ` plus the specifier |
| Matcher.EligibleIsNonEmpty | index.js:117-118 | an eligible candidate is never the empty string, so the truthiness test `!highestMatch` means "none yet" |
| Matcher.Match | index.js:147-156 | `match` on a listing resolves exactly when some parsed token is eligible. It then resolves with an eligible, unbeaten token and the command that activates it, and with the earliest token of its rank under a strict weak order. Otherwise it rejects with `no version matching <specifier>` |
| Semver.Satisfies | index.js:117 | `semver.satisfies`: the version parses, the range parses, and every comparator of the range holds; `Semver.SatisfiesExact`, `Semver.SatisfiesBetween` and `Semver.SatisfiesPartial` state what it accepts |
| Semver.Gt | index.js:119 | `semver.gt`: the parsed versions compare by major, minor and patch; `Semver.GtIsStrictWeakOrder` and `Semver.GtFormatted` state its contract |
| Semver.ParseFormatted | index.js:117 | a formatted version, with or without a `v`, reads back as that version |
| Semver.GtIsStrictWeakOrder | index.js:119 | the concrete `gt` is a strict weak order |
| Semver.GtFormatted | index.js:119 | between formatted versions, `gt` is the version order |
| Semver.SatisfiesRejectsEmpty | index.js:117-118 | the empty string satisfies no range |
| Semver.SatisfiesExact | test/index.js:18-26 | a version satisfies an exact version exactly when it is that version |
| Semver.SatisfiesBetween | test/index.js:28-36 | a version satisfies `>=M.m < V` exactly when it is at least `M.m.0` and below `V` |
| Semver.SatisfiesPartial | test/index.js:38-46 | a version satisfies `M.m` exactly when it is in that minor series |
| ListingTests.DoubleArrowLine | index.js:55-58 | a line that starts with two arrows yields no token: one arrow survives cleaning, and the filter drops the line for it |
| ListingTests.AliasLine | index.js:58 | a one-line alias entry `name -> target` cleans to nothing: the filter drops it for its arrow |
| ListingTests.ParsesDc53a37 | test/index.js:68-82 | the nvm@dc53a37 listing parses into its eight versions, in order, without the `current` and alias lines |
| ListingTests.ParsesEe708b | test/index.js:84-98 | the nvm@1ee708b listing parses into the same eight versions, with the active one's arrow removed and the `system` and alias lines dropped |
| ListingTests.ParsesIojs | test/index.js:100-109 | a listing with `iojs-v1.1.0` keeps that token whole, in order with the node versions |
| ListingTests.IojsText | test/index.js:102 | the lines of the iojs listing, each ended by a line feed, are the test's text |
| ListingTests.ParsesIojsText | test/index.js:100-109 | the test's own text parses into `iojs-v1.1.0`, `v0.10.36` and `v0.12.0` |
| MatchTests.StubTokensText | test/index.js:10-15 | the stub's six tokens are the literal strings `v0.7.12`, `0.10.26`, `v0.10.28`, `v0.10.29`, `v0.10.101` and `v0.11.13` |
| MatchTests.StubParses | test/index.js:10-15 | the stubbed listing parses into its six tokens |
| MatchTests.MatchesExactVersion | test/index.js:18-26 | `match('0.11.13')` resolves with `v0.11.13` and `nvm use v0.11.13 > /dev/null;` |
| MatchTests.MatchesSemverSyntax | test/index.js:28-36 | `match('>=0.10 < 0.10.29')` resolves with `v0.10.28` |
| MatchTests.ChoosesGreatestMatch | test/index.js:38-46 | `match('0.10')` resolves with `v0.10.101`, the greatest by version order and not by text |
| MatchTests.RejectsVersionsNotInstalled | test/index.js:48-53 | `match('0.9')` is rejected with `no version matching 0.9` |
| MatchTests.VersionToken | test/index.js:111-114 | a token such as `v0.12.0` has no name and is its own number |
| MatchTests.IojsTokenSplits | test/index.js:116-119 | `iojs-v1.1.0` has the name `iojs` and the number `v1.1.0` |
| MatchTests.OneOfTwo | index.js:113-124 | of two candidates, exactly one of which is eligible, the eligible one is selected |
| MatchTests.FindsVersionBesideIojs | test/index.js:111-114 | `findVersion(['iojs-v1.1.0', 'v0.12.0'], 'v0.12')` is `v0.12.0` |
| MatchTests.FindsIojsVersion | test/index.js:116-119 | `findVersion(['iojs-v1.1.0', 'v0.12.0'], 'iojs-v1.1')` is `iojs-v1.1.0` |

## Left out

- `nvmCommand` (index.js:20-42) is not modelled, because it is process I/O. It spawns a shell, collects its output streams and fails on a non-zero exit status. The listing enters the model as a string instead. For the same reason the test "rejects when command fails" (test/index.js:55-65) is not modelled.
- The promise chaining of `listVersions`, `installedVersion` and `match` is not modelled; `Matcher.Match` composes the synchronous steps directly.
- `output.stdout.toString()` is not modelled: the listing is a string from the start.
- `require('./package.json').name` is not modelled.
- The sinon stubbing of `child.spawn` in the tests is not modelled. The stubbed `echo` output is the string `MatchTests.StubOutput`: its six lines, each ended by a line feed.
- The internals of `semver` are abstract in the selection proofs. The concrete model in `semver.dfy` covers only what the examples need:
  - versions `[v]M.m.p` without leading zeros, prerelease or build parts;
  - ranges made of plain comparators and X-ranges (`M`, `M.m`) joined by spaces.
  
  It has no `||`, hyphen ranges, tilde, caret, wildcards or loose parsing.
- Semver.Satisfies: a candidate number that does not read as a version makes it return false. Depending on the semver release, `semver.satisfies` returns false for such a string or throws `Invalid Version`. The throw, and the rejected promise it would give `match`, are not modelled. Such a candidate can reach `satisfies`: a bare `N/A` line passes the filter (index.js:57-58). Which semver release the package uses is not part of this model.
- Semver.Gt: semver throws when `gt` is given a string that is not a version. Here such a string sorts below every version. The matcher never compares such a string, because every number it compares has satisfied a range.
- Selection.FindVersion: the earliest-of-its-rank clause is proved only when `gt` is a strict weak order. The matcher's other guarantees need only an irreflexive, transitive `gt`; semver's order has all of these properties.
- ListingTests.ParsesDc53a37 and ListingTests.ParsesEe708b state the test listings as the join of their lines, each ended by a line feed, and not as one string literal. The verifier cannot evaluate the parser on a literal of that length, nor compare the join with a literal of more than 200 characters. Only the shorter iojs listing is tied to its literal (`ListingTests.ParsesIojsText`).
- MatchTests.StubParses and the stub's other members state the stub's tokens and the test ranges through `FormatVersion` and `FormatPartial`. Small lemmas (`MatchTests.StubTokensText`, `MatchTests.ExactExample` and `MatchTests.IojsExamples`, for example) tie them to the literal texts of the tests.
