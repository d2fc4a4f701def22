/** The matcher (`findVersion`) and the result step of `match`: among the
    installed tokens, the one whose name equals the target's name and whose
    number satisfies the target's number is chosen, the greatest under semver
    ordering, the earliest among equals; the result is turned into an
    `nvm use` command or the error `no version matching <specifier>`.

    The semver library enters as two parameters: `satisfies(number, range)`
    for `semver.satisfies` and `gt(a, b)` for `semver.gt`. */
module Selection {
  import opened Wrappers
  import opened Tokens

  /** No number is greater than itself. */
  ghost predicate Irreflexive(gt: (string, string) -> bool) {
    forall a :: !gt(a, a)
  }

  /** Greater than a greater number is greater. */
  ghost predicate Transitive(gt: (string, string) -> bool) {
    forall a, b, c :: gt(a, b) && gt(b, c) ==> gt(a, c)
  }

  /** A strict weak order, as semver's comparison gives: whenever `a` is greater than `c`,
      every `b` is below `a` or above `c`, so "neither is greater" is an equivalence. */
  ghost predicate StrictWeakOrder(gt: (string, string) -> bool) {
    && Irreflexive(gt)
    && Transitive(gt)
    && forall a, b, c :: gt(a, c) ==> gt(a, b) || gt(b, c)
  }

  /** The empty string satisfies no range (semver tests a falsy version as false). */
  ghost predicate RejectsEmpty(satisfies: (string, string) -> bool) {
    forall range :: !satisfies("", range)
  }

  /** A candidate is eligible for the target `matching` when their names are equal
      (both absent counts as equal) and the candidate's number satisfies the
      target's number read as a range. */
  predicate Eligible(v: string, matching: string, satisfies: (string, string) -> bool) {
    VersionName(v) == VersionName(matching) && satisfies(VersionNumber(v), VersionNumber(matching))
  }

  /** No eligible candidate among the first `n` has a number greater than that of `best`. */
  ghost predicate UnbeatenUpTo(versions: seq<string>, n: int, matching: string, satisfies: (string, string) -> bool,
                               gt: (string, string) -> bool, best: string) {
    forall j | 0 <= j < n && j < |versions| && Eligible(versions[j], matching, satisfies) ::
      !gt(VersionNumber(versions[j]), VersionNumber(best))
  }

  /** No eligible candidate has a number greater than that of `best`. */
  ghost predicate Unbeaten(versions: seq<string>, matching: string, satisfies: (string, string) -> bool,
                           gt: (string, string) -> bool, best: string) {
    UnbeatenUpTo(versions, |versions|, matching, satisfies, gt, best)
  }

  /** Every eligible candidate among the first `n` has a number lower than that of `best`. */
  ghost predicate BelowUpTo(versions: seq<string>, n: int, matching: string, satisfies: (string, string) -> bool,
                            gt: (string, string) -> bool, best: string) {
    forall j | 0 <= j < n && j < |versions| && Eligible(versions[j], matching, satisfies) ::
      gt(VersionNumber(best), VersionNumber(versions[j]))
  }

  /** The position of the first appearance of `x` in `s`. */
  function FirstIndex(s: seq<string>, x: string): (k: nat)
    requires x in s
    ensures k < |s| && s[k] == x
    ensures forall j | 0 <= j < |s| && s[j] == x :: k <= j
  {
    if s[0] == x then 0 else 1 + FirstIndex(s[1..], x)
  }

  /** Among equals, the earliest is chosen: every eligible candidate that comes before
      the first appearance of `best` has a number strictly lower than that of `best`. */
  ghost predicate EarliestOfItsRank(versions: seq<string>, matching: string, satisfies: (string, string) -> bool,
                                    gt: (string, string) -> bool, best: string) {
    best in versions && BelowUpTo(versions, FirstIndex(versions, best), matching, satisfies, gt, best)
  }

  /** What `findVersion` returns: nothing exactly when no candidate is eligible, and
      otherwise an eligible candidate of the list whose number no eligible candidate's
      number exceeds. */
  ghost predicate IsHighestMatch(versions: seq<string>, matching: string, satisfies: (string, string) -> bool,
                                 gt: (string, string) -> bool, r: Option<string>) {
    && (r.None? <==> forall i | 0 <= i < |versions| :: !Eligible(versions[i], matching, satisfies))
    && (r.Some? ==> r.value in versions && Eligible(r.value, matching, satisfies))
    && (r.Some? ==> Unbeaten(versions, matching, satisfies, gt, r.value))
  }

  /** `findVersion`: one pass over the candidates, keeping the highest match so far;
      a later eligible candidate replaces it only when its number is strictly greater.
      The test `!highestMatch` of the source is also true of the empty string, so the
      empty string must never be an eligible candidate: either no range accepts it, or
      it is not in the list. */
  method FindVersion(versions: seq<string>, matching: string,
                     satisfies: (string, string) -> bool, gt: (string, string) -> bool)
    returns (highestMatch: Option<string>)
    requires Irreflexive(gt) && Transitive(gt)
    requires RejectsEmpty(satisfies) || "" !in versions
    ensures IsHighestMatch(versions, matching, satisfies, gt, highestMatch)
    ensures highestMatch.Some? && StrictWeakOrder(gt) ==>
              EarliestOfItsRank(versions, matching, satisfies, gt, highestMatch.value)
  {
    highestMatch := None;
    ghost var pos := 0;
    var mName := VersionName(matching);
    var mNumber := VersionNumber(matching);
    for i := 0 to |versions|
      invariant highestMatch.None? <==> forall j | 0 <= j < i :: !Eligible(versions[j], matching, satisfies)
      invariant highestMatch.Some? ==> pos < i && versions[pos] == highestMatch.value
      invariant highestMatch.Some? ==> Eligible(highestMatch.value, matching, satisfies)
      invariant highestMatch.Some? ==> highestMatch.value != ""
      invariant highestMatch.Some? ==> forall j | 0 <= j < pos :: versions[j] != highestMatch.value
      invariant highestMatch.Some? ==> UnbeatenUpTo(versions, i, matching, satisfies, gt, highestMatch.value)
      invariant highestMatch.Some? && StrictWeakOrder(gt) ==>
                  BelowUpTo(versions, pos, matching, satisfies, gt, highestMatch.value)
    {
      var v := versions[i];
      var vName := VersionName(v);
      var vNumber := VersionNumber(v);
      assert Eligible(v, matching, satisfies) <==> vName == mName && satisfies(vNumber, mNumber);
      NoneEligibleStep(versions, i, matching, satisfies);
      assert v == "" ==> vNumber == "" && v in versions;
      if vName == mName && satisfies(vNumber, mNumber) {
        if highestMatch.None? || highestMatch.value == "" {
          assert highestMatch.None?;
          FirstStep(versions, i, matching, satisfies, gt);
          highestMatch := Some(v);
          pos := i;
        } else if gt(vNumber, VersionNumber(highestMatch.value)) {
          ReplaceStep(versions, i, matching, satisfies, gt, highestMatch.value);
          highestMatch := Some(v);
          pos := i;
        } else {
          KeepStep(versions, i, matching, satisfies, gt, highestMatch.value);
        }
      } else if highestMatch.Some? {
        KeepStep(versions, i, matching, satisfies, gt, highestMatch.value);
      }
    }
    if highestMatch.Some? {
      assert FirstIndex(versions, highestMatch.value) == pos;
    }
  }

  /** No candidate among the first `i + 1` is eligible exactly when none among the first `i`
      is and the one at `i` is not. */
  lemma NoneEligibleStep(versions: seq<string>, i: nat, matching: string, satisfies: (string, string) -> bool)
    requires i < |versions|
    ensures (forall j | 0 <= j < i + 1 :: !Eligible(versions[j], matching, satisfies)) <==>
              (forall j | 0 <= j < i :: !Eligible(versions[j], matching, satisfies)) && !Eligible(versions[i], matching, satisfies)
  {
  }

  /** The first eligible candidate is beaten by no candidate seen so far. */
  lemma FirstStep(versions: seq<string>, i: nat, matching: string, satisfies: (string, string) -> bool,
                  gt: (string, string) -> bool)
    requires Irreflexive(gt)
    requires i < |versions|
    requires forall j | 0 <= j < i :: !Eligible(versions[j], matching, satisfies)
    ensures UnbeatenUpTo(versions, i + 1, matching, satisfies, gt, versions[i])
  {
    assert !gt(VersionNumber(versions[i]), VersionNumber(versions[i]));
  }

  /** A candidate that is not eligible, or does not beat the match so far, leaves it unbeaten. */
  lemma KeepStep(versions: seq<string>, i: nat, matching: string, satisfies: (string, string) -> bool,
                 gt: (string, string) -> bool, best: string)
    requires i < |versions|
    requires UnbeatenUpTo(versions, i, matching, satisfies, gt, best)
    requires Eligible(versions[i], matching, satisfies) ==> !gt(VersionNumber(versions[i]), VersionNumber(best))
    ensures UnbeatenUpTo(versions, i + 1, matching, satisfies, gt, best)
  {
  }

  /** When the candidate at `i` beats the match so far, no earlier eligible candidate
      beats it or equals it, and, when `gt` is a strict weak order, it beats them all. */
  lemma ReplaceStep(versions: seq<string>, i: nat, matching: string, satisfies: (string, string) -> bool,
                    gt: (string, string) -> bool, best: string)
    requires Irreflexive(gt) && Transitive(gt)
    requires i < |versions| && Eligible(versions[i], matching, satisfies)
    requires UnbeatenUpTo(versions, i, matching, satisfies, gt, best)
    requires gt(VersionNumber(versions[i]), VersionNumber(best))
    ensures UnbeatenUpTo(versions, i + 1, matching, satisfies, gt, versions[i])
    ensures forall j | 0 <= j < i :: versions[j] != versions[i]
    ensures StrictWeakOrder(gt) ==> BelowUpTo(versions, i, matching, satisfies, gt, versions[i])
  {
    ReplaceKeepsUnbeaten(versions, i, matching, satisfies, gt, best);
    ReplaceIsNew(versions, i, matching, satisfies, gt, best);
    if StrictWeakOrder(gt) {
      ReplaceIsAbove(versions, i, matching, satisfies, gt, best);
    }
  }

  /** A replacing candidate is beaten by no candidate seen so far. */
  lemma ReplaceKeepsUnbeaten(versions: seq<string>, i: nat, matching: string, satisfies: (string, string) -> bool,
                             gt: (string, string) -> bool, best: string)
    requires Irreflexive(gt) && Transitive(gt)
    requires i < |versions|
    requires UnbeatenUpTo(versions, i, matching, satisfies, gt, best)
    requires gt(VersionNumber(versions[i]), VersionNumber(best))
    ensures UnbeatenUpTo(versions, i + 1, matching, satisfies, gt, versions[i])
  {
    var vNumber, bNumber := VersionNumber(versions[i]), VersionNumber(best);
    forall j | 0 <= j < i + 1 && Eligible(versions[j], matching, satisfies)
      ensures !gt(VersionNumber(versions[j]), vNumber)
    {
      var w := VersionNumber(versions[j]);
      if j < i {
        assert !gt(w, bNumber);
        assert gt(w, vNumber) ==> gt(w, bNumber);
      } else {
        assert !gt(vNumber, vNumber);
      }
    }
  }

  /** A replacing candidate has not been seen before. */
  lemma ReplaceIsNew(versions: seq<string>, i: nat, matching: string, satisfies: (string, string) -> bool,
                     gt: (string, string) -> bool, best: string)
    requires i < |versions| && Eligible(versions[i], matching, satisfies)
    requires UnbeatenUpTo(versions, i, matching, satisfies, gt, best)
    requires gt(VersionNumber(versions[i]), VersionNumber(best))
    ensures forall j | 0 <= j < i :: versions[j] != versions[i]
  {
    forall j | 0 <= j < i ensures versions[j] != versions[i] {
      assert Eligible(versions[j], matching, satisfies) ==> !gt(VersionNumber(versions[j]), VersionNumber(best));
    }
  }

  /** Under a strict weak order, a replacing candidate is above every eligible candidate seen before it. */
  lemma ReplaceIsAbove(versions: seq<string>, i: nat, matching: string, satisfies: (string, string) -> bool,
                       gt: (string, string) -> bool, best: string)
    requires StrictWeakOrder(gt)
    requires i < |versions|
    requires UnbeatenUpTo(versions, i, matching, satisfies, gt, best)
    requires gt(VersionNumber(versions[i]), VersionNumber(best))
    ensures BelowUpTo(versions, i, matching, satisfies, gt, versions[i])
  {
    var vNumber, bNumber := VersionNumber(versions[i]), VersionNumber(best);
    forall j | 0 <= j < i && Eligible(versions[j], matching, satisfies)
      ensures gt(vNumber, VersionNumber(versions[j]))
    {
      var w := VersionNumber(versions[j]);
      assert !gt(w, bNumber);
      assert gt(vNumber, w) || gt(w, bNumber);
    }
  }

  /** The clauses of `FindVersion`'s postcondition leave one possible answer: two
      eligible, unbeaten candidates that are each the earliest of their rank are equal. */
  lemma SelectionIsUnique(versions: seq<string>, matching: string, satisfies: (string, string) -> bool,
                          gt: (string, string) -> bool, a: string, b: string)
    requires Eligible(a, matching, satisfies) && Eligible(b, matching, satisfies)
    requires Unbeaten(versions, matching, satisfies, gt, a) && EarliestOfItsRank(versions, matching, satisfies, gt, a)
    requires Unbeaten(versions, matching, satisfies, gt, b) && EarliestOfItsRank(versions, matching, satisfies, gt, b)
    ensures a == b
  {
    var ia, ib := FirstIndex(versions, a), FirstIndex(versions, b);
    assert ia < ib ==> gt(VersionNumber(b), VersionNumber(a));
    assert ib < ia ==> gt(VersionNumber(a), VersionNumber(b));
  }

  /** A candidate whose number is greater than that of every other eligible candidate is
      the only eligible candidate that nothing beats: the selection can be nothing else. */
  lemma StrictMaximumIsChosen(versions: seq<string>, matching: string, satisfies: (string, string) -> bool,
                              gt: (string, string) -> bool, winner: string, use: string)
    requires winner in versions && Eligible(winner, matching, satisfies)
    requires forall v | v in versions && Eligible(v, matching, satisfies) && v != winner ::
               gt(VersionNumber(winner), VersionNumber(v))
    requires use in versions && Eligible(use, matching, satisfies)
    requires Unbeaten(versions, matching, satisfies, gt, use)
    ensures use == winner
  {
    var k := FirstIndex(versions, winner);
    assert !gt(VersionNumber(versions[k]), VersionNumber(use));
  }

  /** The record `match` resolves with. */
  datatype Resolution = Resolution(version: string, command: string)

  /** `util.format('nvm use %s > /dev/null;', use)`. */
  function UseCommand(use: string): string {
    "nvm use " + use + " > /dev/null;"
  }

  /** The version an `nvm use` command produced by `UseCommand` activates. */
  function CommandTarget(command: string): Option<string> {
    var prefix, suffix := "nvm use ", " > /dev/null;";
    if |prefix| + |suffix| <= |command| && command[..|prefix|] == prefix
       && command[|command| - |suffix|..] == suffix
    then Some(command[|prefix|..|command| - |suffix|])
    else None
  }

  /** The command activates exactly the chosen version. */
  lemma UseCommandTarget(use: string)
    ensures CommandTarget(UseCommand(use)) == Some(use)
  {
    var command := UseCommand(use);
    assert command[..8] == "nvm use ";
    assert command[|command| - 13..] == " > /dev/null;";
    assert command[8..|command| - 13] == use;
  }

  /** The result step of `match`: a truthy selection (neither null nor the empty
      string) resolves with the version and its command; otherwise the promise is
      rejected with an error naming the original specifier. */
  function MatchResult(use: Option<string>, version: string): (r: Result<Resolution, string>)
    ensures r.Ok? <==> use.Some? && use.value != ""
    ensures r.Ok? ==> r.value.version == use.value && CommandTarget(r.value.command) == Some(use.value)
    ensures r.Err? ==> r.error == "no version matching " + version
  {
    UseCommandTarget(if use.Some? then use.value else "");
    if use.Some? && use.value != "" then Ok(Resolution(use.value, UseCommand(use.value)))
    else Err("no version matching " + version)
  }
}
