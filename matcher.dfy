/** `match`, the entry point: the installed versions are read from the listing,
    the best one for the requested specifier is chosen, and the result is the
    version with its `nvm use` command, or the error that nothing matches. The
    listing text is a parameter: running `nvm list` is outside the model. */
module Matcher {
  import opened Wrappers
  import opened Tokens
  import opened Listing
  import opened Selection

  /** An eligible candidate is never the empty string, since no range accepts an empty number. */
  lemma EligibleIsNonEmpty(v: string, matching: string, satisfies: (string, string) -> bool)
    requires RejectsEmpty(satisfies)
    requires Eligible(v, matching, satisfies)
    ensures v != ""
  {
    assert v == "" ==> VersionNumber(v) == "";
  }

  /** What `match` resolves with on the listing `stdout`: a resolution exactly when some
      installed version is eligible, then with an eligible installed version that no
      other eligible one exceeds and the command that activates it; otherwise the error
      that names the specifier. */
  ghost predicate MatchOutcome(stdout: string, version: string, satisfies: (string, string) -> bool,
                               gt: (string, string) -> bool, r: Result<Resolution, string>) {
    var versions := ParseVersions(stdout);
    && (r.Ok? <==> exists k | 0 <= k < |versions| :: Eligible(versions[k], version, satisfies))
    && (r.Ok? ==> && r.value.version in versions && Eligible(r.value.version, version, satisfies)
                  && Unbeaten(versions, version, satisfies, gt, r.value.version)
                  && r.value.command == UseCommand(r.value.version))
    && (r.Err? ==> r.error == "no version matching " + version)
  }

  /** `match(version)` on the output `stdout` of `nvm list`: it resolves exactly when
      some installed version is eligible, with an eligible installed version that no
      other eligible one exceeds, and then with the command that activates it. */
  method Match(stdout: string, version: string,
               satisfies: (string, string) -> bool, gt: (string, string) -> bool)
    returns (r: Result<Resolution, string>)
    requires Irreflexive(gt) && Transitive(gt)
    ensures MatchOutcome(stdout, version, satisfies, gt, r)
    ensures r.Ok? && StrictWeakOrder(gt) ==>
      EarliestOfItsRank(ParseVersions(stdout), version, satisfies, gt, r.value.version)
  {
    var versions := ParseVersions(stdout);
    ParseVersionsCandidates(stdout);
    assert "" !in versions;
    var use := FindVersion(versions, version, satisfies, gt);
    r := MatchResult(use, version);
    assert r.Ok? ==> r.value == Resolution(use.value, UseCommand(use.value));
  }
}
