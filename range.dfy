/**
 * `resolveChangelogRange` in test.ts: which revisions the changelog covers, from
 * the latest tag, the tag before it and whether a new version is being cut.
 */
module ChangelogRange {
  import opened Wrappers

  /** A tag as the git query returns it; `undefined` and `""` are both absent. */
  predicate Present(tag: Option<string>) {
    tag.Some? && tag.value != ""
  }

  /** The `{ from, to }` pair handed to `git log`. */
  datatype Range = Range(from: string, to: string)

  /** With no latest tag the log runs from the first commit to `HEAD`. When the
      version does not change and there is a previous tag, it covers the latest
      tag's own commits, from `previous` to `latest^1`. Otherwise it covers what
      came after the latest tag. An absent `isIncrement` behaves as `false`. */
  function ResolveChangelogRange(latest: Option<string>, previous: Option<string>, isIncrement: bool): Range {
    if !Present(latest) then Range("", "HEAD")
    else if !isIncrement && Present(previous) then Range(previous.value, latest.value + "^1")
    else Range(latest.value, "HEAD")
  }

  /** The three outcomes, each with the condition that selects it. */
  lemma RangeCases(latest: Option<string>, previous: Option<string>, isIncrement: bool)
    ensures var r := ResolveChangelogRange(latest, previous, isIncrement);
      (!Present(latest) ==> r == Range("", "HEAD"))
      && (Present(latest) && !isIncrement && Present(previous) ==>
            r == Range(previous.value, latest.value + "^1"))
      && (Present(latest) && (isIncrement || !Present(previous)) ==> r == Range(latest.value, "HEAD"))
  {
  }

  /** `from` is empty exactly when there is no latest tag, so `git log` receives a
      revision range exactly when a tag exists. */
  lemma FromEmptyIff(latest: Option<string>, previous: Option<string>, isIncrement: bool)
    ensures ResolveChangelogRange(latest, previous, isIncrement).from == "" <==> !Present(latest)
  {
  }

  /** The range ends before `HEAD` exactly in the unchanged-version case, and then
      it ends at the parent of the latest tag. */
  lemma ToIff(latest: Option<string>, previous: Option<string>, isIncrement: bool)
    ensures var r := ResolveChangelogRange(latest, previous, isIncrement);
      (r.to != "HEAD" <==> Present(latest) && !isIncrement && Present(previous))
      && (r.to != "HEAD" ==> r.to == latest.value + "^1")
  {
    var r := ResolveChangelogRange(latest, previous, isIncrement);
    if Present(latest) && !isIncrement && Present(previous) {
      assert r.to[|r.to| - 1] == '1';
    }
  }

  /** An increment always covers the commits since the latest tag. */
  lemma IncrementStartsAtLatest(latest: Option<string>, previous: Option<string>)
    requires Present(latest)
    ensures ResolveChangelogRange(latest, previous, true) == Range(latest.value, "HEAD")
  {
  }
}
