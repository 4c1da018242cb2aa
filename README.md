# Commit-log parser of a changelog generator, in Dafny

This project models the parsing core of a changelog script (`test.ts`). The script reads
the output of `git log` and turns every commit into a record: its conventional-commit
type, scope, breaking flag, gitmoji, description, pull-request number, the
`BREAKING CHANGE:` explanation, and the issues its footer links, grouped by link kind.
Before that, it decides which revision range to read.

Modules, one file each:

- `Wrappers` (`wrappers.dfy`): `Option` (JavaScript's `undefined`) and `Result` (a
  thrown exception).
- `Text` (`text.dfy`): what the code relies on from the JavaScript runtime.
  - The `\s`, `\w`, `\d` and `.` classes.
  - `trim`, `split` with a string separator, `join` and `filter(Boolean)`.
  - ASCII case folding between an ASCII letter of a `/i` pattern without the `u` flag
    and a character of the input.
- `ChangelogRange` (`range.dfy`): `resolveChangelogRange`. The latest and previous tags
  are inputs.
- `Footers` (`footers.dfy`): `normalize`, `isFooterLine` and `splitCommitBodyAndFooter`.
  - The splitter is a method with the backward scan of the source, including its
    `footerStart` index and its `break`.
  - It is proved equal to `SplitBodyFooter`, a specification function that describes
    the cut by position.
- `IssueRefs` (`issues.dfy`): `extractNumbers` and `parseIssueFooters`.
  - `ParseIssueFooters` is a method with the source's nested loops and pushes.
  - It is proved equal to the five-key map `IssueLinks`.
- `Subjects` (`subject.dfy`): the composite subject pattern of `parseCommit`, written as
  a scanner.
  - The scanner follows the order in which a backtracking matcher tries the
    alternatives: the unanchored search for a start position, the greedy `\w+`, the
    scope up to the first `)`, the optional `!`, the greedy `\s*` that is given back,
    the optional emoji and the lazy description.
- `Commits` (`commit.dfy`): `parseCommit`.
  - It returns `None` where the source returns `undefined`.
  - It reads the `BREAKING CHANGE:` text from the footer.
  - It assembles the record.
- `CommitLog` (`log.dfy`): the top-level pipeline. It splits the dump on `==END==`,
  drops empty chunks, takes three header lines per chunk, then splits and parses the
  rest.

Two facts about the subject pattern and the link patterns that shape the record:

- `parseCommit` captures at most one emoji, right after the colon, and returns
  `undefined` when the subject does not match (test.ts:131, 138).
- The five link patterns (`^Fixes`, `^Closes`, `^Resolves`, `^(Related to|Related)`,
  `^Refs?`) exclude each other, so a line feeds at most one kind
  (`IssueRefs.MatchesExclusive`).

A chunk with fewer than three non-empty lines has no subject, and the code throws at
`header.match`. The model returns `Failure(MissingSubject(i))` for the first such chunk.

## Model

| member | source | states |
|---|---|---|
| `ChangelogRange.RangeCases` | test.ts:35-51 | The three outcomes of the range decision. No latest tag gives `("", "HEAD")`. A latest tag, no increment and a previous tag give `(previous, latest + "^1")`. Every other case gives `(latest, "HEAD")`. `undefined` and `""` both count as absent. |
| `ChangelogRange.FromEmptyIff` | test.ts:40-50 | `from` is empty exactly when there is no latest tag. |
| `ChangelogRange.ToIff` | test.ts:45-50 | The range ends before `HEAD` exactly in the unchanged-version case, and then it ends at `latest^1`. |
| `ChangelogRange.IncrementStartsAtLatest` | test.ts:45-50 | With a latest tag, an increment always covers the commits since that tag. |
| `Footers.Normalize` | test.ts:186 | `normalize` trims first and then replaces CRLF: the result is the trimmed text cut at every `\r\n` and joined again with `\n`. It is trimmed and no longer than the input. |
| `Footers.ReplaceCrlfSplitJoin` | test.ts:186 | The left-to-right replacement of `\r\n` by `\n` equals `split("\r\n").join("\n")`. |
| `Footers.ReplaceCrlfNoCr` | test.ts:186 | A text without a carriage return is left unchanged by the CRLF replacement. |
| `Footers.FooterLineIff` | test.ts:188-201 | The scanner for `isFooterLine` holds exactly when the line is non-empty and has one of three shapes, described by position: it starts with `BREAKING CHANGE:`; or it is a letters/hyphens token, `:`, whitespace and a character other than a line terminator; or it is a token, whitespace, `#` and a digit. |
| `Footers.NotFooterLine` | test.ts:188-200 | A line that starts with neither a letter nor a hyphen, and not with `BREAKING CHANGE:`, is never a footer line. |
| `Footers.FooterCut` | test.ts:207-217 | The cut index is `-1` exactly when no line is a footer line. Otherwise it points at a footer line, no blank line lies between the cut and any later footer line, and every footer line above the cut has a blank line between it and the cut. |
| `Footers.FooterCutUnique` | test.ts:207-217 | At most one index meets the description of the cut. |
| `Footers.SplitCommitBodyAndFooter` | test.ts:203-230 | The backward scan, with its `footerStart` index and its stop at a blank line above a footer line, returns exactly the specified split. Body is the trimmed join of the lines before the cut, footer the trimmed join from the cut onward. |
| `Footers.SplitWithoutFooter` | test.ts:219-224 | With no footer line, the footer is `""` and the body is the whole normalized text. |
| `Footers.FooterEmptyIff` | test.ts:219-229 | The footer is empty exactly when no line is a footer line. |
| `Footers.SplitRoundTrip` | test.ts:203-230 | Round trip. A trimmed body with no footer line, followed by a newline and a trimmed block made only of footer lines, splits back into that body and that footer (no carriage returns in either). |
| `Footers.SplitFooterOnly` | test.ts:203-230 | A trimmed text made only of footer lines is all footer, with an empty body. |
| `IssueRefs.ExtractNumbersSingle` | test.ts:82-84 | `#` followed by digits yields that one number, in decimal. |
| `IssueRefs.ExtractNumbersSplit` | test.ts:82-84 | A character that is neither a digit nor `#` separates references. The numbers of `a + c + b` are those of `a`, then those of `b`, in left-to-right order. |
| `IssueRefs.ExtractNumbersNone` | test.ts:82-84 | A text without `#` yields no numbers. |
| `IssueRefs.ExtractNumbersAt` | test.ts:82-84 | Every `#` followed by a digit is reported where it stands: the numbers are those of the text before it, then the value of its digit run, then those of the text after the run. |
| `IssueRefs.CutBeforeHash` | test.ts:82-84 | No match runs across a `#` it does not start, so the numbers of a text cut just before any `#` are those of the two parts. |
| `IssueRefs.ExtractNumbersEmptyIff` | test.ts:82-84 | No numbers exactly when no `#` in the text is followed by a digit. |
| `IssueRefs.MatchesExclusive` | test.ts:89-95 | The five case-insensitive link patterns exclude each other, so a line matches at most one kind. |
| `IssueRefs.IssueLinks` | test.ts:97-116 | The result holds all five kinds. Each kind maps to the numbers of its lines, appended in line order. |
| `IssueRefs.ParseIssueFooters` | test.ts:86-117 | The nested loops with their `push` calls build exactly `IssueLinks` of the footer. |
| `IssueRefs.AddLine` | test.ts:106-113 | One pass of the inner loop appends the line's numbers to the kinds its pattern matches and changes nothing else. |
| `IssueRefs.MatchedLineFeedsOneKind` | test.ts:105-113 | A line that matches kind `k` appends its numbers to `k` and leaves every other kind unchanged. |
| `IssueRefs.UnmatchedLineIgnored` | test.ts:105-113 | A line that matches no kind contributes nothing. |
| `IssueRefs.KindNumbersAppend` | test.ts:105-113 | Collecting numbers over two blocks of lines concatenates the results, so line order is kept. |
| `IssueRefs.IssueLinksExample` | test.ts:86-117 | `Closes #12` / `Refs #34, #56` gives closes `[12]`, refs `[34, 56]` and every other kind empty. |
| `Subjects.LazyEndSpec` | test.ts:132-133 | The lazy description is the shortest one that stays on one line and after which `\s*(\(#\d+\))?\s*$` matches. `None` means no end works. |
| `Subjects.SearchDownSpec` | test.ts:130-132 | Giving back the greedy `\s*` finds the highest start at which a description exists. |
| `Subjects.FindFromSpec` | test.ts:137 | The unanchored search returns the match at the first start position that has one. `None` means no position matches. |
| `Subjects.MatchTailSomeIff` | test.ts:130-133 | On one line, the part after the colon matches exactly when it is not empty. |
| `Subjects.GitmojiCaptured` | test.ts:131 | An emoji in U+1F300–U+1FAFF right after the colon's whitespace is the gitmoji group exactly when at least one character follows it. |
| `Subjects.NoGitmoji` | test.ts:131 | Without such an emoji the gitmoji group is unset. |
| `Subjects.ParseRender` | test.ts:129-135 | Round trip. The subject `type(scope)!: [emoji ]description[ (#pr)]` parses back to the type, scope, `!`, emoji, description and PR it was built from. The conditions: the type is `\w+`; the scope is non-empty without `)`; the description is trimmed, non-empty and on one line; without a PR it does not end in `(#digits)`; without a gitmoji it does not start with an emoji. |
| `Subjects.ParseSubjectSomeIff` | test.ts:129-138 | A one-line subject matches exactly when some `\w+` word is followed by an optional non-empty `(scope)`, an optional `!`, `:` and at least one more character. |
| `Commits.BreakingTextSomeIff` | test.ts:157-161 | `breaks` is present exactly when the footer contains a case-insensitive `BREAKING CHANGE:`, then whitespace, then a character `.` matches. |
| `Commits.BreakingTextOf` | test.ts:158-160 | `breaks` comes from the first occurrence of the marker. Leading whitespace is skipped, across newlines too, and the rest of that line is taken. |
| `Commits.BreakingTextExample` | test.ts:157-161 | `BREAKING CHANGE: something` gives `something`. |
| `Commits.ParseCommitResult` | test.ts:137-138 | The result is `undefined` exactly when the subject does not match. Otherwise the record passes header, body, footer and both hashes through unchanged and takes type, scope, gitmoji and PR from the match. Its description is the trim of the matched description group. Its issues are `parseIssueFooters(footer)` with all five kinds. `breaking` holds exactly when the `!` is present or the footer declares a breaking change. |
| `Commits.ParseCommitUndefinedIff` | test.ts:129-138 | On a one-line subject, `undefined` comes exactly from a subject with no `word[(scope)][!]:` head followed by at least one character. |
| `Commits.ParseCommitRender` | test.ts:163-169 | A well-formed conventional subject yields the type, scope, description, gitmoji and PR it was written with. Its breaking flag is the `!` or the footer's declaration. |
| `Commits.ParseCommitExample` | test.ts:163-177 | `feat(core): add x (#7)` with footer `Closes #7` gives type `feat`, scope `core`, description `add x`, PR `7`, not breaking, and closes `[7]`. |
| `Commits.BangExample` | test.ts:166 | `feat!: x` is breaking whatever the footer holds. |
| `Commits.FooterBreakingExample` | test.ts:157-166 | `fix: y` with footer `BREAKING CHANGE: something` is breaking, with `breaks` equal to `something`. |
| `CommitLog.LogChunks` | test.ts:183 | No chunk is empty. |
| `CommitLog.LogChunksOrder` | test.ts:183 | The chunks are the non-empty pieces between the `==END==` markers, in dump order. The pieces join back to the dump, and none of them contains the marker. |
| `CommitLog.TwoChunks` | test.ts:183 | Two non-empty chunks without `=`, each followed by `==END==`, are exactly the dump's two chunks. |
| `CommitLog.LinesOfChunk` | test.ts:235 | A chunk made of non-empty single lines joined by newlines, plus a final newline, has exactly those lines. |
| `CommitLog.ParseLogEmpty` | test.ts:183 | An absent or empty dump gives no entries. |
| `CommitLog.ParseLogFailureIff` | test.ts:235-238 | The pipeline throws exactly when some chunk has fewer than three non-empty lines, and it throws at the first such chunk. |
| `CommitLog.ParseLogEntries` | test.ts:233-239 | There is one entry per chunk, at the same position. The entry is `parseCommit` of the chunk's third non-empty line as the subject, the body and footer split from the lines after it, the second line as short hash and the first as full hash. So its full hash, short hash and header are the chunk's first three non-empty lines, and its body and footer are the split of the remaining lines. It is `undefined` exactly when that subject does not match, and such entries are kept. |
| `CommitLog.ParseLogExample` | test.ts:183-239 | The dump `abc123`/`abc`/`feat(core): add x (#7)`/`Closes #7`, `==END==`, `def456`/`def`/`fix: y`, `==END==` parses to two records: `feat`, scope `core`, description `add x`, PR `7`, closes `[7]` with hashes `abc123`/`abc`; then `fix`, description `y` with hashes `def456`/`def`. |

## Left out

- Git wrappers. `getLatestTag`, `getLatestTagFromAllRefs`, `getPreviousTag`, `getFullHash` and `getLog` (test.ts:4-60) only build argument lists for the external `runGit` process. The tags are inputs to the range decision, and the dump is an input to the pipeline.
- The pipeline's use of the `from`/`to` pair. `getLog` builds the `from...to` argument from it, so that argument building is external as well.
- Top-level script effects. The top-level `await` calls and the final `console.log` (test.ts:181-182, 241) are not modelled.
- The `issues` set in `parseCommit` (test.ts:142-153). It is filled from the PR number and a footer scan but never returned, so nothing observable depends on it.
- `Number()` precision. Issue numbers are unbounded `nat`s, whereas `Number()` loses precision on very long digit strings.
- UTF-16. Strings are sequences of Unicode code points, which is how a pattern with the `u` flag reads them. The other patterns run on UTF-16 code units, and that matters only for characters outside the Basic Multilingual Plane, which none of them mention.
- `release.config.ts` and `123.ts`. The first is configuration for an external release tool. The second is another `git log` call followed by printing.
