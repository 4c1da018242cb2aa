/**
 * `parseCommit` in test.ts: the subject match, the `BREAKING CHANGE:` text of the
 * footer and the record built from them.
 */
module Commits {
  import opened Wrappers
  import opened Text
  import opened Subjects
  import opened IssueRefs
  import Footers

  predicate NotLineTerminator(c: char) { !IsLineTerminator(c) }

  /** The first index from `i` on where `BREAKING CHANGE:` occurs, ignoring the
      case of ASCII letters (`/BREAKING CHANGE:/i.test`). */
  function FirstBreaking(footer: string, i: nat): (r: Option<nat>)
    requires i <= |footer|
    ensures r.Some? ==> (i <= r.value && OccursAtCI(footer, Footers.BreakingPrefix, r.value)
      && forall j :: i <= j < r.value ==> !OccursAtCI(footer, Footers.BreakingPrefix, j))
    ensures r.None? ==> forall j :: i <= j ==> !OccursAtCI(footer, Footers.BreakingPrefix, j)
    decreases |footer| - i
  {
    if i + |Footers.BreakingPrefix| > |footer| then None
    else if OccursAtCI(footer, Footers.BreakingPrefix, i) then Some(i)
    else FirstBreaking(footer, i + 1)
  }

  /** `footer.match(/BREAKING CHANGE:\s*(.+)/i)?.[1]`, once the marker is known to
      occur. From the first occurrence the greedy `\s*` runs to the first other
      character and `(.+)` takes the rest of that line. When only whitespace
      follows, `\s*` gives back characters until `.` can match: the last
      whitespace character that is not a line terminator, alone, since only line
      terminators follow it. A later occurrence cannot help, since it would lie
      in that whitespace. */
  function BreakingText(footer: string): (r: Option<string>)
    ensures r.Some? ==> |r.value| > 0 && NoLineTerminator(r.value)
  {
    match FirstBreaking(footer, 0)
    case None => None
    case Some(p) =>
      var rest := footer[p + |Footers.BreakingPrefix|..];
      var k := Span(rest, 0, IsWs);
      var back := SpanBack(rest, k, IsLineTerminator);
      if k == |rest| && back == 0 then None
      else
        var j := if k < |rest| then k else back - 1;
        Some(rest[j..Span(rest, j, NotLineTerminator)])
  }

  /** The record `parseCommit` returns. */
  datatype ParsedCommit = ParsedCommit(
    commitType: string, scope: Option<string>, breaking: bool, description: string,
    gitmoji: Option<char>, pr: Option<string>, breaks: Option<string>,
    issues: map<LinkKind, seq<nat>>, header: string, body: string, footer: string,
    shortHash: string, fullHash: string)

  /** `parseCommit`: `None` stands for `undefined`, returned when the subject does
      not match. */
  function ParseCommit(header: string, body: string, footer: string, shortHash: string, fullHash: string)
    : Option<ParsedCommit>
  {
    match ParseSubject(header)
    case None => None
    case Some(m) =>
      var breaks := BreakingText(footer);
      Some(ParsedCommit(m.typ, m.scope, m.bang || breaks.Some?, Trim(m.rawDescription), m.gitmoji,
        m.pr, breaks, IssueLinks(footer), header, body, footer, shortHash, fullHash))
  }

  // ---------------------------------------------------------------------------
  // The BREAKING CHANGE text

  /** `/BREAKING CHANGE:\s*(.+)/i` matches somewhere in the footer: an occurrence
      of the marker, whitespace, then a character that is not a line terminator. */
  ghost predicate DeclaresBreaking(footer: string) {
    exists p: nat, j: nat :: OccursAtCI(footer, Footers.BreakingPrefix, p) && p + |Footers.BreakingPrefix| <= j < |footer|
      && (forall i :: p + |Footers.BreakingPrefix| <= i < j ==> IsWs(footer[i]))
      && !IsLineTerminator(footer[j])
  }

  /** No character of the marker after the first folds to `b`. */
  lemma MarkerHasOneB()
    ensures forall d :: 1 <= d < |Footers.BreakingPrefix| ==> AsciiLower(Footers.BreakingPrefix[d]) != 'b'
  {
  }

  /** Two occurrences of the marker never overlap. */
  lemma BreakingNoOverlap(s: string, p: nat, p': nat)
    requires p < p' && OccursAtCI(s, Footers.BreakingPrefix, p) && OccursAtCI(s, Footers.BreakingPrefix, p')
    ensures p' >= p + |Footers.BreakingPrefix|
  {
    var bp := Footers.BreakingPrefix;
    var d := p' - p;
    assert AsciiLower(s[p' + 0]) == AsciiLower(bp[0]) == 'b';
    assert d < |bp| ==> AsciiLower(s[p + d]) == AsciiLower(bp[d]);
    MarkerHasOneB();
  }

  /** A marker occurrence starts with a letter, which is not whitespace. */
  lemma MarkerNotWs(s: string, p: nat)
    requires OccursAtCI(s, Footers.BreakingPrefix, p)
    ensures !IsWs(s[p])
  {
    assert AsciiLower(s[p]) == AsciiLower(Footers.BreakingPrefix[0]);
  }

  lemma BreakingTextSound(footer: string)
    requires BreakingText(footer).Some?
    ensures DeclaresBreaking(footer)
  {
    var n := |Footers.BreakingPrefix|;
    var p := FirstBreaking(footer, 0).value;
    var rest := footer[p + n..];
    var k := Span(rest, 0, IsWs);
    var back := SpanBack(rest, k, IsLineTerminator);
    var j := if k < |rest| then k else back - 1;
    assert forall i :: 0 <= i < |rest| ==> rest[i] == footer[p + n + i];
    assert !IsLineTerminator(footer[p + n + j]);
  }

  lemma BreakingTextComplete(footer: string, p': nat, j': nat)
    requires OccursAtCI(footer, Footers.BreakingPrefix, p')
    requires p' + |Footers.BreakingPrefix| <= j' < |footer|
    requires forall i :: p' + |Footers.BreakingPrefix| <= i < j' ==> IsWs(footer[i])
    requires !IsLineTerminator(footer[j'])
    ensures BreakingText(footer).Some?
  {
    var n := |Footers.BreakingPrefix|;
    var p := FirstBreaking(footer, 0).value;
    var rest := footer[p + n..];
    var k := Span(rest, 0, IsWs);
    assert forall i :: 0 <= i < |rest| ==> rest[i] == footer[p + n + i];
    if p < p' {
      BreakingNoOverlap(footer, p, p');
      MarkerNotWs(footer, p');
      assert !IsWs(rest[p' - p - n]);
    } else {
      assert !IsLineTerminator(rest[j' - p - n]);
    }
  }

  /** The breaking text is present exactly when the pattern matches. */
  lemma BreakingTextSomeIff(footer: string)
    ensures BreakingText(footer).Some? <==> DeclaresBreaking(footer)
  {
    if BreakingText(footer).Some? {
      BreakingTextSound(footer);
    }
    if DeclaresBreaking(footer) {
      var n := |Footers.BreakingPrefix|;
      var p': nat, j': nat :| OccursAtCI(footer, Footers.BreakingPrefix, p') && p' + n <= j' < |footer|
        && (forall i :: p' + n <= i < j' ==> IsWs(footer[i])) && !IsLineTerminator(footer[j']);
      BreakingTextComplete(footer, p', j');
    }
  }

  /** The text after the first marker: leading whitespace, possibly across lines,
      is skipped and the rest of that line is taken. */
  lemma BreakingTextOf(footer: string, p: nat, ws: string, text: string, tail: string)
    requires OccursAtCI(footer, Footers.BreakingPrefix, p)
    requires forall j :: 0 <= j < p ==> !OccursAtCI(footer, Footers.BreakingPrefix, j)
    requires footer[p + |Footers.BreakingPrefix|..] == ws + text + tail
    requires AllWs(ws) && |text| > 0 && !IsWs(text[0]) && NoLineTerminator(text)
    requires tail == [] || IsLineTerminator(tail[0])
    ensures BreakingText(footer) == Some(text)
  {
    var rest := ws + text + tail;
    SpanEnd(rest, 0, |ws|, IsWs);
    assert forall i :: |ws| <= i < |ws| + |text| ==> rest[i] == text[i - |ws|];
    SpanEnd(rest, |ws|, |ws| + |text|, NotLineTerminator);
    assert rest[|ws|..|ws| + |text|] == text;
  }

  /** The footer `BREAKING CHANGE: something` declares `something`. */
  lemma BreakingTextExample()
    ensures BreakingText("BREAKING CHANGE: something") == Some("something")
  {
    var f := "BREAKING CHANGE: something";
    assert OccursAtCI(f, Footers.BreakingPrefix, 0);
    assert f[16..] == " " + "something" + "";
    BreakingTextOf(f, 0, " ", "something", "");
  }

  // ---------------------------------------------------------------------------
  // The record

  /** `parseCommit` returns `undefined` exactly when the subject does not match;
      otherwise the record passes header, body, footer and hashes through, takes
      its groups from the match, trims the description and reads the issue links
      and the breaking text from the footer. */
  lemma ParseCommitResult(header: string, body: string, footer: string, shortHash: string, fullHash: string)
    ensures var r := ParseCommit(header, body, footer, shortHash, fullHash);
      (r.None? <==> ParseSubject(header).None?)
      && (r.Some? ==> var c, m := r.value, ParseSubject(header).value;
        c.header == header && c.body == body && c.footer == footer
        && c.shortHash == shortHash && c.fullHash == fullHash
        && c.commitType == m.typ && c.scope == m.scope && c.gitmoji == m.gitmoji && c.pr == m.pr
        && c.description == Trim(m.rawDescription) && IsTrimmed(c.description)
        && c.issues == IssueLinks(footer) && (forall k: LinkKind :: k in c.issues)
        && c.breaks == BreakingText(footer)
        && (c.breaking <==> m.bang || DeclaresBreaking(footer)))
  {
    if ParseSubject(header).Some? {
      var m := ParseSubject(header).value;
      TrimSpec(m.rawDescription);
      BreakingTextSomeIff(footer);
    }
  }

  /** On a one-line subject, `undefined` comes exactly from a subject without a
      `word[(scope)][!]:` head followed by at least one character. */
  lemma ParseCommitUndefinedIff(header: string, body: string, footer: string, shortHash: string, fullHash: string)
    requires NoLineTerminator(header)
    ensures ParseCommit(header, body, footer, shortHash, fullHash).None?
      <==> !exists p, q, c :: HeaderAt(header, p, q, c)
  {
    ParseSubjectSomeIff(header);
  }

  /** A conventional subject is parsed into the type, scope, description, gitmoji
      and PR it was written with; its breaking flag is the `!` or the footer's
      declaration. */
  lemma ParseCommitRender(m: SubjectMatch, body: string, footer: string, shortHash: string, fullHash: string)
    requires WellFormed(m)
    ensures var r := ParseCommit(Render(m), body, footer, shortHash, fullHash);
      r.Some? && r.value.commitType == m.typ && r.value.scope == m.scope
      && r.value.description == m.rawDescription && r.value.gitmoji == m.gitmoji && r.value.pr == m.pr
      && (r.value.breaking <==> m.bang || DeclaresBreaking(footer))
  {
    ParseRender(m);
    TrimOfTrimmed(m.rawDescription);
    BreakingTextSomeIff(footer);
  }

  // ---------------------------------------------------------------------------
  // Examples

  /** The subject `feat(core): add x (#7)` with the footer `Closes #7`: type
      `feat`, scope `core`, description `add x`, PR `7`, not breaking, and issue 7
      linked as closed. */
  lemma ParseCommitExample(header: string, footer: string)
    requires header == "feat(core): add x (#7)" && footer == "Closes #7"
    ensures var r := ParseCommit(header, "", footer, "abc", "abc123");
      r.Some? && r.value.commitType == "feat" && r.value.scope == Some("core")
      && r.value.description == "add x" && r.value.pr == Some("7") && r.value.gitmoji == None
      && !r.value.breaking && r.value.breaks == None
      && r.value.issues == map[Fixes := [], Closes := [7], Resolves := [], Related := [], Refs := []]
  {
    var m := SubjectMatch("feat", Some("core"), false, None, "add x", Some("7"));
    FeatCoreRender(m);
    ParseRender(m);
    NoBreakingIn(footer);
    ClosesSevenLinks();
    ParseCommitResult(header, "", footer, "abc", "abc123");
    TrimOfTrimmed(m.rawDescription);
  }

  lemma FeatCoreRender(m: SubjectMatch)
    requires m == SubjectMatch("feat", Some("core"), false, None, "add x", Some("7"))
    ensures Render(m) == "feat(core): add x (#7)" && WellFormed(m) && IsTrimmed(m.rawDescription)
  {
    assert !EndsWithPrRef("add x");
  }

  /** A footer without any `B` or `b` declares no breaking change. */
  lemma NoBreakingIn(footer: string)
    requires forall i :: 0 <= i < |footer| ==> AsciiLower(footer[i]) != 'b'
    ensures BreakingText(footer) == None
  {
    forall i: nat ensures !OccursAtCI(footer, Footers.BreakingPrefix, i) {
      if i + |Footers.BreakingPrefix| <= |footer| {
        assert AsciiLower(footer[i + 0]) != AsciiLower(Footers.BreakingPrefix[0]);
      }
    }
  }

  /** The footer `Closes #7` is one line, `Closes #7`. */
  lemma ClosesSevenLines()
    ensures FooterLines("Closes #7") == ["Closes #7"]
  {
    var line := "Closes #7";
    NoNewlineAnywhere(line);
    SplitOnNone(line, "\n");
    TrimOfTrimmed(line);
    assert TrimEach([line]) == [line];
    assert DropEmpty([line]) == [line];
  }

  /** The line `Closes #7` is a `Closes` line that references issue 7. */
  lemma ClosesSevenNumbers()
    ensures Matches(Closes, "Closes #7") && ExtractNumbers("Closes #7") == [7]
  {
    assert OccursAtCI("Closes #7", "Closes", 0);
    SevenAfterWord("Closes");
    assert "Closes" + [' '] + "#7" == "Closes #7";
  }

  lemma SevenAfterWord(w: string)
    requires forall i :: 0 <= i < |w| ==> w[i] != '#'
    ensures ExtractNumbers(w + [' '] + "#7") == [7]
  {
    var ds := "7";
    assert ds[..0] == [];
    assert DigitsValue(ds) == 7;
    NumbersAfterSpace(w, ds);
    assert "#" + ds == "#7";
  }

  /** The footer `Closes #7` links issue 7 as closed and nothing else. */
  lemma ClosesSevenLinks()
    ensures IssueLinks("Closes #7") == map[Fixes := [], Closes := [7], Resolves := [], Related := [], Refs := []]
  {
    var line := "Closes #7";
    ClosesSevenLines();
    ClosesSevenNumbers();
    forall k: LinkKind ensures KindNumbers([line], k) == (if k == Closes then [7] else []) {
      assert [line][..0] == [];
      if k != Closes && Matches(k, line) {
        MatchesExclusive(k, Closes, line);
      }
    }
    ClosedRefsDisplay(IssueLinks(line), [7], []);
  }

  /** `feat!: x` is a breaking change whatever the footer says. */
  lemma BangExample(footer: string)
    ensures var r := ParseCommit("feat!: x", "", footer, "", "");
      r.Some? && r.value.commitType == "feat" && r.value.scope == None && r.value.breaking
      && r.value.description == "x"
  {
    var m := SubjectMatch("feat", None, true, None, "x", None);
    assert Render(m) == "feat!: x";
    assert !EndsWithPrRef("x");
    ParseCommitRender(m, "", footer, "", "");
  }

  /** The footer `BREAKING CHANGE: something` makes a plain subject breaking and
      supplies `something` as the explanation. */
  lemma FooterBreakingExample()
    ensures var r := ParseCommit("fix: y", "", "BREAKING CHANGE: something", "", "");
      r.Some? && r.value.breaking && r.value.breaks == Some("something") && r.value.description == "y"
  {
    var m := SubjectMatch("fix", None, false, None, "y", None);
    assert Render(m) == "fix: y";
    assert !EndsWithPrRef("y");
    ParseCommitRender(m, "", "BREAKING CHANGE: something", "", "");
    BreakingTextExample();
    ParseCommitResult("fix: y", "", "BREAKING CHANGE: something", "", "");
  }
}
