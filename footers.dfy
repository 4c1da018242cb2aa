/**
 * Footer detection and the body/footer split of a commit message tail
 * (`normalize`, `isFooterLine` and `splitCommitBodyAndFooter` in test.ts).
 */
module Footers {
  import opened Text

  /** Every `\r\n` pair, found left to right without overlap, becomes `\n`
      (`replace(/\r\n/g, '\n')`). */
  function ReplaceCrlf(s: string): (r: string)
    ensures |r| <= |s|
    ensures |s| == 0 <==> |r| == 0
    ensures |s| > 0 ==> r[|r| - 1] == s[|s| - 1]
    ensures |s| > 0 && s[0] != '\r' ==> r[0] == s[0]
    decreases |s|
  {
    if |s| >= 2 && s[0] == '\r' && s[1] == '\n' then "\n" + ReplaceCrlf(s[2..])
    else if |s| == 0 then ""
    else [s[0]] + ReplaceCrlf(s[1..])
  }

  /** The replacement is the text cut at every `\r\n` and joined again with `\n`. */
  lemma {:induction false} ReplaceCrlfSplitJoin(s: string)
    ensures ReplaceCrlf(s) == Join(SplitOn(s, "\r\n"), "\n")
    decreases |s|
  {
    if |s| >= 2 && s[0] == '\r' && s[1] == '\n' {
      var rest := SplitOn(s[2..], "\r\n");
      assert s[..2] == "\r\n";
      assert ([""] + rest)[1..] == rest;
      ReplaceCrlfSplitJoin(s[2..]);
    } else if |s| >= 2 {
      assert s[..2] != "\r\n" by {
        assert s[..2][0] == s[0] && s[..2][1] == s[1];
      }
      var rest := SplitOn(s[1..], "\r\n");
      JoinCons(s[0], rest, "\n");
      ReplaceCrlfSplitJoin(s[1..]);
    } else if |s| == 1 {
      assert s[1..] == "";
    }
  }

  /** A text with no carriage return is left as it is. */
  lemma {:induction false} ReplaceCrlfNoCr(s: string)
    requires forall i :: 0 <= i < |s| ==> s[i] != '\r'
    ensures ReplaceCrlf(s) == s
    decreases |s|
  {
    if |s| > 0 {
      ReplaceCrlfNoCr(s[1..]);
    }
  }

  /** `normalize`: trim, then turn CRLF into LF. The result is itself trimmed. */
  function Normalize(s: string): (r: string)
    ensures r == Join(SplitOn(Trim(s), "\r\n"), "\n")
    ensures IsTrimmed(r)
    ensures |r| <= |s|
  {
    var t := Trim(s);
    assert |t| <= |s|;
    ReplaceCrlfSplitJoin(t);
    ReplaceCrlf(t)
  }

  predicate IsTokenChar(c: char) { IsAsciiLetter(c) || c == '-' }

  const BreakingPrefix: string := "BREAKING CHANGE:"

  /** `\s+.+` matches at `i`: one or more whitespace characters, the last of them
      followed by a character that is not a line terminator. */
  predicate WsThenText(s: string, i: nat)
    decreases |s| - i
  {
    i + 1 < |s| && IsWs(s[i]) && (!IsLineTerminator(s[i + 1]) || WsThenText(s, i + 1))
  }

  /** `isFooterLine`: the empty line is never a footer; otherwise one of
      `^BREAKING CHANGE:`, `^[A-Za-z-]+(-[A-Za-z]+)*:\s+.+` or `^[A-Za-z-]+\s+#\d+`
      matches. */
  predicate IsFooterLine(line: string) {
    line != "" && (StartsBreaking(line) || ColonForm(line) || HashForm(line))
  }

  predicate StartsBreaking(line: string) {
    |line| >= |BreakingPrefix| && line[..|BreakingPrefix|] == BreakingPrefix
  }

  /** The second pattern. Its token is the whole leading run of letters and hyphens,
      since a colon cannot extend it; `(-[A-Za-z]+)*` adds nothing to `[A-Za-z-]+`. */
  predicate ColonForm(line: string) {
    var k := Span(line, 0, IsTokenChar);
    0 < k < |line| && line[k] == ':' && WsThenText(line, k + 1)
  }

  /** The third pattern. `\s+` must reach the `#`, so it takes the whole whitespace run. */
  predicate HashForm(line: string) {
    var k := Span(line, 0, IsTokenChar);
    var m := Span(line, k, IsWs);
    0 < k < m && m + 1 < |line| && line[m] == '#' && IsDigit(line[m + 1])
  }

  // An independent description of the three footer shapes, by positions in the line.

  predicate TokenUpTo(line: string, k: nat)
    requires k <= |line|
  {
    forall i :: 0 <= i < k ==> IsTokenChar(line[i])
  }

  predicate WsBetween(line: string, a: nat, b: nat)
    requires a <= b <= |line|
  {
    forall i :: a <= i < b ==> IsWs(line[i])
  }

  /** `Token: value`: `line[..k]` a token, a colon at `k`, whitespace up to `j`, and at
      `j` a character other than a line terminator. */
  predicate TokenColonValue(line: string, k: nat, j: nat) {
    0 < k && k + 1 < j < |line| && TokenUpTo(line, k) && line[k] == ':'
    && WsBetween(line, k + 1, j) && !IsLineTerminator(line[j])
  }

  /** `Token #n`: `line[..k]` a token, whitespace up to `m`, then `#` and a digit. */
  predicate TokenHashNumber(line: string, k: nat, m: nat) {
    0 < k < m && m + 1 < |line| && TokenUpTo(line, k) && WsBetween(line, k, m)
    && line[m] == '#' && IsDigit(line[m + 1])
  }

  ghost predicate FooterShape(line: string) {
    (|line| >= |BreakingPrefix| && line[..|BreakingPrefix|] == BreakingPrefix)
    || (exists k, j :: TokenColonValue(line, k, j))
    || (exists k, m :: TokenHashNumber(line, k, m))
  }

  lemma {:induction false} WsThenTextIff(s: string, i: nat)
    ensures WsThenText(s, i) <==> exists j :: i < j < |s| && WsRun(s, i, j)
    decreases |s| - i
  {
    if i + 1 < |s| && IsWs(s[i]) {
      WsThenTextIff(s, i + 1);
      if WsThenText(s, i) {
        if !IsLineTerminator(s[i + 1]) {
          assert WsRun(s, i, i + 1);
        } else {
          var j :| i + 1 < j < |s| && WsRun(s, i + 1, j);
          assert WsRun(s, i, j);
        }
      } else {
        if j :| i < j < |s| && WsRun(s, i, j) {
          if j > i + 1 {
            assert WsRun(s, i + 1, j);
          }
        }
      }
    }
  }

  /** Whitespace from `i` (at least one character) up to `j`, and at `j` a character `.` matches. */
  predicate WsRun(s: string, i: nat, j: nat) {
    i < j < |s| && (forall t :: i <= t < j ==> IsWs(s[t])) && !IsLineTerminator(s[j])
  }

  lemma ColonFormIff(line: string)
    ensures ColonForm(line) <==> exists k, j :: TokenColonValue(line, k, j)
  {
    var k := Span(line, 0, IsTokenChar);
    assert TokenUpTo(line, k);
    if ColonForm(line) {
      WsThenTextIff(line, k + 1);
      var j :| k + 1 < j < |line| && WsRun(line, k + 1, j);
      assert TokenColonValue(line, k, j);
    }
    if exists k', j :: TokenColonValue(line, k', j) {
      var k', j :| TokenColonValue(line, k', j);
      TokenExtent(line, k', k);
      WsThenTextIff(line, k + 1);
      assert WsRun(line, k + 1, j);
    }
  }

  lemma HashFormIff(line: string)
    ensures HashForm(line) <==> exists k, m :: TokenHashNumber(line, k, m)
  {
    var k := Span(line, 0, IsTokenChar);
    var m := Span(line, k, IsWs);
    assert TokenUpTo(line, k);
    if HashForm(line) {
      assert WsBetween(line, k, m);
      assert TokenHashNumber(line, k, m);
    }
    if exists k', m' :: TokenHashNumber(line, k', m') {
      var k', m' :| TokenHashNumber(line, k', m');
      TokenExtent(line, k', k);
      assert m' == m;
    }
  }

  /** The scanner agrees with the positional description of the three footer shapes. */
  lemma FooterLineIff(line: string)
    ensures IsFooterLine(line) <==> FooterShape(line)
  {
    ColonFormIff(line);
    HashFormIff(line);
  }

  /** A token ending at a character that is not a token character is the whole leading run. */
  lemma TokenExtent(line: string, k': nat, k: nat)
    requires 0 < k' < |line| && TokenUpTo(line, k') && !IsTokenChar(line[k'])
    requires k == Span(line, 0, IsTokenChar)
    ensures k == k'
  {
  }

  /** A line that starts with neither a letter nor a hyphen, nor with `BREAKING CHANGE:`,
      is never a footer line. */
  lemma NotFooterLine(line: string)
    requires line != [] && !IsTokenChar(line[0])
    requires !(|line| >= |BreakingPrefix| && line[..|BreakingPrefix|] == BreakingPrefix)
    ensures !IsFooterLine(line)
  {
  }

  // The body/footer split. The backward scan only asks two questions of each line,
  // whether its trimmed text is a footer line and whether it is empty, so the cut is
  // described over those two answers.

  /** For each line, the answer of `test` on its trimmed text. */
  function Classify(lines: seq<string>, test: string -> bool): (flags: seq<bool>)
    ensures |flags| == |lines|
  {
    if |lines| == 0 then []
    else Classify(lines[..|lines| - 1], test) + [test(Trim(lines[|lines| - 1]))]
  }

  lemma {:induction false} ClassifyAt(lines: seq<string>, test: string -> bool, j: nat)
    requires j < |lines|
    ensures Classify(lines, test)[j] == test(Trim(lines[j]))
  {
    if j < |lines| - 1 {
      ClassifyAt(lines[..|lines| - 1], test, j);
    }
  }

  predicate IsEmpty(s: string) { s == "" }

  /** For each line, whether its trimmed text is a footer line. */
  function FootFlags(lines: seq<string>): (foot: seq<bool>)
    ensures |foot| == |lines|
  {
    Classify(lines, IsFooterLine)
  }

  /** For each line, whether its trimmed text is empty. An empty line is never a
      footer line, so no line is both. */
  function BlankFlags(lines: seq<string>): (blank: seq<bool>)
    ensures |blank| == |lines|
    ensures forall j :: 0 <= j < |lines| ==> !(FootFlags(lines)[j] && blank[j])
  {
    ClassifyDisjoint(lines);
    Classify(lines, IsEmpty)
  }

  lemma ClassifyDisjoint(lines: seq<string>)
    ensures forall j :: 0 <= j < |lines| ==> !(Classify(lines, IsFooterLine)[j] && Classify(lines, IsEmpty)[j])
  {
    forall j | 0 <= j < |lines|
      ensures !(Classify(lines, IsFooterLine)[j] && Classify(lines, IsEmpty)[j])
    {
      ClassifyAt(lines, IsFooterLine, j);
      ClassifyAt(lines, IsEmpty, j);
    }
  }

  ghost predicate IsFooterCut(foot: seq<bool>, blank: seq<bool>, c: int)
    requires |foot| == |blank|
  {
    if c == -1 then
      forall j :: 0 <= j < |foot| ==> !foot[j]
    else
      && 0 <= c < |foot| && foot[c]
      && (forall j, k :: c < j < k < |foot| && blank[j] ==> !foot[k])
      && (forall j :: 0 <= j < c && foot[j] ==> exists b :: j < b < c && blank[b])
  }

  /** At most one index is a cut. */
  lemma FooterCutUnique(foot: seq<bool>, blank: seq<bool>, c1: int, c2: int)
    requires |foot| == |blank|
    requires IsFooterCut(foot, blank, c1) && IsFooterCut(foot, blank, c2)
    ensures c1 == c2
  {
  }

  /** The largest index below `hi` where `flags` holds, or `-1`. */
  function LastTrue(flags: seq<bool>, hi: nat): (j: int)
    requires hi <= |flags|
    ensures -1 <= j < hi
    ensures j >= 0 ==> flags[j]
    ensures forall k :: j < k < hi ==> !flags[k]
  {
    if hi == 0 then -1
    else if flags[hi - 1] then hi - 1
    else LastTrue(flags, hi - 1)
  }

  /** The smallest index from `lo` of a footer line, given that `hi` is one. */
  function FirstFooter(foot: seq<bool>, lo: nat, hi: nat): (j: nat)
    requires lo <= hi < |foot| && foot[hi]
    ensures lo <= j <= hi && foot[j]
    ensures forall k :: lo <= k < j ==> !foot[k]
    decreases hi - lo
  {
    if foot[lo] then lo else FirstFooter(foot, lo + 1, hi)
  }

  /** Where the footer starts: the topmost footer line below the last blank line that
      lies above the last footer line. */
  function FooterCut(foot: seq<bool>, blank: seq<bool>): (c: int)
    requires |foot| == |blank|
    requires forall j :: 0 <= j < |foot| ==> !(foot[j] && blank[j])
    ensures IsFooterCut(foot, blank, c)
  {
    var last := LastTrue(foot, |foot|);
    if last == -1 then -1
    else
      var b := LastTrue(blank, last);
      var c := FirstFooter(foot, b + 1, last);
      assert forall j :: 0 <= j < c && foot[j] ==> j <= b && blank[b];
      c
  }

  /** The two parts `splitCommitBodyAndFooter` returns. */
  datatype BodyFooter = BodyFooter(body: string, footer: string)

  /** The lines of a commit message tail as the splitter sees them. */
  function MessageLines(raw: string): (lines: seq<string>)
    ensures |lines| >= 1
  {
    SplitOn(Trim(Normalize(raw)), "\n")
  }

  /** The split, given the cut: everything is body when there is no footer line. */
  function SplitAt(lines: seq<string>, c: int): BodyFooter
    requires -1 <= c < |lines|
  {
    if c == -1 then BodyFooter(Trim(Join(lines, "\n")), "")
    else BodyFooter(Trim(Join(lines[..c], "\n")), Trim(Join(lines[c..], "\n")))
  }

  /** What `splitCommitBodyAndFooter` computes. */
  function SplitBodyFooter(raw: string): BodyFooter {
    var lines := MessageLines(raw);
    SplitAt(lines, FooterCut(FootFlags(lines), BlankFlags(lines)))
  }

  /** The two questions the scan asks of line `i`: is its trimmed text a footer line,
      and is it empty. */
  method ClassifyLine(lines: seq<string>, i: nat) returns (isFooter: bool, isBlank: bool)
    requires i < |lines|
    ensures isFooter == FootFlags(lines)[i] && isBlank == BlankFlags(lines)[i]
  {
    var line := Trim(lines[i]);
    isFooter := IsFooterLine(line);
    isBlank := line == "";
    ClassifyAt(lines, IsFooterLine, i);
    ClassifyAt(lines, IsEmpty, i);
  }

  /** What the backward scan knows once lines `i + 1 ..` are behind it and
      `footerStart` is `fs`. */
  ghost predicate ScanInv(foot: seq<bool>, blank: seq<bool>, i: int, fs: int)
    requires |foot| == |blank|
  {
    && -1 <= i < |foot|
    && (fs == -1 ==> forall j :: i < j < |foot| ==> !foot[j])
    && (fs != -1 ==>
      && i < fs < |foot| && foot[fs]
      && (forall j :: i < j < fs ==> !foot[j] && !blank[j])
      && (forall j, k :: fs < j < k < |foot| && blank[j] ==> !foot[k]))
  }

  /** One step of the scan that does not stop keeps `ScanInv`. */
  lemma ScanStep(foot: seq<bool>, blank: seq<bool>, i: int, fs: int)
    requires |foot| == |blank| && ScanInv(foot, blank, i, fs) && 0 <= i
    requires forall j :: 0 <= j < |foot| ==> !(foot[j] && blank[j])
    requires !(fs != -1 && !foot[i] && blank[i])
    ensures ScanInv(foot, blank, i - 1, if foot[i] then i else fs)
  {
  }

  /** Where the scan stops, `footerStart` is the cut. */
  lemma ScanExit(foot: seq<bool>, blank: seq<bool>, i: int, fs: int)
    requires |foot| == |blank| && ScanInv(foot, blank, i, fs)
    requires i == -1 || (fs != -1 && !foot[i] && blank[i])
    ensures IsFooterCut(foot, blank, fs)
  {
    if fs != -1 {
      forall j | 0 <= j < fs && foot[j] ensures exists b :: j < b < fs && blank[b] {
        assert j <= i && blank[i];
      }
    }
  }

  /** `splitCommitBodyAndFooter`: the backward scan of test.ts, with its `footerStart`
      index and its stop at the first blank line above a footer line. */
  method SplitCommitBodyAndFooter(raw: string) returns (parts: BodyFooter)
    ensures parts == SplitBodyFooter(raw)
  {
    var message := Normalize(raw);
    var lines := SplitOn(Trim(message), "\n");
    assert lines == MessageLines(raw);
    ghost var foot, blank := FootFlags(lines), BlankFlags(lines);
    var footerStart := -1;
    var i := |lines| - 1;
    while i >= 0
      invariant ScanInv(foot, blank, i, footerStart)
    {
      var isFooter, isBlank := ClassifyLine(lines, i);
      if isFooter {
        ScanStep(foot, blank, i, footerStart);
        footerStart := i;
      } else if footerStart != -1 && isBlank {
        break;
      } else {
        ScanStep(foot, blank, i, footerStart);
      }
      i := i - 1;
    }
    ScanExit(foot, blank, i, footerStart);
    FooterCutUnique(foot, blank, footerStart, FooterCut(foot, blank));
    if footerStart == -1 {
      parts := BodyFooter(Trim(Join(lines[0..], "\n")), "");
    } else {
      parts := BodyFooter(Trim(Join(lines[..footerStart], "\n")), Trim(Join(lines[footerStart..], "\n")));
    }
  }

  /** With no footer line, the whole normalized text is body and the footer is empty. */
  lemma SplitWithoutFooter(raw: string)
    requires forall j :: 0 <= j < |MessageLines(raw)| ==> !IsFooterLine(Trim(MessageLines(raw)[j]))
    ensures SplitBodyFooter(raw) == BodyFooter(Normalize(raw), "")
  {
    var lines := MessageLines(raw);
    var foot := FootFlags(lines);
    forall j | 0 <= j < |lines| ensures !foot[j] {
      ClassifyAt(lines, IsFooterLine, j);
    }
    FooterCutUnique(foot, BlankFlags(lines), -1, FooterCut(foot, BlankFlags(lines)));
    var message := Normalize(raw);
    TrimOfTrimmed(message);
    JoinSplitOn(message, "\n");
    TrimOfTrimmed(message);
  }

  /** A footer block appended to a body after a newline is split off again: the
      body has no footer line, every line of the footer is a footer line, both are
      trimmed and neither holds a carriage return. */
  lemma SplitRoundTrip(body: string, footer: string)
    requires IsTrimmed(body) && IsTrimmed(footer)
    requires forall i :: 0 <= i < |body| ==> body[i] != '\r'
    requires forall i :: 0 <= i < |footer| ==> footer[i] != '\r'
    requires forall j :: 0 <= j < |SplitOn(body, "\n")| ==> !IsFooterLine(Trim(SplitOn(body, "\n")[j]))
    requires forall j :: 0 <= j < |SplitOn(footer, "\n")| ==> IsFooterLine(Trim(SplitOn(footer, "\n")[j]))
    ensures SplitBodyFooter(body + "\n" + footer) == BodyFooter(body, footer)
  {
    var lb, lf := SplitOn(body, "\n"), SplitOn(footer, "\n");
    assert |footer| > 0;
    var pre := if |body| == 0 then [] else lb;
    RoundTripLines(body, footer);
    CutAfter(pre, lf);
    JoinSplitOn(footer, "\n");
    TrimOfTrimmed(footer);
    if |body| > 0 {
      JoinSplitOn(body, "\n");
      TrimOfTrimmed(body);
    }
    SplitAtParts(pre, lf);
  }

  /** A message made only of footer lines is all footer, with an empty body. */
  lemma SplitFooterOnly(footer: string)
    requires IsTrimmed(footer)
    requires forall i :: 0 <= i < |footer| ==> footer[i] != '\r'
    requires forall j :: 0 <= j < |SplitOn(footer, "\n")| ==> IsFooterLine(Trim(SplitOn(footer, "\n")[j]))
    ensures SplitBodyFooter(footer) == BodyFooter("", footer)
  {
    var lf := SplitOn(footer, "\n");
    TrimOfTrimmed(footer);
    RawText(footer, footer);
    assert [] + lf == lf;
    CutAfter([], lf);
    SplitAtParts([], lf);
    JoinSplitOn(footer, "\n");
    assert Trim("") == "";
  }

  /** The lines of `body\nfooter`: those of the body, unless it is empty, then
      those of the footer. */
  lemma RoundTripLines(body: string, footer: string)
    requires IsTrimmed(body) && IsTrimmed(footer) && |footer| > 0
    requires forall i :: 0 <= i < |body| ==> body[i] != '\r'
    requires forall i :: 0 <= i < |footer| ==> footer[i] != '\r'
    ensures MessageLines(body + "\n" + footer)
      == (if |body| == 0 then [] else SplitOn(body, "\n")) + SplitOn(footer, "\n")
  {
    if |body| == 0 {
      assert body + "\n" + footer == "\n" + footer;
      TrimNewlineBefore(footer);
      RawText("\n" + footer, footer);
    } else {
      JoinedLines(body, footer);
    }
  }

  lemma JoinedLines(body: string, footer: string)
    requires IsTrimmed(body) && IsTrimmed(footer) && |body| > 0 && |footer| > 0
    requires forall i :: 0 <= i < |body| ==> body[i] != '\r'
    requires forall i :: 0 <= i < |footer| ==> footer[i] != '\r'
    ensures MessageLines(body + "\n" + footer) == SplitOn(body, "\n") + SplitOn(footer, "\n")
  {
    var raw := body + "\n" + footer;
    assert IsTrimmed(raw) by { assert raw[0] == body[0] && raw[|raw| - 1] == footer[|footer| - 1]; }
    TrimOfTrimmed(raw);
    forall i | 0 <= i < |raw| ensures raw[i] != '\r' {
      if i < |body| { assert raw[i] == body[i]; }
      else if i > |body| { assert raw[i] == footer[i - |body| - 1]; }
    }
    RawText(raw, raw);
    SplitOnNewlineAppend(body, footer);
  }

  /** Lines with no footer line, then lines that are all footer lines: the cut is
      at the first of the latter. */
  lemma CutAfter(pre: seq<string>, post: seq<string>)
    requires |post| > 0
    requires forall j :: 0 <= j < |pre| ==> !IsFooterLine(Trim(pre[j]))
    requires forall j :: 0 <= j < |post| ==> IsFooterLine(Trim(post[j]))
    ensures FooterCut(FootFlags(pre + post), BlankFlags(pre + post)) == |pre|
  {
    var lines := pre + post;
    var c := |pre|;
    var foot, blank := FootFlags(lines), BlankFlags(lines);
    forall j | 0 <= j < |lines| ensures foot[j] == (j >= c) {
      ClassifyAt(lines, IsFooterLine, j);
      if j >= c { assert lines[j] == post[j - c]; } else { assert lines[j] == pre[j]; }
    }
    assert IsFooterCut(foot, blank, c);
    FooterCutUnique(foot, blank, c, FooterCut(foot, blank));
  }

  lemma SplitAtParts(pre: seq<string>, post: seq<string>)
    requires |post| > 0
    ensures SplitAt(pre + post, |pre|) == BodyFooter(Trim(Join(pre, "\n")), Trim(Join(post, "\n")))
  {
    assert (pre + post)[..|pre|] == pre && (pre + post)[|pre|..] == post;
  }

  /** The lines the splitter sees in a text whose trimmed form `t` holds no
      carriage return. */
  lemma RawText(raw: string, t: string)
    requires t == Trim(raw) && IsTrimmed(t) && forall i :: 0 <= i < |t| ==> t[i] != '\r'
    ensures MessageLines(raw) == SplitOn(t, "\n")
  {
    ReplaceCrlfNoCr(t);
    TrimOfTrimmed(t);
  }

  /** The footer is empty exactly when no line is a footer line. */
  lemma FooterEmptyIff(raw: string)
    ensures SplitBodyFooter(raw).footer == "" <==>
            forall j :: 0 <= j < |MessageLines(raw)| ==> !IsFooterLine(Trim(MessageLines(raw)[j]))
  {
    var lines := MessageLines(raw);
    var foot, blank := FootFlags(lines), BlankFlags(lines);
    var c := FooterCut(foot, blank);
    if c == -1 {
      forall j | 0 <= j < |lines| ensures !IsFooterLine(Trim(lines[j])) {
        ClassifyAt(lines, IsFooterLine, j);
      }
    } else {
      ClassifyAt(lines, IsFooterLine, c);
      assert IsFooterLine(Trim(lines[c]));
      var tail := Join(lines[c..], "\n");
      assert lines[c..][0] == lines[c];
      ContainsNonWs(lines[c], tail);
      TrimEmptyIff(tail);
    }
  }

  /** A string whose trimmed text is not empty is not all whitespace, nor is any
      string it begins. */
  lemma ContainsNonWs(line: string, text: string)
    requires Trim(line) != "" && line <= text
    ensures !AllWs(text)
  {
    TrimEmptyIff(line);
    var k :| 0 <= k < |line| && !IsWs(line[k]);
    assert text[k] == line[k];
  }
}
