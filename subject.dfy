/**
 * The commit subject pattern of `parseCommit` in test.ts,
 *
 *   (?<type>\w+)(?:\((?<scope>[^)]+)\))?(?<breaking>!)?:\s*
 *   (?:(?<gitmoji>[\u{1F300}-\u{1FAFF}]))?\s*(?<description>.+?)\s*
 *   (?:\(#(?<pr>\d+)\))?\s*$
 *
 * compiled with the `u` flag and searched without a `^` anchor, written as a
 * scanner that follows the order in which a backtracking matcher tries the
 * alternatives.
 */
module Subjects {
  import opened Wrappers
  import opened Text

  /** `[\u{1F300}-\u{1FAFF}]`: one code point of the emoji blocks. */
  predicate IsGitmoji(c: char) { '\U{1F300}' <= c <= '\U{1FAFF}' }

  predicate NotCloseParen(c: char) { c != ')' }

  /** The named groups of a successful match. `rawDescription` is the `description`
      group before `parseCommit` trims it. */
  datatype SubjectMatch = SubjectMatch(
    typ: string, scope: Option<string>, bang: bool, gitmoji: Option<char>,
    rawDescription: string, pr: Option<string>)

  /** No line terminator in `t[i..j]`: the stretch `.` may cover. */
  predicate LineFree(t: string, i: nat, j: nat) {
    forall k :: i <= k < j && k < |t| ==> !IsLineTerminator(t[k])
  }

  /** `\s*(?:\(#(?<pr>\d+)\))?\s*$` against all of `r`: `None` when it fails,
      otherwise the `pr` group. The greedy `\s*` runs to the first other
      character, which must open `(#`, or be the end. */
  function MatchRest(r: string): Option<Option<string>> {
    RestFrom(r, 0)
  }

  function RestFrom(r: string, i: nat): Option<Option<string>>
    requires i <= |r|
    decreases |r| - i
  {
    if i == |r| then Some(None)
    else if IsWs(r[i]) then RestFrom(r, i + 1)
    else if r[i] == '(' && i + 2 < |r| && r[i + 1] == '#' && IsDigit(r[i + 2]) then PrDigits(r, i + 2, i + 3)
    else None
  }

  /** The greedy `\d+` of the `pr` group, so far `r[d..j]`, then `)`, the closing
      `\s*` and the end. */
  function PrDigits(r: string, d: nat, j: nat): Option<Option<string>>
    requires d < j <= |r|
    decreases |r| - j
  {
    if j < |r| && IsDigit(r[j]) then PrDigits(r, d, j + 1)
    else if j < |r| && r[j] == ')' && WsFrom(r, j + 1) then Some(Some(r[d..j]))
    else None
  }

  /** Only whitespace from `j` on. */
  predicate WsFrom(r: string, j: nat)
    requires j <= |r|
    decreases |r| - j
  {
    j == |r| || (IsWs(r[j]) && WsFrom(r, j + 1))
  }

  /** The `description` group `t[start..end]` and the `pr` group of what follows it. */
  datatype Desc = Desc(start: nat, end: nat, pr: Option<string>)

  /** The lazy `.+?` from `s`, currently ending at `e`: it grows one character at a
      time, never over a line terminator, until the rest of the text matches. The
      result is the shortest such description, and `None` means there is none. */
  function LazyEnd(t: string, s: nat, e: nat): (r: Option<Desc>)
    requires s < e <= |t| && LineFree(t, s, e - 1)
    ensures r.Some? ==> r.value.start == s && e <= r.value.end <= |t|
    decreases |t| - e
  {
    if IsLineTerminator(t[e - 1]) then None
    else
      match MatchRest(t[e..])
      case Some(pr) => Some(Desc(s, e, pr))
      case None => if e == |t| then None else LazyEnd(t, s, e + 1)
  }

  /** The lazy description is the shortest line-terminator-free one after which
      the rest matches, and `None` means that no end from `e` on works. */
  lemma {:induction false} LazyEndSpec(t: string, s: nat, e: nat)
    requires s < e <= |t| && LineFree(t, s, e - 1)
    ensures var r := LazyEnd(t, s, e);
      && (r.Some? ==> (r.value.start == s && e <= r.value.end <= |t|
        && LineFree(t, s, r.value.end)
        && MatchRest(t[r.value.end..]) == Some(r.value.pr)
        && forall k :: e <= k < r.value.end ==> MatchRest(t[k..]).None?))
      && (r.None? ==> forall k :: e <= k <= |t| && LineFree(t, s, k) ==> MatchRest(t[k..]).None?)
    decreases |t| - e
  {
    if !IsLineTerminator(t[e - 1]) && MatchRest(t[e..]).None? && e < |t| {
      LazyEndSpec(t, s, e + 1);
    }
  }

  /** The description that starts at `s`, if any. */
  function DescAt(t: string, s: nat): Option<Desc>
    requires s <= |t|
  {
    if s < |t| then LazyEnd(t, s, s + 1) else None
  }

  /** Backtracking a greedy `\s*` that reached `s` and may give back down to `lo`:
      the first of `s, s - 1, ..., lo` where a description starts. */
  function SearchDown(t: string, lo: nat, s: nat): (r: Option<Desc>)
    requires lo <= s <= |t|
    ensures r.Some? ==> lo <= r.value.start <= s && r.value.start < r.value.end <= |t|
    decreases s
  {
    match DescAt(t, s)
    case Some(d) => Some(d)
    case None => if s == lo then None else SearchDown(t, lo, s - 1)
  }

  /** The backtracking finds the highest start in `lo..s` where a description
      starts, and `None` means there is none. */
  lemma {:induction false} SearchDownSpec(t: string, lo: nat, s: nat)
    requires lo <= s <= |t|
    ensures var r := SearchDown(t, lo, s);
      && (r.Some? ==> (lo <= r.value.start <= s && DescAt(t, r.value.start) == r
        && forall k :: r.value.start < k <= s ==> DescAt(t, k).None?))
      && (r.None? ==> forall k :: lo <= k <= s ==> DescAt(t, k).None?)
    decreases s
  {
    if DescAt(t, s).Some? {
      if s < |t| {
        LazyEndSpec(t, s, s + 1);
      }
    } else if s > lo {
      SearchDownSpec(t, lo, s - 1);
    }
  }

  /** The groups the part after the colon supplies. */
  datatype TailMatch = TailMatch(gitmoji: Option<char>, rawDescription: string, pr: Option<string>)

  function TailWith(t: string, g: Option<char>, d: Desc): TailMatch
    requires d.start <= d.end <= |t|
  {
    TailMatch(g, t[d.start..d.end], d.pr)
  }

  /** `\s*(?:(?<gitmoji>...))?\s*(?<description>.+?)\s*(?:\(#(?<pr>\d+)\))?\s*$`
      on the text `t` after the colon. The first `\s*` reaches `k1`; if an emoji
      stands there the matcher first tries to take it, with the second `\s*` giving
      back from its end down to just after the emoji. Only when that fails does it
      give back the first `\s*`, leaving the gitmoji group unset. */
  function MatchTail(t: string): Option<TailMatch> {
    var k1 := Span(t, 0, IsWs);
    var withEmoji :=
      if k1 < |t| && IsGitmoji(t[k1]) then SearchDown(t, k1 + 1, Span(t, k1 + 1, IsWs)) else None;
    match withEmoji
    case Some(d) => Some(TailWith(t, Some(t[k1]), d))
    case None =>
      match SearchDown(t, 0, k1)
      case Some(d) => Some(TailWith(t, None, d))
      case None => None
  }

  /** What precedes the colon after the type: the scope group, the `!` and the
      colon's index. */
  datatype Head = Head(scope: Option<string>, bang: bool, colon: nat)

  /** `(?<breaking>!)?:` at `i`. */
  function Marker(h: string, i: nat, scope: Option<string>): (r: Option<Head>)
    ensures r.Some? ==> i <= r.value.colon < |h| && h[r.value.colon] == ':'
  {
    if i < |h| && h[i] == '!' then
      if i + 1 < |h| && h[i + 1] == ':' then Some(Head(scope, true, i + 1)) else None
    else if i < |h| && h[i] == ':' then Some(Head(scope, false, i))
    else None
  }

  /** `(?:\((?<scope>[^)]+)\))?(?<breaking>!)?:` after a type ending at `q`. The
      scope group runs to the first `)`; when `(` follows the type, skipping the
      optional group cannot help, since `(` is neither `!` nor `:`. */
  function MatchHead(h: string, q: nat): (r: Option<Head>)
    requires q <= |h|
    ensures r.Some? ==> q <= r.value.colon < |h| && h[r.value.colon] == ':'
  {
    if q < |h| && h[q] == '(' then
      if q + 1 < |h| && h[q + 1] != ')' then
        var close := Span(h, q + 1, NotCloseParen);
        if close < |h| then Marker(h, close + 1, Some(h[q + 1..close])) else None
      else None
    else Marker(h, q, None)
  }

  /** The whole pattern tried from index `p`. `\w+` is greedy, and a shorter type
      cannot help: the character after it would be a word character. */
  function MatchAt(h: string, p: nat): Option<SubjectMatch>
    requires p <= |h|
  {
    if p < |h| && IsWordChar(h[p]) then
      var q := Span(h, p, IsWordChar);
      match MatchHead(h, q)
      case None => None
      case Some(hd) =>
        match MatchTail(h[hd.colon + 1..])
        case None => None
        case Some(tm) =>
          Some(SubjectMatch(h[p..q], hd.scope, hd.bang, tm.gitmoji, tm.rawDescription, tm.pr))
    else None
  }

  /** `header.match(reg)` without `^`: the first start position, from `p` on,
      where the pattern matches. */
  function FindFrom(h: string, p: nat): Option<SubjectMatch>
    requires p <= |h|
    decreases |h| - p
  {
    if p == |h| then None
    else if MatchAt(h, p).Some? then MatchAt(h, p)
    else FindFrom(h, p + 1)
  }

  /** The search returns the match at the first start position that has one, and
      `None` means no position from `p` on matches. */
  lemma {:induction false} FindFromSpec(h: string, p: nat)
    requires p <= |h|
    ensures var r := FindFrom(h, p);
      && (r.Some? ==> exists i :: (p <= i < |h| && MatchAt(h, i) == r
        && forall j :: p <= j < i ==> MatchAt(h, j).None?))
      && (r.None? ==> forall i :: p <= i < |h| ==> MatchAt(h, i).None?)
    decreases |h| - p
  {
    if p < |h| {
      var m := MatchAt(h, p);
      if m.None? {
        FindFromSpec(h, p + 1);
        var r := FindFrom(h, p + 1);
        assert FindFrom(h, p) == r;
        if r.Some? {
          var i :| p + 1 <= i < |h| && MatchAt(h, i) == r && forall j :: p + 1 <= j < i ==> MatchAt(h, j).None?;
          assert forall j :: p <= j < i ==> MatchAt(h, j).None?;
        }
      } else {
        assert FindFrom(h, p) == m;
      }
    }
  }

  function ParseSubject(h: string): Option<SubjectMatch> {
    FindFrom(h, 0)
  }

  // ---------------------------------------------------------------------------
  // The rest after the description

  lemma {:induction false} RestFromWs(r: string, i: nat)
    requires i <= |r| && forall k :: i <= k < |r| ==> IsWs(r[k])
    ensures RestFrom(r, i) == Some(None)
    decreases |r| - i
  {
    if i < |r| {
      RestFromWs(r, i + 1);
    }
  }

  lemma {:induction false} WsFromAll(r: string, j: nat)
    requires j <= |r| && forall k :: j <= k < |r| ==> IsWs(r[k])
    ensures WsFrom(r, j)
    decreases |r| - j
  {
    if j < |r| {
      WsFromAll(r, j + 1);
    }
  }

  lemma {:induction false} WsFromEnd(r: string, j: nat)
    requires j <= |r| && WsFrom(r, j) && |r| > 0 && !IsWs(r[|r| - 1])
    ensures j == |r|
    decreases |r| - j
  {
    if j < |r| {
      WsFromEnd(r, j + 1);
    }
  }

  /** Trailing whitespace alone leaves the `pr` group unset. */
  lemma RestOfWs(r: string)
    requires AllWs(r)
    ensures MatchRest(r) == Some(None)
  {
    RestFromWs(r, 0);
  }

  lemma {:induction false} PrDigitsRun(r: string, d: nat, j: nat, close: nat)
    requires d < j <= close < |r| && forall k :: d <= k < close ==> IsDigit(r[k])
    requires r[close] == ')' && WsFrom(r, close + 1)
    ensures PrDigits(r, d, j) == Some(Some(r[d..close]))
    decreases close - j
  {
    if j < close {
      PrDigitsRun(r, d, j + 1, close);
    }
  }

  /** `(#n)` between whitespace is the `pr` group `n`. */
  lemma RestOfRef(w: string, n: string, w2: string)
    requires AllWs(w) && |n| > 0 && AllDigits(n) && AllWs(w2)
    ensures MatchRest(w + "(#" + n + ")" + w2) == Some(Some(n))
  {
    var r := w + "(#" + n + ")" + w2;
    var i, close := |w|, |w| + 2 + |n|;
    assert forall k :: i + 2 <= k < close ==> r[k] == n[k - i - 2];
    assert forall k :: close < k < |r| ==> r[k] == w2[k - close - 1];
    WsFromAll(r, close + 1);
    PrDigitsRun(r, i + 2, i + 3, close);
    assert r[i + 2..close] == n;
    assert forall k :: 0 <= k < i ==> r[k] == w[k];
    RestFromPrefix(r, 0, i);
  }

  lemma {:induction false} RestFromPrefix(r: string, i: nat, j: nat)
    requires i <= j <= |r| && forall k :: i <= k < j ==> IsWs(r[k])
    ensures RestFrom(r, i) == RestFrom(r, j)
    decreases j - i
  {
    if i < j {
      RestFromPrefix(r, i + 1, j);
    }
  }

  /** `(#digits)` closes `d`, after any whitespace. */
  ghost predicate EndsWithPrRef(d: string) {
    exists i :: 0 <= i < |d| - 3 && RefFrom(d, i)
  }

  ghost predicate RefFrom(r: string, i: nat)
    requires i < |r| - 3
  {
    r[i] == '(' && r[i + 1] == '#' && (forall k :: i + 2 <= k < |r| - 1 ==> IsDigit(r[k]))
    && r[|r| - 1] == ')'
  }

  lemma {:induction false} PrDigitsShape(r: string, d: nat, j: nat)
    requires d < j <= |r| && forall k :: d <= k < j ==> IsDigit(r[k])
    requires PrDigits(r, d, j).Some? && !IsWs(r[|r| - 1])
    ensures j < |r| && r[|r| - 1] == ')' && forall k :: d <= k < |r| - 1 ==> IsDigit(r[k])
    decreases |r| - j
  {
    if j < |r| && IsDigit(r[j]) {
      PrDigitsShape(r, d, j + 1);
    } else {
      WsFromEnd(r, j + 1);
    }
  }

  lemma {:induction false} RestFromShape(r: string, i: nat)
    requires i <= |r| && (forall k :: 0 <= k < i ==> IsWs(r[k]))
    requires RestFrom(r, i).Some? && |r| > 0 && !IsWs(r[|r| - 1])
    ensures exists k :: 0 <= k < |r| - 3 && (forall m :: 0 <= m < k ==> IsWs(r[m])) && RefFrom(r, k)
    decreases |r| - i
  {
    if i == |r| {
      assert false;
    } else if IsWs(r[i]) {
      RestFromShape(r, i + 1);
    } else {
      PrDigitsShape(r, i + 2, i + 3);
      assert RefFrom(r, i);
    }
  }

  /** A rest that ends in a non-space character matches only as whitespace, then
      `(#digits)` at its very end. */
  lemma RestShape(r: string)
    requires |r| > 0 && !IsWs(r[|r| - 1]) && MatchRest(r).Some?
    ensures exists k :: 0 <= k < |r| - 3 && (forall m :: 0 <= m < k ==> IsWs(r[m])) && RefFrom(r, k)
  {
    RestFromShape(r, 0);
  }

  // ---------------------------------------------------------------------------
  // Rendering a subject and reading it back

  /** ` (#n)` after the description, or nothing. */
  function PrPart(pr: Option<string>): string {
    match pr
    case None => ""
    case Some(n) => " (#" + n + ")"
  }

  /** `[g] ` before the description, or nothing. */
  function GitmojiPart(g: Option<char>): string {
    match g
    case None => ""
    case Some(c) => [c] + " "
  }

  /** The text after the colon: one space, the gitmoji, the description, the PR. */
  function TailText(g: Option<char>, d: string, pr: Option<string>): string {
    " " + GitmojiPart(g) + d + PrPart(pr)
  }

  /** `(scope)`, `!` and the colon. */
  function HeadText(scope: Option<string>, bang: bool): string {
    (match scope case None => "" case Some(x) => "(" + x + ")") + (if bang then "!" else "") + ":"
  }

  /** The subject line a match describes, in the conventional layout
      `type(scope)!: gitmoji description (#pr)`. */
  function Render(m: SubjectMatch): string {
    m.typ + HeadText(m.scope, m.bang) + TailText(m.gitmoji, m.rawDescription, m.pr)
  }

  /** A description the layout gives back unchanged: non-empty, trimmed, on one
      line; without a PR suffix it must not itself end in `(#digits)`. */
  ghost predicate DescOk(d: string, pr: Option<string>) {
    |d| > 0 && IsTrimmed(d) && NoLineTerminator(d)
    && (match pr case None => !EndsWithPrRef(d) case Some(n) => |n| > 0 && AllDigits(n))
  }

  /** The conditions under which `Render` is read back as it was written. */
  ghost predicate WellFormed(m: SubjectMatch) {
    |m.typ| > 0 && (forall i :: 0 <= i < |m.typ| ==> IsWordChar(m.typ[i]))
    && (match m.scope case None => true case Some(x) => |x| > 0 && forall i :: 0 <= i < |x| ==> x[i] != ')')
    && DescOk(m.rawDescription, m.pr)
    && (match m.gitmoji case None => !IsGitmoji(m.rawDescription[0]) case Some(c) => IsGitmoji(c))
  }

  lemma PrPartRest(pr: Option<string>)
    requires pr.Some? ==> |pr.value| > 0 && AllDigits(pr.value)
    ensures MatchRest(PrPart(pr)) == Some(pr)
  {
    match pr
    case None => RestOfWs("");
    case Some(n) =>
      assert PrPart(pr) == " " + "(#" + n + ")" + "";
      RestOfRef(" ", n, "");
  }

  /** No proper suffix of a description, followed by its PR part, satisfies the
      rest of the pattern: the lazy description cannot stop early. */
  lemma ShorterFails(d: string, pr: Option<string>, j: nat)
    requires DescOk(d, pr) && 0 < j < |d|
    ensures MatchRest(d[j..] + PrPart(pr)).None?
  {
    match pr
    case None =>
      SuffixRestNeedsRef(d, j);
      assert d[j..] + PrPart(pr) == d[j..];
    case Some(n) =>
      RestBeforeRefNeedsSpace(d[j..], n);
      assert d[j..][|d[j..]| - 1] == d[|d| - 1];
  }

  /** A suffix of `d` that the rest of the pattern accepts by itself, ending in a
      non-space, makes `d` end in `(#digits)`. */
  lemma SuffixRestNeedsRef(d: string, j: nat)
    requires 0 < j < |d| && !IsWs(d[|d| - 1])
    ensures MatchRest(d[j..]).Some? ==> EndsWithPrRef(d)
  {
    var r := d[j..];
    if MatchRest(r).Some? {
      assert r[|r| - 1] == d[|d| - 1];
      RestShape(r);
      var k :| 0 <= k < |r| - 3 && (forall m :: 0 <= m < k ==> IsWs(r[m])) && RefFrom(r, k);
      assert forall m :: j + k + 2 <= m < |d| - 1 ==> d[m] == r[m - j];
      assert RefFrom(d, j + k);
    }
  }

  /** When `x (#n)` is accepted by the rest of the pattern, the `(#n)` is the group
      and everything before it, the end of `x` included, is whitespace. */
  lemma RestBeforeRefNeedsSpace(x: string, n: string)
    requires |x| > 0 && |n| > 0 && AllDigits(n)
    ensures MatchRest(x + PrPart(Some(n))).Some? ==> IsWs(x[|x| - 1])
  {
    var r := x + PrPart(Some(n));
    if MatchRest(r).Some? {
      assert r[|r| - 1] == ')';
      RestShape(r);
      var k :| 0 <= k < |r| - 3 && (forall m :: 0 <= m < k ==> IsWs(r[m])) && RefFrom(r, k);
      RefAfterSpace(x, n, k);
      assert r[|x| - 1] == x[|x| - 1];
    }
  }

  lemma ShorterRestsFail(t: string, s: nat, d: string, pr: Option<string>)
    requires s <= |t| && t[s..] == d + PrPart(pr) && DescOk(d, pr)
    ensures forall k :: s + 1 <= k < s + |d| ==> MatchRest(t[k..]).None?
  {
    forall k | s + 1 <= k < s + |d| ensures MatchRest(t[k..]).None? {
      assert t[k..] == d[k - s..] + PrPart(pr);
      ShorterFails(d, pr, k - s);
    }
  }

  /** In `x (#n)` the only `(#digits)` that reaches the end is the PR part itself. */
  lemma RefAfterSpace(x: string, n: string, k: nat)
    requires |x| > 0 && AllDigits(n)
    requires var r := x + PrPart(Some(n)); k < |r| - 3 && RefFrom(r, k)
    ensures k == |x| + 1
  {
    var r := x + PrPart(Some(n));
    assert r[|x|] == ' ' && r[|x| + 1] == '(' && r[|x| + 2] == '#';
    assert forall i :: |x| + 3 <= i < |r| - 1 ==> r[i] == n[i - |x| - 3];
    assert k != |x| && k != |x| - 1 && k != |x| + 2;
    assert !IsDigit(r[|x|]);
  }

  /** The description written at `s` is the one read back, with its PR. */
  lemma DescRoundTrip(t: string, s: nat, d: string, pr: Option<string>)
    requires s <= |t| && t[s..] == d + PrPart(pr) && DescOk(d, pr)
    ensures DescAt(t, s) == Some(Desc(s, s + |d|, pr))
  {
    var e := s + |d|;
    assert t[e..] == PrPart(pr);
    PrPartRest(pr);
    ShorterRestsFail(t, s, d, pr);
    assert LineFree(t, s, e) by {
      assert forall k :: s <= k < e ==> t[k] == d[k - s];
    }
    LazyEndSpec(t, s, s + 1);
    var r := LazyEnd(t, s, s + 1);
    assert r.Some?;
    assert r.value.end <= e;
    assert r.value.end >= e;
  }

  lemma GitmojiNotWs(c: char)
    requires IsGitmoji(c)
    ensures !IsWs(c) && !IsWordChar(c)
  {
  }

  /** `MatchTail` when the emoji branch succeeds. */
  lemma MatchTailEmoji(t: string, d: Desc)
    requires Span(t, 0, IsWs) < |t| && IsGitmoji(t[Span(t, 0, IsWs)])
    requires SearchDown(t, Span(t, 0, IsWs) + 1, Span(t, Span(t, 0, IsWs) + 1, IsWs)) == Some(d)
    ensures MatchTail(t) == Some(TailWith(t, Some(t[Span(t, 0, IsWs)]), d))
  {
  }

  /** `MatchTail` when no emoji follows the first `\s*` and a description starts at
      its end. */
  lemma MatchTailPlain(t: string, d: Desc)
    requires Span(t, 0, IsWs) < |t| && !IsGitmoji(t[Span(t, 0, IsWs)])
    requires SearchDown(t, 0, Span(t, 0, IsWs)) == Some(d)
    ensures MatchTail(t) == Some(TailWith(t, None, d))
  {
  }

  /** A description found at `s` ends the backtracking of the `\s*` before it. */
  lemma SearchDownHit(t: string, lo: nat, s: nat)
    requires lo <= s <= |t| && DescAt(t, s).Some?
    ensures SearchDown(t, lo, s) == DescAt(t, s)
  {
  }

  lemma TailTextWithGitmoji(c: char, d: string, pr: Option<string>)
    requires |d| > 0
    ensures var t := TailText(Some(c), d, pr);
      |t| > 3 && t[0] == ' ' && t[1] == c && t[2] == ' ' && t[3..] == d + PrPart(pr)
  {
  }

  lemma TailTextWithoutGitmoji(d: string, pr: Option<string>)
    requires |d| > 0
    ensures var t := TailText(None, d, pr);
      |t| > 1 && t[0] == ' ' && t[1..] == d + PrPart(pr)
  {
  }

  lemma TailWithGitmoji(c: char, d: string, pr: Option<string>)
    requires DescOk(d, pr) && IsGitmoji(c)
    ensures MatchTail(TailText(Some(c), d, pr)) == Some(TailMatch(Some(c), d, pr))
  {
    var t := TailText(Some(c), d, pr);
    TailTextWithGitmoji(c, d, pr);
    GitmojiNotWs(c);
    assert t[3] == d[0];
    SpanEnd(t, 0, 1, IsWs);
    SpanEnd(t, 2, 3, IsWs);
    DescRoundTrip(t, 3, d, pr);
    SearchDownHit(t, 2, 3);
    MatchTailEmoji(t, Desc(3, 3 + |d|, pr));
    assert t[3..3 + |d|] == d;
  }

  lemma TailWithoutGitmoji(d: string, pr: Option<string>)
    requires DescOk(d, pr) && !IsGitmoji(d[0])
    ensures MatchTail(TailText(None, d, pr)) == Some(TailMatch(None, d, pr))
  {
    var t := TailText(None, d, pr);
    TailTextWithoutGitmoji(d, pr);
    assert t[1] == d[0];
    SpanEnd(t, 0, 1, IsWs);
    DescRoundTrip(t, 1, d, pr);
    SearchDownHit(t, 0, 1);
    MatchTailPlain(t, Desc(1, 1 + |d|, pr));
    assert t[1..1 + |d|] == d;
  }

  /** The scope, the `!` and the colon are read back as written. */
  lemma HeadRoundTrip(h: string, q: nat, scope: Option<string>, bang: bool)
    requires q + |HeadText(scope, bang)| <= |h| && h[q..q + |HeadText(scope, bang)|] == HeadText(scope, bang)
    requires match scope case None => true case Some(x) => |x| > 0 && forall i :: 0 <= i < |x| ==> x[i] != ')'
    ensures MatchHead(h, q) == Some(Head(scope, bang, q + |HeadText(scope, bang)| - 1))
  {
    var ht := HeadText(scope, bang);
    assert forall k :: q <= k < q + |ht| ==> h[k] == ht[k - q];
    match scope
    case None =>
    case Some(x) =>
      var close := q + 1 + |x|;
      assert forall k :: q + 1 <= k < close ==> h[k] == x[k - q - 1];
      SpanEnd(h, q + 1, close, NotCloseParen);
      assert h[q + 1..close] == x;
  }

  /** The round trip: every well-formed subject line is parsed into the groups it
      was built from. */
  lemma ParseRender(m: SubjectMatch)
    requires WellFormed(m)
    ensures ParseSubject(Render(m)) == Some(m)
  {
    var h, ht := Render(m), HeadText(m.scope, m.bang);
    RenderLayout(m);
    TailRoundTrip(m);
    assert MatchTail(h[|m.typ| + |ht|..]) == Some(TailMatch(m.gitmoji, m.rawDescription, m.pr));
    ParseFromLayout(h, m, |m.typ|, ht);
  }

  /** Where the type, the head and the tail sit in a rendered subject. */
  lemma RenderLayout(m: SubjectMatch)
    ensures var h, ht, q := Render(m), HeadText(m.scope, m.bang), |m.typ|;
      q + |ht| <= |h| && h[..q] == m.typ && h[q..q + |ht|] == ht
      && h[q + |ht|..] == TailText(m.gitmoji, m.rawDescription, m.pr)
  {
    var ht := HeadText(m.scope, m.bang);
    ThreeParts(m.typ, ht, TailText(m.gitmoji, m.rawDescription, m.pr));
  }

  /** A text that starts with a well-formed match's type and head, and whose rest
      supplies that match's tail groups, is parsed into that match. */
  lemma ParseFromLayout(h: string, m: SubjectMatch, q: nat, ht: string)
    requires |m.typ| > 0 && (forall i :: 0 <= i < |m.typ| ==> IsWordChar(m.typ[i])) && ScopeOk(m.scope)
    requires q == |m.typ| && ht == HeadText(m.scope, m.bang)
    requires q + |ht| <= |h| && h[..q] == m.typ && h[q..q + |ht|] == ht
    requires MatchTail(h[q + |ht|..]) == Some(TailMatch(m.gitmoji, m.rawDescription, m.pr))
    ensures ParseSubject(h) == Some(m)
  {
    assert forall k :: 0 <= k < q ==> h[k] == m.typ[k];
    assert h[q] == ht[0];
    HeadRoundTrip(h, q, m.scope, m.bang);
    ParseFromParts(h, q, Head(m.scope, m.bang, q + |ht| - 1), TailMatch(m.gitmoji, m.rawDescription, m.pr));
    assert h[..q] == m.typ;
  }

  /** The tail of a well-formed subject is read back as written. */
  lemma TailRoundTrip(m: SubjectMatch)
    requires WellFormed(m)
    ensures MatchTail(TailText(m.gitmoji, m.rawDescription, m.pr))
      == Some(TailMatch(m.gitmoji, m.rawDescription, m.pr))
  {
    match m.gitmoji
    case None => TailWithoutGitmoji(m.rawDescription, m.pr);
    case Some(c) => TailWithGitmoji(c, m.rawDescription, m.pr);
  }

  /** A word at the start, a head after it and a tail after the colon make the
      match `header.match` returns. */
  lemma ParseFromParts(h: string, q: nat, hd: Head, tm: TailMatch)
    requires 0 < q < |h| && (forall k :: 0 <= k < q ==> IsWordChar(h[k])) && !IsWordChar(h[q])
    requires MatchHead(h, q) == Some(hd) && MatchTail(h[hd.colon + 1..]) == Some(tm)
    ensures ParseSubject(h) == Some(SubjectMatch(h[..q], hd.scope, hd.bang, tm.gitmoji, tm.rawDescription, tm.pr))
  {
    SpanEnd(h, 0, q, IsWordChar);
    MatchAtOf(h, 0, q, hd, tm);
    FindFromFirst(h);
  }

  lemma ThreeParts(a: string, b: string, c: string)
    ensures var s := a + b + c;
      && (forall k :: 0 <= k < |a| ==> s[k] == a[k])
      && s[..|a|] == a && s[|a|..|a| + |b|] == b && s[|a| + |b|..] == c
  {
  }

  /** `MatchAt` assembled from its parts. */
  lemma MatchAtOf(h: string, p: nat, q: nat, hd: Head, tm: TailMatch)
    requires p < |h| && IsWordChar(h[p]) && q == Span(h, p, IsWordChar)
    requires MatchHead(h, q) == Some(hd)
    requires MatchTail(h[hd.colon + 1..]) == Some(tm)
    ensures MatchAt(h, p) == Some(SubjectMatch(h[p..q], hd.scope, hd.bang,
      tm.gitmoji, tm.rawDescription, tm.pr))
  {
  }

  /** A match at the very start is the one `match` returns. */
  lemma FindFromFirst(h: string)
    requires |h| > 0 && MatchAt(h, 0).Some?
    ensures FindFrom(h, 0) == MatchAt(h, 0)
  {
  }

  // ---------------------------------------------------------------------------
  // When the subject matches at all

  /** A scope group the pattern accepts: non-empty, without `)`. */
  ghost predicate ScopeOk(scope: Option<string>) {
    match scope case None => true case Some(x) => |x| > 0 && forall i :: 0 <= i < |x| ==> x[i] != ')'
  }

  /** A word `h[p..q]`, then `(scope)`, `!` and the colon at `c`, then at least one
      more character. */
  ghost predicate HeaderAt(h: string, p: nat, q: nat, c: nat) {
    p < q <= c && c + 1 < |h| && (forall i :: p <= i < q ==> IsWordChar(h[i]))
    && exists sc: Option<string>, b: bool :: ScopeOk(sc) && h[q..c + 1] == HeadText(sc, b)
  }

  /** Once a line-terminator-free stretch remains, some description starts at `s`:
      at worst it runs to the end. */
  lemma DescAtSome(t: string, s: nat)
    requires s < |t| && LineFree(t, s, |t|)
    ensures DescAt(t, s).Some?
  {
    assert t[|t|..] == [];
    assert MatchRest([]) == Some(None);
    LazyEndSpec(t, s, s + 1);
  }

  /** Without line terminators, the part after the colon matches exactly when it
      is not empty. */
  lemma MatchTailSomeIff(t: string)
    requires NoLineTerminator(t)
    ensures MatchTail(t).Some? <==> |t| > 0
  {
    var k1 := Span(t, 0, IsWs);
    if |t| > 0 {
      var s := if k1 < |t| then k1 else k1 - 1;
      DescAtSome(t, s);
      SearchDownSpec(t, 0, k1);
    }
  }

  /** The gitmoji group is set exactly when an emoji follows the colon's whitespace
      and at least one character follows the emoji; it is that emoji. */
  lemma GitmojiCaptured(t: string, k: nat)
    requires NoLineTerminator(t) && k < |t| && IsGitmoji(t[k]) && forall i :: 0 <= i < k ==> IsWs(t[i])
    ensures MatchTail(t).Some?
    ensures MatchTail(t).value.gitmoji == (if k + 1 < |t| then Some(t[k]) else None)
  {
    GitmojiNotWs(t[k]);
    SpanEnd(t, 0, k, IsWs);
    var k2 := Span(t, k + 1, IsWs);
    if k + 1 < |t| {
      DescAtSome(t, if k2 < |t| then k2 else k2 - 1);
      SearchDownSpec(t, k + 1, k2);
    } else {
      assert DescAt(t, k + 1).None?;
      DescAtSome(t, k);
      SearchDownHit(t, 0, k);
    }
  }

  /** Without an emoji right after the colon's whitespace the gitmoji group is unset. */
  lemma NoGitmoji(t: string)
    requires MatchTail(t).Some?
    requires var k := Span(t, 0, IsWs); k == |t| || !IsGitmoji(t[k])
    ensures MatchTail(t).value.gitmoji.None?
  {
  }

  lemma HeadShapeOf(h: string, q: nat)
    requires q <= |h| && MatchHead(h, q).Some?
    ensures var hd := MatchHead(h, q).value;
      ScopeOk(hd.scope) && h[q..hd.colon + 1] == HeadText(hd.scope, hd.bang)
  {
    var hd := MatchHead(h, q).value;
    if h[q] == '(' {
      var close := Span(h, q + 1, NotCloseParen);
      var x := h[q + 1..close];
      assert forall i :: 0 <= i < |x| ==> x[i] == h[q + 1 + i];
      assert h[q..hd.colon + 1] == "(" + x + ")" + h[close + 1..hd.colon + 1];
    }
  }

  lemma MatchAtShape(h: string, p: nat)
    requires p <= |h| && MatchAt(h, p).Some?
    ensures exists q, c :: HeaderAt(h, p, q, c)
  {
    var q := Span(h, p, IsWordChar);
    var hd := MatchHead(h, q).value;
    HeadShapeOf(h, q);
    assert h[hd.colon + 1..] != [];
    assert HeaderAt(h, p, q, hd.colon);
  }

  lemma HeadOfShape(h: string, p: nat, q: nat, c: nat)
    requires HeaderAt(h, p, q, c)
    ensures Span(h, p, IsWordChar) == q && MatchHead(h, q).Some? && MatchHead(h, q).value.colon == c
  {
    var sc: Option<string>, b: bool :| ScopeOk(sc) && h[q..c + 1] == HeadText(sc, b);
    assert h[q] == HeadText(sc, b)[0];
    SpanEnd(h, p, q, IsWordChar);
    HeadRoundTrip(h, q, sc, b);
  }

  lemma MatchAtOfShape(h: string, p: nat, q: nat, c: nat)
    requires NoLineTerminator(h) && HeaderAt(h, p, q, c)
    ensures MatchAt(h, p).Some?
  {
    HeadOfShape(h, p, q, c);
    var t := h[c + 1..];
    assert NoLineTerminator(t) by {
      assert forall i :: 0 <= i < |t| ==> t[i] == h[c + 1 + i];
    }
    MatchTailSomeIff(t);
  }

  /** `parseCommit` gives `undefined` on a one-line subject exactly when no word in
      it is followed by an optional non-empty `(scope)`, an optional `!`, a colon
      and at least one more character. */
  lemma ParseSubjectSomeIff(h: string)
    requires NoLineTerminator(h)
    ensures ParseSubject(h).Some? <==> exists p, q, c :: HeaderAt(h, p, q, c)
  {
    FindFromSpec(h, 0);
    if ParseSubject(h).Some? {
      var p :| 0 <= p < |h| && MatchAt(h, p) == ParseSubject(h);
      MatchAtShape(h, p);
    }
    if exists p, q, c :: HeaderAt(h, p, q, c) {
      var p, q, c :| HeaderAt(h, p, q, c);
      MatchAtOfShape(h, p, q, c);
    }
  }
}
