/**
 * Issue references in a commit footer (`extractNumbers` and `parseIssueFooters`
 * in test.ts).
 */
module IssueRefs {
  import opened Text

  /** The decimal value of a string of ASCII digits, as `Number` reads it;
      leading zeros do not matter. */
  function DigitsValue(ds: string): nat
    requires AllDigits(ds)
  {
    if |ds| == 0 then 0
    else DigitsValue(ds[..|ds| - 1]) * 10 + (ds[|ds| - 1] as int - '0' as int)
  }

  /** `extractNumbers`: the value of every `#\d+` in the text, left to right. The
      global regular expression resumes after each match and moves one character
      on after a failed attempt. */
  function ExtractNumbers(s: string): seq<nat>
    decreases |s|
  {
    if |s| == 0 then []
    else if s[0] == '#' && |s| > 1 && IsDigit(s[1]) then
      var j := Span(s, 1, IsDigit);
      [DigitsValue(s[1..j])] + ExtractNumbers(s[j..])
    else ExtractNumbers(s[1..])
  }

  /** A text without `#` references no issue. */
  lemma {:induction false} ExtractNumbersNone(s: string)
    requires forall i :: 0 <= i < |s| ==> s[i] != '#'
    ensures ExtractNumbers(s) == []
    decreases |s|
  {
    if |s| > 0 {
      ExtractNumbersNone(s[1..]);
    }
  }

  /** `#` followed by digits is one reference with their value. */
  lemma ExtractNumbersSingle(ds: string)
    requires |ds| > 0 && AllDigits(ds)
    ensures ExtractNumbers("#" + ds) == [DigitsValue(ds)]
  {
    var s := "#" + ds;
    assert s[1..] == ds;
    assert forall k :: 1 <= k < |s| ==> s[k] == ds[k - 1];
    SpanEnd(s, 1, |s|, IsDigit);
    var j := Span(s, 1, IsDigit);
    assert s[0] == '#' && IsDigit(s[1]);
    assert ExtractNumbers(s) == [DigitsValue(s[1..j])] + ExtractNumbers(s[j..]);
    assert s[1..j] == ds;
    assert s[j..] == [];
  }

  /** A character that is neither a digit nor `#` separates references: the numbers of
      `a + [c] + b` are those of `a` followed by those of `b`. */
  lemma {:induction false} ExtractNumbersSplit(a: string, c: char, b: string)
    requires !IsDigit(c) && c != '#'
    ensures ExtractNumbers(a + [c] + b) == ExtractNumbers(a) + ExtractNumbers(b)
    decreases |a|
  {
    var s := a + [c] + b;
    if |a| == 0 {
      assert s[1..] == b;
    } else if a[0] == '#' && |a| > 1 && IsDigit(a[1]) {
      var j := Span(a, 1, IsDigit);
      ReferenceBeforeSeparator(a, c, b);
      ExtractNumbersSplit(a[j..], c, b);
    } else {
      SkipBeforeSeparator(a, c, b);
      ExtractNumbersSplit(a[1..], c, b);
    }
  }

  /** The reference at the start of `a` is read the same way in `a + [c] + b`. */
  lemma ReferenceBeforeSeparator(a: string, c: char, b: string)
    requires !IsDigit(c) && |a| > 1 && a[0] == '#' && IsDigit(a[1])
    ensures var j := Span(a, 1, IsDigit);
      && ExtractNumbers(a) == [DigitsValue(a[1..j])] + ExtractNumbers(a[j..])
      && ExtractNumbers(a + [c] + b) == [DigitsValue(a[1..j])] + ExtractNumbers(a[j..] + [c] + b)
  {
    var s := a + [c] + b;
    var j := Span(a, 1, IsDigit);
    SpanThroughSeparator(a, c, b);
    assert s[0] == '#' && IsDigit(s[1]);
    assert s[1..j] == a[1..j];
    assert s[j..] == a[j..] + [c] + b;
  }

  /** A first character of `a` that starts no reference is skipped in `a + [c] + b`. */
  lemma SkipBeforeSeparator(a: string, c: char, b: string)
    requires !IsDigit(c) && |a| > 0 && !(a[0] == '#' && |a| > 1 && IsDigit(a[1]))
    ensures ExtractNumbers(a) == ExtractNumbers(a[1..])
    ensures ExtractNumbers(a + [c] + b) == ExtractNumbers(a[1..] + [c] + b)
  {
    var s := a + [c] + b;
    assert s[0] == a[0] && (|a| > 1 ==> s[1] == a[1]) && (|a| == 1 ==> s[1] == c);
    assert !(s[0] == '#' && |s| > 1 && IsDigit(s[1]));
    assert s[1..] == a[1..] + [c] + b;
  }

  lemma SpanThroughSeparator(a: string, c: char, b: string)
    requires 1 <= |a| && !IsDigit(c)
    ensures Span(a + [c] + b, 1, IsDigit) == Span(a, 1, IsDigit)
  {
    var s := a + [c] + b;
    var j := Span(a, 1, IsDigit);
    assert j < |a| ==> s[j] == a[j];
    SpanEnd(s, 1, j, IsDigit);
  }

  /** A reference starts at `i`: `#` followed by a digit. */
  predicate RefAt(s: string, i: nat) {
    i + 1 < |s| && s[i] == '#' && IsDigit(s[i + 1])
  }

  /** Every reference in the text is reported where it stands: the numbers are those
      before it, then its own value, then those after its digits `s[i + 1..j]`. */
  lemma ExtractNumbersAt(s: string, i: nat, j: nat)
    requires RefAt(s, i) && j == Span(s, i + 1, IsDigit)
    ensures ExtractNumbers(s) == ExtractNumbers(s[..i]) + [DigitsValue(s[i + 1..j])] + ExtractNumbers(s[j..])
  {
    CutBeforeHash(s, i);
    var u := s[i..];
    SpanDrop(s, i, i + 1, j);
    assert u[0] == '#' && IsDigit(u[1]);
    ReadReference(u, j - i);
    assert u[1..j - i] == s[i + 1..j];
    assert u[j - i..] == s[j..];
  }

  /** A text that starts with a reference ending at `j` yields its value first. */
  lemma ReadReference(u: string, j: nat)
    requires 1 < |u| && u[0] == '#' && IsDigit(u[1]) && j == Span(u, 1, IsDigit)
    ensures ExtractNumbers(u) == [DigitsValue(u[1..j])] + ExtractNumbers(u[j..])
  {
  }

  /** No match of the scan runs across a `#` that does not start it, so the text may
      be cut just before any `#`. */
  lemma {:induction false} CutBeforeHash(s: string, i: nat)
    requires i < |s| && s[i] == '#'
    ensures ExtractNumbers(s) == ExtractNumbers(s[..i]) + ExtractNumbers(s[i..])
    decreases |s|
  {
    if i == 0 {
      assert s[..i] == [];
    } else {
      var k := Lead(s);
      FirstStep(s, i);
      var t := s[k..];
      assert t[i - k] == '#';
      CutBeforeHash(t, i - k);
      assert t[i - k..] == s[i..];
      Assemble(ExtractNumbers(s), ExtractNumbers(s[..i]), ExtractNumbers(s[..k]), ExtractNumbers(t),
        ExtractNumbers(t[..i - k]), ExtractNumbers(s[i..]));
    }
  }

  lemma Assemble(all: seq<nat>, before: seq<nat>, lead: seq<nat>, tail: seq<nat>,
                 mid: seq<nat>, after: seq<nat>)
    requires all == lead + tail && before == lead + mid && tail == mid + after
    ensures all == before + after
  {
  }

  /** How many characters the first step of the scan consumes: a whole reference, or
      one character. */
  function Lead(s: string): (k: nat)
    requires |s| > 0
    ensures 0 < k <= |s|
  {
    if s[0] == '#' && |s| > 1 && IsDigit(s[1]) then Span(s, 1, IsDigit) else 1
  }

  /** The first step reads the same in the text and in the text cut before a later
      `#`. */
  lemma FirstStep(s: string, i: nat)
    requires 0 < i < |s| && s[i] == '#'
    ensures Lead(s) <= i
    ensures ExtractNumbers(s) == ExtractNumbers(s[..Lead(s)]) + ExtractNumbers(s[Lead(s)..])
    ensures ExtractNumbers(s[..i]) == ExtractNumbers(s[..Lead(s)]) + ExtractNumbers(s[Lead(s)..][..i - Lead(s)])
  {
    if s[0] == '#' && IsDigit(s[1]) {
      FirstStepReference(s, i, Span(s, 1, IsDigit));
    } else {
      FirstStepSkip(s, i);
    }
  }

  lemma FirstStepReference(s: string, i: nat, k: nat)
    requires 0 < i < |s| && s[i] == '#' && s[0] == '#' && IsDigit(s[1]) && k == Span(s, 1, IsDigit)
    ensures k <= i
    ensures ExtractNumbers(s) == ExtractNumbers(s[..k]) + ExtractNumbers(s[k..])
    ensures ExtractNumbers(s[..i]) == ExtractNumbers(s[..k]) + ExtractNumbers(s[k..][..i - k])
  {
    ReferenceBeforeCut(s, i, k);
    ExtractNumbersSingle(s[1..k]);
    assert s[..k] == "#" + s[1..k];
  }

  lemma FirstStepSkip(s: string, i: nat)
    requires 0 < i < |s| && !(s[0] == '#' && IsDigit(s[1]))
    ensures ExtractNumbers(s) == ExtractNumbers(s[..1]) + ExtractNumbers(s[1..])
    ensures ExtractNumbers(s[..i]) == ExtractNumbers(s[..1]) + ExtractNumbers(s[1..][..i - 1])
  {
    var u := s[..i];
    SkipFirst(s);
    assert u[0] == s[0] && (i > 1 ==> u[1] == s[1]);
    SkipFirst(u);
    assert u[1..] == s[1..][..i - 1];
    assert ExtractNumbers(s[..1]) == [];
  }

  /** A first character that starts no reference is passed over. */
  lemma SkipFirst(s: string)
    requires |s| > 0 && !(s[0] == '#' && |s| > 1 && IsDigit(s[1]))
    ensures ExtractNumbers(s) == ExtractNumbers(s[1..])
  {
  }

  /** Dropping `k` characters moves a run's end back by `k`. */
  lemma SpanDrop(s: string, k: nat, m: nat, j: nat)
    requires k <= m <= |s| && j == Span(s, m, IsDigit)
    ensures Span(s[k..], m - k, IsDigit) == j - k
  {
    var t := s[k..];
    assert forall q :: m - k <= q < j - k ==> t[q] == s[q + k];
    assert j - k < |t| ==> t[j - k] == s[j];
    SpanEnd(t, m - k, j - k, IsDigit);
  }

  /** A reference at the start of the text, ending at `k <= i`, is read the same way
      in the text cut at `i`. */
  lemma ReferenceBeforeCut(s: string, i: nat, k: nat)
    requires 0 < i < |s| && s[i] == '#' && s[0] == '#' && 1 < |s| && IsDigit(s[1])
    requires k == Span(s, 1, IsDigit) && k <= i
    ensures ExtractNumbers(s) == [DigitsValue(s[1..k])] + ExtractNumbers(s[k..])
    ensures ExtractNumbers(s[..i]) == [DigitsValue(s[1..k])] + ExtractNumbers(s[k..][..i - k])
  {
    var u := s[..i];
    assert k < i ==> u[k] == s[k];
    assert forall q :: 1 <= q < k ==> u[q] == s[q];
    SpanEnd(u, 1, k, IsDigit);
    assert u[0] == '#' && IsDigit(u[1]);
    assert u[1..k] == s[1..k];
    assert u[k..] == s[k..][..i - k];
  }

  /** The numbers are empty exactly when no reference starts anywhere in the text. */
  lemma ExtractNumbersEmptyIff(s: string)
    ensures ExtractNumbers(s) == [] <==> forall i: nat :: !RefAt(s, i)
  {
    if exists i: nat :: RefAt(s, i) {
      var i: nat :| RefAt(s, i);
      ExtractNumbersAt(s, i, Span(s, i + 1, IsDigit));
    } else {
      ExtractNumbersNoRef(s);
    }
  }

  lemma {:induction false} ExtractNumbersNoRef(s: string)
    requires forall i: nat :: !RefAt(s, i)
    ensures ExtractNumbers(s) == []
    decreases |s|
  {
    if |s| > 0 {
      assert !RefAt(s, 0);
      forall i: nat ensures !RefAt(s[1..], i) {
        assert !RefAt(s, i + 1);
      }
      ExtractNumbersNoRef(s[1..]);
    }
  }

  /** The five link kinds, in the order of the `typeMatchers` record. */
  datatype LinkKind = Fixes | Closes | Resolves | Related | Refs

  const Kinds: seq<LinkKind> := [Fixes, Closes, Resolves, Related, Refs]

  /** `Kinds` lists every kind once. */
  lemma AllKinds()
    ensures forall k: LinkKind :: k in Kinds
    ensures forall u, v :: 0 <= u < v < |Kinds| ==> Kinds[u] != Kinds[v]
  {
    forall k: LinkKind ensures k in Kinds {
      match k
      case Fixes => assert k == Kinds[0];
      case Closes => assert k == Kinds[1];
      case Resolves => assert k == Kinds[2];
      case Related => assert k == Kinds[3];
      case Refs => assert k == Kinds[4];
    }
  }

  /** The alternatives of each kind's pattern, all anchored at the start of the line
      and matched ignoring ASCII case: `^Fixes`, `^Closes`, `^Resolves`,
      `^(Related to|Related)`, `^Refs?`. */
  function Alternatives(k: LinkKind): seq<string> {
    match k
    case Fixes => ["Fixes"]
    case Closes => ["Closes"]
    case Resolves => ["Resolves"]
    case Related => ["Related to", "Related"]
    case Refs => ["Refs", "Ref"]
  }

  /** `regex.test(line)` for the pattern of kind `k`: one of its alternatives is a
      case-insensitive prefix of the line. */
  predicate Matches(k: LinkKind, line: string) {
    var alts := Alternatives(k);
    OccursAtCI(line, alts[0], 0) || (|alts| > 1 && OccursAtCI(line, alts[1], 0))
  }

  /** `Matches` is the existence of a matching alternative. */
  lemma MatchesIff(k: LinkKind, line: string)
    ensures Matches(k, line) <==>
      exists i :: 0 <= i < |Alternatives(k)| && OccursAtCI(line, Alternatives(k)[i], 0)
  {
  }

  /** The patterns exclude each other: a line feeds at most one kind. */
  lemma MatchesExclusive(k1: LinkKind, k2: LinkKind, line: string)
    requires Matches(k1, line) && Matches(k2, line)
    ensures k1 == k2
  {
    MatchesIff(k1, line);
    MatchesIff(k2, line);
    var i1 :| 0 <= i1 < |Alternatives(k1)| && OccursAtCI(line, Alternatives(k1)[i1], 0);
    var i2 :| 0 <= i2 < |Alternatives(k2)| && OccursAtCI(line, Alternatives(k2)[i2], 0);
    var p1, p2 := Alternatives(k1)[i1], Alternatives(k2)[i2];
    assert AsciiLower(line[0]) == AsciiLower(p1[0]) == AsciiLower(p2[0]);
    assert AsciiLower(line[2]) == AsciiLower(p1[2]) == AsciiLower(p2[2]);
  }

  /** The lines `parseIssueFooters` looks at: split on `\n`, trimmed, empty ones dropped. */
  function FooterLines(body: string): seq<string> {
    DropEmpty(TrimEach(SplitOn(body, "\n")))
  }

  /** The numbers one line adds to kind `k`. */
  function Contribution(line: string, k: LinkKind): seq<nat> {
    if Matches(k, line) then ExtractNumbers(line) else []
  }

  /** The numbers `f` assigns to each of `lines`, appended in line order. */
  function Gather(lines: seq<string>, f: string -> seq<nat>): seq<nat> {
    if |lines| == 0 then []
    else Gather(lines[..|lines| - 1], f) + f(lines[|lines| - 1])
  }

  lemma {:induction false} GatherAppend(a: seq<string>, b: seq<string>, f: string -> seq<nat>)
    ensures Gather(a + b, f) == Gather(a, f) + Gather(b, f)
    decreases |b|
  {
    if |b| == 0 {
      assert a + b == a;
    } else {
      var init, last := b[..|b| - 1], b[|b| - 1];
      assert (a + b)[..|a + b| - 1] == a + init;
      assert (a + b)[|a + b| - 1] == last;
      GatherAppend(a, init, f);
    }
  }

  /** The numbers of kind `k` collected over `lines`, appended in line order. */
  function KindNumbers(lines: seq<string>, k: LinkKind): seq<nat> {
    Gather(lines, line => Contribution(line, k))
  }

  /** Collecting over two blocks of lines appends their numbers. */
  lemma KindNumbersAppend(a: seq<string>, b: seq<string>, k: LinkKind)
    ensures KindNumbers(a + b, k) == KindNumbers(a, k) + KindNumbers(b, k)
  {
    GatherAppend(a, b, line => Contribution(line, k));
  }

  /** The five-key display of `lines`' numbers holds every kind. */
  lemma DisplayHasEveryKind(lines: seq<string>, links: map<LinkKind, seq<nat>>)
    requires links == map[Fixes := KindNumbers(lines, Fixes), Closes := KindNumbers(lines, Closes),
      Resolves := KindNumbers(lines, Resolves), Related := KindNumbers(lines, Related),
      Refs := KindNumbers(lines, Refs)]
    ensures forall k: LinkKind :: k in links && links[k] == KindNumbers(lines, k)
  {
    forall k: LinkKind ensures k in links && links[k] == KindNumbers(lines, k) {
      match k
      case Fixes =>
      case Closes =>
      case Resolves =>
      case Related =>
      case Refs =>
    }
  }

  /** What `parseIssueFooters` returns: the five-key record, each kind mapped to its
      numbers. */
  function IssueLinks(body: string): (links: map<LinkKind, seq<nat>>)
    ensures forall k: LinkKind :: k in links && links[k] == KindNumbers(FooterLines(body), k)
  {
    var lines := FooterLines(body);
    var links := map[Fixes := KindNumbers(lines, Fixes), Closes := KindNumbers(lines, Closes),
      Resolves := KindNumbers(lines, Resolves), Related := KindNumbers(lines, Related),
      Refs := KindNumbers(lines, Refs)];
    DisplayHasEveryKind(lines, links);
    links
  }

  /** A line that names no kind contributes to none. */
  lemma UnmatchedLineIgnored(lines: seq<string>, line: string)
    requires forall k: LinkKind :: !Matches(k, line)
    ensures forall k: LinkKind :: KindNumbers(lines + [line], k) == KindNumbers(lines, k)
  {
    forall k: LinkKind ensures KindNumbers(lines + [line], k) == KindNumbers(lines, k) {
      assert (lines + [line])[..|lines|] == lines;
    }
  }

  /** A line that names kind `k` adds its numbers to `k` and to no other kind. */
  lemma MatchedLineFeedsOneKind(lines: seq<string>, line: string, k: LinkKind)
    requires Matches(k, line)
    ensures KindNumbers(lines + [line], k) == KindNumbers(lines, k) + ExtractNumbers(line)
    ensures forall k' :: k' != k ==> KindNumbers(lines + [line], k') == KindNumbers(lines, k')
  {
    assert (lines + [line])[..|lines|] == lines;
    forall k' | k' != k ensures KindNumbers(lines + [line], k') == KindNumbers(lines, k') {
      if Matches(k', line) {
        MatchesExclusive(k, k', line);
      }
    }
  }

  lemma DigitsValueOfTwo(ds: string)
    requires |ds| == 2 && AllDigits(ds)
    ensures DigitsValue(ds) == (ds[0] as int - '0' as int) * 10 + (ds[1] as int - '0' as int)
  {
    var d1 := ds[..1];
    assert d1[..0] == [] && d1[0] == ds[0];
    assert DigitsValue(d1) == ds[0] as int - '0' as int;
    assert ds[..|ds| - 1] == d1;
  }

  /** `#` and digits after a word and a space. */
  lemma NumbersAfterSpace(w: string, ds: string)
    requires |ds| > 0 && AllDigits(ds) && forall i :: 0 <= i < |w| ==> w[i] != '#'
    ensures ExtractNumbers(w + [' '] + ("#" + ds)) == [DigitsValue(ds)]
  {
    ExtractNumbersSplit(w, ' ', "#" + ds);
    ExtractNumbersNone(w);
    ExtractNumbersSingle(ds);
  }

  /** `#` and two digits after a word and a space. */
  lemma NumbersAfterWord(w: string, ds: string)
    requires |ds| == 2 && AllDigits(ds) && forall i :: 0 <= i < |w| ==> w[i] != '#'
    ensures ExtractNumbers(w + " " + "#" + ds) == [DigitsValue(ds)]
  {
    NumbersAfterSpace(w, ds);
    assert w + [' '] + ("#" + ds) == w + " " + "#" + ds;
  }

  lemma NoNewlineInFirst(l1: string, l2: string)
    requires forall i :: 0 <= i < |l1| ==> l1[i] != '\n'
    ensures forall i :: 0 <= i < |l1| ==> !OccursAt(l1 + "\n" + l2, "\n", i)
  {
    var s := l1 + "\n" + l2;
    forall i | 0 <= i < |l1| ensures !OccursAt(s, "\n", i) {
      assert s[i..i + 1][0] == s[i] == l1[i];
    }
  }

  lemma NoNewlineAnywhere(l: string)
    requires forall i :: 0 <= i < |l| ==> l[i] != '\n'
    ensures forall i :: 0 <= i ==> !OccursAt(l, "\n", i)
  {
    forall i | 0 <= i ensures !OccursAt(l, "\n", i) {
      if i + 1 <= |l| {
        assert l[i..i + 1][0] == l[i];
      }
    }
  }

  /** Two trimmed lines joined by a newline are the footer's two lines. */
  lemma LinesOfTwo(l1: string, l2: string)
    requires |l1| > 0 && |l2| > 0 && IsTrimmed(l1) && IsTrimmed(l2)
    requires forall i :: 0 <= i < |l1| ==> l1[i] != '\n'
    requires forall i :: 0 <= i < |l2| ==> l2[i] != '\n'
    ensures FooterLines(l1 + "\n" + l2) == [l1, l2]
  {
    NoNewlineInFirst(l1, l2);
    SplitOnFirst(l1, "\n", l2);
    NoNewlineAnywhere(l2);
    SplitOnNone(l2, "\n");
    var split := SplitOn(l1 + "\n" + l2, "\n");
    assert split == [l1, l2];
    TrimOfTrimmed(l1);
    TrimOfTrimmed(l2);
    var trimmed := TrimEach(split);
    assert trimmed[0] == l1 && trimmed[1] == l2;
    assert trimmed == [l1] + [l2];
    DropEmptyAppend([l1], [l2]);
    assert [l1][1..] == [] && [l2][1..] == [];
    assert DropEmpty([l1]) == [l1] && DropEmpty([l2]) == [l2];
  }

  /** `w #a, #b` references `a` and `b`. */
  lemma NumbersOfTwoRefs(w: string, a: string, b: string)
    requires forall i :: 0 <= i < |w| ==> w[i] != '#'
    requires |a| > 0 && AllDigits(a) && |b| > 0 && AllDigits(b)
    ensures ExtractNumbers(w + " #" + a + ", #" + b) == [DigitsValue(a), DigitsValue(b)]
  {
    var second := [] + [' '] + ("#" + b);
    var tail := "#" + a + [','] + second;
    RefsLayout(w, a, b);
    NumbersAfterPrefix(w, tail);
    NumbersBeforeComma(a, second);
    ExtractNumbersSplit([], ' ', "#" + b);
    ExtractNumbersSingle(b);
  }

  lemma RefsLayout(w: string, a: string, b: string)
    ensures w + " #" + a + ", #" + b == w + [' '] + ("#" + a + [','] + ([] + [' '] + ("#" + b)))
  {
    assert " #" == [' '] + "#";
    assert ", #" == [','] + [' '] + "#";
  }

  /** A prefix without `#`, then a space, adds no numbers. */
  lemma NumbersAfterPrefix(w: string, tail: string)
    requires forall i :: 0 <= i < |w| ==> w[i] != '#'
    ensures ExtractNumbers(w + [' '] + tail) == ExtractNumbers(tail)
  {
    ExtractNumbersSplit(w, ' ', tail);
    ExtractNumbersNone(w);
  }

  /** `#a,` then the rest: the value of `a` first. */
  lemma NumbersBeforeComma(a: string, rest: string)
    requires |a| > 0 && AllDigits(a)
    ensures ExtractNumbers("#" + a + [','] + rest) == [DigitsValue(a)] + ExtractNumbers(rest)
  {
    ExtractNumbersSplit("#" + a, ',', rest);
    ExtractNumbersSingle(a);
  }

  /** Each kind's numbers over two lines. */
  lemma KindNumbersTwo(l1: string, l2: string, k: LinkKind)
    ensures KindNumbers([l1, l2], k) == Contribution(l1, k) + Contribution(l2, k)
  {
    var ls := [l1, l2];
    var f := line => Contribution(line, k);
    assert ls[..1] == [l1] && [l1][..0] == [];
    assert Gather([l1], f) == Gather([], f) + f(l1);
    assert Gather(ls, f) == Gather(ls[..1], f) + f(ls[1]);
  }

  /** Two lines naming two different kinds: each kind gets its line's numbers and
      the other kinds stay empty. */
  lemma IssueLinksOfTwo(body: string, l1: string, k1: LinkKind, l2: string, k2: LinkKind)
    requires FooterLines(body) == [l1, l2] && Matches(k1, l1) && Matches(k2, l2) && k1 != k2
    ensures forall k: LinkKind :: (IssueLinks(body)[k]
      == (if k == k1 then ExtractNumbers(l1) else if k == k2 then ExtractNumbers(l2) else []))
  {
    forall k: LinkKind ensures KindNumbers([l1, l2], k)
      == (if k == k1 then ExtractNumbers(l1) else if k == k2 then ExtractNumbers(l2) else [])
    {
      KindNumbersTwo(l1, l2, k);
      if k != k1 && Matches(k, l1) {
        MatchesExclusive(k, k1, l1);
      }
      if k != k2 && Matches(k, l2) {
        MatchesExclusive(k, k2, l2);
      }
    }
  }

  lemma ExampleLines()
    ensures FooterLines("Closes #12\nRefs #34, #56") == ["Closes #12", "Refs #34, #56"]
  {
    LinesOfTwo("Closes #12", "Refs #34, #56");
    assert "Closes #12" + "\n" + "Refs #34, #56" == "Closes #12\nRefs #34, #56";
  }

  lemma ExampleClosed()
    ensures Matches(Closes, "Closes #12") && ExtractNumbers("Closes #12") == [12]
  {
    assert OccursAtCI("Closes #12", "Closes", 0);
    NumbersAfterWord("Closes", "12");
    DigitsValueOfTwo("12");
    assert "Closes" + " " + "#" + "12" == "Closes #12";
  }

  lemma ExampleRefsNumbers()
    ensures ExtractNumbers("Refs" + " #" + "34" + ", #" + "56") == [34, 56]
  {
    NumbersOfTwoRefs("Refs", "34", "56");
    DigitsValueOfTwo("34");
    DigitsValueOfTwo("56");
  }

  lemma ExampleReferenced()
    ensures Matches(Refs, "Refs #34, #56") && ExtractNumbers("Refs #34, #56") == [34, 56]
  {
    assert OccursAtCI("Refs #34, #56", "Refs", 0);
    ExampleRefsNumbers();
    assert "Refs" + " #" + "34" + ", #" + "56" == "Refs #34, #56";
  }

  /** A record with every kind as a key is the five-key display of its values. */
  lemma RecordDisplay(links: map<LinkKind, seq<nat>>, f: LinkKind -> seq<nat>)
    requires forall k: LinkKind :: k in links && links[k] == f(k)
    ensures links == map[Fixes := f(Fixes), Closes := f(Closes), Resolves := f(Resolves),
      Related := f(Related), Refs := f(Refs)]
  {
    var display := map[Fixes := f(Fixes), Closes := f(Closes), Resolves := f(Resolves),
      Related := f(Related), Refs := f(Refs)];
    forall k: LinkKind ensures k in display && display[k] == links[k] {
      match k
      case Fixes =>
      case Closes =>
      case Resolves =>
      case Related =>
      case Refs =>
    }
  }

  /** A `Closes` line followed by a `Refs` line: the record as a five-key display. */
  lemma ClosedThenRefs(body: string, l1: string, l2: string)
    requires FooterLines(body) == [l1, l2] && Matches(Closes, l1) && Matches(Refs, l2)
    ensures IssueLinks(body) == map[Fixes := [], Closes := ExtractNumbers(l1),
      Resolves := [], Related := [], Refs := ExtractNumbers(l2)]
  {
    IssueLinksOfTwo(body, l1, Closes, l2, Refs);
    ClosedRefsDisplay(IssueLinks(body), ExtractNumbers(l1), ExtractNumbers(l2));
  }

  lemma ClosedRefsDisplay(links: map<LinkKind, seq<nat>>, closed: seq<nat>, refs: seq<nat>)
    requires forall k: LinkKind :: (k in links
      && links[k] == (if k == Closes then closed else if k == Refs then refs else []))
    ensures links == map[Fixes := [], Closes := closed, Resolves := [], Related := [], Refs := refs]
  {
    var f := (k: LinkKind) => if k == Closes then closed else if k == Refs then refs else [];
    assert forall k: LinkKind :: k in links && links[k] == f(k);
    RecordDisplay(links, f);
  }

  /** The footer `Closes #12` / `Refs #34, #56` links issue 12 as closed and 34 and
      56 as referenced, and nothing else. */
  lemma IssueLinksExample()
    ensures IssueLinks("Closes #12\nRefs #34, #56")
      == map[Fixes := [], Closes := [12], Resolves := [], Related := [], Refs := [34, 56]]
  {
    ExampleLines();
    ExampleClosed();
    ExampleReferenced();
    ClosedThenRefs("Closes #12\nRefs #34, #56", "Closes #12", "Refs #34, #56");
  }

  /** One more line extends each kind's numbers by that line's contribution. */
  lemma KindNumbersStep(lines: seq<string>, i: nat, k: LinkKind)
    requires i < |lines|
    ensures KindNumbers(lines[..i + 1], k) == KindNumbers(lines[..i], k) + Contribution(lines[i], k)
  {
    assert lines[..i + 1][..i] == lines[..i];
  }

  /** `nums.forEach(n => res[kind].push(n))`: appends `nums` to the list of `kind`. */
  method PushAll(res: map<LinkKind, seq<nat>>, kind: LinkKind, nums: seq<nat>)
    returns (res': map<LinkKind, seq<nat>>)
    requires kind in res
    ensures res' == res[kind := res[kind] + nums]
  {
    res' := res;
    assert nums[..0] == [];
    assert res[kind] + [] == res[kind];
    assert res[kind := res[kind]] == res;
    for n := 0 to |nums|
      invariant res' == res[kind := res[kind] + nums[..n]]
    {
      assert nums[..n + 1] == nums[..n] + [nums[n]];
      assert res[kind] + nums[..n] + [nums[n]] == res[kind] + nums[..n + 1];
      res' := res'[kind := res'[kind] + [nums[n]]];
    }
    assert nums[..|nums|] == nums;
  }

  /** The body of the outer loop of `parseIssueFooters`: every kind whose pattern
      `line` matches receives the line's numbers. */
  method AddLine(res: map<LinkKind, seq<nat>>, line: string)
    returns (res': map<LinkKind, seq<nat>>)
    requires forall k: LinkKind :: k in res
    ensures forall k: LinkKind :: k in res' && res'[k] == res[k] + Contribution(line, k)
  {
    AllKinds();
    res' := res;
    for t := 0 to |Kinds|
      invariant forall k: LinkKind :: k in res'
      invariant forall u :: 0 <= u < t ==> res'[Kinds[u]] == res[Kinds[u]] + Contribution(line, Kinds[u])
      invariant forall u :: t <= u < |Kinds| ==> res'[Kinds[u]] == res[Kinds[u]]
    {
      var kind := Kinds[t];
      if Matches(kind, line) {
        var nums := ExtractNumbers(line);
        res' := PushAll(res', kind, nums);
      }
    }
    forall k: LinkKind ensures res'[k] == res[k] + Contribution(line, k) {
      assert k in Kinds;
      var u :| 0 <= u < |Kinds| && Kinds[u] == k;
    }
  }

  /** `parseIssueFooters`: for every footer line and every kind whose pattern the
      line matches, the line's numbers are pushed onto that kind's list. */
  method ParseIssueFooters(body: string) returns (res: map<LinkKind, seq<nat>>)
    ensures res == IssueLinks(body)
  {
    var lines := FooterLines(body);
    res := map[Fixes := [], Closes := [], Resolves := [], Related := [], Refs := []];
    forall k: LinkKind ensures k in res && res[k] == [] {
      match k
      case Fixes =>
      case Closes =>
      case Resolves =>
      case Related =>
      case Refs =>
    }
    assert lines[..0] == [];
    for i := 0 to |lines|
      invariant forall k: LinkKind :: k in res && res[k] == KindNumbers(lines[..i], k)
    {
      res := AddLine(res, lines[i]);
      forall k: LinkKind ensures res[k] == KindNumbers(lines[..i + 1], k) {
        KindNumbersStep(lines, i, k);
      }
    }
    assert lines[..|lines|] == lines;
    var links := IssueLinks(body);
    AllKinds();
    assert forall k: LinkKind :: k in links && links[k] == res[k];
  }
}
