/**
 * Character classes and string operations of the JavaScript runtime that the
 * changelog parser relies on: `\s`, `\w`, `\d` and `.` in regular expressions,
 * `String.prototype.trim`, `split` with a string separator, `Array.prototype.join`,
 * `filter(Boolean)` and ASCII case folding of `/i` patterns.
 *
 * Strings are sequences of Unicode code points, which is what a regular
 * expression with the `u` flag iterates over.
 */
module Text {

  /** `\s` in a JavaScript regular expression; also exactly the characters `trim` removes
      (WhiteSpace and LineTerminator of ECMA-262). */
  predicate IsWs(c: char) {
    c == '\t' || c == '\n' || c == '\U{000B}' || c == '\U{000C}' || c == '\r' || c == ' '
    || c == '\U{00A0}' || c == '\U{1680}' || ('\U{2000}' <= c <= '\U{200A}')
    || c == '\U{2028}' || c == '\U{2029}' || c == '\U{202F}' || c == '\U{205F}'
    || c == '\U{3000}' || c == '\U{FEFF}'
  }

  /** LineTerminator of ECMA-262: the characters that `.` does not match. */
  predicate IsLineTerminator(c: char) {
    c == '\n' || c == '\r' || c == '\U{2028}' || c == '\U{2029}'
  }

  /** `\d`: ASCII digits only. */
  predicate IsDigit(c: char) { '0' <= c <= '9' }

  predicate IsAsciiLetter(c: char) { 'A' <= c <= 'Z' || 'a' <= c <= 'z' }

  /** `\w`: ASCII letters, digits and underscore, also under the `u` flag. */
  predicate IsWordChar(c: char) { IsAsciiLetter(c) || IsDigit(c) || c == '_' }

  predicate AllWs(s: string) { forall i :: 0 <= i < |s| ==> IsWs(s[i]) }

  predicate NoLineTerminator(s: string) { forall i :: 0 <= i < |s| ==> !IsLineTerminator(s[i]) }

  predicate AllDigits(s: string) { forall i :: 0 <= i < |s| ==> IsDigit(s[i]) }

  /** The end of the longest run of characters satisfying `p` that starts at `i`:
      what a greedy `[...]*` reaches from `i`. */
  function Span(s: string, i: nat, p: char -> bool): (j: nat)
    requires i <= |s|
    ensures i <= j <= |s|
    ensures forall k :: i <= k < j ==> p(s[k])
    ensures j == |s| || !p(s[j])
    decreases |s| - i
  {
    if i == |s| || !p(s[i]) then i else Span(s, i + 1, p)
  }

  /** `Span` is pinned down by its postconditions: a run of `p` from `i` that stops
      at `j` ends at `j`. */
  lemma {:induction false} SpanEnd(s: string, i: nat, j: nat, p: char -> bool)
    requires i <= j <= |s|
    requires forall k :: i <= k < j ==> p(s[k])
    requires j == |s| || !p(s[j])
    ensures Span(s, i, p) == j
    decreases j - i
  {
    if i < j {
      SpanEnd(s, i + 1, j, p);
    }
  }

  /** The start of the longest run of characters satisfying `p` that ends at `j`. */
  function SpanBack(s: string, j: nat, p: char -> bool): (i: nat)
    requires j <= |s|
    ensures i <= j
    ensures forall k :: i <= k < j ==> p(s[k])
    ensures i == 0 || !p(s[i - 1])
  {
    if j == 0 || !p(s[j - 1]) then j else SpanBack(s, j - 1, p)
  }

  /** The two ends of a string carry no whitespace. */
  predicate IsTrimmed(s: string) {
    |s| == 0 || (!IsWs(s[0]) && !IsWs(s[|s| - 1]))
  }

  /** `String.prototype.trim`. Its properties are the lemmas below, so that proofs
      that only pass trimmed strings around do not pay for them. */
  function Trim(s: string): string {
    var a := Span(s, 0, IsWs);
    var b := SpanBack(s, |s|, IsWs);
    if b <= a then [] else s[a..b]
  }

  /** Trimming removes whitespace from both ends, and only there. */
  lemma TrimSpec(s: string)
    ensures IsTrimmed(Trim(s))
    ensures exists i :: 0 <= i <= |s| - |Trim(s)| && Trim(s) == s[i..i + |Trim(s)|]
                        && AllWs(s[..i]) && AllWs(s[i + |Trim(s)|..])
  {
    var a := Span(s, 0, IsWs);
    var b := SpanBack(s, |s|, IsWs);
    if b <= a {
      assert AllWs(s[..a]) && AllWs(s[a..]);
    } else {
      assert AllWs(s[..a]) && AllWs(s[b..]);
    }
  }

  lemma TrimOfTrimmed(s: string)
    requires IsTrimmed(s)
    ensures Trim(s) == s
  {
    if |s| > 0 {
      assert Span(s, 0, IsWs) == 0;
      assert SpanBack(s, |s|, IsWs) == |s|;
    }
  }

  /** Trimming leaves nothing exactly when the string is all whitespace. */
  lemma TrimEmptyIff(s: string)
    ensures Trim(s) == [] <==> AllWs(s)
  {
    var a := Span(s, 0, IsWs);
    var b := SpanBack(s, |s|, IsWs);
    if b <= a {
      assert a == |s|;
    } else {
      assert |s[a..b]| > 0 && !IsWs(s[a]);
    }
  }

  /** A list of strings joined with a separator: `Array.prototype.join`. */
  function Join(parts: seq<string>, sep: string): string {
    if |parts| == 0 then ""
    else if |parts| == 1 then parts[0]
    else parts[0] + sep + Join(parts[1..], sep)
  }

  /** `String.prototype.split` with a non-empty string separator: the pieces between
      the occurrences of `sep` found scanning left to right. `"".split(sep)` is `[""]`. */
  function SplitOn(s: string, sep: string): (parts: seq<string>)
    requires |sep| > 0
    ensures |parts| >= 1
    decreases |s|
  {
    if |s| < |sep| then [s]
    else if s[..|sep|] == sep then [""] + SplitOn(s[|sep|..], sep)
    else
      var rest := SplitOn(s[1..], sep);
      [[s[0]] + rest[0]] + rest[1..]
  }

  /** `sep` occurs in `s` at index `i`. */
  predicate OccursAt(s: string, sep: string, i: nat) {
    i + |sep| <= |s| && s[i..i + |sep|] == sep
  }

  lemma JoinCons(c: char, parts: seq<string>, sep: string)
    requires |parts| >= 1
    ensures Join([[c] + parts[0]] + parts[1..], sep) == [c] + Join(parts, sep)
  {
    var ps := [[c] + parts[0]] + parts[1..];
    if |parts| > 1 {
      assert ps[1..] == parts[1..];
    }
  }

  /** Joining the pieces of a split with the same separator gives back the string. */
  lemma {:induction false} JoinSplitOn(s: string, sep: string)
    requires |sep| > 0
    ensures Join(SplitOn(s, sep), sep) == s
    decreases |s|
  {
    if |s| < |sep| {
    } else if s[..|sep|] == sep {
      var rest := SplitOn(s[|sep|..], sep);
      JoinSplitOn(s[|sep|..], sep);
      assert ([""] + rest)[1..] == rest;
      assert s == sep + s[|sep|..];
    } else {
      var rest := SplitOn(s[1..], sep);
      JoinSplitOn(s[1..], sep);
      JoinCons(s[0], rest, sep);
      assert s == [s[0]] + s[1..];
    }
  }

  /** No piece of a split contains the separator. */
  lemma {:induction false} SplitOnPiecesFree(s: string, sep: string)
    requires |sep| > 0
    ensures forall k, i :: 0 <= k < |SplitOn(s, sep)| && 0 <= i ==> !OccursAt(SplitOn(s, sep)[k], sep, i)
    decreases |s|
  {
    var parts := SplitOn(s, sep);
    if |s| < |sep| {
      forall k, i | 0 <= k < |parts| && 0 <= i ensures !OccursAt(parts[k], sep, i) {
      }
    } else if s[..|sep|] == sep {
      SplitOnPiecesFree(s[|sep|..], sep);
      var rest := SplitOn(s[|sep|..], sep);
      forall k, i | 0 <= k < |parts| && 0 <= i ensures !OccursAt(parts[k], sep, i) {
        if k > 0 { assert parts[k] == rest[k - 1]; }
      }
    } else {
      SplitOnPiecesFree(s[1..], sep);
      var rest := SplitOn(s[1..], sep);
      JoinSplitOn(s[1..], sep);
      forall k, i | 0 <= k < |parts| && 0 <= i ensures !OccursAt(parts[k], sep, i) {
        if k > 0 {
          assert parts[k] == rest[k];
        } else if OccursAt(parts[0], sep, i) {
          var p := parts[0];
          assert p == [s[0]] + rest[0];
          if i == 0 {
            assert false;
          } else {
            assert p[i..i + |sep|] == rest[0][i - 1..i - 1 + |sep|];
            assert OccursAt(rest[0], sep, i - 1);
            assert false;
          }
        }
      }
    }
  }

  /** `filter(Boolean)` on strings: the empty strings are dropped, the others kept in order. */
  function DropEmpty(parts: seq<string>): (r: seq<string>)
    ensures forall k :: 0 <= k < |r| ==> r[k] != ""
    ensures forall x :: x in r <==> x in parts && x != ""
    ensures |r| <= |parts|
  {
    if |parts| == 0 then []
    else (if parts[0] == "" then [] else [parts[0]]) + DropEmpty(parts[1..])
  }

  /** `filter` keeps the order: dropping from a concatenation concatenates the results. */
  lemma {:induction false} DropEmptyAppend(a: seq<string>, b: seq<string>)
    ensures DropEmpty(a + b) == DropEmpty(a) + DropEmpty(b)
    decreases |a|
  {
    if |a| > 0 {
      assert (a + b)[1..] == a[1..] + b;
      DropEmptyAppend(a[1..], b);
    } else {
      assert a + b == b;
    }
  }

  /** A string without the separator is its own single piece. */
  lemma {:induction false} SplitOnNone(s: string, sep: string)
    requires |sep| > 0 && forall i :: 0 <= i ==> !OccursAt(s, sep, i)
    ensures SplitOn(s, sep) == [s]
    decreases |s|
  {
    if |s| >= |sep| {
      assert !OccursAt(s, sep, 0);
      forall i | 0 <= i ensures !OccursAt(s[1..], sep, i) {
        assert !OccursAt(s, sep, i + 1);
        if i + |sep| <= |s[1..]| {
          assert s[1..][i..i + |sep|] == s[i + 1..i + 1 + |sep|];
        }
      }
      SplitOnNone(s[1..], sep);
      assert s[..|sep|] == s[0..|sep|];
      assert [s[0]] + s[1..] == s;
    }
  }

  /** The first piece runs to the first occurrence of the separator. */
  lemma {:induction false} SplitOnFirst(a: string, sep: string, b: string)
    requires |sep| > 0 && forall i :: 0 <= i < |a| ==> !OccursAt(a + sep + b, sep, i)
    ensures SplitOn(a + sep + b, sep) == [a] + SplitOn(b, sep)
    decreases |a|
  {
    var s := a + sep + b;
    if |a| == 0 {
      assert s[..|sep|] == sep && s[|sep|..] == b;
    } else {
      assert !OccursAt(s, sep, 0);
      assert s[1..] == a[1..] + sep + b;
      forall i | 0 <= i < |a[1..]| ensures !OccursAt(a[1..] + sep + b, sep, i) {
        assert !OccursAt(s, sep, i + 1);
        assert s[i + 1..i + 1 + |sep|] == (a[1..] + sep + b)[i..i + |sep|];
      }
      SplitOnFirst(a[1..], sep, b);
      assert [s[0]] + a[1..] == a;
    }
  }

  /** Splitting at a newline placed between two texts splits each of them. */
  lemma {:induction false} SplitOnNewlineAppend(a: string, b: string)
    ensures SplitOn(a + "\n" + b, "\n") == SplitOn(a, "\n") + SplitOn(b, "\n")
    decreases |a|
  {
    var s := a + "\n" + b;
    if |a| == 0 {
      assert s[..1] == "\n" && s[1..] == b;
    } else if a[0] == '\n' {
      assert s[..1] == "\n" && a[..1] == "\n";
      assert s[1..] == a[1..] + "\n" + b;
      SplitOnNewlineAppend(a[1..], b);
    } else {
      assert s[..1] != "\n" && a[..1] != "\n" by {
        assert s[..1][0] == a[0] && a[..1][0] == a[0];
      }
      assert s[1..] == a[1..] + "\n" + b;
      SplitOnNewlineAppend(a[1..], b);
      var ra := SplitOn(a[1..], "\n");
      assert (ra + SplitOn(b, "\n"))[1..] == ra[1..] + SplitOn(b, "\n");
    }
  }

  /** A text without a newline is one line. */
  lemma SplitOnLine(a: string)
    requires forall i :: 0 <= i < |a| ==> a[i] != '\n'
    ensures SplitOn(a, "\n") == [a]
  {
    forall i | 0 <= i ensures !OccursAt(a, "\n", i) {
      if i + 1 <= |a| {
        assert a[i..i + 1][0] == a[i];
      }
    }
    SplitOnNone(a, "\n");
  }

  /** Lines without newlines, joined with newlines, split back into those lines. */
  lemma {:induction false} SplitJoinLines(ls: seq<string>)
    requires |ls| >= 1
    requires forall k, i :: 0 <= k < |ls| && 0 <= i < |ls[k]| ==> ls[k][i] != '\n'
    ensures SplitOn(Join(ls, "\n"), "\n") == ls
    decreases |ls|
  {
    SplitOnLine(ls[0]);
    if |ls| > 1 {
      SplitOnNewlineAppend(ls[0], Join(ls[1..], "\n"));
      SplitJoinLines(ls[1..]);
      assert [ls[0]] + ls[1..] == ls;
    }
  }

  /** `filter(Boolean)` keeps a list without empty strings as it is. */
  lemma {:induction false} DropEmptyNone(parts: seq<string>)
    requires forall k :: 0 <= k < |parts| ==> parts[k] != ""
    ensures DropEmpty(parts) == parts
    decreases |parts|
  {
    if |parts| > 0 {
      DropEmptyNone(parts[1..]);
      assert [parts[0]] + parts[1..] == parts;
    }
  }

  /** A trimmed non-empty text before a newline: trimming removes the newline. */
  lemma TrimNewlineAfter(x: string)
    requires |x| > 0 && IsTrimmed(x)
    ensures Trim(x + "\n") == x
  {
    var s := x + "\n";
    assert s[0] == x[0] && s[|x| - 1] == x[|x| - 1];
    assert Span(s, 0, IsWs) == 0;
    assert SpanBack(s, |x|, IsWs) == |x|;
    assert s[..|x|] == x;
  }

  /** A trimmed non-empty text after a newline: trimming removes the newline. */
  lemma TrimNewlineBefore(f: string)
    requires |f| > 0 && IsTrimmed(f)
    ensures Trim("\n" + f) == f
  {
    var s := "\n" + f;
    assert s[1] == f[0];
    SpanEnd(s, 0, 1, IsWs);
    assert SpanBack(s, |s|, IsWs) == |s|;
    assert s[1..] == f;
  }

  /** `map(l => l.trim())`. */
  function TrimEach(parts: seq<string>): (r: seq<string>)
    ensures |r| == |parts|
    ensures forall k :: 0 <= k < |r| ==> r[k] == Trim(parts[k])
  {
    seq(|parts|, k requires 0 <= k < |parts| => Trim(parts[k]))
  }

  /** ASCII lower-casing: the only folding a `/i` pattern without the `u` flag applies
      between an ASCII letter of the pattern and a character of the input. */
  function AsciiLower(c: char): char {
    if 'A' <= c <= 'Z' then (c as int + 32) as char else c
  }

  /** `pat` occurs at index `i` of `s` ignoring the case of ASCII letters. */
  predicate OccursAtCI(s: string, pat: string, i: nat) {
    i + |pat| <= |s| && forall k :: 0 <= k < |pat| ==> AsciiLower(s[i + k]) == AsciiLower(pat[k])
  }
}
