/**
 * The log-dump pipeline at the end of test.ts: the `git log` output is cut into
 * `==END==` chunks, each chunk's first three non-empty lines are the full hash,
 * the short hash and the subject, and the rest is split into body and footer
 * before `parseCommit` builds the record.
 */
module CommitLog {
  import opened Wrappers
  import opened Text
  import Footers
  import opened Commits
  import opened Subjects
  import opened IssueRefs

  const EntryEnd: string := "==END=="

  /** `rawLog?.split('==END==').filter(Boolean) ?? []`. */
  function LogChunks(dump: Option<string>): (chunks: seq<string>)
    ensures forall i :: 0 <= i < |chunks| ==> chunks[i] != ""
  {
    match dump
    case None => []
    case Some(d) => DropEmpty(SplitOn(d, EntryEnd))
  }

  /** `raw.trim().split('\n').filter(Boolean)`. */
  function ChunkLines(chunk: string): seq<string> {
    DropEmpty(SplitOn(Trim(chunk), "\n"))
  }

  /** The record of a chunk with at least three lines; `None` is `undefined`. */
  function ParseEntry(lines: seq<string>): Option<ParsedCommit>
    requires |lines| >= 3
  {
    var parts := Footers.SplitBodyFooter(Join(lines[3..], "\n"));
    ParseCommit(lines[2], parts.body, parts.footer, lines[1], lines[0])
  }

  /** The exception the pipeline raises: a chunk with fewer than three non-empty
      lines leaves the subject `undefined`, and `header.match` throws on it. */
  datatype LogError = MissingSubject(chunk: nat)

  /** A chunk whose subject line exists. */
  predicate HasSubject(chunk: string) {
    |ChunkLines(chunk)| >= 3
  }

  /** The first chunk from `i` on with fewer than three lines. */
  function FirstShort(chunks: seq<string>, i: nat): (r: Option<nat>)
    requires i <= |chunks|
    ensures r.Some? ==> (i <= r.value < |chunks| && !HasSubject(chunks[r.value])
      && forall j :: i <= j < r.value ==> HasSubject(chunks[j]))
    ensures r.None? ==> forall j :: i <= j < |chunks| ==> HasSubject(chunks[j])
    decreases |chunks| - i
  {
    if i == |chunks| then None
    else if !HasSubject(chunks[i]) then Some(i)
    else FirstShort(chunks, i + 1)
  }

  /** The `commits` array: one entry per non-empty chunk, in order, or the
      exception, raised at the first chunk without a subject (`map` runs in order). */
  function ParseLog(dump: Option<string>): Result<seq<Option<ParsedCommit>>, LogError> {
    var chunks := LogChunks(dump);
    match FirstShort(chunks, 0)
    case Some(i) => Failure(MissingSubject(i))
    case None => Success(seq(|chunks|, i requires 0 <= i < |chunks| => ParseEntry(ChunkLines(chunks[i]))))
  }

  /** An absent or empty dump yields no commits. */
  lemma ParseLogEmpty(dump: Option<string>)
    requires dump.None? || dump == Some("")
    ensures ParseLog(dump) == Success([])
  {
    if dump.Some? {
      assert SplitOn("", EntryEnd) == [""];
      assert [""][1..] == [];
      assert DropEmpty([""]) == [];
    }
    var chunks := LogChunks(dump);
    assert chunks == [];
    assert FirstShort(chunks, 0) == None;
    assert |ParseLog(dump).value| == 0;
  }

  /** The chunks are the non-empty pieces between the markers, in dump order: their
      pieces join back to the dump and none of them holds the marker. */
  lemma LogChunksOrder(d: string)
    ensures var pieces := SplitOn(d, EntryEnd);
      Join(pieces, EntryEnd) == d && LogChunks(Some(d)) == DropEmpty(pieces)
      && forall k, i :: 0 <= k < |pieces| && 0 <= i ==> !OccursAt(pieces[k], EntryEnd, i)
  {
    JoinSplitOn(d, EntryEnd);
    SplitOnPiecesFree(d, EntryEnd);
  }

  /** The pipeline throws exactly when some chunk lacks a subject line, and then
      names the first such chunk. */
  lemma ParseLogFailureIff(dump: Option<string>)
    ensures var chunks := LogChunks(dump);
      (ParseLog(dump).Failure? <==> exists i :: 0 <= i < |chunks| && |ChunkLines(chunks[i])| < 3)
      && (ParseLog(dump).Failure? ==> var i := ParseLog(dump).error.chunk;
        i < |chunks| && |ChunkLines(chunks[i])| < 3
        && forall j :: 0 <= j < i ==> |ChunkLines(chunks[j])| >= 3)
  {
  }

  /** Each entry comes from the chunk at the same position: its hashes and header
      are that chunk's first three lines, its body and footer are the split of the
      remaining lines, and it is `undefined` exactly when that subject does not
      match. */
  lemma ParseLogEntries(dump: Option<string>, i: nat)
    requires ParseLog(dump).Success? && i < |LogChunks(dump)|
    ensures var chunks, entries := LogChunks(dump), ParseLog(dump).value;
      var lines := ChunkLines(chunks[i]);
      |entries| == |chunks| && |lines| >= 3
      && var parts := Footers.SplitBodyFooter(Join(lines[3..], "\n"));
      entries[i] == ParseCommit(lines[2], parts.body, parts.footer, lines[1], lines[0])
      && (entries[i].None? <==> Subjects.ParseSubject(lines[2]).None?)
      && (entries[i].Some? ==>
        entries[i].value.fullHash == lines[0] && entries[i].value.shortHash == lines[1]
        && entries[i].value.header == lines[2]
        && entries[i].value.body == parts.body && entries[i].value.footer == parts.footer)
  {
    var lines := ChunkLines(LogChunks(dump)[i]);
    var parts := Footers.SplitBodyFooter(Join(lines[3..], "\n"));
    ParseCommitResult(lines[2], parts.body, parts.footer, lines[1], lines[0]);
  }

  // ---------------------------------------------------------------------------
  // An example dump

  /** A chunk without `=` starts no marker. */
  lemma NoMarkerIn(a: string, b: string)
    requires forall i :: 0 <= i < |a| ==> a[i] != '='
    ensures forall i :: 0 <= i < |a| ==> !OccursAt(a + EntryEnd + b, EntryEnd, i)
  {
    var s := a + EntryEnd + b;
    forall i | 0 <= i < |a| ensures !OccursAt(s, EntryEnd, i) {
      if i + |EntryEnd| <= |s| {
        assert s[i..i + |EntryEnd|][0] == a[i];
      }
    }
  }

  /** Two chunks, each closed by the marker, are the dump's two chunks. */
  lemma TwoChunks(dump: string, c1: string, c2: string)
    requires dump == c1 + EntryEnd + c2 + EntryEnd && c1 != "" && c2 != ""
    requires forall i :: 0 <= i < |c1| ==> c1[i] != '='
    requires forall i :: 0 <= i < |c2| ==> c2[i] != '='
    ensures LogChunks(Some(dump)) == [c1, c2]
  {
    NoMarkerIn(c1, c2 + EntryEnd);
    NoMarkerIn(c2, "");
    assert dump == c1 + EntryEnd + (c2 + EntryEnd);
    SplitOnFirst(c1, EntryEnd, c2 + EntryEnd);
    assert c2 + EntryEnd == c2 + EntryEnd + "";
    SplitOnFirst(c2, EntryEnd, "");
    assert SplitOn("", EntryEnd) == [""];
    var pieces := [c1] + ([c2] + [""]);
    assert SplitOn(dump, EntryEnd) == pieces;
    assert [""][1..] == [];
    assert DropEmpty([""]) == [];
    assert ([c2] + [""])[1..] == [""];
    assert DropEmpty([c2] + [""]) == [c2];
    assert pieces[1..] == [c2] + [""];
    assert DropEmpty(pieces) == [c1] + [c2];
  }

  /** A chunk that is newline-free, non-empty lines joined by newlines, plus a final
      newline, has exactly those lines. */
  lemma LinesOfChunk(chunk: string, ls: seq<string>)
    requires |ls| >= 1 && chunk == Join(ls, "\n") + "\n" && IsTrimmed(Join(ls, "\n"))
    requires forall k :: 0 <= k < |ls| ==> ls[k] != ""
    requires forall k, i :: 0 <= k < |ls| && 0 <= i < |ls[k]| ==> ls[k][i] != '\n'
    ensures ChunkLines(chunk) == ls
  {
    assert |ls[0]| > 0;
    JoinStartsWith(ls);
    TrimNewlineAfter(Join(ls, "\n"));
    SplitJoinLines(ls);
    DropEmptyNone(ls);
  }

  lemma JoinStartsWith(ls: seq<string>)
    requires |ls| >= 1
    ensures |Join(ls, "\n")| >= |ls[0]|
  {
  }

  /** `Closes #7` is a footer line: a token, a space, `#` and a digit. */
  lemma ClosesSevenIsFooter(line: string)
    requires line == "Closes #7"
    ensures Footers.IsFooterLine(line)
  {
    SpanEnd(line, 0, 6, Footers.IsTokenChar);
    SpanEnd(line, 6, 7, IsWs);
  }

  /** The footer `Closes #7` alone is all footer. */
  lemma ClosesSevenSplit(footer: string)
    requires footer == "Closes #7"
    ensures Footers.SplitBodyFooter(footer) == Footers.BodyFooter("", footer)
  {
    SplitOnLine(footer);
    ClosesSevenIsFooter(footer);
    TrimOfTrimmed(footer);
    Footers.SplitFooterOnly(footer);
  }

  /** Nothing after the subject gives an empty body and an empty footer. */
  lemma EmptySplit()
    ensures Footers.SplitBodyFooter("") == Footers.BodyFooter("", "")
  {
    assert Trim("") == "";
    assert Footers.Normalize("") == "";
    assert SplitOn("", "\n") == [""];
    Footers.SplitWithoutFooter("");
  }

  /** `fix: y` with no footer: type `fix`, description `y`, not breaking. */
  lemma FixExample(header: string)
    requires header == "fix: y"
    ensures var r := ParseCommit(header, "", "", "def", "def456");
      r.Some? && r.value.commitType == "fix" && r.value.scope == None && r.value.description == "y"
      && r.value.pr == None && !r.value.breaking
  {
    var m := SubjectMatch("fix", None, false, None, "y", None);
    assert Render(m) == header;
    assert !EndsWithPrRef("y");
    ParseCommitRender(m, "", "", "def", "def456");
    NoBreakingIn("");
  }

  /** The entries of a dump whose two chunks have the given lines. */
  lemma TwoEntries(dump: string, c1: string, c2: string, l1: seq<string>, l2: seq<string>)
    requires LogChunks(Some(dump)) == [c1, c2] && ChunkLines(c1) == l1 && ChunkLines(c2) == l2
    requires |l1| >= 3 && |l2| >= 3
    ensures ParseLog(Some(dump)).Success? && |ParseLog(Some(dump)).value| == 2
    ensures ParseLog(Some(dump)).value[0] == ParseEntry(l1)
    ensures ParseLog(Some(dump)).value[1] == ParseEntry(l2)
  {
    var chunks := LogChunks(Some(dump));
    assert HasSubject(chunks[0]) && HasSubject(chunks[1]);
    assert FirstShort(chunks, 2) == None;
    assert FirstShort(chunks, 0) == None;
  }

  /** The dump `abc123\nabc\nfeat(core): add x (#7)\nCloses #7\n==END==def456\ndef\nfix: y\n==END==`,
      written as its two chunks of lines, each closed by a newline and the marker. */
  const FirstChunkText: string := "abc123" + "\n" + ("abc" + "\n" + ("feat(core): add x (#7)" + "\n" + "Closes #7"))
  const SecondChunkText: string := "def456" + "\n" + ("def" + "\n" + "fix: y")
  const ExampleDump: string := FirstChunkText + "\n" + EntryEnd + SecondChunkText + "\n" + EntryEnd

  /** The two-commit dump `abc123/abc/feat(core): add x (#7)/Closes #7` and
      `def456/def/fix: y`: the first record is `feat` with scope `core`, PR `7` and
      issue 7 closed, the second is `fix` with description `y`. */
  lemma ParseLogExample(dump: string)
    requires dump == ExampleDump
    ensures ParseLog(Some(dump)).Success? && |ParseLog(Some(dump)).value| == 2
    ensures var e := ParseLog(Some(dump)).value;
      && e[0].Some? && e[0].value.commitType == "feat" && e[0].value.scope == Some("core")
      && e[0].value.pr == Some("7") && e[0].value.description == "add x"
      && e[0].value.issues[Closes] == [7] && e[0].value.fullHash == "abc123" && e[0].value.shortHash == "abc"
      && e[1].Some? && e[1].value.commitType == "fix" && e[1].value.description == "y"
      && e[1].value.fullHash == "def456" && e[1].value.shortHash == "def"
  {
    var l1 := ["abc123", "abc", "feat(core): add x (#7)", "Closes #7"];
    var l2 := ["def456", "def", "fix: y"];
    ExampleEntries(dump, l1, l2);
    FirstEntry(l1, l1[2], l1[3]);
    SecondEntry(l2, l2[2]);
  }

  lemma ExampleEntries(dump: string, l1: seq<string>, l2: seq<string>)
    requires dump == ExampleDump
    requires l1 == ["abc123", "abc", "feat(core): add x (#7)", "Closes #7"]
    requires l2 == ["def456", "def", "fix: y"]
    ensures ParseLog(Some(dump)).Success? && |ParseLog(Some(dump)).value| == 2
    ensures ParseLog(Some(dump)).value[0] == ParseEntry(l1)
    ensures ParseLog(Some(dump)).value[1] == ParseEntry(l2)
  {
    var c1, c2 := Join(l1, "\n") + "\n", Join(l2, "\n") + "\n";
    ExampleChunks(dump, l1, l2, c1, c2);
    TwoEntries(dump, c1, c2, l1, l2);
  }

  lemma FirstEntry(l1: seq<string>, h: string, f: string)
    requires l1 == ["abc123", "abc", "feat(core): add x (#7)", "Closes #7"] && h == l1[2] && f == l1[3]
    ensures var r := ParseEntry(l1);
      && r.Some? && r.value.commitType == "feat" && r.value.scope == Some("core")
      && r.value.pr == Some("7") && r.value.description == "add x"
      && r.value.issues[Closes] == [7] && r.value.fullHash == "abc123" && r.value.shortHash == "abc"
  {
    assert l1[3..] == [f];
    ClosesSevenSplit(f);
    EntryOf(l1, "", f);
    FirstRecord(h, f, l1[1], l1[0]);
  }

  /** The entry of a chunk whose remaining lines split into `body` and `footer`. */
  lemma EntryOf(lines: seq<string>, body: string, footer: string)
    requires |lines| >= 3 && Footers.SplitBodyFooter(Join(lines[3..], "\n")) == Footers.BodyFooter(body, footer)
    ensures ParseEntry(lines) == ParseCommit(lines[2], body, footer, lines[1], lines[0])
  {
  }

  lemma FirstRecord(h: string, f: string, sh: string, fh: string)
    requires h == "feat(core): add x (#7)" && f == "Closes #7"
    ensures var r := ParseCommit(h, "", f, sh, fh);
      && r.Some? && r.value.commitType == "feat" && r.value.scope == Some("core")
      && r.value.pr == Some("7") && r.value.description == "add x"
      && r.value.issues[Closes] == [7] && r.value.fullHash == fh && r.value.shortHash == sh
  {
    ParseCommitExample(h, f);
    ParseCommitResult(h, "", f, sh, fh);
    ParseCommitResult(h, "", f, "abc", "abc123");
  }

  lemma SecondEntry(l2: seq<string>, h: string)
    requires l2 == ["def456", "def", "fix: y"] && h == l2[2]
    ensures var r := ParseEntry(l2);
      && r.Some? && r.value.commitType == "fix" && r.value.description == "y"
      && r.value.fullHash == "def456" && r.value.shortHash == "def"
  {
    assert l2[3..] == [];
    EmptySplit();
    FixExample(h);
    ParseCommitResult(h, "", "", l2[1], l2[0]);
  }

  lemma ExampleChunks(dump: string, l1: seq<string>, l2: seq<string>, c1: string, c2: string)
    requires dump == ExampleDump
    requires l1 == ["abc123", "abc", "feat(core): add x (#7)", "Closes #7"]
    requires l2 == ["def456", "def", "fix: y"]
    requires c1 == Join(l1, "\n") + "\n" && c2 == Join(l2, "\n") + "\n"
    ensures LogChunks(Some(dump)) == [c1, c2] && ChunkLines(c1) == l1 && ChunkLines(c2) == l2
  {
    FirstChunkJoin(l1);
    SecondChunkJoin(l2);
    ExampleSplit(dump, c1, c2);
    FirstChunkLines(c1, l1);
    SecondChunkLines(c2, l2);
  }

  lemma ExampleSplit(dump: string, c1: string, c2: string)
    requires dump == ExampleDump
    requires c1 == FirstChunkText + "\n" && c2 == SecondChunkText + "\n"
    ensures LogChunks(Some(dump)) == [c1, c2]
  {
    assert dump == c1 + EntryEnd + c2 + EntryEnd;
    TwoChunks(dump, c1, c2);
  }

  lemma FirstChunkLines(c1: string, l1: seq<string>)
    requires l1 == ["abc123", "abc", "feat(core): add x (#7)", "Closes #7"]
    requires c1 == Join(l1, "\n") + "\n" && Join(l1, "\n") == FirstChunkText
    ensures ChunkLines(c1) == l1
  {
    LinesOfChunk(c1, l1);
  }

  lemma SecondChunkLines(c2: string, l2: seq<string>)
    requires l2 == ["def456", "def", "fix: y"]
    requires c2 == Join(l2, "\n") + "\n" && Join(l2, "\n") == SecondChunkText
    ensures ChunkLines(c2) == l2
  {
    LinesOfChunk(c2, l2);
  }

  lemma FirstChunkJoin(l1: seq<string>)
    requires l1 == ["abc123", "abc", "feat(core): add x (#7)", "Closes #7"]
    ensures Join(l1, "\n") == FirstChunkText
  {
    assert l1[1..][1..][1..] == ["Closes #7"];
    assert Join(l1[1..][1..], "\n") == "feat(core): add x (#7)" + "\n" + "Closes #7";
    assert Join(l1[1..], "\n") == "abc" + "\n" + ("feat(core): add x (#7)" + "\n" + "Closes #7");
  }

  lemma SecondChunkJoin(l2: seq<string>)
    requires l2 == ["def456", "def", "fix: y"]
    ensures Join(l2, "\n") == SecondChunkText
  {
    assert l2[1..][1..] == ["fix: y"];
    assert Join(l2[1..], "\n") == "def" + "\n" + "fix: y";
  }
}
