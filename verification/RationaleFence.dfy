/** The model-written rationale inside the weekly report: a fenced code block that its text cannot close. */
module RationaleFence {
  import opened Wrappers

  const HEADING := "## LLM rationale"
  const INFO := "markdown"

  /** `n` copies of a fence character stand at position `i`. */
  predicate RunAt(s: string, i: nat, n: nat, c: char) {
    i + n <= |s| && forall k :: i <= k < i + n ==> s[k] == c
  }

  predicate HasBackticks(s: string, n: nat) {
    exists i: nat :: i <= |s| && RunAt(s, i, n, '`')
  }

  /** Length of the run of `c` the text starts with. */
  function LeadingRun(s: string, c: char): (n: nat)
    ensures RunAt(s, 0, n, c) && (n < |s| ==> s[n] != c)
  {
    if s == [] || s[0] != c then 0 else 1 + LeadingRun(s[1..], c)
  }

  lemma {:induction false} LeadingRunIs(s: string, c: char, n: nat)
    requires RunAt(s, 0, n, c) && (n < |s| ==> s[n] != c)
    ensures LeadingRun(s, c) == n
  {
    if n > 0 {
      LeadingRunIs(s[1..], c, n - 1);
    }
  }

  // --- choosing the fence ---

  /** All maximal runs of backticks, left to right. */
  function Matches(s: string): seq<string> {
    if s == [] then []
    else
      var n := LeadingRun(s, '`');
      if n == 0 then Matches(s[1..]) else [s[..n]] + Matches(s[n..])
  }

  lemma HasShifted(s: string, from: nat, n: nat)
    requires from <= |s| && HasBackticks(s[from..], n)
    ensures HasBackticks(s, n)
  {
    var i: nat :| i <= |s[from..]| && RunAt(s[from..], i, n, '`');
    assert forall k :: from + i <= k < from + i + n ==> s[k] == s[from..][k - from];
    assert RunAt(s, from + i, n, '`');
  }

  /** Every match is a run of the text. */
  lemma {:induction false} MatchIsARun(s: string, k: nat)
    requires k < |Matches(s)|
    ensures HasBackticks(s, |Matches(s)[k]|)
    decreases |s|
  {
    var n := LeadingRun(s, '`');
    if n == 0 {
      MatchIsARun(s[1..], k);
      HasShifted(s, 1, |Matches(s)[k]|);
    } else if k == 0 {
      assert RunAt(s, 0, n, '`');
    } else {
      MatchIsARun(s[n..], k - 1);
      HasShifted(s, n, |Matches(s)[k]|);
    }
  }

  /** No run of the text is longer than every match. */
  lemma {:induction false} RunWithinAMatch(s: string, i: nat, n: nat) returns (k: nat)
    requires n > 0 && RunAt(s, i, n, '`')
    ensures k < |Matches(s)| && |Matches(s)[k]| >= n
    decreases |s|
  {
    assert s[i] == '`';
    var lead := LeadingRun(s, '`');
    var from := if lead == 0 then 1 else lead;
    if i < lead {
      assert lead < |s| ==> !(i <= lead < i + n);
      k := 0;
    } else {
      assert forall j :: i - from <= j < i - from + n ==> s[from..][j] == s[from + j];
      k := RunWithinAMatch(s[from..], i - from, n);
      if lead > 0 {
        k := k + 1;
      }
    }
  }

  function Max(a: nat, b: nat): nat {
    if a > b then a else b
  }

  /** The longest run decides the fence: it is one longer, and at least three. */
  ghost predicate IsFenceFor(fence: string, rationale: string) {
    RunAt(fence, 0, |fence|, '`') && |fence| >= 3 && !HasBackticks(rationale, |fence|)
    && (|fence| > 3 ==> HasBackticks(rationale, |fence| - 1))
  }

  method PickFence(rationale: string) returns (fence: string)
    ensures IsFenceFor(fence, rationale)
  {
    var matches := Matches(rationale);
    var longest: nat := 0;
    for j := 0 to |matches|
      invariant forall k :: 0 <= k < j ==> |matches[k]| <= longest
      invariant longest > 0 ==> HasBackticks(rationale, longest)
    {
      if |matches[j]| > longest {
        MatchIsARun(rationale, j);
        longest := |matches[j]|;
      }
    }
    var length := Max(3, longest + 1);
    fence := seq(length, _ => '`');
    if HasBackticks(rationale, length) {
      var i: nat :| i <= |rationale| && RunAt(rationale, i, length, '`');
      var k := RunWithinAMatch(rationale, i, length);
      assert false;
    }
  }

  /** There is exactly one such fence. */
  lemma FenceIsUnique(a: string, b: string, rationale: string)
    requires IsFenceFor(a, rationale) && IsFenceFor(b, rationale)
    ensures a == b
  {
    if |a| < |b| {
      ShorterRun(rationale, |b| - 1, |a|);
    } else if |b| < |a| {
      ShorterRun(rationale, |a| - 1, |b|);
    }
  }

  lemma ShorterRun(s: string, n: nat, m: nat)
    requires HasBackticks(s, n) && m <= n
    ensures HasBackticks(s, m)
  {
    var i: nat :| i <= |s| && RunAt(s, i, n, '`');
    assert RunAt(s, i, m, '`');
  }

  // --- writing the section ---

  function Join(lines: seq<string>): string {
    if lines == [] then []
    else if |lines| == 1 then lines[0]
    else lines[0] + "\n" + Join(lines[1..])
  }

  function Section(fence: string, rationale: string): string {
    HEADING + "\n" + ("\n" + (fence + INFO + "\n" + (rationale + "\n" + fence)))
  }

  method RenderRationaleSection(rationale: string) returns (section: string)
    ensures exists fence :: IsFenceFor(fence, rationale) && section == Section(fence, rationale)
    ensures exists fence :: IsFenceFor(fence, rationale)
              && section == "## LLM rationale\n\n" + (fence + ("markdown\n" + (rationale + ("\n" + fence))))
  {
    var fence := PickFence(rationale);
    var lines: seq<string> := [];
    lines := lines + [HEADING];
    lines := lines + [""];
    lines := lines + [fence + INFO];
    lines := lines + [rationale];
    lines := lines + [fence];
    section := Join(lines);
    JoinFive(HEADING, "", fence + INFO, rationale, fence);
    assert "" + "\n" == "\n";
    assert lines == [HEADING, "", fence + INFO, rationale, fence];
    SectionText(fence, rationale);
  }

  lemma SectionText(fence: string, rationale: string)
    ensures Section(fence, rationale) == "## LLM rationale\n\n" + (fence + ("markdown\n" + (rationale + ("\n" + fence))))
  {
    assert HEADING + "\n" + "\n" == "## LLM rationale\n\n" && INFO + "\n" == "markdown\n";
    assert fence + INFO + "\n" + (rationale + "\n" + fence) == fence + ((INFO + "\n") + (rationale + ("\n" + fence)));
    assert Section(fence, rationale) == (HEADING + "\n" + "\n") + (fence + INFO + "\n" + (rationale + "\n" + fence));
  }

  lemma JoinFive(a: string, b: string, c: string, d: string, e: string)
    ensures Join([a, b, c, d, e]) == a + "\n" + (b + "\n" + (c + "\n" + (d + "\n" + e)))
  {
    assert [a, b, c, d, e][1..] == [b, c, d, e];
    assert [b, c, d, e][1..] == [c, d, e];
    assert [c, d, e][1..] == [d, e];
    assert [d, e][1..] == [e];
    assert Join([d, e]) == d + "\n" + e;
    assert Join([c, d, e]) == c + "\n" + (d + "\n" + e);
    assert Join([b, c, d, e]) == b + "\n" + (c + "\n" + (d + "\n" + e));
  }

  // --- reading: CommonMark 0.31.2 ---

  /** Section 2.1: a line ends at a line feed, a carriage return, or both together. */
  function BreakLength(s: string): (n: nat)
    ensures n <= |s|
  {
    if s == [] then 0
    else if s[0] == '\r' && |s| > 1 && s[1] == '\n' then 2
    else if s[0] == '\n' || s[0] == '\r' then 1
    else 0
  }

  function Lines(s: string): (lines: seq<string>)
    ensures |lines| >= 1
    decreases |s|
  {
    if s == [] then [""]
    else if BreakLength(s) > 0 then [""] + Lines(s[BreakLength(s)..])
    else [[s[0]] + Lines(s[1..])[0]] + Lines(s[1..])[1..]
  }

  datatype Fence = Fence(mark: char, length: nat, indent: nat, info: string)

  datatype Block = Block(info: string, content: seq<string>, rest: seq<string>)

  predicate IsBlank(s: string) {
    forall i :: 0 <= i < |s| ==> s[i] == ' ' || s[i] == '\t'
  }

  function TrimLeft(s: string): string {
    if s != [] && (s[0] == ' ' || s[0] == '\t') then TrimLeft(s[1..]) else s
  }

  function TrimRight(s: string): string {
    if s != [] && (s[|s| - 1] == ' ' || s[|s| - 1] == '\t') then TrimRight(s[..|s| - 1]) else s
  }

  /** Section 4.5: up to three spaces, at least three marks, and an info string that holds no backtick after a backtick fence. */
  function OpeningFence(line: string): Option<Fence> {
    var indent := LeadingRun(line, ' ');
    if indent > 3 || indent == |line| || (line[indent] != '`' && line[indent] != '~') then None
    else
      var mark := line[indent];
      var length := LeadingRun(line[indent..], mark);
      var info := TrimRight(TrimLeft(line[indent + length..]));
      if length < 3 || (mark == '`' && '`' in info) then None else Some(Fence(mark, length, indent, info))
  }

  /** Section 4.5: a closing fence has the opener's mark, is at least as long, and only spaces or tabs follow it. */
  predicate Closes(line: string, fence: Fence) {
    var indent := LeadingRun(line, ' ');
    indent <= 3 && LeadingRun(line[indent..], fence.mark) >= fence.length
    && IsBlank(line[indent..][LeadingRun(line[indent..], fence.mark)..])
  }

  /** Content lines lose as much indentation as the opener had, where they have it. */
  function Unindent(line: string, indent: nat): string {
    line[if LeadingRun(line, ' ') < indent then LeadingRun(line, ' ') else indent..]
  }

  function ReadContent(lines: seq<string>, fence: Fence): (seq<string>, seq<string>) {
    if lines == [] then ([], [])
    else if Closes(lines[0], fence) then ([], lines[1..])
    else
      var (content, rest) := ReadContent(lines[1..], fence);
      ([Unindent(lines[0], fence.indent)] + content, rest)
  }

  /** The block that starts at the first line: to its closing fence, or to the end of the document. */
  function ReadBlock(lines: seq<string>): Option<Block> {
    if lines == [] then None
    else
      match OpeningFence(lines[0])
      case None => None
      case Some(fence) =>
        var (content, rest) := ReadContent(lines[1..], fence);
        Some(Block(fence.info, content, rest))
  }

  /** A text that starts with the section's heading and a blank line, then the block. */
  function ReadSection(text: string): Option<Block> {
    var lines := Lines(text);
    if |lines| < 2 || lines[0] != HEADING || lines[1] != "" then None else ReadBlock(lines[2..])
  }

  // --- lines of a text ---

  /** Where line `k` starts. */
  function LineStart(s: string, k: nat): nat
    requires k < |Lines(s)|
    decreases |s|
  {
    if k == 0 || s == [] then 0
    else if BreakLength(s) > 0 then BreakLength(s) + LineStart(s[BreakLength(s)..], k - 1)
    else 1 + LineStart(s[1..], k)
  }

  predicate IsPart(s: string, at: nat, part: string) {
    at + |part| <= |s| && s[at..at + |part|] == part
  }

  /** A line is a stretch of the text. */
  lemma {:induction false} LineIsPart(s: string, k: nat)
    requires k < |Lines(s)|
    ensures IsPart(s, LineStart(s, k), Lines(s)[k])
    decreases |s|
  {
    hide IsPart, BreakLength;
    if k == 0 {
      FirstLineIsPart(s);
    } else if BreakLength(s) > 0 {
      LineIsPart(s[BreakLength(s)..], k - 1);
      PartShifted(s, BreakLength(s), LineStart(s[BreakLength(s)..], k - 1), Lines(s)[k]);
    } else {
      LineIsPart(s[1..], k);
      PartShifted(s, 1, LineStart(s[1..], k), Lines(s)[k]);
    }
  }

  lemma {:induction false} FirstLineIsPart(s: string)
    ensures IsPart(s, 0, Lines(s)[0])
    decreases |s|
  {
    if s != [] && BreakLength(s) == 0 {
      FirstLineIsPart(s[1..]);
      var line := Lines(s[1..])[0];
      assert s[..1 + |line|] == [s[0]] + s[1..][..|line|];
    }
  }

  lemma PartShifted(s: string, from: nat, at: nat, part: string)
    requires from <= |s| && IsPart(s[from..], at, part)
    ensures IsPart(s, from + at, part)
  {
    assert s[from..][at..at + |part|] == s[from + at..from + at + |part|];
  }

  predicate EndsWithReturn(s: string) {
    s != [] && s[|s| - 1] == '\r'
  }

  /** The lines a text contributes when a line feed follows it: a carriage return at its end joins that line feed. */
  function OwnLines(s: string): seq<string> {
    if EndsWithReturn(s) then Lines(s)[..|Lines(s)| - 1] else Lines(s)
  }

  lemma {:induction false} LinesOfTwo(a: string, b: string)
    ensures Lines(a + "\n" + b) == OwnLines(a) + Lines(b)
    decreases |a|
  {
    hide OwnLines, BreakLength;
    var s, n := a + "\n" + b, BreakLength(a);
    if a == [] || a == "\r" {
      ShortThenBreak(a, b);
      OwnLinesOfShort();
    } else {
      BreakLengthOfTwo(a, b);
      OwnLinesStep(a);
      if n > 0 {
        assert s[n..] == a[n..] + "\n" + b;
        LinesOfTwo(a[n..], b);
      } else {
        assert s[1..] == a[1..] + "\n" + b;
        LinesOfTwo(a[1..], b);
      }
    }
  }

  lemma ShortThenBreak(a: string, b: string)
    requires a == [] || a == "\r"
    ensures Lines(a + "\n" + b) == [""] + Lines(b)
  {
    var s := a + "\n" + b;
    assert s[|a| + 1..] == b;
  }

  lemma BreakLengthOfTwo(a: string, b: string)
    requires a != [] && a != "\r"
    ensures BreakLength(a + "\n" + b) == BreakLength(a)
  {
  }

  lemma OwnLinesOfShort()
    ensures OwnLines("") == [""] && OwnLines("\r") == [""]
  {
    assert Lines("\r")[1..] == Lines("");
  }

  lemma OwnLinesStep(a: string)
    requires a != [] && a != "\r"
    ensures BreakLength(a) > 0 ==> OwnLines(a) == [""] + OwnLines(a[BreakLength(a)..])
    ensures BreakLength(a) == 0 ==>
              |OwnLines(a[1..])| > 0 && OwnLines(a) == [[a[0]] + OwnLines(a[1..])[0]] + OwnLines(a[1..])[1..]
  {
    var n := BreakLength(a);
    var rest := a[if n > 0 then n else 1..];
    assert EndsWithReturn(a) <==> EndsWithReturn(rest);
    if EndsWithReturn(rest) {
      ReturnAddsALine(rest);
    }
  }

  lemma {:induction false} ReturnAddsALine(s: string)
    requires EndsWithReturn(s)
    ensures |Lines(s)| > 1
    decreases |s|
  {
    if BreakLength(s) == 0 {
      ReturnAddsALine(s[1..]);
    }
  }

  // --- the section read back ---

  lemma OwnLinesAreLines(s: string)
    ensures OwnLines(s) <= Lines(s)
    ensures OwnLines(s) == Lines(s) <==> !EndsWithReturn(s)
  {
  }

  /** A line with a run of the fence's length would put that run into the rationale. */
  lemma NoLineCloses(rationale: string, fence: Fence, k: nat)
    requires k < |Lines(rationale)| && fence.mark == '`' && !HasBackticks(rationale, fence.length)
    ensures !Closes(Lines(rationale)[k], fence)
  {
    var line := Lines(rationale)[k];
    if Closes(line, fence) {
      LineIsPart(rationale, k);
      var at, indent := LineStart(rationale, k), LeadingRun(line, ' ');
      assert RunAt(line[indent..], 0, fence.length, '`');
      RunInPart(rationale, at, line, indent, fence.length);
    }
  }

  lemma RunInPart(s: string, at: nat, part: string, indent: nat, n: nat)
    requires IsPart(s, at, part) && indent <= |part| && RunAt(part[indent..], 0, n, '`')
    ensures HasBackticks(s, n)
  {
    assert forall j :: 0 <= j < |part| ==> part[j] == s[at..at + |part|][j] == s[at + j];
    forall k | at + indent <= k < at + indent + n
      ensures s[k] == '`'
    {
      assert part[indent..][k - at - indent] == '`';
      assert part[k - at] == s[k];
    }
    assert RunAt(s, at + indent, n, '`');
  }

  lemma {:induction false} ReadToClose(body: seq<string>, close: string, after: seq<string>, fence: Fence)
    requires fence.indent == 0 && Closes(close, fence) && forall k :: 0 <= k < |body| ==> !Closes(body[k], fence)
    ensures ReadContent(body + [close] + after, fence) == (body, after)
  {
    var lines := body + [close] + after;
    if body == [] {
      assert lines[0] == close && lines[1..] == after;
    } else {
      assert lines[1..] == body[1..] + [close] + after && lines[0] == body[0];
      ReadToClose(body[1..], close, after, fence);
      assert [body[0]] + body[1..] == body;
    }
  }

  lemma WrittenFenceOpens(fence: string)
    requires RunAt(fence, 0, |fence|, '`') && |fence| >= 3
    ensures OpeningFence(fence + INFO) == Some(Fence('`', |fence|, 0, INFO))
    ensures Closes(fence, Fence('`', |fence|, 0, INFO))
  {
    hide TrimLeft, TrimRight;
    var line := fence + INFO;
    LeadingRunIs(line, ' ', 0);
    LeadingRunIs(fence, ' ', 0);
    assert line[0..] == line && fence[0..] == fence;
    LeadingRunIs(line, '`', |fence|);
    LeadingRunIs(fence, '`', |fence|);
    assert line[|fence|..] == INFO;
    InfoIsTrimmed();
  }

  lemma InfoIsTrimmed()
    ensures TrimRight(TrimLeft(INFO)) == INFO && '`' !in INFO
  {
  }

  predicate IsOneLine(s: string) {
    forall i :: 0 <= i < |s| ==> s[i] != '\n' && s[i] != '\r'
  }

  lemma {:induction false} OneLine(s: string)
    requires IsOneLine(s)
    ensures OwnLines(s) == [s]
  {
    if s != [] {
      OneLine(s[1..]);
      assert [s[0]] + s[1..] == s;
    }
  }

  /** The lines of a report from the rationale section on. */
  lemma SectionLines(fence: string, rationale: string, after: string)
    requires IsOneLine(fence)
    ensures Lines(Section(fence, rationale) + "\n" + after)
         == [HEADING, "", fence + INFO] + OwnLines(rationale) + [fence] + Lines(after)
  {
    hide Lines, OwnLines;
    var fourth := fence + "\n" + after;
    var third := rationale + "\n" + fourth;
    var second := (fence + INFO) + "\n" + third;
    var first := "" + "\n" + second;
    assert Section(fence, rationale) + "\n" + after == HEADING + "\n" + first;
    OneLine(HEADING);
    LinesOfTwo(HEADING, first);
    OneLine("");
    LinesOfTwo("", second);
    OneLine(fence + INFO);
    LinesOfTwo(fence + INFO, third);
    LinesOfTwo(rationale, fourth);
    OneLine(fence);
    LinesOfTwo(fence, after);
    assert [HEADING] + ([""] + ([fence + INFO] + (OwnLines(rationale) + ([fence] + Lines(after)))))
        == [HEADING, "", fence + INFO] + OwnLines(rationale) + [fence] + Lines(after);
  }

  /** Whatever the model wrote, its block closes at the appended fence: it holds the rationale's lines, and the text after it is read as it was written. */
  lemma SectionReadsBack(fence: string, rationale: string, after: string)
    requires IsFenceFor(fence, rationale)
    ensures ReadSection(Section(fence, rationale) + "\n" + after) == Some(Block(INFO, OwnLines(rationale), Lines(after)))
  {
    hide Lines, OwnLines, Closes, OpeningFence, Section;
    SectionLines(fence, rationale, after);
    WrittenFenceOpens(fence);
    OwnLinesAreLines(rationale);
    var own, opener := OwnLines(rationale), Fence('`', |fence|, 0, INFO);
    forall k | 0 <= k < |own|
      ensures !Closes(own[k], opener)
    {
      assert own[k] == Lines(rationale)[k];
      NoLineCloses(rationale, opener, k);
    }
    ReadToClose(own, fence, Lines(after), opener);
    var lines := Lines(Section(fence, rationale) + "\n" + after);
    assert lines[2..] == [fence + INFO] + (own + [fence] + Lines(after));
    assert lines[2..][1..] == own + [fence] + Lines(after);
  }

  /** The block holds exactly the rationale's lines unless the rationale ends in a carriage return, which costs it its last, empty line. */
  lemma RationaleIsRecoveredExactly(fence: string, rationale: string, after: string)
    requires IsFenceFor(fence, rationale)
    ensures var block := ReadSection(Section(fence, rationale) + "\n" + after);
            block.Some? && (block.value.content == Lines(rationale) <==> !EndsWithReturn(rationale))
  {
    SectionReadsBack(fence, rationale, after);
    OwnLinesAreLines(rationale);
  }
}
