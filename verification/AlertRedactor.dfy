/** String-level redaction of outbound alerts: the literal token pass, span-replacing passes, and the opaque-run pass. */
module AlertRedactor {
  import opened Wrappers

  const REDACTED := "[REDACTED]"
  const MIN_OPAQUE_RUN_LEN := 32

  predicate OccursAt(s: string, needle: string, i: nat) {
    i + |needle| <= |s| && s[i..i + |needle|] == needle
  }

  predicate Contains(s: string, needle: string) {
    exists i: nat :: i <= |s| && OccursAt(s, needle, i)
  }

  // --- the literal pass ---

  /** The definition: leftmost, non-overlapping replacement, read one character at a time. */
  function ReplaceLeftmost(s: string, needle: string, replacement: string): string
    requires needle != []
    decreases |s|
  {
    if OccursAt(s, needle, 0) then replacement + ReplaceLeftmost(s[|needle|..], needle, replacement)
    else if s == [] then []
    else [s[0]] + ReplaceLeftmost(s[1..], needle, replacement)
  }

  /** `indexOf` from a cursor: the first occurrence at or after it. */
  method IndexOf(s: string, needle: string, cursor: nat) returns (found: Option<nat>)
    requires cursor <= |s|
    ensures found.Some? ==> cursor <= found.value && OccursAt(s, needle, found.value)
                            && forall i: nat :: cursor <= i < found.value ==> !OccursAt(s, needle, i)
    ensures found.None? ==> forall i: nat :: cursor <= i ==> !OccursAt(s, needle, i)
  {
    var i := cursor;
    while i + |needle| <= |s|
      invariant cursor <= i
      invariant forall j: nat :: cursor <= j < i ==> !OccursAt(s, needle, j)
    {
      if s[i..i + |needle|] == needle {
        return Some(i);
      }
      i := i + 1;
    }
    return None;
  }

  lemma UnmatchedStep(s: string, needle: string, replacement: string)
    requires needle != [] && s != [] && !OccursAt(s, needle, 0)
    ensures ReplaceLeftmost(s, needle, replacement) == [s[0]] + ReplaceLeftmost(s[1..], needle, replacement)
  {
  }

  lemma {:induction false} SkipUnmatched(s: string, needle: string, replacement: string, n: nat)
    requires needle != [] && n <= |s| && forall i: nat :: i < n ==> !OccursAt(s, needle, i)
    ensures ReplaceLeftmost(s, needle, replacement) == s[..n] + ReplaceLeftmost(s[n..], needle, replacement)
    decreases n
  {
    hide OccursAt, ReplaceLeftmost;
    if n == 0 {
      assert s[0..] == s && [] + ReplaceLeftmost(s, needle, replacement) == ReplaceLeftmost(s, needle, replacement);
    } else {
      forall i: nat | i < n - 1
        ensures !OccursAt(s[1..], needle, i)
      {
        OccursShifted(s, needle, 1, i);
      }
      assert !OccursAt(s, needle, 0);
      UnmatchedStep(s, needle, replacement);
      SkipUnmatched(s[1..], needle, replacement, n - 1);
      assert s[1..][n - 1..] == s[n..] && [s[0]] + s[1..][..n - 1] == s[..n];
    }
  }

  lemma OccursShifted(s: string, needle: string, cursor: nat, i: nat)
    requires cursor <= |s|
    ensures OccursAt(s[cursor..], needle, i) <==> OccursAt(s, needle, cursor + i)
  {
    if i + |needle| <= |s[cursor..]| {
      assert s[cursor..][i..i + |needle|] == s[cursor + i..cursor + i + |needle|];
    }
  }

  /** One turn of the loop: the stretch up to the next occurrence, then the rest of the text. */
  lemma NextOccurrence(s: string, needle: string, replacement: string, cursor: nat, stop: nat)
    requires needle != [] && cursor <= stop <= |s|
    requires forall i: nat :: cursor <= i < stop ==> !OccursAt(s, needle, i)
    ensures ReplaceLeftmost(s[cursor..], needle, replacement)
         == s[cursor..stop] + ReplaceLeftmost(s[stop..], needle, replacement)
  {
    hide OccursAt, ReplaceLeftmost;
    forall i: nat | i < stop - cursor
      ensures !OccursAt(s[cursor..], needle, i)
    {
      OccursShifted(s, needle, cursor, i);
    }
    SkipUnmatched(s[cursor..], needle, replacement, stop - cursor);
    assert s[cursor..][..stop - cursor] == s[cursor..stop] && s[cursor..][stop - cursor..] == s[stop..];
  }

  lemma OccurrenceStep(s: string, needle: string, replacement: string, at: nat)
    requires needle != [] && OccursAt(s, needle, at)
    ensures ReplaceLeftmost(s[at..], needle, replacement) == replacement + ReplaceLeftmost(s[at + |needle|..], needle, replacement)
  {
    OccursShifted(s, needle, at, 0);
    assert s[at..][|needle|..] == s[at + |needle|..];
  }

  method ReplaceAllLiteral(input: string, needle: string, replacement: string) returns (out: string)
    ensures out == if needle == [] then input else ReplaceLeftmost(input, needle, replacement)
  {
    hide ReplaceLeftmost;
    if needle == [] {
      return input;
    }
    out := [];
    var cursor := 0;
    assert input[0..] == input;
    while true
      invariant cursor <= |input|
      invariant out + ReplaceLeftmost(input[cursor..], needle, replacement) == ReplaceLeftmost(input, needle, replacement)
      decreases |input| - cursor
    {
      var found := IndexOf(input, needle, cursor);
      if found.None? {
        NextOccurrence(input, needle, replacement, cursor, |input|);
        ReplaceInEmpty(input[|input|..], needle, replacement);
        assert input[cursor..|input|] == input[cursor..];
        out := out + input[cursor..];
        return;
      }
      NextOccurrence(input, needle, replacement, cursor, found.value);
      OccurrenceStep(input, needle, replacement, found.value);
      out := out + input[cursor..found.value];
      out := out + replacement;
      cursor := found.value + |needle|;
    }
  }

  lemma ReplaceInEmpty(s: string, needle: string, replacement: string)
    requires s == [] && needle != []
    ensures ReplaceLeftmost(s, needle, replacement) == []
  {
  }

  // --- passes that replace spans ---

  /** A pass over a text: copied stretches and, between them, dropped spans; a span's kept prefix belongs to the stretch before it. */
  datatype Cut = Cut(before: string, dropped: string)

  datatype Script = Script(cuts: seq<Cut>, tail: string)
  {
    /** The text the pass reads. */
    function Source(): string
      decreases |cuts|
    {
      if cuts == [] then tail else cuts[0].before + cuts[0].dropped + Script(cuts[1..], tail).Source()
    }

    /** The text it leaves. */
    function Target(): string
      decreases |cuts|
    {
      if cuts == [] then tail else cuts[0].before + REDACTED + Script(cuts[1..], tail).Target()
    }

    /** The same pass over a text with a stretch in front that it copies. */
    function After(text: string): Script {
      if cuts == [] then Script([], text + tail)
      else Script([Cut(text + cuts[0].before, cuts[0].dropped)] + cuts[1..], tail)
    }
  }

  predicate BracketFree(s: string) {
    forall i :: 0 <= i < |s| ==> s[i] != '[' && s[i] != ']'
  }

  lemma ContainsWithin(s: string, inner: string, needle: string, at: nat)
    requires at + |inner| <= |s| && s[at..at + |inner|] == inner && Contains(inner, needle)
    ensures Contains(s, needle)
  {
    var i: nat :| i <= |inner| && OccursAt(inner, needle, i);
    OccursWithin(s, inner, needle, at, i);
  }

  /** An occurrence inside a part of a text, and its place in the whole. */
  lemma OccursWithin(s: string, inner: string, needle: string, at: nat, i: nat)
    requires at + |inner| <= |s| && s[at..at + |inner|] == inner && i + |needle| <= |inner|
    ensures OccursAt(s, needle, at + i) <==> OccursAt(inner, needle, i)
  {
    var n := |needle|;
    forall k | i <= k < i + n
      ensures inner[k] == s[at + k]
    {
      assert inner[k] == s[at..at + |inner|][k];
    }
    var part, whole := inner[i..i + n], s[at + i..at + i + n];
    forall k | 0 <= k < n
      ensures part[k] == whole[k]
    {
      var j := i + k;
      assert inner[j] == s[at + j];
    }
    assert part == whole;
  }

  /** A bracket-free text found around a replacement lies wholly before it, inside it, or after it. */
  lemma ContainsAroundRedaction(p: string, q: string, needle: string)
    requires needle != [] && BracketFree(needle) && Contains(p + REDACTED + q, needle)
    ensures Contains(p, needle) || Contains("REDACTED", needle) || Contains(q, needle)
  {
    hide Contains;
    var s, n := p + REDACTED + q, |needle|;
    var i := AnOccurrence(s, needle);
    assert s[|p|] == '[' && s[|p| + 9] == ']';
    NoBracketInside(s, needle, i, |p|);
    NoBracketInside(s, needle, i, |p| + 9);
    if i + n <= |p| {
      assert s[0..0 + |p|] == p;
      OccursWithin(s, p, needle, 0, i);
      OccurrenceContains(p, needle, i);
    } else if i + n <= |p| + 9 {
      assert s[|p| + 1..|p| + 1 + |"REDACTED"|] == "REDACTED";
      OccursWithin(s, "REDACTED", needle, |p| + 1, i - |p| - 1);
      OccurrenceContains("REDACTED", needle, i - |p| - 1);
    } else {
      assert s[|p| + 10..|p| + 10 + |q|] == q;
      OccursWithin(s, q, needle, |p| + 10, i - |p| - 10);
      OccurrenceContains(q, needle, i - |p| - 10);
    }
  }

  lemma NoBracketInside(s: string, needle: string, i: nat, k: nat)
    requires BracketFree(needle) && OccursAt(s, needle, i) && k < |s| && (s[k] == '[' || s[k] == ']')
    ensures k < i || i + |needle| <= k
  {
    assert forall j :: i <= j < i + |needle| ==> s[j] == s[i..i + |needle|][j - i] == needle[j - i];
  }

  lemma OccurrenceContains(s: string, needle: string, i: nat)
    requires OccursAt(s, needle, i)
    ensures Contains(s, needle)
  {
  }

  lemma AnOccurrence(s: string, needle: string) returns (i: nat)
    requires Contains(s, needle)
    ensures OccursAt(s, needle, i)
  {
    i :| i <= |s| && OccursAt(s, needle, i);
  }

  /** No span-replacing pass brings back a bracket-free token, whatever spans it replaces. */
  lemma {:induction false} PassesKeepTokenOut(script: Script, token: string)
    requires token != [] && BracketFree(token) && !Contains("REDACTED", token)
    requires !Contains(script.Source(), token)
    ensures !Contains(script.Target(), token)
    decreases |script.cuts|
  {
    if script.cuts != [] && Contains(script.Target(), token) {
      var cut, rest := script.cuts[0], Script(script.cuts[1..], script.tail);
      ContainsAroundRedaction(cut.before, rest.Target(), token);
      if Contains(cut.before, token) {
        ContainsWithin(script.Source(), cut.before, token, 0);
      } else {
        if !Contains(rest.Source(), token) {
          PassesKeepTokenOut(rest, token);
        }
        ContainsWithin(script.Source(), rest.Source(), token, |cut.before| + |cut.dropped|);
      }
    }
  }

  /** The literal pass leaves no occurrence of a bracket-free token that is no part of the replacement's word. */
  lemma {:induction false} LiteralPassRemovesToken(s: string, token: string)
    requires token != [] && BracketFree(token) && !Contains("REDACTED", token)
    ensures !Contains(ReplaceLeftmost(s, token, REDACTED), token)
    decreases |s|
  {
    if Contains(s, token) {
      var first := FirstOccurrence(s, token);
      var rest := s[first + |token|..];
      SkipUnmatched(s, token, REDACTED, first);
      OccursShifted(s, token, first, 0);
      assert s[first..][|token|..] == rest;
      assert ReplaceLeftmost(s, token, REDACTED) == s[..first] + REDACTED + ReplaceLeftmost(rest, token, REDACTED);
      LiteralPassRemovesToken(rest, token);
      NothingBefore(s, token, first);
      if Contains(ReplaceLeftmost(s, token, REDACTED), token) {
        ContainsAroundRedaction(s[..first], ReplaceLeftmost(rest, token, REDACTED), token);
      }
    } else {
      forall i: nat
        ensures !OccursAt(s, token, i)
      {
        if OccursAt(s, token, i) {
          OccurrenceContains(s, token, i);
        }
      }
      SkipUnmatched(s, token, REDACTED, |s|);
      ReplaceInEmpty(s[|s|..], token, REDACTED);
      assert s[..|s|] + [] == s;
    }
  }

  lemma NothingBefore(s: string, needle: string, first: nat)
    requires needle != [] && first <= |s| && forall i: nat :: i < first ==> !OccursAt(s, needle, i)
    ensures !Contains(s[..first], needle)
  {
    forall i: nat | i + |needle| <= first
      ensures !OccursAt(s[..first], needle, i)
    {
      assert s[0..0 + |s[..first]|] == s[..first];
      OccursWithin(s, s[..first], needle, 0, i);
    }
  }

  lemma FirstOccurrence(s: string, needle: string) returns (first: nat)
    requires Contains(s, needle)
    ensures first <= |s| && OccursAt(s, needle, first) && forall i: nat :: i < first ==> !OccursAt(s, needle, i)
  {
    var some: nat :| some <= |s| && OccursAt(s, needle, some);
    first := 0;
    while !OccursAt(s, needle, first)
      invariant first <= some && forall i: nat :: i < first ==> !OccursAt(s, needle, i)
      decreases some - first
    {
      first := first + 1;
    }
  }

  // --- the opaque-run pass ---

  predicate IsOpaque(c: char) {
    'a' <= c <= 'z' || 'A' <= c <= 'Z' || '0' <= c <= '9' || c in "_+/=-"
  }

  /** Length of the run of opaque characters the text starts with. */
  function RunLength(s: string): (n: nat)
    ensures n <= |s| && (forall i :: 0 <= i < n ==> IsOpaque(s[i])) && (n < |s| ==> !IsOpaque(s[n]))
  {
    if s == [] || !IsOpaque(s[0]) then 0 else 1 + RunLength(s[1..])
  }

  /** What the greedy expression replaces: each maximal run of at least `MIN_OPAQUE_RUN_LEN` characters. */
  function OpaqueScript(s: string): Script
    decreases |s|
  {
    var n := RunLength(s);
    if n >= MIN_OPAQUE_RUN_LEN then
      var rest := OpaqueScript(s[n..]);
      Script([Cut([], s[..n])] + rest.cuts, rest.tail)
    else if n == |s| then Script([], s)
    else OpaqueScript(s[n + 1..]).After(s[..n + 1])
  }

  predicate LongRunAt(s: string, i: nat) {
    i + MIN_OPAQUE_RUN_LEN <= |s| && forall k :: i <= k < i + MIN_OPAQUE_RUN_LEN ==> IsOpaque(s[k])
  }

  ghost predicate NoLongRun(s: string) {
    forall i: nat :: !LongRunAt(s, i)
  }

  lemma AfterCopies(script: Script, text: string)
    ensures script.After(text).Source() == text + script.Source()
    ensures script.After(text).Target() == text + script.Target()
  {
    if script.cuts != [] {
      var longer := script.After(text);
      assert longer.cuts[1..] == script.cuts[1..];
      var cut, rest := script.cuts[0], Script(script.cuts[1..], script.tail);
      assert (text + cut.before) + cut.dropped + rest.Source() == text + (cut.before + cut.dropped + rest.Source());
      assert (text + cut.before) + REDACTED + rest.Target() == text + (cut.before + REDACTED + rest.Target());
    }
  }

  /** A stop character separates runs. */
  lemma RunsSplitAtStop(p: string, stop: char, q: string)
    requires !IsOpaque(stop)
    ensures NoLongRun(p + [stop] + q) <==> NoLongRun(p) && NoLongRun(q)
  {
    var s := p + [stop] + q;
    if NoLongRun(p) && NoLongRun(q) {
      forall i: nat
        ensures !LongRunAt(s, i)
      {
        if LongRunAt(s, i) {
          assert s[|p|] == stop;
          if i < |p| {
            assert forall k :: i <= k < i + MIN_OPAQUE_RUN_LEN ==> p[k] == s[k];
            assert LongRunAt(p, i);
          } else {
            assert forall k :: i - |p| - 1 <= k < i - |p| - 1 + MIN_OPAQUE_RUN_LEN ==> q[k] == s[|p| + 1 + k];
            assert LongRunAt(q, i - |p| - 1);
          }
        }
      }
    }
    if NoLongRun(s) {
      forall i: nat
        ensures !LongRunAt(p, i) && !LongRunAt(q, i)
      {
        if LongRunAt(p, i) {
          assert forall k :: i <= k < i + MIN_OPAQUE_RUN_LEN ==> p[k] == s[k];
          assert LongRunAt(s, i);
        }
        if LongRunAt(q, i) {
          assert forall k :: i <= k < i + MIN_OPAQUE_RUN_LEN ==> q[k] == s[|p| + 1 + k];
          assert forall k :: |p| + 1 + i <= k < |p| + 1 + i + MIN_OPAQUE_RUN_LEN ==> s[k] == q[k - |p| - 1];
          assert LongRunAt(s, |p| + 1 + i);
        }
      }
    }
  }

  lemma RunsSplitAtRedaction(q: string)
    ensures NoLongRun(REDACTED + q) <==> NoLongRun(q)
  {
    RunsSplitAtStop([], '[', "REDACTED");
    RunsSplitAtStop("[REDACTED", ']', q);
    assert [] + ['['] + "REDACTED" == "[REDACTED";
    assert "[REDACTED" + [']'] + q == REDACTED + q;
  }

  /** The opaque-run pass reads its input, leaves no long run, and touches exactly the texts that have one. */
  lemma {:induction false} OpaquePassExact(s: string)
    ensures OpaqueScript(s).Source() == s
    ensures NoLongRun(OpaqueScript(s).Target())
    ensures OpaqueScript(s).Target() == s <==> NoLongRun(s)
    decreases |s|
  {
    hide NoLongRun, RunLength, Script.Source, Script.Target, Script.After;
    var n := RunLength(s);
    if n >= MIN_OPAQUE_RUN_LEN {
      OpaquePassExact(s[n..]);
      LongRunStep(s, n, OpaqueScript(s[n..]));
    } else if n == |s| {
      CopiedWhole(s);
      TooShortForARun(s);
    } else {
      OpaquePassExact(s[n + 1..]);
      ShortRunStep(s, n, OpaqueScript(s[n + 1..]));
    }
  }

  lemma CopiedWhole(s: string)
    ensures Script([], s).Source() == s && Script([], s).Target() == s
  {
  }

  lemma LongRunStep(s: string, n: nat, rest: Script)
    requires n <= |s| && n == RunLength(s) && n >= MIN_OPAQUE_RUN_LEN
    requires rest.Source() == s[n..] && NoLongRun(rest.Target())
    ensures var script := Script([Cut([], s[..n])] + rest.cuts, rest.tail);
            script.Source() == s && NoLongRun(script.Target())
    ensures !NoLongRun(s)
  {
    hide NoLongRun;
    LeadingCut(s[..n], rest);
    RunsSplitAtRedaction(rest.Target());
    LongRunAtFront(s);
  }

  lemma ShortRunStep(s: string, n: nat, rest: Script)
    requires n < |s| && n < MIN_OPAQUE_RUN_LEN && !IsOpaque(s[n])
    requires rest.Source() == s[n + 1..] && NoLongRun(rest.Target()) && (rest.Target() == s[n + 1..] <==> NoLongRun(s[n + 1..]))
    ensures rest.After(s[..n + 1]).Source() == s && NoLongRun(rest.After(s[..n + 1]).Target())
    ensures rest.After(s[..n + 1]).Target() == s <==> NoLongRun(s)
  {
    hide NoLongRun;
    AfterCopies(rest, s[..n + 1]);
    SplitAtStop(s, n, s[n + 1..]);
    SplitAtStop(s, n, rest.Target());
    assert s == s[..n + 1] + s[n + 1..];
  }

  /** Past a short run and its stop character only the rest of the text matters. */
  lemma SplitAtStop(s: string, n: nat, rest: string)
    requires n < |s| && n < MIN_OPAQUE_RUN_LEN && !IsOpaque(s[n])
    ensures NoLongRun(s[..n + 1] + rest) <==> NoLongRun(rest)
    ensures s[..n + 1] + rest == s <==> rest == s[n + 1..]
  {
    hide NoLongRun;
    TooShortForARun(s[..n]);
    RunsSplitAtStop(s[..n], s[n], rest);
    assert s[..n] + [s[n]] + rest == s[..n + 1] + rest;
    assert s == s[..n + 1] + s[n + 1..];
    assert rest == (s[..n + 1] + rest)[n + 1..];
  }

  lemma LeadingCut(run: string, rest: Script)
    ensures var script := Script([Cut([], run)] + rest.cuts, rest.tail);
            script.Source() == run + rest.Source() && script.Target() == REDACTED + rest.Target()
  {
    var script := Script([Cut([], run)] + rest.cuts, rest.tail);
    assert script.cuts[1..] == rest.cuts;
    assert script.Source() == [] + run + rest.Source() && [] + run == run;
    assert script.Target() == [] + REDACTED + rest.Target() && [] + REDACTED == REDACTED;
  }

  lemma LongRunAtFront(s: string)
    requires RunLength(s) >= MIN_OPAQUE_RUN_LEN
    ensures !NoLongRun(s)
  {
    assert LongRunAt(s, 0);
  }

  lemma TooShortForARun(s: string)
    requires |s| < MIN_OPAQUE_RUN_LEN
    ensures NoLongRun(s)
  {
  }

  /** A text made of opaque characters only is replaced as a whole once it is long enough: dashes do not break a run. */
  lemma OpaqueTextIsDropped(s: string)
    requires |s| >= MIN_OPAQUE_RUN_LEN && forall i :: 0 <= i < |s| ==> IsOpaque(s[i])
    ensures OpaqueScript(s).Target() == REDACTED
  {
    assert RunLength(s) == |s|;
    assert s[|s|..] == [];
    LeadingCut(s[..|s|], OpaqueScript(s[|s|..]));
  }

  /** A dashed UUID is one run of opaque characters, long enough to be replaced as a whole. */
  lemma UuidIsDropped()
    ensures OpaqueScript("123e4567-e89b-12d3-a456-426614174000").Target() == REDACTED
  {
    OpaqueTextIsDropped("123e4567-e89b-12d3-a456-426614174000");
  }

  // --- the whole redactor ---

  /** A pass that reads the text it is given and replaces some spans of it. */
  ghost predicate IsPass(pass: string -> Script) {
    forall s :: pass(s).Source() == s
  }

  /** The environment-dump, bot-token and JWT passes come as parameters: which spans they pick is not used. */
  function RedactString(input: string, token: string, envDump: string -> Script, botToken: string -> Script, jwt: string -> Script): string {
    if input == [] then input
    else
      var literal := if token == [] then input else ReplaceLeftmost(input, token, REDACTED);
      var shaped := jwt(botToken(envDump(literal).Target()).Target()).Target();
      OpaqueScript(shaped).Target()
  }

  /** No long opaque run, and no occurrence of a bracket-free token that is no part of "REDACTED". */
  ghost predicate IsClean(text: string, token: string) {
    NoLongRun(text) && (token != [] && BracketFree(token) && !Contains("REDACTED", token) ==> !Contains(text, token))
  }

  /** The output is clean whatever spans the middle passes replace. */
  lemma RedactedIsClean(input: string, token: string, envDump: string -> Script, botToken: string -> Script, jwt: string -> Script)
    requires IsPass(envDump) && IsPass(botToken) && IsPass(jwt)
    ensures IsClean(RedactString(input, token, envDump, botToken, jwt), token)
  {
    if input == [] {
      TooShortForARun(input);
    } else {
      var literal := if token == [] then input else ReplaceLeftmost(input, token, REDACTED);
      var dumped := envDump(literal).Target();
      var masked := botToken(dumped).Target();
      var shaped := jwt(masked).Target();
      OpaquePassExact(shaped);
      if token != [] && BracketFree(token) && !Contains("REDACTED", token) {
        LiteralPassRemovesToken(input, token);
        PassesKeepTokenOut(envDump(literal), token);
        PassesKeepTokenOut(botToken(dumped), token);
        PassesKeepTokenOut(jwt(masked), token);
        PassesKeepTokenOut(OpaqueScript(shaped), token);
      }
    }
  }

  /** For a bracket-free token the promise holds on every input exactly when the token is no part of the replacement's word. */
  lemma TokenIsRemovedExactly(token: string)
    requires token != [] && BracketFree(token)
    ensures (forall input, envDump, botToken, jwt :: IsPass(envDump) && IsPass(botToken) && IsPass(jwt) ==>
               !Contains(RedactString(input, token, envDump, botToken, jwt), token))
       <==> !Contains("REDACTED", token)
  {
    if Contains("REDACTED", token) {
      var idle := (s: string) => Script([], s);
      assert IsPass(idle);
      WordIsPutBack(token, idle);
    } else {
      forall input, envDump, botToken, jwt | IsPass(envDump) && IsPass(botToken) && IsPass(jwt)
        ensures !Contains(RedactString(input, token, envDump, botToken, jwt), token)
      {
        RedactedIsClean(input, token, envDump, botToken, jwt);
      }
    }
  }

  /** The failing family: a token inside "REDACTED" comes back with its own replacement. */
  lemma WordIsPutBack(token: string, idle: string -> Script)
    requires token != [] && Contains("REDACTED", token) && forall s :: idle(s) == Script([], s)
    ensures Contains(RedactString(token, token, idle, idle, idle), token)
  {
    hide Contains, ReplaceLeftmost, OpaqueScript;
    ReplaceWhole(token, REDACTED);
    RedactionIsShort();
    OpaquePassExact(REDACTED);
    WordInRedaction(token);
  }

  lemma RedactionIsShort()
    ensures NoLongRun(REDACTED)
  {
    TooShortForARun(REDACTED);
  }

  lemma ReplaceWhole(token: string, replacement: string)
    requires token != []
    ensures ReplaceLeftmost(token, token, replacement) == replacement
  {
    assert OccursAt(token, token, 0);
    ReplaceInEmpty(token[|token|..], token, replacement);
    assert replacement + [] == replacement;
  }

  lemma WordInRedaction(token: string)
    requires Contains("REDACTED", token)
    ensures Contains(REDACTED, token)
  {
    hide Contains;
    assert REDACTED[1..1 + |"REDACTED"|] == "REDACTED";
    ContainsWithin(REDACTED, "REDACTED", token, 1);
  }

  // --- the payload ---

  datatype AlertPayload = AlertPayload(kind: string, severity: string, occurredAt: string, title: string, body: string, data: Option<map<string, string>>)

  /** What `trim` takes off: white space and line terminators. */
  predicate IsTrimmed(c: char) {
    '\U{9}' <= c <= '\U{D}' || '\U{2000}' <= c <= '\U{200A}'
    || c in " \U{A0}\U{1680}\U{2028}\U{2029}\U{202F}\U{205F}\U{3000}\U{FEFF}"
  }

  function Trim(s: string): string {
    if s != [] && IsTrimmed(s[0]) then Trim(s[1..])
    else if s != [] && IsTrimmed(s[|s| - 1]) then Trim(s[..|s| - 1])
    else s
  }

  function TokenLiteral(configured: Option<string>): string {
    if configured.None? then "" else Trim(configured.value)
  }

  function RedactPayload(payload: AlertPayload, configured: Option<string>, envDump: string -> Script, botToken: string -> Script, jwt: string -> Script): AlertPayload {
    var token := TokenLiteral(configured);
    payload.(title := RedactString(payload.title, token, envDump, botToken, jwt),
             body := RedactString(payload.body, token, envDump, botToken, jwt),
             data := if payload.data.None? then None
                     else Some(map key | key in payload.data.value :: RedactString(payload.data.value[key], token, envDump, botToken, jwt)))
  }

  /** Every text a person reads is clean; type, severity, time and the keys of the data go through as they are. */
  lemma RedactedPayloadIsClean(payload: AlertPayload, configured: Option<string>, envDump: string -> Script, botToken: string -> Script, jwt: string -> Script)
    requires IsPass(envDump) && IsPass(botToken) && IsPass(jwt)
    ensures var out, token := RedactPayload(payload, configured, envDump, botToken, jwt), TokenLiteral(configured);
            && out.kind == payload.kind && out.severity == payload.severity && out.occurredAt == payload.occurredAt
            && IsClean(out.title, token) && IsClean(out.body, token)
            && (out.data.Some? <==> payload.data.Some?)
            && (out.data.Some? ==> out.data.value.Keys == payload.data.value.Keys
                                   && forall key :: key in out.data.value ==> IsClean(out.data.value[key], token))
  {
    hide RedactString, IsClean;
    var token := TokenLiteral(configured);
    forall text
      ensures IsClean(RedactString(text, token, envDump, botToken, jwt), token)
    {
      RedactedIsClean(text, token, envDump, botToken, jwt);
    }
  }

  // --- exactly which spans the last pass drops ---

  lemma OpaqueCharacters(c: char)
    ensures IsOpaque(c) <==> 65 <= c as int <= 90 || 97 <= c as int <= 122 || 48 <= c as int <= 57 || c in {'_', '+', '/', '=', '-'}
  {
  }

  ghost predicate AllOpaque(s: string) {
    forall i :: 0 <= i < |s| ==> IsOpaque(s[i])
  }

  /** Every dropped span is a maximal run of at least 32 opaque characters, and no copied stretch holds such a run. */
  ghost predicate DropsMaximalRuns(script: Script)
    decreases |script.cuts|
  {
    if script.cuts == [] then NoLongRun(script.tail)
    else
      var cut, rest := script.cuts[0], Script(script.cuts[1..], script.tail);
      && AllOpaque(cut.dropped) && |cut.dropped| >= 32
      && NoLongRun(cut.before) && (cut.before != [] ==> !IsOpaque(cut.before[|cut.before| - 1]))
      && (rest.Source() != [] ==> !IsOpaque(rest.Source()[0]))
      && DropsMaximalRuns(rest)
  }

  lemma {:induction false} OpaqueScriptExact(s: string)
    ensures DropsMaximalRuns(OpaqueScript(s))
    decreases |s|
  {
    hide NoLongRun, RunLength, DropsMaximalRuns, Script.Source, Script.After;
    var n := RunLength(s);
    if n >= MIN_OPAQUE_RUN_LEN {
      var rest := OpaqueScript(s[n..]);
      OpaqueScriptExact(s[n..]);
      OpaquePassExact(s[n..]);
      FirstRunCut(s, n, rest);
    } else if n == |s| {
      TooShortForARun(s);
      CopiedIsExact(s);
    } else {
      OpaqueScriptExact(s[n + 1..]);
      TooShortForARun(s[..n]);
      StretchBefore(OpaqueScript(s[n + 1..]), s[..n], s[n]);
      assert s[..n] + [s[n]] == s[..n + 1];
    }
  }

  lemma CopiedIsExact(s: string)
    requires NoLongRun(s)
    ensures DropsMaximalRuns(Script([], s))
  {
  }

  lemma FirstRunCut(s: string, n: nat, rest: Script)
    requires n <= |s| && n == RunLength(s) && n >= 32 && rest.Source() == s[n..] && DropsMaximalRuns(rest)
    ensures DropsMaximalRuns(Script([Cut([], s[..n])] + rest.cuts, rest.tail))
  {
    hide NoLongRun;
    var script := Script([Cut([], s[..n])] + rest.cuts, rest.tail);
    assert script.cuts[1..] == rest.cuts;
    TooShortForARun([]);
  }

  lemma StretchBefore(script: Script, p: string, stop: char)
    requires DropsMaximalRuns(script) && NoLongRun(p) && !IsOpaque(stop)
    ensures DropsMaximalRuns(script.After(p + [stop]))
  {
    hide NoLongRun;
    var text, longer := p + [stop], script.After(p + [stop]);
    if script.cuts == [] {
      RunsSplitAtStop(p, stop, script.tail);
    } else {
      assert longer.cuts[1..] == script.cuts[1..];
      RunsSplitAtStop(p, stop, script.cuts[0].before);
    }
  }

  // --- each pass keeps its promise to the end ---

  /** A pass that never leaves an occurrence of `secret`. */
  ghost predicate Removes(pass: string -> Script, secret: string) {
    forall s :: !Contains(pass(s).Target(), secret)
  }

  /** What any one of the middle passes removes from every text is not in the redacted one: no pass is skipped, and no later one brings it back. */
  lemma MiddlePassesCount(input: string, token: string, envDump: string -> Script, botToken: string -> Script, jwt: string -> Script, secret: string)
    requires IsPass(envDump) && IsPass(botToken) && IsPass(jwt) && input != ""
    requires secret != [] && BracketFree(secret) && !Contains("REDACTED", secret)
    requires Removes(envDump, secret) || Removes(botToken, secret) || Removes(jwt, secret)
    ensures !Contains(RedactString(input, token, envDump, botToken, jwt), secret)
  {
    hide Contains, ReplaceLeftmost;
    var literal := if token == [] then input else ReplaceLeftmost(input, token, REDACTED);
    var dumped := envDump(literal).Target();
    var masked := botToken(dumped).Target();
    var shaped := jwt(masked).Target();
    OpaquePassExact(shaped);
    if Removes(envDump, secret) {
      PassesKeepTokenOut(botToken(dumped), secret);
    }
    if Removes(envDump, secret) || Removes(botToken, secret) {
      PassesKeepTokenOut(jwt(masked), secret);
    }
    PassesKeepTokenOut(OpaqueScript(shaped), secret);
  }

  /** Trimming takes white space off both ends and nothing else, and leaves none there. */
  lemma {:induction false} TrimExact(s: string) returns (left: string, right: string)
    ensures s == left + Trim(s) + right
    ensures (forall i :: 0 <= i < |left| ==> IsTrimmed(left[i])) && (forall i :: 0 <= i < |right| ==> IsTrimmed(right[i]))
    ensures Trim(s) != [] ==> !IsTrimmed(Trim(s)[0]) && !IsTrimmed(Trim(s)[|Trim(s)| - 1])
    decreases |s|
  {
    hide IsTrimmed;
    if s != [] && IsTrimmed(s[0]) {
      left, right := TrimExact(s[1..]);
      left := [s[0]] + left;
    } else if s != [] && IsTrimmed(s[|s| - 1]) {
      left, right := TrimExact(s[..|s| - 1]);
      right := right + [s[|s| - 1]];
    } else {
      left, right := [], [];
    }
  }

  // --- what is kept ---

  function Pieced(pieces: seq<string>, glue: string): string {
    if pieces == [] then []
    else if |pieces| == 1 then pieces[0]
    else pieces[0] + (glue + Pieced(pieces[1..], glue))
  }

  /** The literal pass cuts the text at the token, first occurrence first, and puts the replacement where the token was. */
  lemma {:induction false} LiteralPassExact(s: string, token: string, replacement: string) returns (pieces: seq<string>)
    requires token != []
    ensures pieces != [] && s == Pieced(pieces, token) && ReplaceLeftmost(s, token, replacement) == Pieced(pieces, replacement)
    ensures forall k :: 0 <= k < |pieces| - 1 ==> forall i: nat :: i < |pieces[k]| ==> !OccursAt(pieces[k] + token, token, i)
    ensures !Contains(pieces[|pieces| - 1], token)
    decreases |s|
  {
    hide ReplaceLeftmost, OccursAt;
    if Contains(s, token) {
      var first := FirstOccurrence(s, token);
      AfterFirst(s, token, first);
      var rest := LiteralPassExact(s[first + |token|..], token, replacement);
      pieces := [s[..first]] + rest;
      assert pieces[1..] == rest;
      SkipUnmatched(s, token, replacement, first);
      OccurrenceStep(s, token, replacement, first);
      forall k | 0 < k < |pieces| - 1
        ensures forall i: nat :: i < |pieces[k]| ==> !OccursAt(pieces[k] + token, token, i)
      {
        assert pieces[k] == rest[k - 1];
      }
    } else {
      pieces := [s];
      Untouched(s, token, replacement);
    }
  }

  lemma AfterFirst(s: string, token: string, first: nat)
    requires token != [] && OccursAt(s, token, first) && forall i: nat :: i < first ==> !OccursAt(s, token, i)
    ensures s == s[..first] + (token + s[first + |token|..])
    ensures forall i: nat :: i < first ==> !OccursAt(s[..first] + token, token, i)
  {
    assert s == s[..first] + token + s[first + |token|..];
    var head := s[..first] + token;
    assert s[0..0 + |head|] == head;
    forall i: nat | i < first
      ensures !OccursAt(head, token, i)
    {
      OccursWithin(s, head, token, 0, i);
    }
  }

  lemma Untouched(s: string, token: string, replacement: string)
    requires token != [] && !Contains(s, token)
    ensures ReplaceLeftmost(s, token, replacement) == s
  {
    hide ReplaceLeftmost;
    forall i: nat
      ensures !OccursAt(s, token, i)
    {
      if OccursAt(s, token, i) {
        OccurrenceContains(s, token, i);
      }
    }
    SkipUnmatched(s, token, replacement, |s|);
    ReplaceInEmpty(s[|s|..], token, replacement);
    assert s[..|s|] + [] == s;
  }

  /** A text none of the passes has anything to say about. */
  ghost predicate IsHarmless(text: string, token: string, envDump: string -> Script, botToken: string -> Script, jwt: string -> Script) {
    && (token != "" ==> !Contains(text, token)) && NoLongRun(text)
    && envDump(text).Target() == text && botToken(text).Target() == text && jwt(text).Target() == text
  }

  /** Such a text comes out as it went in, and so does every text of a payload. */
  lemma HarmlessIsKept(payload: AlertPayload, configured: Option<string>, text: string, envDump: string -> Script, botToken: string -> Script, jwt: string -> Script)
    requires IsHarmless(text, TokenLiteral(configured), envDump, botToken, jwt)
    ensures RedactString(text, TokenLiteral(configured), envDump, botToken, jwt) == text
    ensures var out := RedactPayload(payload, configured, envDump, botToken, jwt);
            && (payload.title == text ==> out.title == text) && (payload.body == text ==> out.body == text)
            && (payload.data.Some? ==> out.data.Some? && forall key :: key in payload.data.value && payload.data.value[key] == text ==>
                                                            key in out.data.value && out.data.value[key] == text)
  {
    hide ReplaceLeftmost, Contains, NoLongRun, OpaqueScript, Trim;
    var token := TokenLiteral(configured);
    if token != [] {
      Untouched(text, token, REDACTED);
    }
    OpaquePassExact(text);
  }
}
