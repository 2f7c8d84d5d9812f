/** The egress chokepoint: a walk over a value tree that collects every path a policy forbids. */
module EgressWalker {
  import opened Wrappers
  import opened Decimals

  const MAX_DEPTH := 8
  const MAX_DECIMAL_LENGTH := 64

  datatype Field = Field(key: string, value: Value)

  /** `Opaque` stands for undefined, bigint, symbol and function values. */
  datatype Value = Null | Opaque | Bool(b: bool) | Num(n: real) | Str(s: string) | Arr(items: seq<Value>) | Obj(fields: seq<Field>)
  {
    predicate IsContainer() {
      Arr? || Obj?
    }
  }

  /** The four lists of the policy; every result below holds for all of them. */
  datatype Policy = Policy(allowlist: set<string>, blocklist: set<string>, substrings: seq<string>, tokens: set<string>)

  datatype PathStep = Key(k: string) | Index(i: nat)

  datatype Violation = Violation(path: seq<PathStep>, tooDeep: bool)

  // --- keys and leaves ---

  function ToLower(s: string): (r: string)
    ensures |r| == |s|
  {
    seq(|s|, i requires 0 <= i < |s| => if 'A' <= s[i] <= 'Z' then 'a' + (s[i] - 'A') else s[i])
  }

  predicate Includes(s: string, part: string) {
    part <= s || (s != [] && Includes(s[1..], part))
  }

  predicate HasBlockedSubstring(policy: Policy, key: string) {
    exists i :: 0 <= i < |policy.substrings| && Includes(ToLower(key), policy.substrings[i])
  }

  /** Underscore, dash, and the white space that splits. */
  predicate IsSeparator(c: char) {
    || c == '_' || c == '-' || c == ' ' || '\U{9}' <= c <= '\U{D}' || '\U{2000}' <= c <= '\U{200A}'
    || c in "\U{A0}\U{1680}\U{2028}\U{2029}\U{202F}\U{205F}\U{3000}\U{FEFF}"
  }

  /** Whether a word ends before position `i`: at a separator, or between a lower-case letter or digit and a capital. */
  predicate WordBreak(key: string, i: nat)
    requires 0 < i < |key|
  {
    'A' <= key[i] <= 'Z' && ('a' <= key[i - 1] <= 'z' || '0' <= key[i - 1] <= '9')
  }

  /** The words of `key` from `start` on, where `word` has been read so far. */
  function WordsFrom(key: string, start: nat, word: string): seq<string>
    requires start <= |key|
    decreases |key| - start
  {
    var finished := if word == [] then [] else [word];
    if start == |key| then finished
    else if IsSeparator(key[start]) then finished + WordsFrom(key, start + 1, [])
    else if start > 0 && WordBreak(key, start) then finished + WordsFrom(key, start + 1, ToLower([key[start]]))
    else WordsFrom(key, start + 1, word + ToLower([key[start]]))
  }

  function SplitIntoWords(key: string): seq<string> {
    WordsFrom(key, 0, [])
  }

  predicate IsBlockedKey(policy: Policy, key: string) {
    || key in policy.blocklist
    || HasBlockedSubstring(policy, key)
    || exists i :: 0 <= i < |SplitIntoWords(key)| && SplitIntoWords(key)[i] in policy.tokens
  }

  /** A key the walker reports whatever its value: blocked and not allowlisted, or blocked outright. */
  predicate KeyForbidden(policy: Policy, key: string) {
    || (IsBlockedKey(policy, key) && key !in policy.allowlist)
    || key in policy.blocklist || HasBlockedSubstring(policy, key)
  }

  function DigitRun(s: string): (n: nat)
    ensures n <= |s|
  {
    if s == [] || !IsDigit(s[0]) then 0 else 1 + DigitRun(s[1..])
  }

  predicate IsExponent(s: string) {
    || s == []
    || (|s| > 1 && (s[0] == 'e' || s[0] == 'E')
        && var digits := if s[1] == '+' || s[1] == '-' then s[2..] else s[1..];
           digits != [] && DigitRun(digits) == |digits|)
  }

  /** What follows the leading digits: a fraction of at least one digit and an exponent, or after at least one leading digit an exponent alone. */
  predicate IsDecimalTail(hasWhole: bool, rest: string) {
    if rest != [] && rest[0] == '.' then DigitRun(rest[1..]) > 0 && IsExponent(rest[1..][DigitRun(rest[1..])..])
    else hasWhole && IsExponent(rest)
  }

  /** An optional sign, digits with an optional fraction or a bare fraction, an optional exponent, and nothing else. */
  predicate IsDecimalString(s: string) {
    && 0 < |s| <= MAX_DECIMAL_LENGTH
    && var body := if s[0] == '-' then s[1..] else s;
       IsDecimalTail(DigitRun(body) > 0, body[DigitRun(body)..])
  }

  predicate IsLeafAllowed(policy: Policy, key: string, value: Value) {
    key in policy.allowlist || value.Num? || value.Bool? || (value.Str? && IsDecimalString(value.s))
  }

  // --- what the tests on keys and leaves mean ---

  /** `lower` is `key` with its capital letters made small. */
  predicate IsLowerOf(lower: string, key: string) {
    && |lower| == |key|
    && forall i :: 0 <= i < |key| ==> lower[i] == if 'A' <= key[i] <= 'Z' then (key[i] as int + 32) as char else key[i]
  }

  lemma LowerExact(key: string)
    ensures IsLowerOf(ToLower(key), key)
    ensures forall lower :: IsLowerOf(lower, key) ==> lower == ToLower(key)
  {
  }

  predicate FoundAt(s: string, part: string, i: nat) {
    i + |part| <= |s| && s[i..i + |part|] == part
  }

  lemma {:induction false} IncludesExact(s: string, part: string)
    ensures Includes(s, part) <==> exists i: nat :: FoundAt(s, part, i)
  {
    assert part <= s <==> FoundAt(s, part, 0);
    if s != [] {
      IncludesExact(s[1..], part);
      if Includes(s[1..], part) {
        var i: nat :| FoundAt(s[1..], part, i);
        FoundShifted(s, part, i);
      }
      forall i: nat | FoundAt(s, part, i) && i > 0
        ensures Includes(s[1..], part)
      {
        FoundShifted(s, part, i - 1);
      }
    }
  }

  lemma FoundShifted(s: string, part: string, i: nat)
    requires s != []
    ensures FoundAt(s[1..], part, i) <==> FoundAt(s, part, i + 1)
  {
    assert i + 1 + |part| <= |s| ==> s[1..][i..i + |part|] == s[i + 1..i + 1 + |part|];
  }

  /** A character no word holds. */
  predicate Between(c: char) {
    c in "_- \t\n\U{B}\U{C}\r\U{A0}\U{1680}\U{2028}\U{2029}\U{202F}\U{205F}\U{3000}\U{FEFF}" || 0x2000 <= c as int <= 0x200A
  }

  /** A word starts or ends before position `i`: at an end of the key, beside a character no word holds, or where a capital follows a small letter or digit. */
  predicate Edge(key: string, i: nat)
    requires i <= |key|
  {
    || i == 0 || i == |key| || Between(key[i - 1]) || Between(key[i])
    || (65 <= key[i] as int <= 90 && (97 <= key[i - 1] as int <= 122 || 48 <= key[i - 1] as int <= 57))
  }

  /** `key[i..j]` is a whole word. */
  predicate WordAt(key: string, i: nat, j: nat) {
    i < j <= |key| && Edge(key, i) && Edge(key, j) && forall k :: i <= k < j ==> !Between(key[k]) && (k > i ==> !Edge(key, k))
  }

  lemma SeparatorExact(c: char)
    ensures IsSeparator(c) <==> Between(c)
  {
    assert '\U{2000}' as int == 0x2000 && '\U{200A}' as int == 0x200A;
  }

  lemma EdgeExact(key: string, i: nat)
    requires 0 < i < |key|
    ensures Edge(key, i) <==> IsSeparator(key[i - 1]) || IsSeparator(key[i]) || WordBreak(key, i)
  {
    SeparatorExact(key[i - 1]);
    SeparatorExact(key[i]);
  }

  /** The word under way has been read from `from`, an edge, up to `at`, with no edge inside. */
  predicate UnderWay(key: string, from: nat, at: nat) {
    from <= at <= |key| && Edge(key, from) && forall k :: from <= k < at ==> !Between(key[k]) && (k > from ==> !Edge(key, k))
  }

  /** `key[i..j]` is the word under way at `at`, or lies past it. */
  predicate Ahead(from: nat, at: nat, i: nat, j: nat) {
    j >= at && (i >= at || i == from)
  }

  ghost predicate StillToCome(key: string, from: nat, at: nat, word: string) {
    exists i: nat, j: nat :: WordAt(key, i, j) && Ahead(from, at, i, j) && ToLower(key[i..j]) == word
  }

  lemma ToLowerSnoc(s: string, c: char)
    ensures ToLower(s + [c]) == ToLower(s) + ToLower([c]) && (ToLower(s) == [] <==> s == [])
  {
  }

  /** At the end of the key, and before an edge or a separator, the word under way is finished: it is the only one ahead that starts where it does. */
  lemma WordEnds(key: string, from: nat, at: nat, i: nat, j: nat)
    requires UnderWay(key, from, at) && Edge(key, at)
    ensures from < at ==> WordAt(key, from, at)
    ensures from < at && WordAt(key, i, j) && Ahead(from, at, i, j) && i == from ==> j == at
  {
    hide Edge, Between;
  }

  lemma AtSeparator(key: string, from: nat, at: nat, word: string)
    requires UnderWay(key, from, at) && at < |key| && Between(key[at])
    ensures UnderWay(key, at + 1, at + 1)
    ensures StillToCome(key, from, at, word) <==> (from < at && ToLower(key[from..at]) == word) || StillToCome(key, at + 1, at + 1, word)
  {
    assert Edge(key, at) && Edge(key, at + 1);
    hide Edge, Between, ToLower;
    if StillToCome(key, from, at, word) {
      var i: nat, j: nat :| WordAt(key, i, j) && Ahead(from, at, i, j) && ToLower(key[i..j]) == word;
      WordEnds(key, from, at, i, j);
      assert i < at || Ahead(at + 1, at + 1, i, j);
    }
    if StillToCome(key, at + 1, at + 1, word) {
      var i: nat, j: nat :| WordAt(key, i, j) && Ahead(at + 1, at + 1, i, j) && ToLower(key[i..j]) == word;
      assert Ahead(from, at, i, j);
    }
    if from < at && ToLower(key[from..at]) == word {
      WordEnds(key, from, at, from, at);
      assert Ahead(from, at, from, at);
    }
  }

  lemma AtBreak(key: string, from: nat, at: nat, word: string)
    requires UnderWay(key, from, at) && 0 < at < |key| && !Between(key[at]) && Edge(key, at)
    ensures UnderWay(key, at, at + 1)
    ensures StillToCome(key, from, at, word) <==> (from < at && ToLower(key[from..at]) == word) || StillToCome(key, at, at + 1, word)
  {
    hide Edge, Between, ToLower;
    if StillToCome(key, from, at, word) {
      var i: nat, j: nat :| WordAt(key, i, j) && Ahead(from, at, i, j) && ToLower(key[i..j]) == word;
      WordEnds(key, from, at, i, j);
      assert i < at || Ahead(at, at + 1, i, j);
    }
    if StillToCome(key, at, at + 1, word) {
      var i: nat, j: nat :| WordAt(key, i, j) && Ahead(at, at + 1, i, j) && ToLower(key[i..j]) == word;
      assert Ahead(from, at, i, j);
    }
    if from < at && ToLower(key[from..at]) == word {
      WordEnds(key, from, at, from, at);
      assert Ahead(from, at, from, at);
    }
  }

  lemma InsideWord(key: string, from: nat, at: nat, word: string)
    requires UnderWay(key, from, at) && at < |key| && !Between(key[at]) && (from < at ==> !Edge(key, at))
    ensures UnderWay(key, from, at + 1)
    ensures StillToCome(key, from, at, word) <==> StillToCome(key, from, at + 1, word)
  {
    hide Edge, Between, ToLower;
    if StillToCome(key, from, at, word) {
      var i: nat, j: nat :| WordAt(key, i, j) && Ahead(from, at, i, j) && ToLower(key[i..j]) == word;
      assert Ahead(from, at + 1, i, j);
    }
    if StillToCome(key, from, at + 1, word) {
      var i: nat, j: nat :| WordAt(key, i, j) && Ahead(from, at + 1, i, j) && ToLower(key[i..j]) == word;
      assert Ahead(from, at, i, j);
    }
  }

  lemma AtTheEnd(key: string, from: nat, word: string)
    requires UnderWay(key, from, |key|)
    ensures StillToCome(key, from, |key|, word) <==> from < |key| && ToLower(key[from..]) == word
  {
    assert Edge(key, |key|);
    hide Edge, Between, ToLower;
    assert key[from..|key|] == key[from..];
    if StillToCome(key, from, |key|, word) {
      var i: nat, j: nat :| WordAt(key, i, j) && Ahead(from, |key|, i, j) && ToLower(key[i..j]) == word;
    }
    if from < |key| && ToLower(key[from..]) == word {
      WordEnds(key, from, |key|, from, |key|);
      assert Ahead(from, |key|, from, |key|);
    }
  }

  lemma {:induction false} WordsFromExact(key: string, from: nat, at: nat, word: string)
    requires UnderWay(key, from, at)
    ensures word in WordsFrom(key, at, ToLower(key[from..at])) <==> StillToCome(key, from, at, word)
    decreases |key| - at
  {
    hide ToLower, WordBreak, IsSeparator, Between, Edge, StillToCome, UnderWay;
    UnderWayBounds(key, from, at);
    ToLowerSnoc(key[from..at], ' ');
    if at == |key| {
      AtTheEnd(key, from, word);
      assert key[from..at] == key[from..];
    } else {
      SeparatorExact(key[at]);
      ToLowerSnoc([], ' ');
      if IsSeparator(key[at]) {
        AtSeparator(key, from, at, word);
        WordsFromExact(key, at + 1, at + 1, word);
        assert key[at + 1..at + 1] == [];
      } else if at > 0 && WordBreak(key, at) {
        EdgeExact(key, at);
        AtBreak(key, from, at, word);
        WordsFromExact(key, at, at + 1, word);
        assert key[at..at + 1] == [key[at]];
      } else {
        NoEdge(key, from, at);
        InsideWord(key, from, at, word);
        WordsFromExact(key, from, at + 1, word);
        ToLowerSnoc(key[from..at], key[at]);
        assert key[from..at + 1] == key[from..at] + [key[at]];
      }
    }
  }

  lemma UnderWayBounds(key: string, from: nat, at: nat)
    requires UnderWay(key, from, at)
    ensures from <= at <= |key|
  {
  }

  lemma NoEdge(key: string, from: nat, at: nat)
    requires UnderWay(key, from, at) && at < |key| && !IsSeparator(key[at]) && (at == 0 || !WordBreak(key, at))
    ensures from < at ==> !Edge(key, at)
  {
    hide IsSeparator, WordBreak, Between, Edge;
    if from < at {
      EdgeExact(key, at);
      SeparatorExact(key[at - 1]);
      assert !Between(key[at - 1]);
    }
  }

  /** The words of a key are its whole words, in small letters. */
  lemma WordsExact(key: string, word: string)
    ensures word in SplitIntoWords(key) <==> exists i: nat, j: nat :: WordAt(key, i, j) && ToLower(key[i..j]) == word
  {
    assert UnderWay(key, 0, 0);
    hide WordsFrom, Edge, Between, ToLower;
    ToLowerSnoc([], ' ');
    assert key[0..0] == [];
    WordsFromExact(key, 0, 0, word);
    if i: nat, j: nat :| WordAt(key, i, j) && ToLower(key[i..j]) == word {
      assert Ahead(0, 0, i, j);
    }
  }

  /** A key that may go out, read off the key itself: not on the block list, no blocked text in it in any case, and no blocked whole word unless it is allowed by name. */
  ghost predicate KeyPermitted(policy: Policy, key: string) {
    && key !in policy.blocklist
    && (forall lower, n, i: nat :: IsLowerOf(lower, key) && 0 <= n < |policy.substrings| ==> !FoundAt(lower, policy.substrings[n], i))
    && (key in policy.allowlist || forall i: nat, j: nat, word :: WordAt(key, i, j) && IsLowerOf(word, key[i..j]) ==> word !in policy.tokens)
  }

  lemma KeyExact(policy: Policy, key: string)
    ensures KeyForbidden(policy, key) <==> !KeyPermitted(policy, key)
  {
    hide Includes, WordAt, SplitIntoWords, ToLower, FoundAt;
    LowerExact(key);
    SubstringsExact(policy, key);
    TokensExact(policy, key);
  }

  lemma SubstringsExact(policy: Policy, key: string)
    ensures HasBlockedSubstring(policy, key)
            <==> exists lower, n, i: nat :: IsLowerOf(lower, key) && 0 <= n < |policy.substrings| && FoundAt(lower, policy.substrings[n], i)
  {
    hide Includes, ToLower, FoundAt, IsLowerOf;
    LowerExact(key);
    if HasBlockedSubstring(policy, key) {
      var n :| 0 <= n < |policy.substrings| && Includes(ToLower(key), policy.substrings[n]);
      IncludesExact(ToLower(key), policy.substrings[n]);
      var i: nat :| FoundAt(ToLower(key), policy.substrings[n], i);
    }
    if lower, n, i: nat :| IsLowerOf(lower, key) && 0 <= n < |policy.substrings| && FoundAt(lower, policy.substrings[n], i) {
      IncludesExact(ToLower(key), policy.substrings[n]);
    }
  }

  lemma TokensExact(policy: Policy, key: string)
    ensures (exists n :: 0 <= n < |SplitIntoWords(key)| && SplitIntoWords(key)[n] in policy.tokens)
            <==> exists i: nat, j: nat, word :: WordAt(key, i, j) && IsLowerOf(word, key[i..j]) && word in policy.tokens
  {
    hide Edge, Between, SplitIntoWords, ToLower, IsLowerOf;
    if n :| 0 <= n < |SplitIntoWords(key)| && SplitIntoWords(key)[n] in policy.tokens {
      var word := SplitIntoWords(key)[n];
      WordsExact(key, word);
      var i: nat, j: nat :| WordAt(key, i, j) && ToLower(key[i..j]) == word;
      LowerExact(key[i..j]);
    }
    if i: nat, j: nat, word :| WordAt(key, i, j) && IsLowerOf(word, key[i..j]) && word in policy.tokens {
      LowerExact(key[i..j]);
      WordsExact(key, word);
    }
  }

  predicate IsSign(s: string) {
    s == "" || s == "-"
  }

  /** An exponent: nothing, or a letter, an optional sign, and digits. */
  predicate IsExponentOf(s: string, letter: string, sign: string, digits: string) {
    && s == letter + sign + digits && AllDigits(digits)
    && (letter == "e" || letter == "E" || (letter == "" && sign == "" && digits == ""))
    && (sign == "" || sign == "+" || sign == "-") && (letter != "" ==> digits != "")
  }

  /** The text is a sign, digits, a fraction and an exponent, each of them optional, but with a digit before the exponent. */
  predicate IsDecimalOf(s: string, sign: string, whole: string, fraction: string, letter: string, exponentSign: string, digits: string) {
    && s == sign + whole + Fraction(fraction) + (letter + exponentSign + digits)
    && IsSign(sign) && AllDigits(whole) && AllDigits(fraction) && (whole != "" || fraction != "")
    && IsExponentOf(letter + exponentSign + digits, letter, exponentSign, digits)
  }

  lemma {:induction false} RunExact(s: string)
    ensures AllDigits(s[..DigitRun(s)]) && (DigitRun(s) < |s| ==> !IsDigit(s[DigitRun(s)]))
  {
    if s != [] && IsDigit(s[0]) {
      RunExact(s[1..]);
      assert s[..DigitRun(s)] == [s[0]] + s[1..][..DigitRun(s[1..])];
    }
  }

  lemma {:induction false} RunStops(digits: string, rest: string)
    requires AllDigits(digits) && (rest != [] ==> !IsDigit(rest[0]))
    ensures DigitRun(digits + rest) == |digits| && (digits + rest)[|digits|..] == rest
  {
    if digits == [] {
      assert digits + rest == rest;
    } else {
      assert (digits + rest)[1..] == digits[1..] + rest;
      RunStops(digits[1..], rest);
    }
  }

  lemma ExponentRead(s: string) returns (letter: string, sign: string, digits: string)
    requires IsExponent(s)
    ensures IsExponentOf(s, letter, sign, digits)
  {
    if s == [] {
      letter, sign, digits := "", "", "";
    } else {
      letter := [s[0]];
      sign := if s[1] == '+' || s[1] == '-' then [s[1]] else "";
      digits := s[1 + |sign|..];
      RunExact(digits);
      assert digits[..|digits|] == digits;
      assert s == letter + sign + digits;
    }
  }

  lemma ExponentWritten(s: string, letter: string, sign: string, digits: string)
    requires IsExponentOf(s, letter, sign, digits)
    ensures IsExponent(s) && (s != [] ==> s[0] == 'e' || s[0] == 'E')
  {
    RunStops(digits, []);
    assert digits + [] == digits;
    if letter != "" {
      assert s[1..] == sign + digits;
      if sign != "" {
        assert s[2..] == digits && s[1] == sign[0];
      } else {
        assert s[1..] == digits && s[1] == digits[0];
      }
    }
  }

  function Fraction(fraction: string): string {
    if fraction == "" then "" else "." + fraction
  }

  lemma TailRead(hasWhole: bool, rest: string) returns (fraction: string, letter: string, sign: string, digits: string)
    requires IsDecimalTail(hasWhole, rest)
    ensures rest == Fraction(fraction) + (letter + sign + digits) && AllDigits(fraction) && (hasWhole || fraction != "")
    ensures IsExponentOf(letter + sign + digits, letter, sign, digits)
  {
    hide IsExponent, IsExponentOf;
    if rest != [] && rest[0] == '.' {
      var n := DigitRun(rest[1..]);
      RunExact(rest[1..]);
      fraction := rest[1..][..n];
      letter, sign, digits := ExponentRead(rest[1..][n..]);
      ExponentText(rest[1..][n..], letter, sign, digits);
      SplitAfterPoint(rest, n);
      Fractioned(rest, fraction, rest[1..][n..]);
    } else {
      fraction := "";
      letter, sign, digits := ExponentRead(rest);
      ExponentText(rest, letter, sign, digits);
      assert "" + rest == rest;
    }
  }

  lemma SplitAfterPoint(rest: string, n: nat)
    requires rest != [] && rest[0] == '.' && n <= |rest[1..]|
    ensures rest == "." + (rest[1..][..n] + rest[1..][n..])
  {
  }

  lemma Fractioned(rest: string, fraction: string, exponent: string)
    requires fraction != "" && rest == "." + (fraction + exponent)
    ensures rest == Fraction(fraction) + exponent
  {
  }

  lemma ExponentText(s: string, letter: string, sign: string, digits: string)
    requires IsExponentOf(s, letter, sign, digits)
    ensures s == letter + sign + digits
  {
  }

  lemma TailWritten(fraction: string, exponent: string, letter: string, sign: string, digits: string)
    requires AllDigits(fraction) && IsExponentOf(exponent, letter, sign, digits)
    ensures IsDecimalTail(true, Fraction(fraction) + exponent) && (fraction != "" ==> IsDecimalTail(false, Fraction(fraction) + exponent))
    ensures Fraction(fraction) + exponent != "" ==> !IsDigit((Fraction(fraction) + exponent)[0])
  {
    hide IsExponent, IsExponentOf;
    ExponentWritten(exponent, letter, sign, digits);
    if fraction == "" {
      assert "" + exponent == exponent;
    } else {
      assert ("." + fraction + exponent)[1..] == fraction + exponent;
      RunStops(fraction, exponent);
    }
  }

  lemma BodyRead(body: string) returns (whole: string, fraction: string, letter: string, sign: string, digits: string)
    requires IsDecimalTail(DigitRun(body) > 0, body[DigitRun(body)..])
    ensures body == whole + Fraction(fraction) + (letter + sign + digits)
    ensures AllDigits(whole) && AllDigits(fraction) && (whole != "" || fraction != "")
    ensures IsExponentOf(letter + sign + digits, letter, sign, digits)
  {
    hide DigitRun, IsExponentOf, IsDecimalTail, Fraction;
    var n := DigitRun(body);
    RunExact(body);
    whole := body[..n];
    fraction, letter, sign, digits := TailRead(n > 0, body[n..]);
    Joined("", whole, Fraction(fraction), letter + sign + digits, body[n..], body);
    assert "" + body == body && "" + whole == whole;
  }

  lemma DecimalRead(s: string)
    requires IsDecimalString(s)
    ensures 0 < |s| <= 64
    ensures exists sign, whole, fraction, letter, exponentSign, digits :: IsDecimalOf(s, sign, whole, fraction, letter, exponentSign, digits)
  {
    hide DigitRun, IsExponentOf, IsDecimalTail, IsDecimalOf, Fraction;
    var sign := if s[0] == '-' then "-" else "";
    var body := if s[0] == '-' then s[1..] else s;
    var whole, fraction, letter, exponentSign, digits := BodyRead(body);
    Signed(s, sign, whole, Fraction(fraction), letter + exponentSign + digits, body);
    PartsOf(s, sign, whole, fraction, letter, exponentSign, digits);
  }

  lemma Signed(s: string, sign: string, whole: string, fraction: string, exponent: string, body: string)
    requires s != "" && body == whole + fraction + exponent
    requires if s[0] == '-' then sign == "-" && body == s[1..] else sign == "" && body == s
    ensures s == sign + whole + fraction + exponent
  {
    assert s == sign + body;
  }

  lemma PartsOf(s: string, sign: string, whole: string, fraction: string, letter: string, exponentSign: string, digits: string)
    requires s == sign + whole + Fraction(fraction) + (letter + exponentSign + digits)
    requires IsSign(sign) && AllDigits(whole) && AllDigits(fraction) && (whole != "" || fraction != "")
    requires IsExponentOf(letter + exponentSign + digits, letter, exponentSign, digits)
    ensures IsDecimalOf(s, sign, whole, fraction, letter, exponentSign, digits)
  {
  }

  lemma Joined(sign: string, whole: string, fraction: string, exponent: string, rest: string, body: string)
    requires body == whole + rest && rest == fraction + exponent
    ensures sign + body == sign + whole + fraction + exponent
  {
  }

  lemma DecimalWritten(s: string, sign: string, whole: string, fraction: string, letter: string, exponentSign: string, digits: string)
    requires |s| <= 64 && IsDecimalOf(s, sign, whole, fraction, letter, exponentSign, digits)
    ensures IsDecimalString(s)
  {
    hide DigitRun, IsExponent, IsExponentOf, IsDecimalTail, Fraction;
    var exponent := letter + exponentSign + digits;
    TailWritten(fraction, exponent, letter, exponentSign, digits);
    var rest := Fraction(fraction) + exponent;
    var body := whole + rest;
    Joined(sign, whole, Fraction(fraction), exponent, rest, body);
    RunStops(whole, rest);
    BodyStarts(whole, fraction, exponent);
    if sign == "-" {
      assert s[1..] == body;
    } else {
      assert s == body;
    }
  }

  lemma BodyStarts(whole: string, fraction: string, exponent: string)
    requires AllDigits(whole) && (whole != "" || fraction != "")
    ensures whole + (Fraction(fraction) + exponent) != "" && (whole + (Fraction(fraction) + exponent))[0] != '-'
  {
  }

  /** A leaf that may go out under a key: any value where the key is allowed by name, and otherwise a number, a boolean, or a text of at most 64 characters that is a decimal number. */
  ghost predicate LeafPermitted(policy: Policy, key: string, value: Value) {
    || key in policy.allowlist || value.Num? || value.Bool?
    || (value.Str? && |value.s| <= 64
        && exists sign, whole, fraction, letter, exponentSign, digits :: IsDecimalOf(value.s, sign, whole, fraction, letter, exponentSign, digits))
  }

  lemma LeafExact(policy: Policy, key: string, value: Value)
    ensures IsLeafAllowed(policy, key, value) <==> LeafPermitted(policy, key, value)
  {
    hide IsDecimalString, IsDecimalOf;
    if value.Str? && IsDecimalString(value.s) {
      DecimalRead(value.s);
    }
    if value.Str? && |value.s| <= 64 {
      forall sign, whole, fraction, letter, exponentSign, digits | IsDecimalOf(value.s, sign, whole, fraction, letter, exponentSign, digits)
        ensures IsDecimalString(value.s)
      {
        DecimalWritten(value.s, sign, whole, fraction, letter, exponentSign, digits);
      }
    }
  }

  /** No letters but an exponent's, no spaces, no other signs, and at least one digit: nothing of a message fits into such a text. */
  lemma DecimalCharacters(s: string)
    requires exists sign, whole, fraction, letter, exponentSign, digits :: IsDecimalOf(s, sign, whole, fraction, letter, exponentSign, digits)
    ensures Numeric(s) && exists i :: 0 <= i < |s| && IsDigit(s[i])
  {
    hide Numeric;
    var sign, whole, fraction, letter, exponentSign, digits :| IsDecimalOf(s, sign, whole, fraction, letter, exponentSign, digits);
    PartsAreNumeric(sign, whole, fraction, letter, exponentSign, digits);
    NumericTwo(letter, exponentSign);
    NumericTwo(letter + exponentSign, digits);
    NumericTwo(sign, whole);
    NumericTwo(sign + whole, Fraction(fraction));
    NumericTwo(sign + whole + Fraction(fraction), letter + exponentSign + digits);
    if whole != "" {
      assert s[|sign|] == whole[0];
    } else {
      assert s[|sign| + 1] == fraction[0];
    }
  }

  predicate Numeric(s: string) {
    forall i :: 0 <= i < |s| ==> IsDigit(s[i]) || s[i] in ".-+eE"
  }

  lemma NumericTwo(a: string, b: string)
    requires Numeric(a) && Numeric(b)
    ensures Numeric(a + b)
  {
  }

  lemma PartsAreNumeric(sign: string, whole: string, fraction: string, letter: string, exponentSign: string, digits: string)
    requires IsSign(sign) && AllDigits(whole) && AllDigits(fraction) && IsExponentOf(letter + exponentSign + digits, letter, exponentSign, digits)
    ensures Numeric(sign) && Numeric(whole) && Numeric(Fraction(fraction)) && Numeric(letter) && Numeric(exponentSign) && Numeric(digits)
  {
  }

  // --- the walk as a function ---

  function Violations(policy: Policy, value: Value, path: seq<PathStep>, depth: nat): seq<Violation>
    decreases value, 1
  {
    if depth > MAX_DEPTH then [Violation(path, true)]
    else match value
      case Arr(items) => ItemViolations(policy, items, 0, path, depth)
      case Obj(fields) => FieldsViolations(policy, fields, path, depth)
      case _ => []
  }

  /** The violations below the items from position `i` on. */
  function ItemViolations(policy: Policy, items: seq<Value>, i: nat, path: seq<PathStep>, depth: nat): seq<Violation>
    decreases items, 0
  {
    if items == [] then []
    else Violations(policy, items[0], path + [Index(i)], depth + 1) + ItemViolations(policy, items[1..], i + 1, path, depth)
  }

  function FieldsViolations(policy: Policy, fields: seq<Field>, path: seq<PathStep>, depth: nat): seq<Violation>
    decreases fields, 1
  {
    if fields == [] then []
    else FieldViolations(policy, fields[0], path + [Key(fields[0].key)], depth) + FieldsViolations(policy, fields[1..], path, depth)
  }

  function FieldViolations(policy: Policy, field: Field, childPath: seq<PathStep>, depth: nat): seq<Violation>
    decreases field, 0
  {
    if KeyForbidden(policy, field.key) then [Violation(childPath, false)]
    else if field.value.IsContainer() then Violations(policy, field.value, childPath, depth + 1)
    else if IsLeafAllowed(policy, field.key, field.value) then [] else [Violation(childPath, false)]
  }

  // --- the walk: one shared list that every call appends to ---

  class ViolationList {
    var items: seq<Violation>

    constructor ()
      ensures items == []
    {
      items := [];
    }
  }

  method RedactForLlm(policy: Policy, input: Value) returns (result: Result<Value, seq<Violation>>)
    ensures var violations := Violations(policy, input, [], 0);
            result == if violations == [] then Ok(input) else Err(violations)
    ensures UniqueKeys(input) ==> (result == Ok(input) <==> forall path :: PlacePermitted(policy, input, path))
  {
    if UniqueKeys(input) {
      AcceptanceExact(policy, input);
    }
    var violations := new ViolationList();
    Walk(policy, input, [], 0, violations);
    assert [] + Violations(policy, input, [], 0) == Violations(policy, input, [], 0);
    if |violations.items| > 0 {
      return Err(violations.items);
    }
    return Ok(input);
  }

  method Walk(policy: Policy, value: Value, path: seq<PathStep>, depth: nat, violations: ViolationList)
    modifies violations
    ensures violations.items == old(violations.items) + Violations(policy, value, path, depth)
    decreases value, 1
  {
    if depth > MAX_DEPTH {
      violations.items := violations.items + [Violation(path, true)];
      return;
    }
    match value
    case Arr(items) => WalkArray(policy, items, path, depth, violations);
    case Obj(fields) => WalkObject(policy, fields, path, depth, violations);
    case _ => assert violations.items == violations.items + [];
  }

  method WalkArray(policy: Policy, arr: seq<Value>, path: seq<PathStep>, depth: nat, violations: ViolationList)
    modifies violations
    ensures violations.items == old(violations.items) + ItemViolations(policy, arr, 0, path, depth)
    decreases arr, 0
  {
    for i := 0 to |arr|
      invariant violations.items + ItemViolations(policy, arr[i..], i, path, depth)
                == old(violations.items) + ItemViolations(policy, arr, 0, path, depth)
    {
      assert arr[i..][1..] == arr[i + 1..];
      Walk(policy, arr[i], path + [Index(i)], depth + 1, violations);
    }
  }

  method WalkObject(policy: Policy, fields: seq<Field>, path: seq<PathStep>, depth: nat, violations: ViolationList)
    modifies violations
    ensures violations.items == old(violations.items) + FieldsViolations(policy, fields, path, depth)
    decreases fields, 0
  {
    for i := 0 to |fields|
      invariant violations.items + FieldsViolations(policy, fields[i..], path, depth)
                == old(violations.items) + FieldsViolations(policy, fields, path, depth)
    {
      assert fields[i..][1..] == fields[i + 1..];
      var key, childValue := fields[i].key, fields[i].value;
      var childPath := path + [Key(key)];
      if IsBlockedKey(policy, key) && key !in policy.allowlist {
        violations.items := violations.items + [Violation(childPath, false)];
        continue;
      }
      if key in policy.blocklist || HasBlockedSubstring(policy, key) {
        violations.items := violations.items + [Violation(childPath, false)];
        continue;
      }
      if childValue.IsContainer() {
        Walk(policy, childValue, childPath, depth + 1, violations);
        continue;
      }
      if !IsLeafAllowed(policy, key, childValue) {
        violations.items := violations.items + [Violation(childPath, false)];
      }
    }
  }

  // --- the declarative reading: paths into the tree ---

  /** Keys are unique within every object, as JavaScript guarantees. */
  ghost predicate UniqueKeys(value: Value) {
    match value
    case Arr(items) => forall i :: 0 <= i < |items| ==> UniqueKeys(items[i])
    case Obj(fields) =>
      && (forall i, j :: 0 <= i < j < |fields| ==> fields[i].key != fields[j].key)
      && (forall i :: 0 <= i < |fields| ==> UniqueKeys(fields[i].value))
    case _ => true
  }

  /** Where a step leads inside a container, as a position among its children. */
  function Position(value: Value, step: PathStep): Option<nat> {
    match value
    case Arr(items) => if step.Index? && step.i < |items| then Some(step.i) else None
    case Obj(fields) => if step.Key? then FieldIndex(fields, step.k, 0) else None
    case _ => None
  }

  function FieldIndex(fields: seq<Field>, key: string, from: nat): (i: Option<nat>)
    requires from <= |fields|
    ensures i.Some? ==> from <= i.value < |fields| && fields[i.value].key == key
    ensures i.None? ==> forall j :: from <= j < |fields| ==> fields[j].key != key
    decreases |fields| - from
  {
    if from == |fields| then None
    else if fields[from].key == key then Some(from)
    else FieldIndex(fields, key, from + 1)
  }

  function ChildAt(value: Value, i: nat): Option<Value> {
    match value
    case Arr(items) => if i < |items| then Some(items[i]) else None
    case Obj(fields) => if i < |fields| then Some(fields[i].value) else None
    case _ => None
  }

  function Child(value: Value, step: PathStep): Option<Value> {
    if Position(value, step).Some? then ChildAt(value, Position(value, step).value) else None
  }

  /** The value a path leads to. */
  function At(value: Value, path: seq<PathStep>): Option<Value>
    decreases |path|
  {
    if path == [] then Some(value)
    else if Child(value, path[0]).None? then None
    else At(Child(value, path[0]).value, path[1..])
  }

  /** The walker goes on through this step: any array element, or an object field that is a container under a permitted key. */
  predicate Enters(policy: Policy, value: Value, step: PathStep) {
    && Child(value, step).Some?
    && (step.Key? ==> !KeyForbidden(policy, step.k) && Child(value, step).value.IsContainer())
  }

  /** Every step of the path is one the walker goes through. */
  ghost predicate Reached(policy: Policy, root: Value, path: seq<PathStep>) {
    forall i :: 0 <= i < |path| ==> At(root, path[..i]).Some? && Enters(policy, At(root, path[..i]).value, path[i])
  }

  /** The field itself offends: its key is forbidden, or it is a leaf the policy does not allow. */
  predicate FieldOffends(policy: Policy, value: Value, step: PathStep) {
    && step.Key? && Child(value, step).Some?
    && (KeyForbidden(policy, step.k) || (!Child(value, step).value.IsContainer() && !IsLeafAllowed(policy, step.k, Child(value, step).value)))
  }

  /** What should be reported: offending fields no deeper than the limit, and the first value past it on every reached path. */
  ghost predicate Offends(policy: Policy, root: Value, v: Violation) {
    if v.tooDeep then |v.path| == MAX_DEPTH + 1 && Reached(policy, root, v.path)
    else
      && 1 <= |v.path| <= MAX_DEPTH + 1
      && var parent := v.path[..|v.path| - 1];
         Reached(policy, root, parent) && At(root, parent).Some? && FieldOffends(policy, At(root, parent).value, v.path[|v.path| - 1])
  }

  /** The same, read from the first step on, starting at some depth. */
  ghost predicate OffendsFrom(policy: Policy, value: Value, depth: nat, path: seq<PathStep>, tooDeep: bool)
    decreases |path|
  {
    if path == [] then tooDeep && depth > MAX_DEPTH
    else
      && depth <= MAX_DEPTH
      && (|| (Enters(policy, value, path[0]) && OffendsFrom(policy, Child(value, path[0]).value, depth + 1, path[1..], tooDeep))
          || (|path| == 1 && !tooDeep && FieldOffends(policy, value, path[0])))
  }

  lemma ReachedStep(policy: Policy, root: Value, path: seq<PathStep>)
    requires path != []
    ensures Reached(policy, root, path) <==> Enters(policy, root, path[0]) && Reached(policy, Child(root, path[0]).value, path[1..])
  {
    assert path[..0] == [];
    if Enters(policy, root, path[0]) {
      var child, rest := Child(root, path[0]).value, path[1..];
      forall i | 0 <= i < |rest|
        ensures At(root, path[..i + 1]) == At(child, rest[..i]) && path[i + 1] == rest[i]
      {
        assert path[..i + 1][1..] == rest[..i];
      }
      if Reached(policy, root, path) {
        forall i | 0 <= i < |rest|
          ensures At(child, rest[..i]).Some? && Enters(policy, At(child, rest[..i]).value, rest[i])
        {
          assert At(root, path[..i + 1]).Some? && Enters(policy, At(root, path[..i + 1]).value, path[i + 1]);
        }
      }
      if Reached(policy, child, rest) {
        forall i | 0 <= i < |path|
          ensures At(root, path[..i]).Some? && Enters(policy, At(root, path[..i]).value, path[i])
        {
          if i > 0 {
            assert At(child, rest[..i - 1]).Some? && Enters(policy, At(child, rest[..i - 1]).value, rest[i - 1]);
          }
        }
      }
    } else {
      assert At(root, path[..0]) == Some(root);
    }
  }

  lemma RootIsReached(policy: Policy, root: Value)
    ensures Reached(policy, root, [])
  {
  }

  lemma {:induction false} DeepOffence(policy: Policy, value: Value, depth: nat, path: seq<PathStep>)
    requires depth <= MAX_DEPTH + 1
    ensures OffendsFrom(policy, value, depth, path, true) <==> depth + |path| == MAX_DEPTH + 1 && Reached(policy, value, path)
    decreases |path|
  {
    if path != [] {
      ReachedStep(policy, value, path);
      if depth <= MAX_DEPTH && Enters(policy, value, path[0]) {
        DeepOffence(policy, Child(value, path[0]).value, depth + 1, path[1..]);
      }
    }
  }

  lemma {:induction false} FieldOffence(policy: Policy, value: Value, depth: nat, path: seq<PathStep>)
    requires depth <= MAX_DEPTH + 1
    ensures OffendsFrom(policy, value, depth, path, false)
            <==> && path != [] && depth + |path| <= MAX_DEPTH + 1
                 && Reached(policy, value, path[..|path| - 1]) && At(value, path[..|path| - 1]).Some?
                 && FieldOffends(policy, At(value, path[..|path| - 1]).value, path[|path| - 1])
    decreases |path|
  {
    hide Reached, FieldOffends;
    if path != [] {
      var parent := path[..|path| - 1];
      if |path| == 1 {
        assert parent == [];
        RootIsReached(policy, value);
      } else {
        ReachedStep(policy, value, parent);
        assert parent[1..] == path[1..][..|path| - 2] && parent[0] == path[0];
        if depth <= MAX_DEPTH && Enters(policy, value, path[0]) {
          FieldOffence(policy, Child(value, path[0]).value, depth + 1, path[1..]);
        }
      }
    }
  }

  lemma OffendsIsFromRoot(policy: Policy, root: Value, v: Violation)
    ensures Offends(policy, root, v) <==> OffendsFrom(policy, root, 0, v.path, v.tooDeep)
  {
    DeepOffence(policy, root, 0, v.path);
    FieldOffence(policy, root, 0, v.path);
  }

  // --- the walk reports exactly that ---

  predicate Extends(path: seq<PathStep>, prefix: seq<PathStep>) {
    |prefix| < |path| && prefix <= path
  }

  /** One field's own contribution to a path that starts with its key and goes on with `rest`. */
  ghost predicate FieldReports(policy: Policy, field: Field, depth: nat, rest: seq<PathStep>, tooDeep: bool) {
    if KeyForbidden(policy, field.key) then rest == [] && !tooDeep
    else if field.value.IsContainer() then OffendsFrom(policy, field.value, depth + 1, rest, tooDeep)
    else rest == [] && !tooDeep && !IsLeafAllowed(policy, field.key, field.value)
  }

  lemma {:induction false} ValueReported(policy: Policy, value: Value, prefix: seq<PathStep>, depth: nat, v: Violation)
    requires UniqueKeys(value)
    ensures v in Violations(policy, value, prefix, depth)
            <==> prefix <= v.path && OffendsFrom(policy, value, depth, v.path[|prefix|..], v.tooDeep)
    decreases value, 1
  {
    if depth <= MAX_DEPTH {
      match value
      case Arr(items) =>
        ItemsReported(policy, items, 0, prefix, depth, v);
        ArrayOffends(policy, value, prefix, depth, v);
      case Obj(fields) =>
        FieldsReported(policy, fields, prefix, depth, v);
        ObjectOffends(policy, value, prefix, depth, v);
      case _ =>
    } else if prefix <= v.path && v.path[|prefix|..] == [] {
      assert v.path == prefix;
    }
  }

  lemma ArrayOffends(policy: Policy, value: Value, prefix: seq<PathStep>, depth: nat, v: Violation)
    requires value.Arr? && depth <= MAX_DEPTH
    ensures prefix <= v.path && OffendsFrom(policy, value, depth, v.path[|prefix|..], v.tooDeep)
            <==> && Extends(v.path, prefix) && v.path[|prefix|].Index? && v.path[|prefix|].i < |value.items|
                 && OffendsFrom(policy, value.items[v.path[|prefix|].i], depth + 1, v.path[|prefix| + 1..], v.tooDeep)
  {
    if Extends(v.path, prefix) {
      assert v.path[|prefix|..][1..] == v.path[|prefix| + 1..];
    }
  }

  lemma ObjectOffends(policy: Policy, value: Value, prefix: seq<PathStep>, depth: nat, v: Violation)
    requires value.Obj? && UniqueKeys(value) && depth <= MAX_DEPTH
    ensures prefix <= v.path && OffendsFrom(policy, value, depth, v.path[|prefix|..], v.tooDeep)
            <==> && Extends(v.path, prefix) && v.path[|prefix|].Key?
                 && SomeReports(policy, value.fields, v.path[|prefix|].k, depth, v.path[|prefix| + 1..], v.tooDeep)
  {
    if Extends(v.path, prefix) {
      assert v.path[|prefix|..][1..] == v.path[|prefix| + 1..];
      if v.path[|prefix|].Key? {
        var found := FieldIndex(value.fields, v.path[|prefix|].k, 0);
        assert forall j :: 0 <= j < |value.fields| && value.fields[j].key == v.path[|prefix|].k ==> found == Some(j);
      }
    }
  }

  lemma {:induction false} ItemsReported(policy: Policy, items: seq<Value>, i: nat, prefix: seq<PathStep>, depth: nat, v: Violation)
    requires forall j :: 0 <= j < |items| ==> UniqueKeys(items[j])
    ensures v in ItemViolations(policy, items, i, prefix, depth)
            <==> && Extends(v.path, prefix) && v.path[|prefix|].Index? && i <= v.path[|prefix|].i < i + |items|
                 && OffendsFrom(policy, items[v.path[|prefix|].i - i], depth + 1, v.path[|prefix| + 1..], v.tooDeep)
    decreases items, 0
  {
    if items != [] {
      ValueReported(policy, items[0], prefix + [Index(i)], depth + 1, v);
      ItemsReported(policy, items[1..], i + 1, prefix, depth, v);
      PrefixSnoc(v.path, prefix, Index(i));
    }
  }

  lemma PrefixSnoc(path: seq<PathStep>, prefix: seq<PathStep>, step: PathStep)
    ensures prefix + [step] <= path <==> Extends(path, prefix) && path[|prefix|] == step
  {
    if Extends(path, prefix) && path[|prefix|] == step {
      assert path[..|prefix| + 1] == prefix + [step];
    }
    if prefix + [step] <= path {
      assert forall i :: 0 <= i < |prefix| ==> path[i] == (prefix + [step])[i];
      assert path[|prefix|] == (prefix + [step])[|prefix|];
    }
  }

  lemma {:induction false} FieldsReported(policy: Policy, fields: seq<Field>, prefix: seq<PathStep>, depth: nat, v: Violation)
    requires forall j :: 0 <= j < |fields| ==> UniqueKeys(fields[j].value)
    ensures v in FieldsViolations(policy, fields, prefix, depth)
            <==> && Extends(v.path, prefix) && v.path[|prefix|].Key?
                 && SomeReports(policy, fields, v.path[|prefix|].k, depth, v.path[|prefix| + 1..], v.tooDeep)
    decreases fields, 1
  {
    if fields != [] {
      FieldReported(policy, fields[0], prefix, depth, v);
      FieldsReported(policy, fields[1..], prefix, depth, v);
      if Extends(v.path, prefix) && v.path[|prefix|].Key? {
        SomeReportsCons(policy, fields, v.path[|prefix|].k, depth, v.path[|prefix| + 1..], v.tooDeep);
      }
    }
  }

  /** Some field of that key reports the rest of the path. */
  ghost predicate SomeReports(policy: Policy, fields: seq<Field>, key: string, depth: nat, rest: seq<PathStep>, tooDeep: bool) {
    exists j :: 0 <= j < |fields| && fields[j].key == key && FieldReports(policy, fields[j], depth, rest, tooDeep)
  }

  lemma SomeReportsCons(policy: Policy, fields: seq<Field>, key: string, depth: nat, rest: seq<PathStep>, tooDeep: bool)
    requires fields != []
    ensures SomeReports(policy, fields, key, depth, rest, tooDeep)
            <==> (fields[0].key == key && FieldReports(policy, fields[0], depth, rest, tooDeep))
                 || SomeReports(policy, fields[1..], key, depth, rest, tooDeep)
  {
    assert forall j :: 0 < j < |fields| ==> fields[j] == fields[1..][j - 1];
  }

  lemma {:induction false} FieldReported(policy: Policy, field: Field, prefix: seq<PathStep>, depth: nat, v: Violation)
    requires UniqueKeys(field.value)
    ensures v in FieldViolations(policy, field, prefix + [Key(field.key)], depth)
            <==> && Extends(v.path, prefix) && v.path[|prefix|] == Key(field.key)
                 && FieldReports(policy, field, depth, v.path[|prefix| + 1..], v.tooDeep)
    decreases field, 0
  {
    PrefixSnoc(v.path, prefix, Key(field.key));
    if !KeyForbidden(policy, field.key) && field.value.IsContainer() {
      ValueReported(policy, field.value, prefix + [Key(field.key)], depth + 1, v);
    } else if Extends(v.path, prefix) && v.path[|prefix|] == Key(field.key) && v.path[|prefix| + 1..] == [] {
      assert v.path == prefix + [Key(field.key)];
    }
  }

  /** The walk reports exactly the offending paths of the tree. */
  lemma WalkReportsExactly(policy: Policy, root: Value, v: Violation)
    requires UniqueKeys(root)
    ensures v in Violations(policy, root, [], 0) <==> Offends(policy, root, v)
  {
    ValueReported(policy, root, [], 0, v);
    assert v.path[0..] == v.path;
    OffendsIsFromRoot(policy, root, v);
  }

  // --- order of the report ---

  /** `p` comes before `q` in a walk of `value`: at the first step where they part, `p`'s child comes first. */
  predicate PathBefore(value: Value, p: seq<PathStep>, q: seq<PathStep>)
    decreases |p|
  {
    && p != [] && q != [] && Position(value, p[0]).Some? && Position(value, q[0]).Some?
    && (|| Position(value, p[0]).value < Position(value, q[0]).value
        || (p[0] == q[0] && Child(value, p[0]).Some? && PathBefore(Child(value, p[0]).value, p[1..], q[1..])))
  }

  ghost predicate InOrder(value: Value, skip: nat, vs: seq<Violation>) {
    forall i, j :: 0 <= i < j < |vs| ==> skip <= |vs[i].path| && skip <= |vs[j].path| && PathBefore(value, vs[i].path[skip..], vs[j].path[skip..])
  }

  /** All of these lie under the child a step leads to. */
  ghost predicate AllUnder(vs: seq<Violation>, skip: nat, step: PathStep) {
    forall i :: 0 <= i < |vs| ==> |vs[i].path| > skip && vs[i].path[skip] == step
  }

  /** All of these lie under later children than a step leads to. */
  ghost predicate AllPast(value: Value, vs: seq<Violation>, skip: nat, position: nat) {
    forall i :: 0 <= i < |vs| ==> |vs[i].path| > skip && Position(value, vs[i].path[skip]).Some? && Position(value, vs[i].path[skip]).value > position
  }

  lemma OrderedConcat(value: Value, step: PathStep, skip: nat, first: seq<Violation>, rest: seq<Violation>)
    requires Child(value, step).Some? && InOrder(Child(value, step).value, skip + 1, first) && AllUnder(first, skip, step)
    requires InOrder(value, skip, rest) && AllPast(value, rest, skip, Position(value, step).value)
    ensures InOrder(value, skip, first + rest)
  {
    var vs := first + rest;
    forall i, j | 0 <= i < j < |vs|
      ensures skip <= |vs[i].path| && skip <= |vs[j].path| && PathBefore(value, vs[i].path[skip..], vs[j].path[skip..])
    {
      if j < |first| {
        assert vs[i].path[skip..][1..] == vs[i].path[skip + 1..] && vs[j].path[skip..][1..] == vs[j].path[skip + 1..];
      } else if i < |first| {
        assert vs[j] == rest[j - |first|];
      } else {
        assert vs[i] == rest[i - |first|] && vs[j] == rest[j - |first|];
      }
    }
  }

  lemma {:induction false} OrderedValue(policy: Policy, value: Value, prefix: seq<PathStep>, depth: nat)
    requires UniqueKeys(value)
    ensures InOrder(value, |prefix|, Violations(policy, value, prefix, depth))
    decreases value, 1
  {
    if depth <= MAX_DEPTH {
      if value.Arr? {
        OrderedItems(policy, value, 0, prefix, depth);
        assert value.items[0..] == value.items;
      } else if value.Obj? {
        OrderedFields(policy, value, 0, prefix, depth);
        assert value.fields[0..] == value.fields;
      }
    }
  }

  lemma {:induction false} OrderedItems(policy: Policy, value: Value, i: nat, prefix: seq<PathStep>, depth: nat)
    requires UniqueKeys(value) && value.Arr? && i <= |value.items|
    ensures InOrder(value, |prefix|, ItemViolations(policy, value.items[i..], i, prefix, depth))
    decreases value, 0, |value.items| - i
  {
    if i < |value.items| {
      var items := value.items;
      var first := Violations(policy, items[i], prefix + [Index(i)], depth + 1);
      var rest := ItemViolations(policy, items[i + 1..], i + 1, prefix, depth);
      assert items[i..][1..] == items[i + 1..];
      OrderedValue(policy, items[i], prefix + [Index(i)], depth + 1);
      OrderedItems(policy, value, i + 1, prefix, depth);
      ViolationsUnder(policy, items[i], prefix, Index(i), depth + 1);
      forall n | 0 <= n < |rest|
        ensures |rest[n].path| > |prefix| && Position(value, rest[n].path[|prefix|]).Some? && Position(value, rest[n].path[|prefix|]).value > i
      {
        ItemsReported(policy, items[i + 1..], i + 1, prefix, depth, rest[n]);
      }
      OrderedConcat(value, Index(i), |prefix|, first, rest);
    }
  }

  lemma ViolationsUnder(policy: Policy, value: Value, prefix: seq<PathStep>, step: PathStep, depth: nat)
    requires UniqueKeys(value)
    ensures AllUnder(Violations(policy, value, prefix + [step], depth), |prefix|, step)
  {
    var vs := Violations(policy, value, prefix + [step], depth);
    forall n | 0 <= n < |vs|
      ensures |vs[n].path| > |prefix| && vs[n].path[|prefix|] == step
    {
      ValueReported(policy, value, prefix + [step], depth, vs[n]);
      PrefixSnoc(vs[n].path, prefix, step);
    }
  }

  lemma {:induction false} OrderedFields(policy: Policy, value: Value, i: nat, prefix: seq<PathStep>, depth: nat)
    requires UniqueKeys(value) && value.Obj? && i <= |value.fields|
    ensures InOrder(value, |prefix|, FieldsViolations(policy, value.fields[i..], prefix, depth))
    decreases value, 0, |value.fields| - i
  {
    hide KeyForbidden, IsLeafAllowed, InOrder;
    if i == |value.fields| {
      NothingInOrder(value, |prefix|);
    } else {
      var fields := value.fields;
      var field, rest := fields[i], FieldsViolations(policy, fields[i + 1..], prefix, depth);
      var first := FieldViolations(policy, field, prefix + [Key(field.key)], depth);
      assert fields[i..][1..] == fields[i + 1..];
      OrderedFields(policy, value, i + 1, prefix, depth);
      FieldPosition(value, i);
      if !KeyForbidden(policy, field.key) && field.value.IsContainer() {
        OrderedValue(policy, field.value, prefix + [Key(field.key)], depth + 1);
        ViolationsUnder(policy, field.value, prefix, Key(field.key), depth + 1);
      } else {
        OwnViolation(field.value, prefix, Key(field.key), first);
      }
      FieldsPast(policy, value, i, prefix, depth);
      OrderedConcat(value, Key(field.key), |prefix|, first, rest);
    }
  }

  lemma NothingInOrder(value: Value, skip: nat)
    ensures InOrder(value, skip, [])
  {
  }

  /** A field reported itself, or not at all. */
  lemma OwnViolation(value: Value, prefix: seq<PathStep>, step: PathStep, vs: seq<Violation>)
    requires vs == [] || vs == [Violation(prefix + [step], false)]
    ensures InOrder(value, |prefix| + 1, vs) && AllUnder(vs, |prefix|, step)
  {
  }

  lemma FieldsPast(policy: Policy, value: Value, i: nat, prefix: seq<PathStep>, depth: nat)
    requires UniqueKeys(value) && value.Obj? && i < |value.fields|
    ensures AllPast(value, FieldsViolations(policy, value.fields[i + 1..], prefix, depth), |prefix|, i)
  {
    var later := value.fields[i + 1..];
    var rest := FieldsViolations(policy, later, prefix, depth);
    forall n | 0 <= n < |rest|
      ensures |rest[n].path| > |prefix| && Position(value, rest[n].path[|prefix|]).Some? && Position(value, rest[n].path[|prefix|]).value > i
    {
      FieldsReported(policy, later, prefix, depth, rest[n]);
      var j :| 0 <= j < |later| && later[j].key == rest[n].path[|prefix|].k;
      FieldPosition(value, i + 1 + j);
    }
  }

  lemma FieldPosition(value: Value, i: nat)
    requires UniqueKeys(value) && value.Obj? && i < |value.fields|
    ensures Position(value, Key(value.fields[i].key)) == Some(i)
  {
  }

  lemma {:induction false} BeforeIsStrict(value: Value, p: seq<PathStep>)
    ensures !PathBefore(value, p, p)
    decreases |p|
  {
    if p != [] && Child(value, p[0]).Some? {
      BeforeIsStrict(Child(value, p[0]).value, p[1..]);
    }
  }

  /** Paths are reported in the order of the walk, and each once. */
  lemma ReportIsOrdered(policy: Policy, root: Value)
    requires UniqueKeys(root)
    ensures var vs := Violations(policy, root, [], 0);
            forall i, j :: 0 <= i < j < |vs| ==> PathBefore(root, vs[i].path, vs[j].path) && vs[i].path != vs[j].path
  {
    OrderedValue(policy, root, [], 0);
    var vs := Violations(policy, root, [], 0);
    forall i, j | 0 <= i < j < |vs|
      ensures PathBefore(root, vs[i].path, vs[j].path) && vs[i].path != vs[j].path
    {
      assert vs[i].path[0..] == vs[i].path && vs[j].path[0..] == vs[j].path;
      BeforeIsStrict(root, vs[i].path);
    }
  }

  // --- what acceptance guarantees ---

  /** In an accepted tree every path to a container has been walked, and none is longer than the depth limit. */
  lemma {:induction false} AcceptedContainersAreWalked(policy: Policy, root: Value, path: seq<PathStep>)
    requires UniqueKeys(root) && Violations(policy, root, [], 0) == []
    requires At(root, path).Some? && At(root, path).value.IsContainer()
    ensures Reached(policy, root, path) && |path| <= MAX_DEPTH
    decreases |path|
  {
    hide Violations, KeyForbidden, IsLeafAllowed, UniqueKeys;
    if path != [] {
      var parent, last := path[..|path| - 1], path[|path| - 1];
      AtSnoc(root, parent, last);
      assert path == parent + [last];
      AcceptedContainersAreWalked(policy, root, parent);
      WalkReportsExactly(policy, root, Violation(path, false));
      ReachedSnoc(policy, root, parent, last);
      WalkReportsExactly(policy, root, Violation(path, true));
      assert |path| != MAX_DEPTH + 1;
    }
  }

  lemma ReachedSnoc(policy: Policy, root: Value, path: seq<PathStep>, step: PathStep)
    requires Reached(policy, root, path) && At(root, path).Some? && Enters(policy, At(root, path).value, step)
    ensures Reached(policy, root, path + [step])
  {
    forall i | 0 <= i < |path + [step]|
      ensures At(root, (path + [step])[..i]).Some? && Enters(policy, At(root, (path + [step])[..i]).value, (path + [step])[i])
    {
      assert (path + [step])[..i] == path[..i];
      assert path[..|path|] == path;
    }
  }

  lemma {:induction false} AtSnoc(value: Value, path: seq<PathStep>, step: PathStep)
    ensures At(value, path + [step]) == if At(value, path).Some? then Child(At(value, path).value, step) else None
    decreases |path|
  {
    if path != [] {
      assert (path + [step])[1..] == path[1..] + [step];
      if Child(value, path[0]).Some? {
        AtSnoc(Child(value, path[0]).value, path[1..], step);
      }
    } else {
      assert path + [step] == [step];
    }
  }

  /**
   * An accepted tree holds only permitted keys, and every leaf held by an object field is permitted under its key.
   */
  lemma AcceptedFieldsAreAllowed(policy: Policy, root: Value, parent: seq<PathStep>, key: string)
    requires UniqueKeys(root) && Violations(policy, root, [], 0) == []
    requires At(root, parent).Some? && Child(At(root, parent).value, Key(key)).Some?
    ensures KeyPermitted(policy, key)
    ensures var value := Child(At(root, parent).value, Key(key)).value;
            !value.IsContainer() ==> LeafPermitted(policy, key, value)
  {
    hide Violations, KeyForbidden, KeyPermitted, IsLeafAllowed, LeafPermitted, UniqueKeys;
    AcceptedContainersAreWalked(policy, root, parent);
    var path := parent + [Key(key)];
    assert path[..|path| - 1] == parent;
    WalkReportsExactly(policy, root, Violation(path, false));
    KeyExact(policy, key);
    LeafExact(policy, key, Child(At(root, parent).value, Key(key)).value);
  }

  /** What the policy asks of one place in a tree: of a field its key, and its value unless that is a container; of a container, and of an array's element, its depth. */
  ghost predicate PlacePermitted(policy: Policy, root: Value, path: seq<PathStep>) {
    At(root, path).Some? ==>
      && (At(root, path).value.IsContainer() ==> |path| <= 8)
      && (path != [] && path[|path| - 1].Index? ==> |path| <= 8)
      && (path != [] && path[|path| - 1].Key? ==>
            KeyPermitted(policy, path[|path| - 1].k)
            && (At(root, path).value.IsContainer() || LeafPermitted(policy, path[|path| - 1].k, At(root, path).value)))
  }

  /** A tree goes out exactly when every place in it is permitted. */
  lemma AcceptanceExact(policy: Policy, root: Value)
    requires UniqueKeys(root)
    ensures Violations(policy, root, [], 0) == [] <==> forall path :: PlacePermitted(policy, root, path)
  {
    hide Violations, UniqueKeys, PlacePermitted;
    var report := Violations(policy, root, [], 0);
    if report == [] {
      forall path
        ensures PlacePermitted(policy, root, path)
      {
        AcceptedPlace(policy, root, path);
      }
    } else if forall path :: PlacePermitted(policy, root, path) {
      WalkReportsExactly(policy, root, report[0]);
      OffendingPlace(policy, root, report[0]);
    }
  }

  lemma AcceptedPlace(policy: Policy, root: Value, path: seq<PathStep>)
    requires UniqueKeys(root) && Violations(policy, root, [], 0) == []
    ensures PlacePermitted(policy, root, path)
  {
    hide Violations, UniqueKeys, KeyPermitted, LeafPermitted, At, Reached;
    if At(root, path).Some? {
      if At(root, path).value.IsContainer() {
        AcceptedContainersAreWalked(policy, root, path);
      }
      if path != [] {
        var parent, last := path[..|path| - 1], path[|path| - 1];
        assert path == parent + [last];
        AtSnoc(root, parent, last);
        if last.Key? {
          AcceptedFieldsAreAllowed(policy, root, parent, last.k);
        } else {
          AcceptedElement(policy, root, parent, last);
        }
      }
    }
  }

  /** An element of an accepted tree's array is no deeper than the limit. */
  lemma AcceptedElement(policy: Policy, root: Value, parent: seq<PathStep>, step: PathStep)
    requires UniqueKeys(root) && Violations(policy, root, [], 0) == []
    requires step.Index? && At(root, parent).Some? && Child(At(root, parent).value, step).Some?
    ensures |parent| + 1 <= 8
  {
    hide Violations, UniqueKeys, At, Reached;
    AcceptedContainersAreWalked(policy, root, parent);
    ReachedSnoc(policy, root, parent, step);
    WalkReportsExactly(policy, root, Violation(parent + [step], true));
  }

  lemma OffendingPlace(policy: Policy, root: Value, v: Violation)
    requires Offends(policy, root, v)
    ensures exists path :: !PlacePermitted(policy, root, path)
  {
    hide KeyPermitted, LeafPermitted, KeyForbidden, IsLeafAllowed;
    var parent, last := v.path[..|v.path| - 1], v.path[|v.path| - 1];
    assert v.path == parent + [last];
    AtSnoc(root, parent, last);
    if v.tooDeep {
      assert Enters(policy, At(root, parent).value, last);
    } else {
      KeyExact(policy, last.k);
      LeafExact(policy, last.k, Child(At(root, parent).value, last).value);
    }
    assert !PlacePermitted(policy, root, v.path);
  }

  /** Strings held by an array rather than by a field are never checked: an array of any strings is accepted whole. */
  lemma {:induction false} ArrayStringsAreUnchecked(policy: Policy, strings: seq<Value>, i: nat, path: seq<PathStep>, depth: nat)
    requires depth < MAX_DEPTH && forall j :: 0 <= j < |strings| ==> strings[j].Str?
    ensures ItemViolations(policy, strings, i, path, depth) == []
    ensures i == 0 ==> Violations(policy, Arr(strings), path, depth) == []
  {
    if strings != [] {
      ArrayStringsAreUnchecked(policy, strings[1..], i + 1, path, depth);
    }
  }
}
