/** Decimal strings on the dashboard: grouping, truncation and trimming, by text alone. */
module MoneyFormat {
  import opened Wrappers
  import opened Decimals

  const MAX_PRICE_FRACTION_DIGITS := 18
  const MIN_PRICE_FRACTION_DIGITS := 2
  const MISSING := "\U{2014}"

  // --- decimal texts ---

  datatype Decimal = Decimal(negative: bool, whole: string, frac: string)
  {
    predicate Valid() {
      whole != [] && AllDigits(whole) && AllDigits(frac)
    }

    /** The digits and the point. */
    function Body(): string {
      whole + if frac == [] then "" else "." + frac
    }

    function Text(): string {
      if negative then "-" + Body() else Body()
    }
  }

  function DigitRun(s: string): (n: nat)
    ensures n <= |s| && AllDigits(s[..n]) && (n < |s| ==> !IsDigit(s[n]))
  {
    if s == [] || !IsDigit(s[0]) then 0
    else
      assert s[..1 + DigitRun(s[1..])] == [s[0]] + s[1..][..DigitRun(s[1..])];
      1 + DigitRun(s[1..])
  }

  /** The plain decimal shape: an optional sign, digits, and optionally a point with digits after it. */
  function ParseDecimal(text: string): (d: Option<Decimal>)
    ensures d.Some? ==> d.value.Valid() && d.value.Text() == text
  {
    if text != [] && text[0] == '-' then ParseUnsigned(true, text[1..]) else ParseUnsigned(false, text)
  }

  function ParseUnsigned(negative: bool, unsigned: string): (d: Option<Decimal>)
    ensures d.Some? ==> d.value.Valid() && d.value.negative == negative && d.value.Body() == unsigned
  {
    var n := DigitRun(unsigned);
    if n == 0 then None
    else if n == |unsigned| then Some(Decimal(negative, unsigned, []))
    else if unsigned[n] == '.' && n + 1 < |unsigned| && AllDigits(unsigned[n + 1..]) then
      Some(Decimal(negative, unsigned[..n], unsigned[n + 1..]))
    else None
  }

  lemma {:induction false} DigitRunStops(digits: string, rest: string)
    requires AllDigits(digits) && (rest != [] ==> !IsDigit(rest[0]))
    ensures DigitRun(digits + rest) == |digits|
  {
    if digits != [] {
      assert (digits + rest)[1..] == digits[1..] + rest;
      DigitRunStops(digits[1..], rest);
    } else {
      assert digits + rest == rest;
    }
  }

  /** Reading what was written gives the same decimal. */
  lemma ParseText(d: Decimal)
    requires d.Valid()
    ensures ParseDecimal(d.Text()) == Some(d)
  {
    hide DigitRun;
    ParseBody(d);
    assert IsDigit(d.Body()[0]);
    if d.negative {
      assert ("-" + d.Body())[1..] == d.Body();
    }
  }

  lemma ParseBody(d: Decimal)
    requires d.Valid()
    ensures ParseUnsigned(d.negative, d.Body()) == Some(d)
  {
    if d.frac == [] {
      DigitRunStops(d.whole, []);
      assert d.whole + [] == d.whole;
    } else {
      DigitRunStops(d.whole, "." + d.frac);
      assert d.Body()[..|d.whole|] == d.whole;
      assert d.Body()[|d.whole| + 1..] == d.frac;
    }
  }

  // --- grouping ---

  /** The expression's matches: inside the digits, where a positive multiple of three digits is left. */
  predicate IsGroupStart(digits: string, i: nat) {
    0 < i < |digits| && (|digits| - i) % 3 == 0
  }

  /** The grouped text of `digits[i..]`. */
  function Group(digits: string, i: nat): string
    requires i <= |digits|
    decreases |digits| - i
  {
    if i == |digits| then []
    else (if IsGroupStart(digits, i) then "," else "") + [digits[i]] + Group(digits, i + 1)
  }

  function Grouped(digits: string): string {
    Group(digits, 0)
  }

  function Ungroup(text: string): string {
    if text == [] then [] else (if text[0] == ',' then [] else [text[0]]) + Ungroup(text[1..])
  }

  lemma {:induction false} UngroupTwo(a: string, b: string)
    ensures Ungroup(a + b) == Ungroup(a) + Ungroup(b)
  {
    if a == [] {
      assert a + b == b;
    } else {
      assert (a + b)[1..] == a[1..] + b;
      UngroupTwo(a[1..], b);
    }
  }

  predicate CommaFree(s: string) {
    forall i :: 0 <= i < |s| ==> s[i] != ','
  }

  lemma {:induction false} UngroupCommaFree(s: string)
    requires CommaFree(s)
    ensures Ungroup(s) == s
  {
    if s != [] {
      UngroupCommaFree(s[1..]);
    }
  }

  lemma UngroupFirst(comma: bool, c: char, rest: string)
    requires c != ','
    ensures Ungroup((if comma then "," else "") + [c] + rest) == [c] + Ungroup(rest)
  {
    if comma {
      assert ("," + [c] + rest)[1..] == [c] + rest;
    } else {
      assert "" + [c] + rest == [c] + rest;
    }
    assert ([c] + rest)[1..] == rest;
  }

  lemma {:induction false} UngroupGroup(digits: string, i: nat)
    requires AllDigits(digits) && i <= |digits|
    ensures Ungroup(Group(digits, i)) == digits[i..]
    decreases |digits| - i
  {
    if i < |digits| {
      assert IsDigit(digits[i]);
      UngroupFirst(IsGroupStart(digits, i), digits[i], Group(digits, i + 1));
      UngroupGroup(digits, i + 1);
    }
  }

  /** A comma stands between two digits, with a positive multiple of three digits after it. */
  predicate CommaInPlace(text: string, k: nat) {
    0 < k < |text| - 1 && IsDigit(text[k - 1]) && IsDigit(text[k + 1])
    && |Ungroup(text[k + 1..])| % 3 == 0 && |Ungroup(text[k + 1..])| > 0
  }

  /** Removing the commas gives the digits back; the commas are where they belong, and there are as many as groups need. */
  lemma GroupingIsExact(digits: string)
    requires AllDigits(digits) && digits != []
    ensures Ungroup(Grouped(digits)) == digits
    ensures forall k: nat :: k < |Grouped(digits)| && Grouped(digits)[k] == ',' ==> CommaInPlace(Grouped(digits), k)
    ensures |Grouped(digits)| == |digits| + (|digits| - 1) / 3
  {
    UngroupGroup(digits, 0);
    GroupLength(digits, 0);
    forall k: nat | k < |Grouped(digits)| && Grouped(digits)[k] == ','
      ensures CommaInPlace(Grouped(digits), k)
    {
      CommaAt(digits, 0, k);
    }
  }

  lemma {:induction false} GroupLength(digits: string, i: nat)
    requires digits != [] && i <= |digits|
    ensures |Group(digits, i)| == |digits| - i + (if i == 0 then (|digits| - 1) / 3 else (|digits| - i) / 3)
    decreases |digits| - i
  {
    if i < |digits| {
      GroupLength(digits, i + 1);
      OneDigitLess(|digits| - i);
    }
  }

  lemma OneDigitLess(m: nat)
    requires m > 0
    ensures m / 3 == (m - 1) / 3 + if m % 3 == 0 then 1 else 0
  {
  }

  lemma {:induction false} CommaAt(digits: string, i: nat, k: nat)
    requires AllDigits(digits) && i <= |digits| && k < |Group(digits, i)| && Group(digits, i)[k] == ','
    ensures k + 1 < |Group(digits, i)| && IsDigit(Group(digits, i)[k + 1])
    ensures if k == 0 then i > 0 else IsDigit(Group(digits, i)[k - 1])
    ensures |Ungroup(Group(digits, i)[k + 1..])| % 3 == 0 && |Ungroup(Group(digits, i)[k + 1..])| > 0
    decreases |digits| - i
  {
    var text, rest, n := Group(digits, i), Group(digits, i + 1), if IsGroupStart(digits, i) then 2 else 1;
    assert IsDigit(digits[i]);
    if k == 0 {
      UngroupGroup(digits, i);
      assert text[1..] == [digits[i]] + rest;
      UngroupFirst(false, digits[i], rest);
      UngroupGroup(digits, i + 1);
    } else {
      assert text[n..] == rest && text[n - 1] == digits[i];
      CommaAt(digits, i + 1, k - n);
      assert text[k + 1..] == rest[k - n + 1..];
    }
  }

  // --- the two formatters ---

  function Zeros(n: nat): string {
    seq(n, _ => '0')
  }

  function Signed(negative: bool, body: string): string {
    if negative then "-" + body else body
  }

  function FormatMoneyString(value: Option<string>, fractionDigits: nat): string {
    if value.None? || value.value == [] then MISSING
    else
      match ParseDecimal(value.value)
      case None => value.value
      case Some(d) =>
        var frac := (d.frac + Zeros(fractionDigits))[..fractionDigits];
        Signed(d.negative, if fractionDigits > 0 then Grouped(d.whole) + "." + frac else Grouped(d.whole))
  }

  function TrimZeros(frac: string): string {
    if frac != [] && frac[|frac| - 1] == '0' then TrimZeros(frac[..|frac| - 1]) else frac
  }

  function PriceFraction(frac: string): string {
    var kept := if |frac| < MAX_PRICE_FRACTION_DIGITS then frac else frac[..MAX_PRICE_FRACTION_DIGITS];
    var significant := TrimZeros(kept);
    if |significant| < MIN_PRICE_FRACTION_DIGITS then (significant + Zeros(MIN_PRICE_FRACTION_DIGITS))[..MIN_PRICE_FRACTION_DIGITS]
    else significant
  }

  function FormatPriceString(value: Option<string>): string {
    if value.None? || value.value == [] then MISSING
    else
      match ParseDecimal(value.value)
      case None => value.value
      case Some(d) => Signed(d.negative, Grouped(d.whole) + "." + PriceFraction(d.frac))
  }

  // --- the value of a decimal ---

  /** `x` divided by ten `n` times. */
  function Shift(x: real, n: nat): real {
    if n == 0 then x else Shift(x, n - 1) / 10.0
  }

  /** One unit of the `n`-th place after the point. */
  function Unit(n: nat): real {
    Shift(1.0, n)
  }

  function FractionValue(frac: string): real
    requires AllDigits(frac)
  {
    if frac == [] then 0.0 else (DigitValue(frac[0]) as real + FractionValue(frac[1..])) / 10.0
  }

  function Magnitude(d: Decimal): real
    requires d.Valid()
  {
    NatValue(d.whole) as real + FractionValue(d.frac)
  }

  predicate AllZeros(s: string) {
    forall i :: 0 <= i < |s| ==> s[i] == '0'
  }

  lemma {:induction false} FractionBounds(frac: string)
    requires AllDigits(frac)
    ensures 0.0 <= FractionValue(frac) < 1.0
    ensures FractionValue(frac) == 0.0 <==> AllZeros(frac)
  {
    if frac != [] {
      FractionBounds(frac[1..]);
      assert AllZeros(frac) <==> frac[0] == '0' && AllZeros(frac[1..]);
    }
  }

  lemma {:induction false} FractionOfTwo(a: string, b: string)
    requires AllDigits(a) && AllDigits(b)
    ensures AllDigits(a + b) && FractionValue(a + b) == FractionValue(a) + Shift(FractionValue(b), |a|)
  {
    if a == [] {
      assert a + b == b;
    } else {
      assert (a + b)[1..] == a[1..] + b;
      FractionOfTwo(a[1..], b);
    }
  }

  lemma {:induction false} ShiftBounds(x: real, n: nat)
    requires 0.0 <= x < 1.0
    ensures 0.0 <= Shift(x, n) < Unit(n)
    ensures Shift(x, n) == 0.0 <==> x == 0.0
  {
    if n > 0 {
      ShiftBounds(x, n - 1);
    }
  }

  /** Dropping the digits after place `n` loses less than one unit of that place, and nothing exactly when they are zeros. */
  lemma FractionCut(frac: string, n: nat)
    requires AllDigits(frac) && n <= |frac|
    ensures AllDigits(frac[..n])
    ensures 0.0 <= FractionValue(frac) - FractionValue(frac[..n]) < Unit(n)
    ensures FractionValue(frac[..n]) == FractionValue(frac) <==> AllZeros(frac[n..])
  {
    assert frac == frac[..n] + frac[n..];
    FractionOfTwo(frac[..n], frac[n..]);
    FractionBounds(frac[n..]);
    ShiftBounds(FractionValue(frac[n..]), n);
  }

  lemma FractionPadded(frac: string, n: nat)
    requires AllDigits(frac)
    ensures AllDigits(frac + Zeros(n)) && FractionValue(frac + Zeros(n)) == FractionValue(frac)
  {
    assert (frac + Zeros(n))[..|frac|] == frac;
    assert (frac + Zeros(n))[|frac|..] == Zeros(n);
    FractionCut(frac + Zeros(n), |frac|);
  }

  // --- what the formatters keep ---

  lemma UngroupSigned(negative: bool, body: string, d: Decimal)
    requires Ungroup(body) == d.Body() && d.negative == negative
    ensures Ungroup(Signed(negative, body)) == d.Text()
  {
    UngroupCommaFree("-");
    UngroupTwo("-", body);
  }

  lemma UngroupWhole(d: Decimal)
    requires d.Valid() && d.frac == []
    ensures Ungroup(Grouped(d.whole)) == d.Body()
  {
    UngroupGroup(d.whole, 0);
    assert d.whole[0..] == d.whole && d.whole + [] == d.whole;
  }

  lemma UngroupBody(d: Decimal)
    requires d.Valid() && d.frac != []
    ensures Ungroup(Grouped(d.whole) + "." + d.frac) == d.Body()
  {
    UngroupGroup(d.whole, 0);
    assert d.whole[0..] == d.whole;
    UngroupCommaFree("." + d.frac);
    UngroupTwo(Grouped(d.whole), "." + d.frac);
    assert Grouped(d.whole) + "." + d.frac == Grouped(d.whole) + ("." + d.frac);
  }

  /** The formatted amount, read back without its commas: the sign and integer part as they were, the fraction cut or padded; the cut goes toward zero and loses less than one unit of the last place. */
  lemma MoneyTruncates(text: string, fractionDigits: nat)
    requires ParseDecimal(text).Some?
    ensures var d := ParseDecimal(text).value;
            var read := ParseDecimal(Ungroup(FormatMoneyString(Some(text), fractionDigits)));
            read.Some? && read.value.negative == d.negative && read.value.whole == d.whole && |read.value.frac| == fractionDigits
            && 0.0 <= Magnitude(d) - Magnitude(read.value) < Unit(fractionDigits)
            && (Magnitude(read.value) == Magnitude(d) <==> |d.frac| <= fractionDigits || AllZeros(d.frac[fractionDigits..]))
  {
    var d := ParseDecimal(text).value;
    var padded := d.frac + Zeros(fractionDigits);
    var frac := padded[..fractionDigits];
    FractionPadded(d.frac, fractionDigits);
    FractionCut(padded, fractionDigits);
    ZerosPast(d.frac, fractionDigits);
    var shown := Decimal(d.negative, d.whole, frac);
    if fractionDigits > 0 {
      UngroupBody(shown);
      UngroupSigned(d.negative, Grouped(d.whole) + "." + frac, shown);
    } else {
      UngroupWhole(shown);
      UngroupSigned(d.negative, Grouped(d.whole), shown);
    }
    ParseText(shown);
  }

  lemma ZerosPast(frac: string, n: nat)
    ensures AllZeros((frac + Zeros(n))[n..]) <==> |frac| <= n || AllZeros(frac[n..])
  {
    var rest := (frac + Zeros(n))[n..];
    if |frac| > n {
      assert rest == frac[n..] + Zeros(n);
      if AllZeros(rest) {
        assert forall i :: 0 <= i < |frac[n..]| ==> frac[n..][i] == rest[i];
      }
    }
  }

  lemma {:induction false} TrimKeepsValue(frac: string)
    requires AllDigits(frac)
    ensures AllDigits(TrimZeros(frac)) && FractionValue(TrimZeros(frac)) == FractionValue(frac)
    ensures |TrimZeros(frac)| <= |frac| && (TrimZeros(frac) != [] ==> TrimZeros(frac)[|TrimZeros(frac)| - 1] != '0')
  {
    if frac != [] && frac[|frac| - 1] == '0' {
      TrimKeepsValue(frac[..|frac| - 1]);
      FractionCut(frac, |frac| - 1);
    }
  }

  lemma PriceFractionValue(frac: string)
    requires AllDigits(frac)
    ensures AllDigits(PriceFraction(frac)) && 2 <= |PriceFraction(frac)| <= 18
    ensures |PriceFraction(frac)| > 2 ==> PriceFraction(frac)[|PriceFraction(frac)| - 1] != '0'
    ensures 0.0 <= FractionValue(frac) - FractionValue(PriceFraction(frac)) < Unit(18)
    ensures FractionValue(PriceFraction(frac)) == FractionValue(frac) <==> |frac| <= 18 || AllZeros(frac[18..])
  {
    var n := if |frac| < 18 then |frac| else 18;
    var kept := frac[..n];
    assert frac[..|frac|] == frac;
    FractionCut(frac, n);
    TrimKeepsValue(kept);
    var significant := TrimZeros(kept);
    FractionPadded(significant, 2);
    if |significant| < 2 {
      FractionCut(significant + Zeros(2), 2);
      ZerosPast(significant, 2);
    }
    UnitPositive(18);
  }

  lemma {:induction false} UnitPositive(n: nat)
    ensures Unit(n) > 0.0
  {
    if n > 0 {
      UnitPositive(n - 1);
    }
  }

  /** The formatted price, read back without its commas, has the input's value exactly when all digits past the eighteenth are zeros; it ends in a non-zero digit beyond the two that are always shown. */
  lemma PricePreservesValue(text: string)
    requires ParseDecimal(text).Some?
    ensures var d := ParseDecimal(text).value;
            var read := ParseDecimal(Ungroup(FormatPriceString(Some(text))));
            read.Some? && read.value.negative == d.negative && read.value.whole == d.whole
            && 2 <= |read.value.frac| <= 18 && (|read.value.frac| > 2 ==> read.value.frac[|read.value.frac| - 1] != '0')
            && 0.0 <= Magnitude(d) - Magnitude(read.value) < Unit(18)
            && (Magnitude(read.value) == Magnitude(d) <==> |d.frac| <= 18 || AllZeros(d.frac[18..]))
  {
    hide PriceFraction, ParseDecimal, FractionValue, NatValue, Shift, AllZeros, FormatPriceString;
    PriceReads(text);
    PriceFractionValue(ParseDecimal(text).value.frac);
  }

  lemma PriceReads(text: string)
    requires text != [] && ParseDecimal(text).Some?
    ensures var d := ParseDecimal(text).value;
            var shown := Decimal(d.negative, d.whole, PriceFraction(d.frac));
            shown.Valid() && Ungroup(FormatPriceString(Some(text))) == shown.Text()
            && ParseDecimal(Ungroup(FormatPriceString(Some(text)))) == Some(shown)
  {
    hide PriceFraction, ParseDecimal, Grouped;
    var d := ParseDecimal(text).value;
    var frac := PriceFraction(d.frac);
    PriceFractionValue(d.frac);
    var shown := Decimal(d.negative, d.whole, frac);
    UngroupBody(shown);
    UngroupSigned(d.negative, Grouped(d.whole) + "." + frac, shown);
    ParseText(shown);
  }

  /** What a text has to be to be formatted: a decimal written out. */
  lemma ParseExact(text: string)
    ensures ParseDecimal(text).Some? <==> exists d: Decimal :: d.Valid() && d.Text() == text
  {
    hide ParseDecimal;
    if d: Decimal :| d.Valid() && d.Text() == text {
      ParseText(d);
    }
    if ParseDecimal(text).Some? {
      var d := ParseDecimal(text).value;
      ParsedText(text);
    }
  }

  lemma ParsedText(text: string)
    requires ParseDecimal(text).Some?
    ensures ParseDecimal(text).value.Valid() && ParseDecimal(text).value.Text() == text
  {
  }

  /** `grouped` shows the digits in groups of three. */
  ghost predicate ShowsInGroups(grouped: string, digits: string) {
    && Ungroup(grouped) == digits && |grouped| == |digits| + (|digits| - 1) / 3
    && forall k: nat :: k < |grouped| && grouped[k] == ',' ==> CommaInPlace(grouped, k)
  }

  /** The formatted texts, piece by piece: the sign, the integer part in groups, and the fraction; nothing to show is a dash, and what is no decimal is shown as it is. */
  lemma FormattedPieces(value: Option<string>, fractionDigits: nat)
    ensures value.None? || value.value == "" ==> FormatMoneyString(value, fractionDigits) == "\U{2014}" && FormatPriceString(value) == "\U{2014}"
    ensures value.Some? && value.value != "" && ParseDecimal(value.value).None? ==>
              FormatMoneyString(value, fractionDigits) == value.value && FormatPriceString(value) == value.value
    ensures value.Some? && ParseDecimal(value.value).Some? ==>
              var d := ParseDecimal(value.value).value;
              exists grouped, cents, fraction ::
                && ShowsInGroups(grouped, d.whole) && |cents| == fractionDigits
                && FormatMoneyString(value, fractionDigits) == (if d.negative then "-" else "") + (grouped + if fractionDigits > 0 then "." + cents else "")
                && FormatPriceString(value) == (if d.negative then "-" else "") + (grouped + ("." + fraction))
  {
    hide Grouped, PriceFraction;
    if value.Some? && ParseDecimal(value.value).Some? {
      var d := ParseDecimal(value.value).value;
      var grouped, cents, fraction := Grouped(d.whole), (d.frac + Zeros(fractionDigits))[..fractionDigits], PriceFraction(d.frac);
      GroupingIsExact(d.whole);
      assert FormatMoneyString(value, fractionDigits) == (if d.negative then "-" else "") + (grouped + if fractionDigits > 0 then "." + cents else "") by {
        assert grouped + "." + cents == grouped + ("." + cents) && grouped + "" == grouped;
        SignedText(d.negative, grouped + if fractionDigits > 0 then "." + cents else "");
      }
      assert FormatPriceString(value) == (if d.negative then "-" else "") + (grouped + ("." + fraction)) by {
        assert grouped + "." + fraction == grouped + ("." + fraction);
        SignedText(d.negative, grouped + ("." + fraction));
      }
      assert ShowsInGroups(grouped, d.whole);
    }
  }

  lemma SignedText(negative: bool, body: string)
    ensures Signed(negative, body) == (if negative then "-" else "") + body
  {
    assert "" + body == body;
  }

  // --- formatting twice ---

  lemma TextIsCommaFree(d: Decimal)
    requires d.Valid()
    ensures CommaFree(d.Text())
  {
    assert CommaFree(d.Body());
  }

  /** A formatted text that reads as a decimal is the text of the decimal it shows: it holds no comma. */
  lemma ReadsAsShown(text: string, shown: Decimal)
    requires Ungroup(text) == shown.Text() && shown.Valid()
    ensures ParseDecimal(text).Some? ==> ParseDecimal(text).value == shown
  {
    hide ParseDecimal;
    ParseText(shown);
    if ParseDecimal(text).Some? {
      TextIsCommaFree(ParseDecimal(text).value);
      UngroupCommaFree(text);
    }
  }

  lemma {:induction false} TrimmedZeros(frac: string)
    ensures |TrimZeros(frac)| <= |frac| && frac == TrimZeros(frac) + Zeros(|frac| - |TrimZeros(frac)|)
  {
    if frac != [] && frac[|frac| - 1] == '0' {
      TrimmedZeros(frac[..|frac| - 1]);
    }
  }

  lemma PriceFractionTwice(frac: string)
    requires AllDigits(frac)
    ensures AllDigits(PriceFraction(frac)) && PriceFraction(PriceFraction(frac)) == PriceFraction(frac)
  {
    PriceFractionValue(frac);
    var p := PriceFraction(frac);
    TrimmedZeros(p);
    if |p| > 2 {
      assert TrimZeros(p) == p;
    }
  }

  /** Formatting what was formatted changes nothing, whatever the input. */
  lemma FormattingTwice(value: Option<string>, fractionDigits: nat)
    ensures var once := FormatMoneyString(value, fractionDigits); FormatMoneyString(Some(once), fractionDigits) == once
    ensures var once := FormatPriceString(value); FormatPriceString(Some(once)) == once
  {
    if value.Some? && value.value != [] && ParseDecimal(value.value).Some? {
      MoneyTwice(value.value, fractionDigits);
      PriceTwice(value.value);
    }
  }

  lemma MoneyTwice(text: string, fractionDigits: nat)
    requires text != [] && ParseDecimal(text).Some?
    ensures var once := FormatMoneyString(Some(text), fractionDigits); FormatMoneyString(Some(once), fractionDigits) == once
  {
    hide ParseDecimal, Grouped;
    var d := ParseDecimal(text).value;
    var frac := (d.frac + Zeros(fractionDigits))[..fractionDigits];
    FractionPadded(d.frac, fractionDigits);
    var shown := Decimal(d.negative, d.whole, frac);
    if fractionDigits > 0 {
      UngroupBody(shown);
      UngroupSigned(d.negative, Grouped(d.whole) + "." + frac, shown);
    } else {
      UngroupWhole(shown);
      UngroupSigned(d.negative, Grouped(d.whole), shown);
    }
    ReadsAsShown(FormatMoneyString(Some(text), fractionDigits), shown);
    assert (frac + Zeros(fractionDigits))[..fractionDigits] == frac;
  }

  lemma PriceTwice(text: string)
    requires text != [] && ParseDecimal(text).Some?
    ensures var once := FormatPriceString(Some(text)); FormatPriceString(Some(once)) == once
  {
    hide ParseDecimal, Grouped, PriceFraction;
    var d := ParseDecimal(text).value;
    PriceReads(text);
    PriceFractionTwice(d.frac);
    ReadsAsShown(FormatPriceString(Some(text)), Decimal(d.negative, d.whole, PriceFraction(d.frac)));
  }
}
