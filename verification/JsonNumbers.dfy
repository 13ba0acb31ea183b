/**
 JSON number tokens (section 6 of RFC 8259), scanned with maximal munch as Json.Parser.number does, and the decimals
 they denote. PrintParts is the canonical text of a BigDecimal; it denotes the same unscaled value and scale.
 */
module JsonNumbers {
  import opened Utf16
  import opened Decimals

  const ZERO: Unit := 0x30
  const MINUS: Unit := 0x2D
  const PLUS: Unit := 0x2B
  const DOT: Unit := 0x2E
  const UPPER_E: Unit := 0x45
  const LOWER_E: Unit := 0x65

  /** Why a text is not JSON; the names follow the parser's messages. */
  datatype Reason =
    | NestingTooDeep | UnexpectedEnd | UnexpectedCharacter | ExpectedKey | Expected(unit: Unit) | TrailingContent
    | UnterminatedString | ControlCharacter | UnterminatedEscape | ShortUnicodeEscape | InvalidUnicodeEscape
    | InvalidEscape | InvalidNumber | InvalidFraction | InvalidExponent | NumberOutOfRange | InvalidLiteral

  /** A reader's outcome: a value and the text after it, or a reason and how many units were left unread. */
  datatype Read<+T> = Good(value: T, rest: Text) | Bad(reason: Reason, left: nat)

  // --- Digits --------------------------------------------------------------------------------------------------

  predicate IsDigit(u: Unit) {
    0x30 <= u <= 0x39
  }

  predicate AllDigits(s: Text) {
    forall i :: 0 <= i < |s| ==> IsDigit(s[i])
  }

  predicate StartsWith(s: Text, u: Unit) {
    s != [] && s[0] == u
  }

  predicate StartsWithDigit(s: Text) {
    s != [] && IsDigit(s[0])
  }

  /** The length of the longest prefix made of digits. */
  function DigitCount(s: Text): (n: nat)
    ensures n <= |s| && AllDigits(s[..n]) && !StartsWithDigit(s[n..])
  {
    if !StartsWithDigit(s) then 0 else 1 + DigitCount(s[1..])
  }

  function DigitsValue(s: Text): nat
    requires AllDigits(s)
  {
    if s == [] then 0 else 10 * DigitsValue(s[..|s| - 1]) + (s[|s| - 1] - 0x30)
  }

  /** The shortest decimal text of a natural number. */
  function Digits(n: nat): (s: Text)
    ensures AllDigits(s) && s != []
    ensures s[0] == ZERO ==> s == [ZERO]
    ensures DigitsValue(s) == n
  {
    if n < 10 then [0x30 + n] else
      var front := Digits(n / 10);
      assert (front + [0x30 + n % 10])[..|front|] == front;
      front + [0x30 + n % 10]
  }

  function Zeros(k: nat): (s: Text)
    ensures |s| == k && AllDigits(s)
  {
    if k == 0 then [] else [ZERO] + Zeros(k - 1)
  }

  lemma {:induction false} LeadingZero(s: Text)
    requires AllDigits(s)
    ensures DigitsValue([ZERO] + s) == DigitsValue(s)
  {
    if s == [] {
      assert DigitsValue([ZERO]) == 10 * DigitsValue([ZERO][..0]) + 0;
    } else {
      var t := [ZERO] + s;
      assert t[..|t| - 1] == [ZERO] + s[..|s| - 1];
      LeadingZero(s[..|s| - 1]);
    }
  }

  lemma {:induction false} LeadingZeros(k: nat, s: Text)
    requires AllDigits(s)
    ensures DigitsValue(Zeros(k) + s) == DigitsValue(s)
  {
    if k == 0 {
      assert Zeros(k) + s == s;
    } else {
      assert Zeros(k) + s == [ZERO] + (Zeros(k - 1) + s);
      LeadingZero(Zeros(k - 1) + s);
      LeadingZeros(k - 1, s);
    }
  }

  lemma {:induction false} DigitsThenStop(digits: Text, rest: Text)
    requires AllDigits(digits) && !StartsWithDigit(rest)
    ensures DigitCount(digits + rest) == |digits|
  {
    if digits == [] {
      assert digits + rest == rest;
    } else {
      DigitsThenStop(digits[1..], rest);
      assert (digits + rest)[1..] == digits[1..] + rest;
    }
  }

  // --- Tokens --------------------------------------------------------------------------------------------------

  datatype Exponent = NoExponent | Exponent(marker: Unit, sign: Text, digits: Text)

  /** A number token cut at its grammar: an absent fraction is empty. */
  datatype NumberParts = NumberParts(negative: bool, whole: Text, fraction: Text, exponent: Exponent)

  predicate ValidExponent(e: Exponent) {
    e.Exponent? ==>
      && (e.marker == LOWER_E || e.marker == UPPER_E)
      && (e.sign == [] || e.sign == [PLUS] || e.sign == [MINUS])
      && e.digits != [] && AllDigits(e.digits)
  }

  /** The number grammar of section 6 of RFC 8259. */
  predicate ValidParts(p: NumberParts) {
    && p.whole != [] && AllDigits(p.whole) && (p.whole[0] == ZERO ==> |p.whole| == 1)
    && AllDigits(p.fraction)
    && ValidExponent(p.exponent)
  }

  // The token's text is built in front of the text that follows it, so that no concatenation is ever re-associated.

  function SignThen(negative: bool, rest: Text): Text {
    if negative then [MINUS] + rest else rest
  }

  function FractionThen(fraction: Text, rest: Text): Text {
    if fraction == [] then rest else [DOT] + (fraction + rest)
  }

  function ExponentThen(e: Exponent, rest: Text): Text {
    if e.NoExponent? then rest else [e.marker] + (e.sign + (e.digits + rest))
  }

  function NumberThen(p: NumberParts, rest: Text): Text {
    SignThen(p.negative, p.whole + FractionThen(p.fraction, ExponentThen(p.exponent, rest)))
  }

  function NumberText(p: NumberParts): Text {
    NumberThen(p, [])
  }

  lemma NumberTextThen(p: NumberParts, rest: Text)
    ensures NumberThen(p, rest) == NumberText(p) + rest
  {
  }

  /** Text after a complete number that cannot make the number longer. */
  predicate Stops(rest: Text) {
    rest != [] ==> !IsDigit(rest[0]) && rest[0] != DOT && rest[0] != LOWER_E && rest[0] != UPPER_E
  }

  function ReadFraction(s: Text): (r: Read<Text>) {
    if !StartsWith(s, DOT) then Good([], s)
    else if !StartsWithDigit(s[1..]) then Bad(InvalidFraction, |s| - 1)
    else
      var n := DigitCount(s[1..]);
      Good(s[1..][..n], s[1..][n..])
  }

  /** An optional sign. */
  function ReadSign(s: Text): (sign: Text)
    ensures sign <= s
  {
    if StartsWith(s, PLUS) || StartsWith(s, MINUS) then s[..1] else []
  }

  function ReadExponentDigits(marker: Unit, sign: Text, s: Text): (r: Read<Exponent>) {
    if !StartsWithDigit(s) then Bad(InvalidExponent, |s|)
    else Good(Exponent(marker, sign, s[..DigitCount(s)]), s[DigitCount(s)..])
  }

  function ReadExponent(s: Text): (r: Read<Exponent>) {
    if !StartsWith(s, LOWER_E) && !StartsWith(s, UPPER_E) then Good(NoExponent, s)
    else
      var sign := ReadSign(s[1..]);
      ReadExponentDigits(s[0], sign, s[1..][|sign|..])
  }

  /** What Parser.number accepts: as much of the text as the grammar allows. */
  function ReadNumber(s: Text): (r: Read<NumberParts>) {
    var negative := StartsWith(s, MINUS);
    var a := if negative then s[1..] else s;
    if !StartsWithDigit(a) then Bad(InvalidNumber, |a|)
    else
      var n := if a[0] == ZERO then 1 else DigitCount(a);
      match ReadFraction(a[n..])
      case Bad(reason, left) => Bad(reason, left)
      case Good(fraction, afterFraction) =>
        match ReadExponent(afterFraction)
        case Bad(reason, left) => Bad(reason, left)
        case Good(exponent, rest) => Good(NumberParts(negative, a[..n], fraction, exponent), rest)
  }

  lemma FractionReadsBack(fraction: Text, rest: Text)
    requires AllDigits(fraction) && !StartsWithDigit(rest) && !StartsWith(rest, DOT)
    ensures ReadFraction(FractionThen(fraction, rest)) == Good(fraction, rest)
  {
    DigitsThenStop(fraction, rest);
  }

  lemma SignReadsBack(sign: Text, after: Text)
    requires sign == [] || sign == [PLUS] || sign == [MINUS]
    requires StartsWithDigit(after)
    ensures ReadSign(sign + after) == sign && (sign + after)[|sign|..] == after
  {
  }

  lemma ExponentReadsBack(e: Exponent, rest: Text)
    requires ValidExponent(e) && Stops(rest)
    ensures ReadExponent(ExponentThen(e, rest)) == Good(e, rest)
  {
    if e.Exponent? {
      SignReadsBack(e.sign, e.digits + rest);
      DigitsThenStop(e.digits, rest);
    }
  }

  lemma WholeReadsBack(whole: Text, after: Text)
    requires whole != [] && AllDigits(whole) && (whole[0] == ZERO ==> |whole| == 1) && !StartsWithDigit(after)
    ensures var a := whole + after; var n := if a[0] == ZERO then 1 else DigitCount(a);
      n == |whole| && a[..n] == whole && a[n..] == after
  {
    DigitsThenStop(whole, after);
  }

  /** Maximal munch stops exactly at the end of a valid token when nothing after it can extend the token. */
  lemma NumberReadsBack(p: NumberParts, rest: Text)
    requires ValidParts(p) && Stops(rest)
    ensures ReadNumber(NumberThen(p, rest)) == Good(p, rest)
  {
    var afterFraction := ExponentThen(p.exponent, rest);
    ExponentReadsBack(p.exponent, rest);
    FractionReadsBack(p.fraction, afterFraction);
    WholeReadsBack(p.whole, FractionThen(p.fraction, afterFraction));
  }

  lemma ReadExponentIsToken(s: Text)
    requires ReadExponent(s).Good?
    ensures ValidExponent(ReadExponent(s).value)
    ensures s == ExponentThen(ReadExponent(s).value, ReadExponent(s).rest)
  {
    var e := ReadExponent(s).value;
    if e.Exponent? {
      var a := s[1..];
      var b := a[|e.sign|..];
      SplitAt(s, 1);
      SplitAt(a, |e.sign|);
      SplitAt(b, |e.digits|);
      assert e.marker == s[0] && e.sign == a[..|e.sign|];
      assert ReadExponentDigits(e.marker, e.sign, b) == ReadExponent(s);
    }
  }

  lemma ReadFractionIsToken(s: Text)
    requires ReadFraction(s).Good?
    ensures AllDigits(ReadFraction(s).value)
    ensures s == FractionThen(ReadFraction(s).value, ReadFraction(s).rest)
  {
  }

  /** Whatever is read is a valid token followed by the rest of the text. */
  lemma ReadNumberIsToken(s: Text)
    requires ReadNumber(s).Good?
    ensures ValidParts(ReadNumber(s).value)
    ensures s == NumberThen(ReadNumber(s).value, ReadNumber(s).rest)
  {
    ReadNumberIsValid(s);
    var p := ReadNumber(s).value;
    var a := if p.negative then s[1..] else s;
    UnsignedIsToken(a, |p.whole|);
    assert p.negative ==> s == [MINUS] + a;
  }

  lemma ReadNumberIsValid(s: Text)
    requires ReadNumber(s).Good?
    ensures ValidParts(ReadNumber(s).value)
  {
    var p := ReadNumber(s).value;
    var a := if p.negative then s[1..] else s;
    WholeIsValid(a);
    ReadFractionIsToken(a[|p.whole|..]);
    ReadExponentIsToken(ReadFraction(a[|p.whole|..]).rest);
  }

  lemma WholeIsValid(a: Text)
    requires StartsWithDigit(a)
    ensures var whole := a[..if a[0] == ZERO then 1 else DigitCount(a)];
            whole != [] && AllDigits(whole) && (whole[0] == ZERO ==> |whole| == 1)
  {
  }

  /** A token without its sign. */
  lemma UnsignedIsToken(a: Text, n: nat)
    requires n <= |a| && ReadFraction(a[n..]).Good? && ReadExponent(ReadFraction(a[n..]).rest).Good?
    ensures var f := ReadFraction(a[n..]); var e := ReadExponent(f.rest);
            a == a[..n] + FractionThen(f.value, ExponentThen(e.value, e.rest))
  {
    SplitAt(a, n);
    ReadFractionIsToken(a[n..]);
    ReadExponentIsToken(ReadFraction(a[n..]).rest);
  }

  lemma SplitAt(s: Text, n: nat)
    requires n <= |s|
    ensures s == s[..n] + s[n..]
  {
  }

  // --- Values --------------------------------------------------------------------------------------------------

  function ExponentValue(e: Exponent): int
    requires ValidExponent(e)
  {
    if e.NoExponent? then 0
    else if e.sign == [MINUS] then 0 - DigitsValue(e.digits)
    else DigitsValue(e.digits)
  }

  /** new BigDecimal(token): every digit goes into the unscaled value, the exponent into the scale. */
  function PartsValue(p: NumberParts): Decimal
    requires ValidParts(p)
  {
    var magnitude := DigitsValue(p.whole + p.fraction);
    Decimal(if p.negative then 0 - magnitude else magnitude, |p.fraction| - ExponentValue(p.exponent))
  }

  lemma {:induction false} DigitsJoin(a: Text, b: Text)
    requires AllDigits(a) && AllDigits(b)
    ensures AllDigits(a + b) && DigitsValue(a + b) == DigitsValue(a) * Pow10(|b|) + DigitsValue(b)
  {
    if b == [] {
      assert a + b == a;
    } else {
      var front, last := b[..|b| - 1], b[|b| - 1];
      assert (a + b)[..|a + b| - 1] == a + front && (a + b)[|a + b| - 1] == last;
      DigitsJoin(a, front);
      TenTimes(DigitsValue(a), Pow10(|front|));
    }
  }

  lemma TenTimes(a: nat, p: nat)
    ensures 10 * (a * p) == a * (10 * p)
  {
  }

  /** The digits after the point count as so many more digits, and the scale says how many, less the exponent. */
  lemma PartsValueSays(p: NumberParts)
    requires ValidParts(p)
    ensures var d := PartsValue(p);
      && Abs(d.unscaled) == DigitsValue(p.whole) * Pow10(|p.fraction|) + DigitsValue(p.fraction)
      && (p.negative ==> d.unscaled <= 0) && (!p.negative ==> d.unscaled >= 0)
      && d.scale + ExponentValue(p.exponent) == |p.fraction|
      && (p.exponent.Exponent? ==>
            ExponentValue(p.exponent) == if p.exponent.sign == [0x2D] then 0 - DigitsValue(p.exponent.digits)
                                         else DigitsValue(p.exponent.digits))
  {
    DigitsJoin(p.whole, p.fraction);
  }

  /** BigDecimal keeps its scale in 32 bits. */
  predicate ScaleFits(d: Decimal) {
    -0x8000_0000 <= d.scale <= 0x7FFF_FFFF
  }

  const MAX_EXPONENT := 0x7FFF_FFFF

  /** new BigDecimal refuses a token whose scale does not fit, and one whose exponent as written is not of 32 bits. */
  predicate TokenFits(p: NumberParts)
    requires ValidParts(p)
  {
    ScaleFits(PartsValue(p)) && -MAX_EXPONENT <= ExponentValue(p.exponent) <= MAX_EXPONENT
  }

  /** The token BigDecimal.toString prints. */
  function PrintParts(d: Decimal): (p: NumberParts)
    ensures ValidParts(p)
  {
    var c := Digits(Abs(d.unscaled));
    var negative := d.unscaled < 0;
    var adjusted := |c| - 1 - d.scale;
    if d.scale == 0 then NumberParts(negative, c, [], NoExponent)
    else if d.scale > 0 && adjusted >= -6 then
      if |c| > d.scale then NumberParts(negative, c[..|c| - d.scale], c[|c| - d.scale..], NoExponent)
      else NumberParts(negative, [ZERO], Zeros(d.scale - |c|) + c, NoExponent)
    else
      NumberParts(negative, c[..1], c[1..],
                  if adjusted == 0 then NoExponent
                  else Exponent(UPPER_E, if adjusted > 0 then [PLUS] else [MINUS], Digits(Abs(adjusted))))
  }

  /** The digits of the printed token are the unscaled value's digits, after leading zeros if the token has any. */
  lemma PrintedDigits(d: Decimal)
    ensures var p := PrintParts(d);
      DigitsValue(p.whole + p.fraction) == Abs(d.unscaled)
  {
    var c := Digits(Abs(d.unscaled));
    var p := PrintParts(d);
    var adjusted := |c| - 1 - d.scale;
    if d.scale > 0 && adjusted >= -6 && |c| <= d.scale {
      var padding := Zeros(d.scale - |c|);
      assert p.whole + p.fraction == [ZERO] + (padding + c);
      LeadingZero(padding + c);
      LeadingZeros(|padding|, c);
    } else {
      assert p.whole + p.fraction == c;
    }
  }

  /** BigDecimal's canonical text denotes the same unscaled value and scale. */
  lemma PrintedValue(d: Decimal)
    ensures PartsValue(PrintParts(d)) == d
  {
    PrintedDigits(d);
  }

  /**
   When the point falls among the digits or at most six zeros before them, the token is plain and has as many digits
   after the point as the scale says. Otherwise one digit stands before the point, and the exponent says where it belongs.
   */
  lemma PrintedShape(d: Decimal)
    ensures var p, adjusted := PrintParts(d), |Digits(Abs(d.unscaled))| - 1 - d.scale;
      && (p.negative <==> d.unscaled < 0)
      && (d.scale >= 0 && adjusted >= -6 ==> p.exponent.NoExponent? && |p.fraction| == d.scale)
      && (d.scale < 0 || adjusted < -6 ==>
            && |p.whole| == 1 && |p.fraction| == |Digits(Abs(d.unscaled))| - 1 && ExponentValue(p.exponent) == adjusted
            && (p.exponent.Exponent? ==>
                  p.exponent.marker == 0x45 && p.exponent.sign == if adjusted > 0 then [PLUS] else [MINUS]))
  {
  }

  /** A decimal with a negative scale is printed with an exponent, to which its further digits add. */
  predicate PrintFits(d: Decimal) {
    d.scale < 0 ==> |Digits(Abs(d.unscaled))| - 1 - d.scale <= MAX_EXPONENT
  }

  /** The printed token is one that new BigDecimal takes exactly when that exponent is of 32 bits. */
  lemma PrintedFitsIff(d: Decimal)
    requires ScaleFits(d)
    ensures TokenFits(PrintParts(d)) <==> PrintFits(d)
  {
    PrintedValue(d);
  }

  // --- Safe numbers --------------------------------------------------------------------------------------------

  /** The zero 0E+2147483648. */
  const LOWEST_ZERO := Decimal(0, -0x8000_0000)

  lemma {:induction false} ManyDigits(n: nat)
    requires n > 0
    ensures n >= Pow10(|Digits(n)| - 1)
  {
    if n >= 10 {
      ManyDigits(n / 10);
    }
  }

  /** An integer of more than 16 digits, or followed by 16 zeros, is unsafe. */
  lemma ManyDigitsAreUnsafe(n: nat, zeros: nat)
    requires n > 0 && (|Digits(n)| > 16 || zeros >= 16)
    ensures n * Pow10(zeros) > MAX_SAFE_INTEGER
  {
    SafeIsBelow();
    ManyDigits(n);
    ProductAtLeast(n, Pow10(zeros));
    Pow10Monotone(16, if zeros >= 16 then zeros else |Digits(n)| - 1);
  }

  /** Of the numbers that may be sent, one zero alone prints with an exponent beyond 32 bits. */
  lemma OnlyLowestZeroOverflows(d: Decimal)
    requires ScaleFits(d) && !UnsafeInteger(d)
    ensures PrintFits(d) <==> d != LOWEST_ZERO
  {
    if d.unscaled == 0 {
      assert |Digits(0)| == 1;
    } else if d.scale < 0 && |Digits(Abs(d.unscaled))| - 1 - d.scale > MAX_EXPONENT {
      ManyDigitsAreUnsafe(Abs(d.unscaled), -d.scale);
      assert false;
    }
  }
}
