/**
 What the Java SDK's JSON parser computes, as functions on the unread text. The class in JsonParser refines them; the
 round trips are proved here.
 */
module JsonReader {
  import opened Results
  import opened Utf16
  import opened JsonNumbers
  import opened JsonValues

  const MAX_DEPTH := 512

  predicate IsSpace(u: Unit) {
    u == 0x20 || u == 0x09 || u == 0x0A || u == 0x0D
  }

  function SkipSpace(s: Text): (r: Text)
    ensures |r| <= |s|
    ensures r != [] ==> !IsSpace(r[0])
  {
    if s != [] && IsSpace(s[0]) then SkipSpace(s[1..]) else s
  }

  // --- Strings -------------------------------------------------------------------------------------------------

  /** The BMP characters with digit value zero; the nine characters after each are the digits one to nine. */
  const DECIMAL_ZEROS: seq<int> := [
    0x0030, 0x0660, 0x06F0, 0x07C0, 0x0966, 0x09E6, 0x0A66, 0x0AE6, 0x0B66, 0x0BE6, 0x0C66, 0x0CE6, 0x0D66, 0x0DE6,
    0x0E50, 0x0ED0, 0x0F20, 0x1040, 0x1090, 0x17E0, 0x1810, 0x1946, 0x19D0, 0x1A80, 0x1A90, 0x1B50, 0x1BB0, 0x1C40,
    0x1C50, 0xA620, 0xA8D0, 0xA900, 0xA9D0, 0xA9F0, 0xAA50, 0xABF0, 0xFF10]

  function DecimalDigit(u: Unit, zeros: seq<int>): (d: Option<nat>)
    ensures d.Some? ==> d.value < 10
  {
    if zeros == [] then None
    else if zeros[0] <= u < zeros[0] + 10 then Some(u - zeros[0])
    else DecimalDigit(u, zeros[1..])
  }

  function LetterDigit(u: Unit, a: int): (d: Option<nat>)
    ensures d.Some? ==> 10 <= d.value < 16
  {
    if a <= u < a + 6 then Some(10 + (u - a)) else None
  }

  /** Character.digit(u, 16): any Unicode decimal digit, and Latin letters in either case or width. */
  function Digit16(u: Unit): (d: Option<nat>)
    ensures d.Some? ==> d.value < 16
  {
    if DecimalDigit(u, DECIMAL_ZEROS).Some? then DecimalDigit(u, DECIMAL_ZEROS)
    else if LetterDigit(u, 0x41).Some? then LetterDigit(u, 0x41)
    else if LetterDigit(u, 0x61).Some? then LetterDigit(u, 0x61)
    else if LetterDigit(u, 0xFF21).Some? then LetterDigit(u, 0xFF21)
    else LetterDigit(u, 0xFF41)
  }

  function HexValue(s: Text, value: nat): Option<nat> {
    if s == [] then Some(value)
    else match Digit16(s[0])
      case None => None
      case Some(d) => HexValue(s[1..], 16 * value + d)
  }

  /** Integer.parseInt(s, 16), which also takes a leading sign. */
  function ParseInt16(s: Text): Option<int>
    requires |s| == 4
  {
    if s[0] == MINUS || s[0] == PLUS then
      match HexValue(s[1..], 0)
      case None => None
      case Some(n) => Some(if s[0] == MINUS then 0 - n else n)
    else
      match HexValue(s, 0)
      case None => None
      case Some(n) => Some(n)
  }

  /** The narrowing cast from int to char. */
  function ToChar(n: int): Unit {
    n % 0x10000
  }

  function SimpleEscape(u: Unit): Option<Unit> {
    if u == QUOTE || u == BACKSLASH || u == 0x2F then Some(u)
    else if u == 0x62 then Some(0x08)
    else if u == 0x66 then Some(0x0C)
    else if u == 0x6E then Some(0x0A)
    else if u == 0x72 then Some(0x0D)
    else if u == 0x74 then Some(0x09)
    else None
  }

  /** The text after a backslash. */
  function ReadEscape(s: Text): (r: Read<Unit>)
    ensures r.Good? ==> |r.rest| < |s|
  {
    if s == [] then Bad(UnterminatedEscape, 0)
    else if SimpleEscape(s[0]).Some? then Good(SimpleEscape(s[0]).value, s[1..])
    else if s[0] != 0x75 then Bad(InvalidEscape, |s| - 1)
    else if |s| < 5 then Bad(ShortUnicodeEscape, |s| - 1)
    else match ParseInt16(s[1..5])
      case None => Bad(InvalidUnicodeEscape, |s| - 1)
      case Some(n) => Good(ToChar(n), s[5..])
  }

  /** The text after an opening quote. */
  function ReadUnits(s: Text, acc: Text): (r: Read<Text>)
    ensures r.Good? ==> |r.rest| < |s|
    decreases |s|
  {
    if s == [] then Bad(UnterminatedString, 0)
    else if s[0] == QUOTE then Good(acc, s[1..])
    else if s[0] < 0x20 then Bad(ControlCharacter, |s| - 1)
    else if s[0] != BACKSLASH then ReadUnits(s[1..], acc + [s[0]])
    else match ReadEscape(s[1..])
      case Bad(reason, left) => Bad(reason, left)
      case Good(u, rest) => ReadUnits(rest, acc + [u])
  }

  // --- Values --------------------------------------------------------------------------------------------------

  function ReadLiteral(s: Text, word: Text, value: Json): (r: Read<Json>) {
    if |word| <= |s| && s[..|word|] == word then Good(value, s[|word|..]) else Bad(InvalidLiteral, |s|)
  }

  /** A number token and its BigDecimal. */
  function ReadDecimal(s: Text): (r: Read<Json>)
    ensures r.Good? ==> |r.rest| < |s|
  {
    match ReadNumber(s)
    case Bad(reason, left) => Bad(reason, left)
    case Good(p, rest) =>
      ReadNumberIsToken(s);
      if TokenFits(p) then
        NumberTextThen(p, rest);
        Good(Json.Number(Exact(PartsValue(p))), rest)
      else Bad(NumberOutOfRange, |rest|)
  }

  function ReadValue(s: Text, depth: nat): (r: Read<Json>)
    ensures r.Good? ==> |r.rest| < |s|
    decreases |s|, 1
  {
    if depth > MAX_DEPTH then Bad(NestingTooDeep, |s|)
    else if s == [] then Bad(UnexpectedEnd, 0)
    else if s[0] == OPEN_BRACE then
      var t := SkipSpace(s[1..]);
      if StartsWith(t, CLOSE_BRACE) then Good(Object([]), t[1..]) else ReadMembers(t, depth, [])
    else if s[0] == OPEN_BRACKET then
      var t := SkipSpace(s[1..]);
      if StartsWith(t, CLOSE_BRACKET) then Good(Array([]), t[1..]) else ReadItems(t, depth, [])
    else if s[0] == QUOTE then
      match ReadUnits(s[1..], [])
      case Bad(reason, left) => Bad(reason, left)
      case Good(text, rest) => Good(String(text), rest)
    else if s[0] == TRUE_TEXT[0] then ReadLiteral(s, TRUE_TEXT, Bool(true))
    else if s[0] == FALSE_TEXT[0] then ReadLiteral(s, FALSE_TEXT, Bool(false))
    else if s[0] == NULL_TEXT[0] then ReadLiteral(s, NULL_TEXT, Null)
    else if s[0] == MINUS || IsDigit(s[0]) then ReadDecimal(s)
    else Bad(UnexpectedCharacter, |s|)
  }

  /** One turn of the array loop: the items read so far are in acc. */
  function ReadItems(s: Text, depth: nat, acc: seq<Json>): (r: Read<Json>)
    ensures r.Good? ==> |r.rest| < |s|
    decreases |s|, 2
  {
    match ReadValue(SkipSpace(s), depth + 1)
    case Bad(reason, left) => Bad(reason, left)
    case Good(item, rest) =>
      var t := SkipSpace(rest);
      if StartsWith(t, COMMA) then ReadItems(t[1..], depth, acc + [item])
      else if StartsWith(t, CLOSE_BRACKET) then Good(Array(acc + [item]), t[1..])
      else Bad(Expected(CLOSE_BRACKET), |t|)
  }

  /** One turn of the object loop: the members read so far are in acc. */
  function ReadMembers(s: Text, depth: nat, acc: seq<Member>): (r: Read<Json>)
    ensures r.Good? ==> |r.rest| < |s|
    decreases |s|, 2
  {
    match ReadMember(s, depth)
    case Bad(reason, left) => Bad(reason, left)
    case Good(member, rest) =>
      var t := SkipSpace(rest);
      var members := Put(acc, member.key, member.value);
      if StartsWith(t, COMMA) then ReadMembers(t[1..], depth, members)
      else if StartsWith(t, CLOSE_BRACE) then Good(Object(members), t[1..])
      else Bad(Expected(CLOSE_BRACE), |t|)
  }

  function ReadMember(s: Text, depth: nat): (r: Read<Member>)
    ensures r.Good? ==> |r.rest| < |s|
    decreases |s|, 1
  {
    var k := SkipSpace(s);
    if !StartsWith(k, QUOTE) then Bad(ExpectedKey, |k|)
    else match ReadUnits(k[1..], [])
      case Bad(reason, left) => Bad(reason, left)
      case Good(key, afterKey) =>
        var c := SkipSpace(afterKey);
        if !StartsWith(c, COLON) then Bad(Expected(COLON), |c|)
        else match ReadValue(SkipSpace(c[1..]), depth + 1)
          case Bad(reason, left) => Bad(reason, left)
          case Good(value, rest) => Good(Member(key, value), rest)
  }

  /** Why and where a text is not a single JSON value. */
  datatype ParseError = ParseError(reason: Reason, offset: int)

  function ErrorIn(text: Text, reason: Reason, left: nat): ParseError {
    ParseError(reason, |text| - left)
  }

  function Parse(text: Text): Result<Json, ParseError> {
    match ReadValue(SkipSpace(text), 0)
    case Bad(reason, left) => Err(ErrorIn(text, reason, left))
    case Good(value, rest) =>
      if SkipSpace(rest) == [] then Ok(value)
      else Err(ErrorIn(text, TrailingContent, |SkipSpace(rest)|))
  }
}
