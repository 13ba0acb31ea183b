/**
 Json.java in its own form: a StringBuilder that every write method appends to, and a parser whose position every
 method advances. Each method is proved against the functions of JsonValues and JsonReader.
 */
module JsonParser {
  import opened Results
  import opened Utf16
  import opened Decimals
  import opened JsonNumbers
  import opened JsonValues
  import opened JsonReader
  import opened JsonRoundTrip

  // --- The writer ----------------------------------------------------------------------------------------------

  class StringBuilder {
    var text: Text

    constructor ()
      ensures text == []
    {
      text := [];
    }

    method Append(s: Text)
      modifies this
      ensures text == old(text) + s
    {
      text := text + s;
    }
  }

  method WriteString(text: Text, out: StringBuilder)
    modifies out
    ensures out.text == old(out.text) + StringThen(text, [])
  {
    out.Append([QUOTE]);
    ghost var start := old(out.text);
    assert [QUOTE] + [] == [QUOTE] && text[0..] == text;
    PrefixAppends(start, [QUOTE], EscapeThen(text, [QUOTE]));
    for index := 0 to |text|
      invariant start + StringThen(text, []) == out.text + EscapeThen(text[index..], [QUOTE])
    {
      var before := out.text;
      assert text[index..][1..] == text[index + 1..];
      ghost var more := EscapeThen(text[index + 1..], [QUOTE]);
      assert EscapeThen(text[index..], [QUOTE]) == EscapeText(text[index]) + more;
      out.Append(EscapeText(text[index]));
      PrefixAppends(before, EscapeText(text[index]), more);
    }
    assert EscapeThen(text[|text|..], [QUOTE]) == [QUOTE];
    out.Append([QUOTE]);
  }

  method WriteTo(value: Json, out: StringBuilder)
    modifies out
    ensures out.text == old(out.text) + Write(value)
    decreases value
  {
    match value
    case Null => out.Append(NULL_TEXT);
    case Bool(b) => out.Append(if b then TRUE_TEXT else FALSE_TEXT);
    case Number(n) => out.Append(NumberText(PartsOf(n)));
    case String(text) => WriteString(text, out);
    case Object(members) =>
      out.Append([OPEN_BRACE]);
      ghost var goal := old(out.text) + Write(value);
      var first := true;
      PrefixAppends(old(out.text), [OPEN_BRACE], MembersThen(members, true, []));
      for index := 0 to |members|
        invariant first <==> index == 0
        invariant goal == out.text + MembersThen(members[index..], first, [])
      {
        ghost var rest := members[index..];
        ghost var more := MembersThen(members[index + 1..], false, []);
        assert rest[0] == members[index] && rest[1..] == members[index + 1..];
        if !first {
          PrefixAppends(out.text, [COMMA], MemberThen(members[index], more));
          out.Append([COMMA]);
        }
        first := false;
        var key := members[index].key;
        ghost var value' := Write(members[index].value);
        MemberSplits(members[index], more, out.text);
        WriteString(key, out);
        out.Append([COLON]);
        WriteTo(members[index].value, out);
      }
      out.Append([CLOSE_BRACE]);
    case Array(list) =>
      out.Append([OPEN_BRACKET]);
      ghost var goal := old(out.text) + Write(value);
      PrefixAppends(old(out.text), [OPEN_BRACKET], ItemsThen(list, true, []));
      for index := 0 to |list|
        invariant goal == out.text + ItemsThen(list[index..], index == 0, [])
      {
        ghost var rest := list[index..];
        ghost var more := ItemsThen(list[index + 1..], false, []);
        assert rest[0] == list[index] && rest[1..] == list[index + 1..];
        if index > 0 {
          PrefixAppends(out.text, [COMMA], WriteThen(list[index], more));
          out.Append([COMMA]);
        }
        ItemSplits(list[index], more, out.text);
        WriteTo(list[index], out);
      }
      out.Append([CLOSE_BRACKET]);
  }

  lemma ItemSplits(item: Json, more: Text, before: Text)
    ensures before + WriteThen(item, more) == (before + Write(item)) + more
  {
    assert [] + more == more;
    WriteAppends(item, [], more);
    PrefixAppends(before, Write(item), more);
  }

  lemma MemberSplits(member: Member, more: Text, before: Text)
    ensures before + MemberThen(member, more)
         == (((before + StringThen(member.key, [])) + [COLON]) + Write(member.value)) + more
  {
    var key, value := StringThen(member.key, []), WriteThen(member.value, more);
    assert [] + ([COLON] + value) == [COLON] + value;
    StringAppends(member.key, [], [COLON] + value);
    PrefixAppends(before, key, [COLON] + value);
    PrefixAppends(before + key, [COLON], value);
    ItemSplits(member.value, more, (before + key) + [COLON]);
  }

  // --- The parser ----------------------------------------------------------------------------------------------

  /** new BigDecimal(token). */
  function NewBigDecimal(token: Text): Result<Decimal, Reason> {
    match ReadNumber(token)
    case Bad(_, _) => Err(NumberOutOfRange)
    case Good(p, rest) =>
      ReadNumberIsToken(token);
      if rest == [] && TokenFits(p) then Ok(PartsValue(p)) else Err(NumberOutOfRange)
  }

  /** A token read on its own, with the text after it. */
  function Alone(token: Text, rest: Text): Read<Json> {
    match NewBigDecimal(token)
    case Ok(d) => Good(Json.Number(Exact(d)), rest)
    case Err(reason) => Bad(reason, |rest|)
  }

  /** Reading a scanned token on its own gives the number that was scanned. */
  lemma TokenReadsAlone(s: Text, token: Text, rest: Text)
    requires s == token + rest && Scanned(ReadNumber(s)) == Good((), rest)
    ensures ReadDecimal(s) == Alone(token, rest)
  {
    var p := ReadNumber(s).value;
    ReadNumberIsToken(s);
    NumberTextThen(p, rest);
    SameFront(token, NumberText(p), rest);
    NumberReadsBack(p, []);
  }

  lemma SameFront(a: Text, b: Text, rest: Text)
    requires a + rest == b + rest
    ensures a == b
  {
    assert a == (a + rest)[..|a|] && b == (b + rest)[..|b|];
  }

  /** What scanning alone answers: the position moves, nothing is built. */
  function Scanned<T>(r: Read<T>): Read<()> {
    match r
    case Good(_, rest) => Good((), rest)
    case Bad(reason, left) => Bad(reason, left)
  }

  class Parser {
    const text: Text
    var position: nat

    constructor (text: Text)
      ensures this.text == text && position == 0
    {
      this.text := text;
      position := 0;
    }

    ghost predicate Valid()
      reads this
    {
      position <= |text|
    }

    /** The unread text. */
    ghost function Rest(): Text
      requires Valid()
      reads this
    {
      text[position..]
    }

    /** The outcome of a parsing method, and where it left the position, are those of a reading function. */
    ghost predicate Answers<T(!new)>(r: Result<T, Reason>, spec: Read<T>)
      requires Valid()
      reads this
    {
      match spec
      case Good(value, rest) => r == Ok(value) && Rest() == rest
      case Bad(reason, left) => r == Err(reason) && |text| - position == left
    }

    predicate Peek(expected: Unit)
      requires Valid()
      reads this
      ensures Peek(expected) <==> StartsWith(Rest(), expected)
    {
      position < |text| && text[position] == expected
    }

    predicate Digit()
      requires Valid()
      reads this
      ensures Digit() <==> StartsWithDigit(Rest())
    {
      position < |text| && IsDigit(text[position])
    }

    method Advance(n: nat)
      requires Valid() && n <= |Rest()|
      modifies this
      ensures Valid() && position == old(position) + n && Rest() == old(Rest())[n..]
    {
      position := position + n;
    }

    method SkipWhitespace()
      requires Valid()
      modifies this
      ensures Valid() && position >= old(position) && Rest() == SkipSpace(old(Rest()))
    {
      while position < |text|
        invariant Valid() && position >= old(position)
        invariant SkipSpace(Rest()) == SkipSpace(old(Rest()))
        decreases |text| - position
      {
        if !IsSpace(text[position]) {
          return;
        }
        Advance(1);
      }
    }

    method Digits()
      requires Valid()
      modifies this
      ensures Valid() && position >= old(position)
      ensures Rest() == old(Rest())[DigitCount(old(Rest()))..]
    {
      ghost var s := Rest();
      while Digit()
        invariant Valid() && old(position) <= position
        invariant position - old(position) + DigitCount(Rest()) == DigitCount(s)
        decreases |text| - position
      {
        Advance(1);
      }
    }

    method Expect(expected: Unit) returns (r: Result<(), Reason>)
      requires Valid()
      modifies this
      ensures Valid() && position >= old(position)
      ensures r.Ok? <==> StartsWith(old(Rest()), expected)
      ensures r.Ok? ==> position == old(position) + 1 && Rest() == old(Rest())[1..]
      ensures r.Err? ==> r.error == Expected(expected) && position == old(position)
    {
      if !Peek(expected) {
        return Err(Expected(expected));
      }
      Advance(1);
      return Ok(());
    }

    method Literal(word: Text, result: Json) returns (r: Result<Json, Reason>)
      requires Valid()
      modifies this
      ensures Valid() && position >= old(position)
      ensures Answers(r, ReadLiteral(old(Rest()), word, result))
    {
      if |word| > |text| - position || text[position..position + |word|] != word {
        assert |word| <= |Rest()| ==> Rest()[..|word|] == text[position..position + |word|];
        return Err(InvalidLiteral);
      }
      assert Rest()[..|word|] == word;
      Advance(|word|);
      return Ok(result);
    }

    /** The four characters of a unicode escape. */
    method HexEscape() returns (r: Result<Unit, Reason>)
      requires Valid() && position > 0
      modifies this
      ensures Valid() && position >= old(position)
      ensures var s := old(Rest());
        if |s| < 4 then r == Err(ShortUnicodeEscape) && position == old(position)
        else if ParseInt16(s[..4]) == None then r == Err(InvalidUnicodeEscape) && position == old(position)
        else r == Ok(ToChar(ParseInt16(s[..4]).value)) && Rest() == s[4..]
    {
      if position + 4 > |text| {
        return Err(ShortUnicodeEscape);
      }
      assert text[position..position + 4] == Rest()[..4];
      match ParseInt16(text[position..position + 4])
      case None => return Err(InvalidUnicodeEscape);
      case Some(n) =>
        Advance(4);
        return Ok(ToChar(n));
    }

    method Escape() returns (r: Result<Unit, Reason>)
      requires Valid()
      modifies this
      ensures Valid() && position >= old(position)
      ensures Answers(r, ReadEscape(old(Rest())))
    {
      ghost var s := Rest();
      if position >= |text| {
        return Err(UnterminatedEscape);
      }
      var escape := text[position];
      Advance(1);
      var simple := SimpleEscape(escape);
      if simple.Some? {
        return Ok(simple.value);
      }
      if escape != 0x75 {
        return Err(InvalidEscape);
      }
      assert |s| >= 5 ==> s[1..][..4] == s[1..5] && s[1..][4..] == s[5..];
      r := HexEscape();
    }

    method String() returns (r: Result<Text, Reason>)
      requires Valid() && Peek(QUOTE)
      modifies this
      ensures Valid() && position > old(position)
      ensures Answers(r, ReadUnits(old(Rest())[1..], []))
    {
      Advance(1);
      var out: Text := [];
      ghost var s := Rest();
      while true
        invariant Valid() && position > old(position)
        invariant ReadUnits(Rest(), out) == ReadUnits(s, [])
        decreases |text| - position
      {
        if position >= |text| {
          return Err(UnterminatedString);
        }
        var character := text[position];
        Advance(1);
        if character == QUOTE {
          return Ok(out);
        }
        if character < 0x20 {
          return Err(ControlCharacter);
        }
        if character != BACKSLASH {
          out := out + [character];
          continue;
        }
        var escaped := Escape();
        match escaped
        case Err(reason) => return Err(reason);
        case Ok(unit) => out := out + [unit];
      }
    }

    method Fraction() returns (r: Result<(), Reason>)
      requires Valid()
      modifies this
      ensures Valid() && position >= old(position)
      ensures Answers(r, Scanned(ReadFraction(old(Rest()))))
    {
      if Peek(DOT) {
        Advance(1);
        if !Digit() {
          return Err(InvalidFraction);
        }
        Digits();
      }
      return Ok(());
    }

    method Exponent() returns (r: Result<(), Reason>)
      requires Valid()
      modifies this
      ensures Valid() && position >= old(position)
      ensures Answers(r, Scanned(ReadExponent(old(Rest()))))
    {
      if Peek(LOWER_E) || Peek(UPPER_E) {
        Advance(1);
        if Peek(PLUS) || Peek(MINUS) {
          Advance(1);
        }
        if !Digit() {
          return Err(InvalidExponent);
        }
        Digits();
      }
      return Ok(());
    }

    /** The sign and the integer digits. */
    method Whole() returns (r: Result<(), Reason>)
      requires Valid()
      modifies this
      ensures Valid() && position >= old(position)
      ensures var a := if StartsWith(old(Rest()), MINUS) then old(Rest())[1..] else old(Rest());
        if !StartsWithDigit(a) then r == Err(InvalidNumber) && |text| - position == |a|
        else r.Ok? && Rest() == a[if a[0] == ZERO then 1 else DigitCount(a)..]
    {
      if Peek(MINUS) {
        Advance(1);
      }
      if Peek(ZERO) {
        Advance(1);
      } else if Digit() {
        Digits();
      } else {
        return Err(InvalidNumber);
      }
      return Ok(());
    }

    method ScanNumber() returns (r: Result<(), Reason>)
      requires Valid()
      modifies this
      ensures Valid() && position >= old(position)
      ensures Answers(r, Scanned(ReadNumber(old(Rest()))))
    {
      r := Whole();
      if r.Ok? {
        r := Fraction();
      }
      if r.Ok? {
        r := Exponent();
      }
    }

    method Number() returns (r: Result<Json, Reason>)
      requires Valid()
      modifies this
      ensures Valid() && position >= old(position)
      ensures Answers(r, ReadDecimal(old(Rest())))
    {
      var start := position;
      var scanned := ScanNumber();
      if scanned.Err? {
        return Err(scanned.error);
      }
      assert text[start..] == text[start..position] + text[position..];
      TokenReadsAlone(text[start..], text[start..position], text[position..]);
      return match NewBigDecimal(text[start..position])
        case Ok(value) => Ok(Json.Number(Exact(value)))
        case Err(reason) => Err(reason);
    }

    method Value(depth: nat) returns (r: Result<Json, Reason>)
      requires Valid()
      modifies this
      ensures Valid() && position >= old(position)
      ensures Answers(r, ReadValue(old(Rest()), depth))
      decreases |text| - position, 1
    {
      if depth > MAX_DEPTH {
        return Err(NestingTooDeep);
      }
      if position >= |text| {
        return Err(UnexpectedEnd);
      }
      var character := text[position];
      if character == OPEN_BRACE {
        r := Object(depth);
      } else if character == OPEN_BRACKET {
        r := Array(depth);
      } else if character == QUOTE {
        var s := String();
        r := match s case Ok(text) => Ok(Json.String(text)) case Err(reason) => Err(reason);
      } else if character == 0x74 {
        r := Literal(TRUE_TEXT, Bool(true));
      } else if character == 0x66 {
        r := Literal(FALSE_TEXT, Bool(false));
      } else if character == 0x6E {
        r := Literal(NULL_TEXT, Null);
      } else if character == MINUS || (0x30 <= character && character <= 0x39) {
        r := Number();
      } else {
        r := Err(UnexpectedCharacter);
      }
    }

    method Array(depth: nat) returns (r: Result<Json, Reason>)
      requires Valid() && Peek(OPEN_BRACKET) && depth <= MAX_DEPTH
      modifies this
      ensures Valid() && position >= old(position)
      ensures Answers(r, ReadValue(old(Rest()), depth))
      decreases |text| - position, 0
    {
      ghost var s := Rest();
      var result: seq<Json> := [];
      Advance(1);
      SkipWhitespace();
      if Peek(CLOSE_BRACKET) {
        Advance(1);
        return Ok(Json.Array(result));
      }
      ghost var body := Rest();
      while true
        invariant Valid() && position > old(position)
        invariant ReadItems(Rest(), depth, result) == ReadItems(body, depth, [])
        decreases |text| - position
      {
        SkipWhitespace();
        var item := Value(depth + 1);
        if item.Err? {
          return Err(item.error);
        }
        ghost var result' := result;
        result := result + [item.value];
        SkipWhitespace();
        if Peek(COMMA) {
          Advance(1);
          continue;
        }
        var closed := Expect(CLOSE_BRACKET);
        if closed.Err? {
          return Err(closed.error);
        }
        return Ok(Json.Array(result));
      }
    }

    method Object(depth: nat) returns (r: Result<Json, Reason>)
      requires Valid() && Peek(OPEN_BRACE) && depth <= MAX_DEPTH
      modifies this
      ensures Valid() && position >= old(position)
      ensures Answers(r, ReadValue(old(Rest()), depth))
      decreases |text| - position, 0
    {
      var result: seq<JsonValues.Member> := [];
      Advance(1);
      SkipWhitespace();
      if Peek(CLOSE_BRACE) {
        Advance(1);
        return Ok(Json.Object(result));
      }
      ghost var body := Rest();
      while true
        invariant Valid() && position > old(position)
        invariant ReadMembers(Rest(), depth, result) == ReadMembers(body, depth, [])
        decreases |text| - position
      {
        var member := Member(depth);
        if member.Err? {
          return Err(member.error);
        }
        result := Put(result, member.value.key, member.value.value);
        SkipWhitespace();
        if Peek(COMMA) {
          Advance(1);
          continue;
        }
        var closed := Expect(CLOSE_BRACE);
        if closed.Err? {
          return Err(closed.error);
        }
        return Ok(Json.Object(result));
      }
    }

    /** The key, colon and value of one turn of the object loop. */
    method Member(depth: nat) returns (r: Result<JsonValues.Member, Reason>)
      requires Valid()
      modifies this
      ensures Valid() && position >= old(position)
      ensures Answers(r, ReadMember(old(Rest()), depth))
      decreases |text| - position, 2
    {
      SkipWhitespace();
      if !Peek(QUOTE) {
        return Err(ExpectedKey);
      }
      var key := String();
      if key.Err? {
        return Err(key.error);
      }
      SkipWhitespace();
      var colon := Expect(COLON);
      if colon.Err? {
        return Err(colon.error);
      }
      SkipWhitespace();
      var value := Value(depth + 1);
      if value.Err? {
        return Err(value.error);
      }
      return Ok(JsonValues.Member(key.value, value.value));
    }
  }

  // --- Json.write and Json.parse -------------------------------------------------------------------------------

  method WriteJson(value: Json) returns (text: Text)
    requires Writable(value)
    ensures Parse(text) == Ok(Canonical(value)) <==> Depth(value) <= 512 && Rereadable(value)
    ensures text == Write(value)
  {
    var out := new StringBuilder();
    WriteTo(value, out);
    ParseWrite(value);
    assert [] + Write(value) == Write(value);
    return out.text;
  }

  /** What a whole parse answers, with the number of units left unread. */
  function WholeAnswer(spec: Read<Json>): (Result<Json, Reason>, nat) {
    match spec
    case Bad(reason, left) => (Err(reason), left)
    case Good(value, rest) =>
      var left := |SkipSpace(rest)|;
      (if left == 0 then Ok(value) else Err(TrailingContent), left)
  }

  /** The value with the white space around it. */
  method ParseWhole(parser: Parser) returns (r: Result<Json, Reason>)
    requires parser.Valid()
    modifies parser
    ensures parser.Valid()
    ensures (r, |parser.text| - parser.position) == WholeAnswer(ReadValue(SkipSpace(old(parser.Rest())), 0))
  {
    ghost var spec := ReadValue(SkipSpace(parser.Rest()), 0);
    parser.SkipWhitespace();
    r := parser.Value(0);
    assert parser.Answers(r, spec);
    if r.Ok? {
      parser.SkipWhitespace();
      assert |parser.Rest()| == |parser.text| - parser.position;
      if parser.position != |parser.text| {
        return Err(TrailingContent);
      }
    }
  }

  lemma ParseIsWhole(text: Text)
    ensures var (r, left) := WholeAnswer(ReadValue(SkipSpace(text), 0));
            Parse(text) == if r.Ok? then Ok(r.value) else Err(ErrorIn(text, r.error, left))
  {
  }

  method ParseJson(text: Text) returns (r: Result<Json, ParseError>)
    ensures r == Parse(text)
  {
    var parser := new Parser(text);
    assert parser.Rest() == text;
    var value := ParseWhole(parser);
    ParseIsWhole(text);
    return if value.Err? then Err(ParseError(value.error, parser.position)) else Ok(value.value);
  }
}
