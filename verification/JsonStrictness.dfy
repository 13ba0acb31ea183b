/**
 When a text the parser accepts is RFC 8259. The grammar of accepted texts differs from the RFC's in the escapes alone,
 so the condition is one a single scan of the text decides: after every backslash and "u" come four ASCII hexadecimal
 digits. A text has a strict syntax tree within the parser's bounds exactly when it parses and passes the scan.
 */
module JsonStrictness {
  import opened Results
  import opened Utf16
  import opened JsonNumbers
  import opened JsonValues
  import opened JsonReader
  import opened JsonGrammar
  import opened JsonRoundTrip

  const LETTER_U: Unit := 0x75

  predicate AllAsciiHex(s: Text) {
    forall i :: 0 <= i < |s| ==> IsAsciiHex(s[i])
  }

  /** Every "\u" is followed by four ASCII hexadecimal digits. */
  predicate AsciiEscapes(s: Text) {
    if s == [] then true
    else if s[0] != BACKSLASH then AsciiEscapes(s[1..])
    else if |s| == 1 then true
    else if s[1] != LETTER_U then AsciiEscapes(s[2..])
    else |s| >= 6 && AllAsciiHex(s[2..6]) && AsciiEscapes(s[6..])
  }

  predicate NoBackslash(s: Text) {
    BACKSLASH !in s
  }

  lemma {:induction false} PlainSkipped(prefix: Text, rest: Text)
    requires NoBackslash(prefix)
    ensures AsciiEscapes(prefix + rest) <==> AsciiEscapes(rest)
  {
    if prefix == [] {
      assert prefix + rest == rest;
    } else {
      assert (prefix + rest)[1..] == prefix[1..] + rest;
      PlainSkipped(prefix[1..], rest);
    }
  }

  lemma SpaceSkips(space: Text, rest: Text)
    requires AllSpace(space)
    ensures AsciiEscapes(space + rest) <==> AsciiEscapes(rest)
  {
    PlainSkipped(space, rest);
  }

  lemma PieceScanned(p: Piece, rest: Text)
    requires ValidPiece(p)
    ensures AsciiEscapes(PieceText(p) + rest) <==> (p.Hex? ==> AllAsciiHex(p.digits)) && AsciiEscapes(rest)
  {
    var s := PieceText(p) + rest;
    match p
    case Plain(_) => assert s[1..] == rest;
    case Simple(_) => assert s[2..] == rest;
    case Hex(digits) => assert s[2..6] == digits && s[6..] == rest;
  }

  lemma {:induction false} PiecesScanned(pieces: seq<Piece>, rest: Text)
    requires ValidPieces(pieces)
    ensures AsciiEscapes(PiecesThen(pieces, rest)) <==> StrictPieces(pieces) && AsciiEscapes(rest)
  {
    if pieces == [] {
      PlainSkipped([QUOTE], rest);
    } else {
      PiecesScanned(pieces[1..], rest);
      PieceScanned(pieces[0], PiecesThen(pieces[1..], rest));
      assert StrictPieces(pieces) <==> (pieces[0].Hex? ==> AllAsciiHex(pieces[0].digits)) && StrictPieces(pieces[1..]);
    }
  }

  lemma NumberScanned(p: NumberParts, rest: Text)
    requires ValidParts(p)
    ensures AsciiEscapes(NumberThen(p, rest)) <==> AsciiEscapes(rest)
  {
    var e := ExponentThen(p.exponent, rest);
    var f := FractionThen(p.fraction, e);
    if p.exponent.Exponent? {
      PlainSkipped(p.exponent.digits, rest);
      PlainSkipped(p.exponent.sign, p.exponent.digits + rest);
      PlainSkipped([p.exponent.marker], p.exponent.sign + (p.exponent.digits + rest));
    }
    if p.fraction != [] {
      PlainSkipped(p.fraction, e);
      PlainSkipped([DOT], p.fraction + e);
    }
    PlainSkipped(p.whole, f);
    PlainSkipped([MINUS], p.whole + f);
  }

  lemma SyntaxScanned(c: Syntax, rest: Text)
    requires ValidSyntax(c)
    ensures AsciiEscapes(RenderThen(c, rest)) <==> Strict(c) && AsciiEscapes(rest)
    decreases c, 1
  {
    match c
    case NullWord => PlainSkipped(NULL_TEXT, rest);
    case BoolWord(b) => PlainSkipped(if b then TRUE_TEXT else FALSE_TEXT, rest);
    case NumberToken(p) => NumberScanned(p, rest);
    case StringToken(pieces) =>
      PiecesScanned(pieces, rest);
      PlainSkipped([QUOTE], PiecesThen(pieces, rest));
    case ArraySyntax(space, items) =>
      ItemsScanned(items, rest);
      SpaceSkips(space, RenderItemsThen(items, rest));
      PlainSkipped([OPEN_BRACKET], space + RenderItemsThen(items, rest));
    case ObjectSyntax(space, members) =>
      MembersScanned(members, rest);
      SpaceSkips(space, RenderMembersThen(members, rest));
      PlainSkipped([OPEN_BRACE], space + RenderMembersThen(members, rest));
  }

  lemma {:induction false} ItemsScanned(items: seq<ItemSyntax>, rest: Text)
    requires ValidItems(items)
    ensures AsciiEscapes(RenderItemsThen(items, rest)) <==> StrictItems(items) && AsciiEscapes(rest)
    ensures AsciiEscapes(MoreItemsThen(items, rest)) <==> StrictItems(items) && AsciiEscapes(rest)
    decreases items
  {
    if items == [] {
      PlainSkipped([CLOSE_BRACKET], rest);
    } else {
      var more := MoreItemsThen(items[1..], rest);
      var value := RenderThen(items[0].value, items[0].after + more);
      ItemsScanned(items[1..], rest);
      SpaceSkips(items[0].after, more);
      SyntaxScanned(items[0].value, items[0].after + more);
      SpaceSkips(items[0].before, value);
      PlainSkipped([COMMA], items[0].before + value);
    }
  }

  lemma MemberScanned(m: MemberSyntax, more: Text)
    requires ValidFrame(m) && ValidSyntax(m.value)
    ensures AsciiEscapes(m.before + KeyThen(m, more)) <==> StrictPieces(m.key) && Strict(m.value) && AsciiEscapes(more)
    decreases m
  {
    var value := RenderThen(m.value, m.after + more);
    var colon := [COLON] + (m.beforeValue + value);
    SpaceSkips(m.after, more);
    SyntaxScanned(m.value, m.after + more);
    SpaceSkips(m.beforeValue, value);
    PlainSkipped([COLON], m.beforeValue + value);
    SpaceSkips(m.afterKey, colon);
    PiecesScanned(m.key, m.afterKey + colon);
    PlainSkipped([QUOTE], PiecesThen(m.key, m.afterKey + colon));
    SpaceSkips(m.before, KeyThen(m, more));
  }

  lemma {:induction false} MembersScanned(members: seq<MemberSyntax>, rest: Text)
    requires ValidMembers(members)
    ensures AsciiEscapes(RenderMembersThen(members, rest)) <==> StrictMembers(members) && AsciiEscapes(rest)
    ensures AsciiEscapes(MoreMembersThen(members, rest)) <==> StrictMembers(members) && AsciiEscapes(rest)
    decreases members
  {
    if members == [] {
      PlainSkipped([CLOSE_BRACE], rest);
    } else {
      var more := MoreMembersThen(members[1..], rest);
      MembersScanned(members[1..], rest);
      MemberScanned(members[0], more);
      PlainSkipped([COMMA], members[0].before + KeyThen(members[0], more));
    }
  }

  /** All trees of a text are strict, or none is, and the scan of the text tells which. */
  lemma TreeIsStrictIff(text: Text, c: Syntax)
    requires ValidSyntax(c) && IsTextOf(text, c)
    ensures Strict(c) <==> AsciiEscapes(text)
  {
    var before, after :| AllSpace(before) && AllSpace(after) && text == before + RenderThen(c, after);
    SpaceSkips(before, RenderThen(c, after));
    SyntaxScanned(c, after);
    SpaceSkips(after, []);
    assert after + [] == after;
  }

  /** The text of a strict tree nested at most 512 deep, whose meaning is v. */
  ghost predicate IsRfcTextOf(text: Text, v: Json) {
    exists c :: ValidSyntax(c) && Strict(c) && Within(c) && IsTextOf(text, c) && Meaning(c) == v
  }

  /** A text is RFC 8259 for a value, within the parser's bounds, exactly when it parses to it and passes the scan. */
  lemma RfcTextIff(text: Text, v: Json)
    ensures IsRfcTextOf(text, v) <==> Parse(text) == Ok(v) && AsciiEscapes(text)
  {
    if IsRfcTextOf(text, v) {
      var c :| ValidSyntax(c) && Strict(c) && Within(c) && IsTextOf(text, c) && Meaning(c) == v;
      TextOfSyntaxParses(text, c);
      TreeIsStrictIff(text, c);
    }
    if Parse(text) == Ok(v) && AsciiEscapes(text) {
      var c := ParsedTextHasSyntax(text);
      TreeIsStrictIff(text, c);
    }
  }

  /** Among the accepted texts, those of RFC 8259 are the ones that pass the scan. */
  lemma AcceptedIsRfcIff(text: Text)
    requires Parse(text).Ok?
    ensures (exists c :: ValidSyntax(c) && Strict(c) && IsTextOf(text, c)) <==> AsciiEscapes(text)
  {
    var c := ParsedTextHasSyntax(text);
    TreeIsStrictIff(text, c);
    if d :| ValidSyntax(d) && Strict(d) && IsTextOf(text, d) {
      TreeIsStrictIff(text, d);
    }
  }

  // --- Escapes beyond RFC 8259 ---------------------------------------------------------------------------------

  /** Four characters are an escape exactly when they are digits of some script, or a sign and three such digits. */
  lemma EscapeAccepted(s: Text)
    requires |s| == 4
    ensures ParseInt16(s).Some? <==>
            (Digit16(s[0]).Some? || s[0] == PLUS || s[0] == MINUS) &&
            Digit16(s[1]).Some? && Digit16(s[2]).Some? && Digit16(s[3]).Some?
  {
    ThreeAccepted(s[1..]);
    HexAccepted(s, 0);
    HexAccepted(s[1..], 0);
    FirstAndRest(s);
  }

  lemma ThreeAccepted(s: Text)
    requires |s| == 3
    ensures AllHex(s) <==> Digit16(s[0]).Some? && Digit16(s[1]).Some? && Digit16(s[2]).Some?
  {
    FirstAndRest(s);
    FirstAndRest(s[1..]);
    FirstAndRest(s[2..]);
    assert s[1..][1..] == s[2..] && s[2..][1..] == [];
  }

  predicate AllHex(s: Text) {
    forall i :: 0 <= i < |s| ==> Digit16(s[i]).Some?
  }

  lemma FirstAndRest(s: Text)
    requires s != []
    ensures AllHex(s) <==> Digit16(s[0]).Some? && AllHex(s[1..])
  {
  }

  lemma {:induction false} HexAccepted(s: Text, value: nat)
    ensures HexValue(s, value).Some? <==> AllHex(s)
  {
    if s != [] && Digit16(s[0]).Some? {
      HexAccepted(s[1..], 16 * value + Digit16(s[0]).value);
      FirstAndRest(s);
    }
  }

  lemma SignedDigits()
    ensures HexUnit([PLUS, 0x30, 0x34, 0x31]) == Some(0x41)
  {
  }

  /** A string of one escape that is not four ASCII hexadecimal digits is accepted and is not RFC 8259. */
  lemma LenientString(digits: Text)
    requires |digits| == 4 && HexUnit(digits).Some? && !AllAsciiHex(digits)
    ensures var text := [QUOTE] + (PieceText(Hex(digits)) + [QUOTE]);
      && Parse(text) == Ok(String([HexUnit(digits).value]))
      && !exists c :: ValidSyntax(c) && Strict(c) && IsTextOf(text, c)
  {
    var text := [QUOTE] + (PieceText(Hex(digits)) + [QUOTE]);
    var c := StringToken([Hex(digits)]);
    OnePiece(Hex(digits));
    assert RenderThen(c, []) == text && [] + text == text && AllSpace([]);
    assert IsTextOf(text, c) && c.pieces[0] == Hex(digits);
    TextOfSyntaxParses(text, c);
    TreeIsStrictIff(text, c);
    AcceptedIsRfcIff(text);
  }

  lemma OnePiece(p: Piece)
    requires ValidPiece(p)
    ensures PiecesThen([p], []) == PieceText(p) + [QUOTE] && PiecesText([p]) == [PieceUnit(p)]
  {
    assert [p][1..] == [] && [QUOTE] + [] == [QUOTE] && [PieceUnit(p)] + [] == [PieceUnit(p)];
  }

  /** The text "\u+041" (with its quotes) parses to "A" although no RFC 8259 tree has that text. */
  lemma SignedEscapeIsAccepted()
    ensures var text: Text := [QUOTE, BACKSLASH, LETTER_U, PLUS, 0x30, 0x34, 0x31, QUOTE];
      && Parse(text) == Ok(String([0x41]))
      && !exists c :: ValidSyntax(c) && Strict(c) && IsTextOf(text, c)
  {
    var digits: Text := [PLUS, 0x30, 0x34, 0x31];
    SignedDigits();
    assert !IsAsciiHex(digits[0]);
    LenientString(digits);
    assert [QUOTE] + (PieceText(Hex(digits)) + [QUOTE])
        == [QUOTE, BACKSLASH, LETTER_U, PLUS, 0x30, 0x34, 0x31, QUOTE];
  }
}
