/**
 The parser reads back what the writer writes.

 For a value whose maps have distinct keys, the writer's text is RFC 8259 JSON, and parsing it succeeds exactly when the
 value is nested at most 512 deep and no number prints with an exponent beyond 32 bits, giving the value with every
 number as a decimal. Whatever the parser accepts has distinct keys and is not nested deeper, so serializing and parsing
 it again changes nothing but for such a number.
 */
module JsonRoundTrip {
  import opened Results
  import opened Utf16
  import opened Decimals
  import opened JsonNumbers
  import opened JsonValues
  import opened JsonReader
  import opened JsonGrammar

  // --- Strict trees: RFC 8259 itself ---------------------------------------------------------------------------

  predicate StrictPieces(pieces: seq<Piece>) {
    forall i :: 0 <= i < |pieces| && pieces[i].Hex? ==>
      forall k :: 0 <= k < |pieces[i].digits| ==> IsAsciiHex(pieces[i].digits[k])
  }

  predicate Strict(c: Syntax) {
    match c
    case StringToken(pieces) => StrictPieces(pieces)
    case ArraySyntax(_, items) => StrictItems(items)
    case ObjectSyntax(_, members) => StrictMembers(members)
    case _ => true
  }

  predicate StrictItems(items: seq<ItemSyntax>) {
    items == [] || (Strict(items[0].value) && StrictItems(items[1..]))
  }

  predicate StrictMembers(members: seq<MemberSyntax>) {
    members == [] || (StrictPieces(members[0].key) && Strict(members[0].value) && StrictMembers(members[1..]))
  }

  /** The text is RFC 8259 for the value, however deep and however large its exponents. */
  ghost predicate IsStrictTextOf(text: Text, v: Json) {
    exists c :: ValidSyntax(c) && Strict(c) && IsTextOf(text, c) && Meaning(c) == v
  }

  // --- Escapes -------------------------------------------------------------------------------------------------

  /** The writer's choice of piece for a unit. */
  function PieceOf(u: Unit): Piece {
    if u == QUOTE || u == BACKSLASH then Simple(u)
    else if u == 0x0A then Simple(0x6E)
    else if u == 0x0D then Simple(0x72)
    else if u == 0x09 then Simple(0x74)
    else if u == 0x08 then Simple(0x62)
    else if u == 0x0C then Simple(0x66)
    else if u < 0x20 then Hex([0x30, 0x30, JsonValues.HexDigit(u / 16), JsonValues.HexDigit(u % 16)])
    else Plain(u)
  }

  /** The digits the writer gives a control character stand for it. */
  lemma ControlDigits(u: Unit)
    requires u < 0x20
    ensures var digits := [0x30, 0x30, JsonValues.HexDigit(u / 16), JsonValues.HexDigit(u % 16)];
            HexUnit(digits) == Some(u)
  {
    assert AsciiHexValue(0x30) == 0 && u == 16 * (u / 16) + u % 16;
  }

  lemma PieceOfUnit(u: Unit)
    ensures PieceText(PieceOf(u)) == EscapeText(u)
    ensures ValidPiece(PieceOf(u)) && PieceUnit(PieceOf(u)) == u && StrictPieces([PieceOf(u)])
  {
    if PieceOf(u).Hex? {
      ControlDigits(u);
    }
  }

  function PiecesOf(text: Text): seq<Piece> {
    if text == [] then [] else [PieceOf(text[0])] + PiecesOf(text[1..])
  }

  lemma {:induction false} PiecesOfText(text: Text, rest: Text)
    ensures ValidPieces(PiecesOf(text)) && PiecesText(PiecesOf(text)) == text && StrictPieces(PiecesOf(text))
    ensures [QUOTE] + PiecesThen(PiecesOf(text), rest) == StringThen(text, rest)
  {
    if text != [] {
      PieceOfUnit(text[0]);
      PiecesOfText(text[1..], rest);
      assert PiecesOf(text)[1..] == PiecesOf(text[1..]);
      assert text == [text[0]] + text[1..];
      SameTail([QUOTE], PiecesThen(PiecesOf(text[1..]), rest), EscapeThen(text[1..], [QUOTE] + rest));
    }
  }

  lemma SameTail(prefix: Text, a: Text, b: Text)
    requires prefix + a == prefix + b
    ensures a == b
  {
    Skipped(prefix, a);
    Skipped(prefix, b);
  }

  // --- The tree of a written value -----------------------------------------------------------------------------

  function SyntaxOf(v: Json): Syntax {
    match v
    case Null => NullWord
    case Bool(b) => BoolWord(b)
    case Number(n) => NumberToken(PartsOf(n))
    case String(text) => StringToken(PiecesOf(text))
    case Array(items) => ArraySyntax([], SyntaxOfItems(items))
    case Object(members) => ObjectSyntax([], SyntaxOfMembers(members))
  }

  function SyntaxOfItems(items: seq<Json>): seq<ItemSyntax> {
    if items == [] then [] else [ItemSyntax([], SyntaxOf(items[0]), [])] + SyntaxOfItems(items[1..])
  }

  function SyntaxOfMembers(members: seq<JsonValues.Member>): seq<MemberSyntax> {
    if members == [] then []
    else [MemberSyntax([], PiecesOf(members[0].key), [], [], SyntaxOf(members[0].value), [])]
         + SyntaxOfMembers(members[1..])
  }

  lemma NoSpace(s: Text)
    ensures [] + s == s
  {
  }

  lemma WrittenSyntax(v: Json, rest: Text)
    requires Writable(v)
    ensures ValidSyntax(SyntaxOf(v)) && Strict(SyntaxOf(v)) && Nesting(SyntaxOf(v)) == Depth(v)
    ensures NumbersFit(SyntaxOf(v)) <==> Rereadable(v)
    ensures RenderThen(SyntaxOf(v), rest) == WriteThen(v, rest)
    ensures Meaning(SyntaxOf(v)) == Canonical(v)
    decreases v, 1
  {
    match v
    case String(text) => PiecesOfText(text, rest);
    case Array(items) =>
      WrittenItems(items, rest);
      NoSpace(ItemsThen(items, true, rest));
    case Object(members) => WrittenObject(v, rest);
    case Number(Exact(d)) => PrintedFitsIff(d);
    case _ =>
  }

  lemma WrittenObject(v: Json, rest: Text)
    requires Writable(v) && v.Object?
    ensures ValidSyntax(SyntaxOf(v)) && Strict(SyntaxOf(v)) && Nesting(SyntaxOf(v)) == Depth(v)
    ensures NumbersFit(SyntaxOf(v)) <==> Rereadable(v)
    ensures RenderThen(SyntaxOf(v), rest) == WriteThen(v, rest)
    ensures Meaning(SyntaxOf(v)) == Canonical(v)
    decreases v, 0
  {
    var c := SyntaxOfMembers(v.members);
    assert SyntaxOf(v) == ObjectSyntax([], c) && (c == [] <==> v.members == []);
    WrittenMembers(v.members, rest);
    WrittenMeanings(v.members, []);
    NoSpace(MembersThen(v.members, true, rest));
    assert [] + CanonicalMembers(v.members) == CanonicalMembers(v.members);
  }

  lemma {:induction false} WrittenItems(items: seq<Json>, rest: Text)
    requires WritableItems(items)
    ensures var c := SyntaxOfItems(items);
      && ValidItems(c) && StrictItems(c) && NestingOfItems(c) == DepthOfItems(items)
      && (ItemNumbersFit(c) <==> RereadableItems(items))
      && RenderItemsThen(c, rest) == ItemsThen(items, true, rest)
      && JsonGrammar.MoreItemsThen(c, rest) == ItemsThen(items, false, rest)
      && ItemMeanings(c) == CanonicalItems(items)
  {
    if items != [] {
      var more := ItemsThen(items[1..], false, rest);
      var c := SyntaxOfItems(items);
      assert c[0] == ItemSyntax([], SyntaxOf(items[0]), []) && c[1..] == SyntaxOfItems(items[1..]);
      WrittenItems(items[1..], rest);
      WrittenSyntax(items[0], more);
      NoSpace(more);
      NoSpace(WriteThen(items[0], more));
    }
  }

  lemma WrittenMember(member: JsonValues.Member, more: Text)
    requires Writable(member.value)
    ensures ValidSyntax(SyntaxOf(member.value)) && Strict(SyntaxOf(member.value))
    ensures Nesting(SyntaxOf(member.value)) == Depth(member.value)
    ensures NumbersFit(SyntaxOf(member.value)) <==> Rereadable(member.value)
    ensures Meaning(SyntaxOf(member.value)) == Canonical(member.value)
    ensures ValidPieces(PiecesOf(member.key)) && StrictPieces(PiecesOf(member.key))
    ensures PiecesText(PiecesOf(member.key)) == member.key
    ensures KeyThen(MemberSyntax([], PiecesOf(member.key), [], [], SyntaxOf(member.value), []), more)
         == MemberThen(member, more)
  {
    var value := WriteThen(member.value, more);
    WrittenSyntax(member.value, more);
    PiecesOfText(member.key, [COLON] + value);
    NoSpace(more);
    NoSpace(value);
    NoSpace([COLON] + value);
  }

  lemma {:induction false} WrittenMembers(members: seq<JsonValues.Member>, rest: Text)
    requires WritableMembers(members)
    ensures var c := SyntaxOfMembers(members);
      && ValidMembers(c) && StrictMembers(c) && NestingOfMembers(c) == DepthOfMembers(members)
      && (MemberNumbersFit(c) <==> RereadableMembers(members))
      && RenderMembersThen(c, rest) == MembersThen(members, true, rest)
      && MoreMembersThen(c, rest) == MembersThen(members, false, rest)
    decreases members
  {
    if members != [] {
      var more := MembersThen(members[1..], false, rest);
      var c := SyntaxOfMembers(members);
      assert c[0] == MemberSyntax([], PiecesOf(members[0].key), [], [], SyntaxOf(members[0].value), []);
      assert c[1..] == SyntaxOfMembers(members[1..]);
      WrittenMember(members[0], more);
      NoSpace(MemberThen(members[0], more));
      WrittenMembers(members[1..], rest);
    }
  }

  /** Putting members with new and distinct keys one after the other appends them. */
  lemma {:induction false} WrittenMeanings(members: seq<JsonValues.Member>, acc: seq<JsonValues.Member>)
    requires WritableMembers(members) && DistinctKeys(members) && ValidMembers(SyntaxOfMembers(members))
    requires forall i :: 0 <= i < |members| ==> !HasKey(acc, members[i].key)
    ensures PutMeanings(acc, SyntaxOfMembers(members)) == acc + CanonicalMembers(members)
    decreases members
  {
    if members == [] {
      assert acc + [] == acc;
    } else {
      var c := SyntaxOfMembers(members);
      var member := JsonValues.Member(members[0].key, Canonical(members[0].value));
      assert c[0] == MemberSyntax([], PiecesOf(members[0].key), [], [], SyntaxOf(members[0].value), []);
      assert c[1..] == SyntaxOfMembers(members[1..]);
      WrittenMember(members[0], []);
      PutNewKey(acc, member.key, member.value);
      StillNew(acc, member, members);
      WrittenMeanings(members[1..], acc + [member]);
      Shift(acc, member, CanonicalMembers(members[1..]));
    }
  }

  lemma StillNew(acc: seq<JsonValues.Member>, member: JsonValues.Member, members: seq<JsonValues.Member>)
    requires members != [] && member.key == members[0].key && DistinctKeys(members)
    requires forall i :: 0 <= i < |members| ==> !HasKey(acc, members[i].key)
    ensures DistinctKeys(members[1..])
    ensures forall i :: 0 <= i < |members[1..]| ==> !HasKey(acc + [member], members[1..][i].key)
  {
  }

  /**
   What is written is RFC 8259 JSON, and parsing it succeeds exactly when the value is nested at most 512 deep and no
   number prints with an exponent beyond 32 bits; it then returns the value.
   */
  lemma ParseWrite(v: Json)
    requires Writable(v)
    ensures IsStrictTextOf(Write(v), Canonical(v))
    ensures Parse(Write(v)).Ok? <==> Depth(v) <= 512 && Rereadable(v)
    ensures match Parse(Write(v))
            case Ok(w) => w == Canonical(v)
            case Err(e) => Refuses(e.reason, Depth(v) <= 512, Rereadable(v))
  {
    WrittenSyntax(v, []);
    NoSpace(Write(v));
    assert AllSpace([]);
    assert IsTextOf(Write(v), SyntaxOf(v));
    TextOfSyntaxParses(Write(v), SyntaxOf(v));
  }

  // --- One parse is a normal form ------------------------------------------------------------------------------

  /** The meaning of a tree can be written, holds exact numbers only, and is nested no deeper than the tree. */
  lemma MeaningIsCanonical(c: Syntax)
    requires ValidSyntax(c) && NumbersFit(c)
    ensures Writable(Meaning(c)) && Canonical(Meaning(c)) == Meaning(c) && Depth(Meaning(c)) <= Nesting(c)
  {
    match c
    case NumberToken(p) => PrintedValue(PartsValue(p));
    case ArraySyntax(_, items) => ItemMeaningsAreCanonical(items);
    case ObjectSyntax(_, members) => PutMeaningsAreCanonical([], members);
    case _ =>
  }

  lemma {:induction false} ItemMeaningsAreCanonical(items: seq<ItemSyntax>)
    requires ValidItems(items) && ItemNumbersFit(items)
    ensures var r := ItemMeanings(items);
      WritableItems(r) && CanonicalItems(r) == r && DepthOfItems(r) <= NestingOfItems(items)
  {
    if items != [] {
      var r := ItemMeanings(items);
      assert r[0] == Meaning(items[0].value) && r[1..] == ItemMeanings(items[1..]);
      MeaningIsCanonical(items[0].value);
      ItemMeaningsAreCanonical(items[1..]);
    }
  }

  lemma {:induction false} PutMeaningsAreCanonical(acc: seq<JsonValues.Member>, members: seq<MemberSyntax>)
    requires ValidMembers(members) && MemberNumbersFit(members)
    requires DistinctKeys(acc) && WritableMembers(acc) && CanonicalMembers(acc) == acc
    ensures var r := PutMeanings(acc, members);
      && DistinctKeys(r) && WritableMembers(r) && CanonicalMembers(r) == r
      && DepthOfMembers(r) <= Max(DepthOfMembers(acc), NestingOfMembers(members))
    decreases members
  {
    if members != [] {
      var key, value := PiecesText(members[0].key), Meaning(members[0].value);
      MeaningIsCanonical(members[0].value);
      PutKeepsKeysDistinct(acc, key, value);
      PutIsCanonical(acc, key, value);
      PutMeaningsAreCanonical(Put(acc, key, value), members[1..]);
    }
  }

  lemma {:induction false} PutIsCanonical(members: seq<JsonValues.Member>, key: Text, value: Json)
    requires WritableMembers(members) && CanonicalMembers(members) == members
    requires Writable(value) && Canonical(value) == value
    ensures var r := Put(members, key, value);
      && WritableMembers(r) && CanonicalMembers(r) == r
      && DepthOfMembers(r) <= Max(DepthOfMembers(members), 1 + Depth(value))
  {
    var r, put := Put(members, key, value), JsonValues.Member(key, value);
    if members == [] {
      assert r[1..] == [] && r[0] == put;
    } else {
      var head, tail := members[0], members[1..];
      assert [JsonValues.Member(head.key, Canonical(head.value))] + CanonicalMembers(tail) == members;
      assert Canonical(head.value) == head.value && CanonicalMembers(tail) == tail;
      if head.key == key {
        assert r[1..] == tail && r[0] == put;
      } else {
        PutIsCanonical(tail, key, value);
        assert r[1..] == Put(tail, key, value) && r[0] == head;
      }
    }
  }

  /**
   Whatever the parser accepts can be written again, and then parses to the same value unless a number in it prints with
   an exponent beyond 32 bits, for which it is refused.
   */
  lemma ParseIsNormalForm(text: Text)
    requires Parse(text).Ok?
    ensures var v := Parse(text).value;
      && Writable(v) && Depth(v) <= 512
      && (Parse(Write(v)) == Ok(v) <==> Rereadable(v))
      && (!Rereadable(v) ==> Parse(Write(v)).Err? && Parse(Write(v)).error.reason == NumberOutOfRange)
  {
    var c := ParsedTextHasSyntax(text);
    MeaningIsCanonical(c);
    ParseWrite(Parse(text).value);
  }

  // --- Exponents beyond 32 bits --------------------------------------------------------------------------------

  /** The tokens 10e<n> and 1.0e<n>. */
  function TenTo(n: nat): NumberParts {
    NumberParts(false, [0x31, 0x30], [], Exponent(LOWER_E, [], Digits(n)))
  }

  function OnePointZeroTo(n: nat): NumberParts {
    NumberParts(false, [0x31], [0x30], Exponent(LOWER_E, [], Digits(n)))
  }

  lemma ValuesOfTokens(n: nat)
    ensures ValidParts(TenTo(n)) && PartsValue(TenTo(n)) == Decimal(10, 0 - n)
    ensures ValidParts(OnePointZeroTo(n)) && PartsValue(OnePointZeroTo(n)) == Decimal(10, 1 - n)
  {
    var ten: Text := [0x31, 0x30];
    assert ten[..1] == [0x31] && [0x31][..0] == [];
    assert DigitsValue([0x31]) == 1 && DigitsValue(ten) == 10;
    assert ten + [] == ten && [0x31] + [0x30] == ten;
  }

  lemma TokenSyntax(p: NumberParts)
    requires ValidParts(p)
    ensures var c := NumberToken(p);
      && ValidSyntax(c) && Nesting(c) == 0 && (NumbersFit(c) <==> TokenFits(p))
      && Meaning(c) == Json.Number(Exact(PartsValue(p))) && IsTextOf(NumberText(p), c)
  {
    assert [] + RenderThen(NumberToken(p), []) == NumberText(p) && AllSpace([]);
  }

  lemma NumberTextParses(p: NumberParts)
    requires ValidParts(p)
    ensures if TokenFits(p) then Parse(NumberText(p)) == Ok(Json.Number(Exact(PartsValue(p))))
            else Parse(NumberText(p)).Err? && Parse(NumberText(p)).error.reason == NumberOutOfRange
  {
    var c := NumberToken(p);
    TokenSyntax(p);
    TextOfSyntaxParses(NumberText(p), c);
  }

  /** 10e2147483647 is accepted; its value is written 1.0E+2147483648, which is refused. */
  lemma LargestIsNoNormalForm(n: nat)
    requires n == MAX_EXPONENT
    ensures Parse(NumberText(TenTo(n))) == Ok(Json.Number(Exact(Decimal(10, 0 - n))))
    ensures var again := Parse(Write(Json.Number(Exact(Decimal(10, 0 - n)))));
            again.Err? && again.error.reason == NumberOutOfRange
  {
    ValuesOfTokens(n);
    NumberTextParses(TenTo(n));
    assert |Digits(10)| == 2;
    ParseIsNormalForm(NumberText(TenTo(n)));
  }

  /** 1.0e2147483648 has a scale of 32 bits, but is refused for its exponent. */
  lemma ExponentIsRefused(n: nat)
    requires n == MAX_EXPONENT + 1
    ensures ScaleFits(PartsValue(OnePointZeroTo(n)))
    ensures Parse(NumberText(OnePointZeroTo(n))).Err?
    ensures Parse(NumberText(OnePointZeroTo(n))).error.reason == NumberOutOfRange
  {
    ValuesOfTokens(n);
    NumberTextParses(OnePointZeroTo(n));
  }
}
