/**
 The grammar of RFC 8259 as syntax trees, stated without reference to the parser, and the theorem that the parser
 accepts exactly the texts that have a syntax tree nested at most 512 deep with numbers that BigDecimal takes.

 The grammar differs from RFC 8259 in one production: after "\u" come four digits of any script, or a sign and three of
 them, because the parser reads them with Integer.parseInt. A tree whose escapes are ASCII hexadecimal digits is called
 strict; strict trees are those of RFC 8259.
 */
module JsonGrammar {
  import opened Results
  import opened Utf16
  import opened JsonNumbers
  import opened JsonValues
  import opened JsonReader

  /** One character of a string token: itself, after a backslash, or as four hexadecimal digits. */
  datatype Piece = Plain(unit: Unit) | Simple(letter: Unit) | Hex(digits: Text)

  datatype Syntax =
    | NullWord
    | BoolWord(b: bool)
    | NumberToken(parts: NumberParts)
    | StringToken(pieces: seq<Piece>)
    | ArraySyntax(space: Text, items: seq<ItemSyntax>)
    | ObjectSyntax(space: Text, members: seq<MemberSyntax>)

  datatype ItemSyntax = ItemSyntax(before: Text, value: Syntax, after: Text)

  datatype MemberSyntax = MemberSyntax(
    before: Text, key: seq<Piece>, afterKey: Text, beforeValue: Text, value: Syntax, after: Text)

  // --- Escapes -------------------------------------------------------------------------------------------------

  /** The two-character escapes of section 7 of RFC 8259: the unit each letter after the backslash stands for. */
  const ESCAPES: map<Unit, Unit> := map[
    0x22 := 0x22, 0x5C := 0x5C, 0x2F := 0x2F, 0x62 := 0x08, 0x66 := 0x0C, 0x6E := 0x0A, 0x72 := 0x0D, 0x74 := 0x09]

  predicate IsAsciiHex(u: Unit) {
    0x30 <= u <= 0x39 || 0x41 <= u <= 0x46 || 0x61 <= u <= 0x66
  }

  function AsciiHexValue(u: Unit): (d: nat)
    requires IsAsciiHex(u)
    ensures d < 16
  {
    if u <= 0x39 then u - 0x30 else if u <= 0x46 then u - 0x37 else u - 0x57
  }

  /** An ASCII digit's value; a digit of another script has the value Character.digit gives it. */
  function HexDigitValue(u: Unit): (d: Option<nat>)
    ensures d.Some? ==> d.value < 16
  {
    if IsAsciiHex(u) then Some(AsciiHexValue(u)) else Digit16(u)
  }

  predicate HexDigits(s: Text) {
    forall i :: 0 <= i < |s| ==> HexDigitValue(s[i]).Some?
  }

  /** The unit three digits stand for. */
  function LowUnit(digits: Text): (low: nat)
    requires |digits| == 3 && HexDigits(digits)
    ensures low < 4096
  {
    256 * HexDigitValue(digits[0]).value + 16 * HexDigitValue(digits[1]).value + HexDigitValue(digits[2]).value
  }

  /** The unit four digits stand for; or a sign and three digits, counted down from 2^16 if the sign is a minus. */
  function HexUnit(digits: Text): Option<Unit>
    requires |digits| == 4
  {
    if !HexDigits(digits[1..]) then None
    else
      var low := LowUnit(digits[1..]);
      if digits[0] == 0x2B || (digits[0] == 0x2D && low == 0) then Some(low)
      else if digits[0] == 0x2D then Some(0x10000 - low)
      else match HexDigitValue(digits[0])
        case None => None
        case Some(a) => Some(4096 * a + low)
  }

  // --- Validity ------------------------------------------------------------------------------------------------

  predicate AllSpace(s: Text) {
    forall i :: 0 <= i < |s| ==> s[i] in {0x20, 0x09, 0x0A, 0x0D}
  }

  predicate ValidPiece(p: Piece) {
    match p
    case Plain(u) => u >= 0x20 && u != QUOTE && u != BACKSLASH
    case Simple(letter) => letter in ESCAPES
    case Hex(digits) => |digits| == 4 && HexUnit(digits).Some?
  }

  predicate ValidPieces(pieces: seq<Piece>) {
    forall i :: 0 <= i < |pieces| ==> ValidPiece(pieces[i])
  }

  predicate ValidSyntax(c: Syntax) {
    match c
    case NumberToken(p) => ValidParts(p)
    case StringToken(pieces) => ValidPieces(pieces)
    case ArraySyntax(space, items) => AllSpace(space) && (items != [] ==> space == []) && ValidItems(items)
    case ObjectSyntax(space, members) => AllSpace(space) && (members != [] ==> space == []) && ValidMembers(members)
    case _ => true
  }

  predicate ValidItems(items: seq<ItemSyntax>) {
    items == [] ||
    (AllSpace(items[0].before) && AllSpace(items[0].after) && ValidSyntax(items[0].value) && ValidItems(items[1..]))
  }

  /** The parts of a member around its value. */
  predicate ValidFrame(m: MemberSyntax) {
    && AllSpace(m.before) && AllSpace(m.afterKey) && AllSpace(m.beforeValue) && AllSpace(m.after)
    && ValidPieces(m.key)
  }

  predicate ValidMembers(members: seq<MemberSyntax>) {
    members == [] || (ValidFrame(members[0]) && ValidSyntax(members[0].value) && ValidMembers(members[1..]))
  }

  /** How many containers enclose the most deeply nested value, overwritten members included. */
  function Nesting(c: Syntax): nat {
    match c
    case ArraySyntax(_, items) => NestingOfItems(items)
    case ObjectSyntax(_, members) => NestingOfMembers(members)
    case _ => 0
  }

  function NestingOfItems(items: seq<ItemSyntax>): nat {
    if items == [] then 0 else Max(1 + Nesting(items[0].value), NestingOfItems(items[1..]))
  }

  function NestingOfMembers(members: seq<MemberSyntax>): nat {
    if members == [] then 0 else Max(1 + Nesting(members[0].value), NestingOfMembers(members[1..]))
  }

  /** Every number token is one that BigDecimal takes: its scale and its exponent are of 32 bits. */
  predicate NumbersFit(c: Syntax) {
    match c
    case NumberToken(p) =>
      && ValidParts(p)
      && var exponent := ExponentValue(p.exponent);
         -2_147_483_648 <= |p.fraction| - exponent <= 2_147_483_647 && -2_147_483_647 <= exponent <= 2_147_483_647
    case ArraySyntax(_, items) => ItemNumbersFit(items)
    case ObjectSyntax(_, members) => MemberNumbersFit(members)
    case _ => true
  }

  predicate ItemNumbersFit(items: seq<ItemSyntax>) {
    items == [] || (NumbersFit(items[0].value) && ItemNumbersFit(items[1..]))
  }

  predicate MemberNumbersFit(members: seq<MemberSyntax>) {
    members == [] || (NumbersFit(members[0].value) && MemberNumbersFit(members[1..]))
  }

  // --- Text ----------------------------------------------------------------------------------------------------

  function PieceText(p: Piece): Text {
    match p
    case Plain(u) => [u]
    case Simple(letter) => [BACKSLASH, letter]
    case Hex(digits) => [BACKSLASH, 0x75] + digits
  }

  function PiecesThen(pieces: seq<Piece>, rest: Text): Text {
    if pieces == [] then [QUOTE] + rest else PieceText(pieces[0]) + PiecesThen(pieces[1..], rest)
  }

  function RenderThen(c: Syntax, rest: Text): Text {
    match c
    case NullWord => NULL_TEXT + rest
    case BoolWord(b) => (if b then TRUE_TEXT else FALSE_TEXT) + rest
    case NumberToken(p) => NumberThen(p, rest)
    case StringToken(pieces) => [QUOTE] + PiecesThen(pieces, rest)
    case ArraySyntax(space, items) => [OPEN_BRACKET] + (space + RenderItemsThen(items, rest))
    case ObjectSyntax(space, members) => [OPEN_BRACE] + (space + RenderMembersThen(members, rest))
  }

  function RenderItemsThen(items: seq<ItemSyntax>, rest: Text): Text {
    if items == [] then [CLOSE_BRACKET] + rest
    else items[0].before + RenderThen(items[0].value, items[0].after + MoreItemsThen(items[1..], rest))
  }

  /** What follows an item: the other items, each after a comma, and the bracket. */
  function MoreItemsThen(items: seq<ItemSyntax>, rest: Text): Text {
    if items == [] then [CLOSE_BRACKET] + rest
    else [COMMA] + (items[0].before + RenderThen(items[0].value, items[0].after + MoreItemsThen(items[1..], rest)))
  }

  /** A member's text from its key on. */
  function KeyThen(m: MemberSyntax, rest: Text): Text {
    [QUOTE] + PiecesThen(m.key, m.afterKey + ([COLON] + (m.beforeValue + RenderThen(m.value, m.after + rest))))
  }

  function RenderMembersThen(members: seq<MemberSyntax>, rest: Text): Text {
    if members == [] then [CLOSE_BRACE] + rest
    else members[0].before + KeyThen(members[0], MoreMembersThen(members[1..], rest))
  }

  function MoreMembersThen(members: seq<MemberSyntax>, rest: Text): Text {
    if members == [] then [CLOSE_BRACE] + rest
    else [COMMA] + (members[0].before + KeyThen(members[0], MoreMembersThen(members[1..], rest)))
  }

  // --- Meaning -------------------------------------------------------------------------------------------------

  function PieceUnit(p: Piece): Unit
    requires ValidPiece(p)
  {
    match p
    case Plain(u) => u
    case Simple(letter) => ESCAPES[letter]
    case Hex(digits) => HexUnit(digits).value
  }

  function PiecesText(pieces: seq<Piece>): Text
    requires ValidPieces(pieces)
  {
    if pieces == [] then [] else [PieceUnit(pieces[0])] + PiecesText(pieces[1..])
  }

  function Meaning(c: Syntax): Json
    requires ValidSyntax(c)
  {
    match c
    case NullWord => Null
    case BoolWord(b) => Bool(b)
    case NumberToken(p) => Json.Number(Exact(PartsValue(p)))
    case StringToken(pieces) => String(PiecesText(pieces))
    case ArraySyntax(_, items) => Array(ItemMeanings(items))
    case ObjectSyntax(_, members) => Object(PutMeanings([], members))
  }

  function ItemMeanings(items: seq<ItemSyntax>): seq<Json>
    requires ValidItems(items)
  {
    if items == [] then [] else [Meaning(items[0].value)] + ItemMeanings(items[1..])
  }

  /** The last member with a key wins and takes the place of the first. */
  function PutMeanings(acc: seq<JsonValues.Member>, members: seq<MemberSyntax>): seq<JsonValues.Member>
    requires ValidMembers(members)
    decreases members
  {
    if members == [] then acc
    else PutMeanings(Put(acc, PiecesText(members[0].key), Meaning(members[0].value)), members[1..])
  }

  /** The value of the last member with a key. */
  function LastWith(members: seq<MemberSyntax>, key: Text): Option<Syntax>
    requires ValidMembers(members)
  {
    if members == [] then None
    else if LastWith(members[1..], key).Some? then LastWith(members[1..], key)
    else if PiecesText(members[0].key) == key then Some(members[0].value)
    else None
  }

  lemma {:induction false} LastIsValid(members: seq<MemberSyntax>, key: Text)
    requires ValidMembers(members)
    ensures LastWith(members, key).Some? ==> ValidSyntax(LastWith(members, key).value)
  {
    if members != [] {
      LastIsValid(members[1..], key);
    }
  }

  /** An object means, under each key, the value of the last member with that key. */
  lemma {:induction false} LastMemberWins(acc: seq<JsonValues.Member>, members: seq<MemberSyntax>, key: Text)
    requires ValidMembers(members)
    ensures LastWith(members, key).Some? ==> ValidSyntax(LastWith(members, key).value)
    ensures Find(PutMeanings(acc, members), key)
         == match LastWith(members, key) case Some(c) => Some(Meaning(c)) case None => Find(acc, key)
    decreases members
  {
    LastIsValid(members, key);
    if members != [] {
      var name, value := PiecesText(members[0].key), Meaning(members[0].value);
      PutStores(acc, name, value, key);
      LastMemberWins(Put(acc, name, value), members[1..], key);
    }
  }

  // --- Strings -------------------------------------------------------------------------------------------------

  lemma Skipped(prefix: Text, rest: Text)
    ensures (prefix + rest)[|prefix|..] == rest && (prefix + rest)[..|prefix|] == prefix
  {
  }

  lemma Shift<T>(acc: seq<T>, x: T, rest: seq<T>)
    ensures (acc + [x]) + rest == acc + ([x] + rest)
  {
  }

  lemma SliceTwice(s: Text, i: nat, n: nat)
    requires i + n <= |s|
    ensures s[i..i + n] == s[i..][..n] && s[i + n..] == s[i..][n..]
  {
  }

  lemma SimpleEscapes(letter: Unit)
    ensures SimpleEscape(letter) == if letter in ESCAPES then Some(ESCAPES[letter]) else None
  {
  }

  lemma {:induction false} NoDecimalDigit(u: Unit, zeros: seq<int>)
    requires forall i :: 0 <= i < |zeros| ==> !(zeros[i] <= u < zeros[i] + 10)
    ensures DecimalDigit(u, zeros) == None
  {
    if zeros != [] {
      NoDecimalDigit(u, zeros[1..]);
    }
  }

  lemma OneZeroIsAscii()
    ensures forall i :: 0 <= i < |DECIMAL_ZEROS| ==> DECIMAL_ZEROS[i] == 0x30 || DECIMAL_ZEROS[i] >= 0x660
  {
  }

  lemma AsciiLetter(u: Unit)
    requires IsAsciiHex(u) && u > 0x39
    ensures Digit16(u) == Some(AsciiHexValue(u))
  {
    OneZeroIsAscii();
    NoDecimalDigit(u, DECIMAL_ZEROS);
  }

  /** ASCII hexadecimal digits keep their usual values in Character.digit. */
  lemma AsciiHexDigit(u: Unit)
    ensures Digit16(u) == HexDigitValue(u)
  {
    if IsAsciiHex(u) && u > 0x39 {
      AsciiLetter(u);
    }
  }

  lemma DigitRead(s: Text, value: nat)
    requires s != []
    ensures HexValue(s, value) == match HexDigitValue(s[0])
                                  case None => None
                                  case Some(d) => HexValue(s[1..], 16 * value + d)
  {
    AsciiHexDigit(s[0]);
  }

  /** Three digits are read one after the other, most significant first. */
  lemma DigitsRead(digits: Text, value: nat)
    requires |digits| == 3
    ensures HexValue(digits, value) == if HexDigits(digits) then Some(4096 * value + LowUnit(digits)) else None
  {
    var two, one := digits[1..], digits[2..];
    var a, b, c := HexDigitValue(digits[0]), HexDigitValue(digits[1]), HexDigitValue(digits[2]);
    assert HexDigits(digits) <==> a.Some? && b.Some? && c.Some?;
    assert two[0] == digits[1] && two[1..] == one && one[0] == digits[2] && one[1..] == [];
    DigitRead(digits, value);
    if a.Some? && b.Some? {
      DigitRead(two, 16 * value + a.value);
      DigitRead(one, 256 * value + 16 * a.value + b.value);
    } else if a.Some? {
      DigitRead(two, 16 * value + a.value);
    }
  }

  lemma CastToChar(n: nat)
    requires n < 0x10000
    ensures ToChar(n) == n && ToChar(0 - n) == if n == 0 then 0 else 0x10000 - n
  {
  }

  lemma SignedIsRead(digits: Text)
    requires |digits| == 4 && (digits[0] == PLUS || digits[0] == MINUS)
    ensures HexUnit(digits) == match ParseInt16(digits) case None => None case Some(n) => Some(ToChar(n))
  {
    DigitsRead(digits[1..], 0);
    if HexDigits(digits[1..]) {
      CastToChar(LowUnit(digits[1..]));
    }
  }

  lemma UnsignedIsRead(digits: Text)
    requires |digits| == 4 && digits[0] != PLUS && digits[0] != MINUS
    ensures HexUnit(digits) == match ParseInt16(digits) case None => None case Some(n) => Some(ToChar(n))
  {
    DigitRead(digits, 0);
    if HexDigitValue(digits[0]).Some? {
      DigitsRead(digits[1..], HexDigitValue(digits[0]).value);
      if HexDigits(digits[1..]) {
        CastToChar(4096 * HexDigitValue(digits[0]).value + LowUnit(digits[1..]));
      }
    }
  }

  /** Integer.parseInt and the cast to char give the unit the digits stand for. */
  lemma HexUnitIsRead(digits: Text)
    requires |digits| == 4
    ensures HexUnit(digits) == match ParseInt16(digits) case None => None case Some(n) => Some(ToChar(n))
  {
    if digits[0] == PLUS || digits[0] == MINUS {
      SignedIsRead(digits);
    } else {
      UnsignedIsRead(digits);
    }
  }

  lemma HexReadsBack(digits: Text, rest: Text)
    requires |digits| == 4 && HexUnit(digits).Some?
    ensures ReadEscape([0x75] + (digits + rest)) == Good(HexUnit(digits).value, rest)
  {
    HexUnitIsRead(digits);
    var tail := digits + rest;
    Skipped([0x75], tail);
    Skipped(digits, rest);
    SliceTwice([0x75] + tail, 1, 4);
  }

  lemma EscapeReadsBack(p: Piece, rest: Text)
    requires ValidPiece(p) && !p.Plain?
    ensures ReadEscape((PieceText(p) + rest)[1..]) == Good(PieceUnit(p), rest)
  {
    var s := PieceText(p) + rest;
    if p.Simple? {
      SimpleEscapes(p.letter);
      assert s[1..] == [p.letter] + rest;
      Skipped([p.letter], rest);
    } else {
      assert s[1..] == [0x75] + (p.digits + rest);
      HexReadsBack(p.digits, rest);
    }
  }

  lemma PieceReadsBack(p: Piece, acc: Text, rest: Text)
    requires ValidPiece(p)
    ensures ReadUnits(PieceText(p) + rest, acc) == ReadUnits(rest, acc + [PieceUnit(p)])
  {
    if p.Plain? {
      Skipped([p.unit], rest);
    } else {
      EscapeReadsBack(p, rest);
    }
  }

  lemma {:induction false} PiecesReadBack(pieces: seq<Piece>, acc: Text, rest: Text)
    requires ValidPieces(pieces)
    ensures ReadUnits(PiecesThen(pieces, rest), acc) == Good(acc + PiecesText(pieces), rest)
  {
    if pieces == [] {
      Skipped([QUOTE], rest);
      assert acc + [] == acc;
    } else {
      var u := PieceUnit(pieces[0]);
      PieceReadsBack(pieces[0], acc, PiecesThen(pieces[1..], rest));
      PiecesReadBack(pieces[1..], acc + [u], rest);
      Shift(acc, u, PiecesText(pieces[1..]));
    }
  }

  lemma StringTokenReadsBack(pieces: seq<Piece>, rest: Text)
    requires ValidPieces(pieces)
    ensures ReadUnits(([QUOTE] + PiecesThen(pieces, rest))[1..], []) == Good(PiecesText(pieces), rest)
  {
    Skipped([QUOTE], PiecesThen(pieces, rest));
    PiecesReadBack(pieces, [], rest);
    assert [] + PiecesText(pieces) == PiecesText(pieces);
  }

  // --- The parser reads every tree's text ----------------------------------------------------------------------

  lemma {:induction false} SpaceSkipped(space: Text, rest: Text)
    requires AllSpace(space) && (rest != [] ==> !IsSpace(rest[0]))
    ensures SkipSpace(space + rest) == rest
  {
    if space == [] {
      assert space + rest == rest;
    } else {
      assert (space + rest)[1..] == space[1..] + rest;
      SpaceSkipped(space[1..], rest);
    }
  }

  lemma NumberFirstUnit(p: NumberParts, rest: Text)
    requires ValidParts(p)
    ensures NumberThen(p, rest) != []
    ensures NumberThen(p, rest)[0] == MINUS || IsDigit(NumberThen(p, rest)[0])
  {
  }

  /** A value's text starts with a unit that no reader skips or takes for a closing bracket. */
  lemma FirstUnit(c: Syntax, rest: Text)
    requires ValidSyntax(c)
    ensures var s := RenderThen(c, rest); s != [] && !IsSpace(s[0]) && s[0] != CLOSE_BRACKET && s[0] != CLOSE_BRACE
  {
  }

  predicate Fits(nesting: nat, depth: nat) {
    depth + nesting <= MAX_DEPTH
  }

  /** The reader's answer on the text of a tree: its meaning if it fits, and otherwise a reason that holds of it. */
  ghost predicate Answer<T>(r: Read<T>, fits: bool, numbers: bool, value: T, rest: Text) {
    if fits && numbers then r == Good(value, rest)
    else r.Bad? && Refuses(r.reason, fits, numbers)
  }

  predicate Refuses(reason: Reason, fits: bool, numbers: bool) {
    (reason == NestingTooDeep && !fits) || (reason == NumberOutOfRange && !numbers)
  }

  lemma SyntaxReadsBack(c: Syntax, depth: nat, rest: Text)
    requires ValidSyntax(c) && (c.NumberToken? ==> Stops(rest))
    ensures Answer(ReadValue(RenderThen(c, rest), depth), Fits(Nesting(c), depth), NumbersFit(c), Meaning(c), rest)
    decreases c, 1
  {
    if depth <= MAX_DEPTH {
      match c
      case NullWord => Skipped(NULL_TEXT, rest);
      case BoolWord(b) => Skipped(if b then TRUE_TEXT else FALSE_TEXT, rest);
      case NumberToken(p) => NumberTokenReadsBack(p, depth, rest);
      case StringToken(pieces) => StringTokenReadsBack(pieces, rest);
      case ArraySyntax(space, items) => ArrayReadsBack(c, depth, rest);
      case ObjectSyntax(space, members) => ObjectReadsBack(c, depth, rest);
    } else {
      FirstUnit(c, rest);
    }
  }

  lemma NumberDispatch(s: Text, depth: nat)
    requires s != [] && (s[0] == MINUS || IsDigit(s[0])) && depth <= MAX_DEPTH
    ensures ReadValue(s, depth) == ReadDecimal(s)
  {
    assert s[0] < OPEN_BRACKET && s[0] != QUOTE;
    assert TRUE_TEXT[0] > OPEN_BRACKET && FALSE_TEXT[0] > OPEN_BRACKET && NULL_TEXT[0] > OPEN_BRACKET;
  }

  lemma DecimalReadsBack(p: NumberParts, rest: Text)
    requires ValidParts(p) && Stops(rest)
    ensures NumbersFit(NumberToken(p)) <==> TokenFits(p)
    ensures var r := ReadDecimal(NumberThen(p, rest));
      if TokenFits(p) then r == Good(Json.Number(Exact(PartsValue(p))), rest) else r.Bad? && r.reason == NumberOutOfRange
  {
    NumberReadsBack(p, rest);
  }

  lemma NumberTokenReadsBack(p: NumberParts, depth: nat, rest: Text)
    requires ValidParts(p) && Stops(rest) && depth <= MAX_DEPTH
    ensures var c := NumberToken(p);
      Answer(ReadValue(RenderThen(c, rest), depth), Fits(Nesting(c), depth), NumbersFit(c), Meaning(c), rest)
  {
    NumberFirstUnit(p, rest);
    NumberDispatch(NumberThen(p, rest), depth);
    DecimalReadsBack(p, rest);
  }

  lemma ArrayReadsBack(c: Syntax, depth: nat, rest: Text)
    requires c.ArraySyntax? && ValidSyntax(c) && depth <= MAX_DEPTH
    ensures Answer(ReadValue(RenderThen(c, rest), depth), Fits(Nesting(c), depth), NumbersFit(c), Meaning(c), rest)
    decreases c, 0
  {
    var inner := RenderItemsThen(c.items, rest);
    Skipped([OPEN_BRACKET], c.space + inner);
    assert RenderThen(c, rest)[1..] == c.space + inner;
    if c.items == [] {
      assert ItemNumbersFit(c.items);
      SpaceSkipped(c.space, inner);
      Skipped([CLOSE_BRACKET], rest);
    } else {
      var item := c.items[0];
      var value := RenderThen(item.value, item.after + MoreItemsThen(c.items[1..], rest));
      FirstUnit(item.value, item.after + MoreItemsThen(c.items[1..], rest));
      assert [] + inner == inner;
      SpaceSkipped(item.before, value);
      assert SkipSpace(inner) == value;
      assert SkipSpace(value) == value;
      ItemsReadBack(c.items, value, depth, [], rest);
      assert [] + ItemMeanings(c.items) == ItemMeanings(c.items);
    }
  }

  /** The array loop, started before or after the space in front of the first item. */
  lemma {:induction false} ItemsReadBack(items: seq<ItemSyntax>, s: Text, depth: nat, acc: seq<Json>, rest: Text)
    requires items != [] && ValidItems(items) && depth <= MAX_DEPTH
    requires SkipSpace(s) == RenderThen(items[0].value, items[0].after + MoreItemsThen(items[1..], rest))
    ensures Answer(ReadItems(s, depth, acc), Fits(NestingOfItems(items), depth), ItemNumbersFit(items),
                   Array(acc + ItemMeanings(items)), rest)
    decreases items
  {
    var item, value := items[0], Meaning(items[0].value);
    var more := MoreItemsThen(items[1..], rest);
    AfterStops(item.after, more);
    SyntaxReadsBack(item.value, depth + 1, item.after + more);
    SpaceSkipped(item.after, more);
    if items[1..] == [] {
      assert ItemNumbersFit(items[1..]);
      Skipped([CLOSE_BRACKET], rest);
      assert ItemMeanings(items) == [value];
    } else {
      var next := items[1];
      var text := RenderThen(next.value, next.after + MoreItemsThen(items[2..], rest));
      assert items[1..][0] == next && items[1..][1..] == items[2..];
      Skipped([COMMA], next.before + text);
      FirstUnit(next.value, next.after + MoreItemsThen(items[2..], rest));
      SpaceSkipped(next.before, text);
      ItemsReadBack(items[1..], next.before + text, depth, acc + [value], rest);
      Shift(acc, value, ItemMeanings(items[1..]));
    }
  }

  /** Space and punctuation end a number token. */
  lemma AfterStops(space: Text, more: Text)
    requires AllSpace(space) && more != [] && Stops(more)
    ensures Stops(space + more)
  {
  }

  lemma ObjectReadsBack(c: Syntax, depth: nat, rest: Text)
    requires c.ObjectSyntax? && ValidSyntax(c) && depth <= MAX_DEPTH
    ensures Answer(ReadValue(RenderThen(c, rest), depth), Fits(Nesting(c), depth), NumbersFit(c), Meaning(c), rest)
    decreases c, 0
  {
    var inner := RenderMembersThen(c.members, rest);
    Skipped([OPEN_BRACE], c.space + inner);
    assert RenderThen(c, rest)[1..] == c.space + inner;
    if c.members == [] {
      assert MemberNumbersFit(c.members);
      SpaceSkipped(c.space, inner);
      Skipped([CLOSE_BRACE], rest);
      assert NestingOfMembers(c.members) == 0 && PutMeanings([], c.members) == [];
    } else {
      assert [] + inner == inner;
      var key := KeyThen(c.members[0], MoreMembersThen(c.members[1..], rest));
      assert inner == c.members[0].before + key;
      SpaceSkipped(c.members[0].before, key);
      assert SkipSpace(inner) == key;
      assert SkipSpace(key) == key;
      MembersReadBack(c.members, key, depth, [], rest);
    }
  }

  lemma MemberReadsBack(m: MemberSyntax, s: Text, depth: nat, more: Text)
    requires ValidFrame(m) && ValidSyntax(m.value) && depth <= MAX_DEPTH && more != [] && Stops(more)
    requires SkipSpace(s) == KeyThen(m, more)
    ensures Answer(ReadMember(s, depth), Fits(1 + Nesting(m.value), depth), NumbersFit(m.value),
                   JsonValues.Member(PiecesText(m.key), Meaning(m.value)), m.after + more)
    decreases m
  {
    var value := RenderThen(m.value, m.after + more);
    StringTokenReadsBack(m.key, m.afterKey + ([COLON] + (m.beforeValue + value)));
    SpaceSkipped(m.afterKey, [COLON] + (m.beforeValue + value));
    Skipped([COLON], m.beforeValue + value);
    FirstUnit(m.value, m.after + more);
    SpaceSkipped(m.beforeValue, value);
    AfterStops(m.after, more);
    SyntaxReadsBack(m.value, depth + 1, m.after + more);
  }

  lemma {:induction false} MembersReadBack(members: seq<MemberSyntax>, s: Text, depth: nat,
                                           acc: seq<JsonValues.Member>, rest: Text)
    requires members != [] && ValidMembers(members) && depth <= MAX_DEPTH
    requires SkipSpace(s) == KeyThen(members[0], MoreMembersThen(members[1..], rest))
    ensures Answer(ReadMembers(s, depth, acc), Fits(NestingOfMembers(members), depth), MemberNumbersFit(members),
                   Object(PutMeanings(acc, members)), rest)
    decreases members
  {
    var m, more := members[0], MoreMembersThen(members[1..], rest);
    MemberReadsBack(m, s, depth, more);
    SpaceSkipped(m.after, more);
    if members[1..] == [] {
      assert MemberNumbersFit(members[1..]);
      Skipped([CLOSE_BRACE], rest);
    } else {
      var next := members[1];
      assert members[1..][0] == next && members[1..][1..] == members[2..];
      var key := KeyThen(next, MoreMembersThen(members[2..], rest));
      Skipped([COMMA], next.before + key);
      SpaceSkipped(next.before, key);
      MembersReadBack(members[1..], next.before + key, depth,
                      Put(acc, PiecesText(m.key), Meaning(m.value)), rest);
    }
  }

  // --- Every text the parser accepts has a tree ----------------------------------------------------------------

  /** The space that SkipSpace drops. */
  lemma {:induction false} SpaceBefore(s: Text) returns (space: Text)
    ensures AllSpace(space) && s == space + SkipSpace(s)
  {
    if s != [] && IsSpace(s[0]) {
      var tail := SpaceBefore(s[1..]);
      space := [s[0]] + tail;
      assert s == [s[0]] + s[1..];
    } else {
      space := [];
    }
  }

  lemma EscapeHasPiece(s: Text) returns (p: Piece)
    requires ReadEscape(s).Good?
    ensures ValidPiece(p) && PieceUnit(p) == ReadEscape(s).value
    ensures [BACKSLASH] + s == PieceText(p) + ReadEscape(s).rest
  {
    SimpleEscapes(s[0]);
    if s[0] in ESCAPES {
      p := Simple(s[0]);
    } else {
      p := Hex(s[1..5]);
      HexUnitIsRead(s[1..5]);
      HexPieceText(s);
    }
  }

  lemma HexPieceText(s: Text)
    requires |s| >= 5 && s[0] == 0x75
    ensures [BACKSLASH] + s == PieceText(Hex(s[1..5])) + s[5..]
  {
    assert s == [0x75] + (s[1..5] + s[5..]);
  }

  lemma {:induction false} UnitsHavePieces(s: Text, acc: Text) returns (pieces: seq<Piece>)
    requires ReadUnits(s, acc).Good?
    ensures ValidPieces(pieces) && ReadUnits(s, acc).value == acc + PiecesText(pieces)
    ensures s == PiecesThen(pieces, ReadUnits(s, acc).rest)
    decreases |s|
  {
    assert s == [s[0]] + s[1..];
    if s[0] == QUOTE {
      pieces := [];
      assert acc + [] == acc;
    } else {
      var p, u, after := Plain(s[0]), s[0], s[1..];
      if s[0] == BACKSLASH {
        p := EscapeHasPiece(s[1..]);
        u, after := PieceUnit(p), ReadEscape(s[1..]).rest;
      }
      var tail := UnitsHavePieces(after, acc + [u]);
      pieces := [p] + tail;
      Shift(acc, u, PiecesText(tail));
      assert pieces[0] == p && pieces[1..] == tail;
    }
  }

  lemma LiteralIsPrefix(s: Text, word: Text, value: Json)
    requires ReadLiteral(s, word, value).Good?
    ensures s == word + ReadLiteral(s, word, value).rest
  {
  }

  lemma StringHasPieces(s: Text) returns (pieces: seq<Piece>)
    requires StartsWith(s, QUOTE) && ReadUnits(s[1..], []).Good?
    ensures ValidPieces(pieces) && ReadUnits(s[1..], []).value == PiecesText(pieces)
    ensures s == [QUOTE] + PiecesThen(pieces, ReadUnits(s[1..], []).rest)
  {
    pieces := UnitsHavePieces(s[1..], []);
    assert [] + PiecesText(pieces) == PiecesText(pieces);
    assert s == [QUOTE] + s[1..];
  }

  lemma ValueHasSyntax(s: Text, depth: nat) returns (c: Syntax)
    requires ReadValue(s, depth).Good?
    ensures ValidSyntax(c) && Meaning(c) == ReadValue(s, depth).value && Fits(Nesting(c), depth) && NumbersFit(c)
    ensures s == RenderThen(c, ReadValue(s, depth).rest)
    decreases |s|, 1
  {
    if s[0] == OPEN_BRACE {
      c := ObjectHasSyntax(s, depth);
    } else if s[0] == OPEN_BRACKET {
      c := ArrayHasSyntax(s, depth);
    } else if s[0] == QUOTE {
      var pieces := StringHasPieces(s);
      c := StringToken(pieces);
    } else if s[0] == TRUE_TEXT[0] {
      LiteralIsPrefix(s, TRUE_TEXT, Bool(true));
      c := BoolWord(true);
    } else if s[0] == FALSE_TEXT[0] {
      LiteralIsPrefix(s, FALSE_TEXT, Bool(false));
      c := BoolWord(false);
    } else if s[0] == NULL_TEXT[0] {
      LiteralIsPrefix(s, NULL_TEXT, Null);
      c := NullWord;
    } else {
      ReadNumberIsToken(s);
      c := NumberToken(ReadNumber(s).value);
    }
  }

  lemma ObjectHasSyntax(s: Text, depth: nat) returns (c: Syntax)
    requires ReadValue(s, depth).Good? && s[0] == OPEN_BRACE
    ensures ValidSyntax(c) && Meaning(c) == ReadValue(s, depth).value && Fits(Nesting(c), depth) && NumbersFit(c)
    ensures s == RenderThen(c, ReadValue(s, depth).rest)
    decreases |s|, 0
  {
    var rest, t := ReadValue(s, depth).rest, SkipSpace(s[1..]);
    var space := SpaceBefore(s[1..]);
    assert s == [s[0]] + s[1..];
    if StartsWith(t, CLOSE_BRACE) {
      c := ObjectSyntax(space, []);
      assert t == [CLOSE_BRACE] + rest;
    } else {
      var members := MembersHaveSyntax(t, space, depth, []);
      c := ObjectSyntax([], members);
      assert [] + RenderMembersThen(members, rest) == RenderMembersThen(members, rest);
    }
  }

  lemma ArrayHasSyntax(s: Text, depth: nat) returns (c: Syntax)
    requires ReadValue(s, depth).Good? && s[0] == OPEN_BRACKET
    ensures ValidSyntax(c) && Meaning(c) == ReadValue(s, depth).value && Fits(Nesting(c), depth) && NumbersFit(c)
    ensures s == RenderThen(c, ReadValue(s, depth).rest)
    decreases |s|, 0
  {
    var rest, t := ReadValue(s, depth).rest, SkipSpace(s[1..]);
    var space := SpaceBefore(s[1..]);
    assert s == [s[0]] + s[1..];
    if StartsWith(t, CLOSE_BRACKET) {
      c := ArraySyntax(space, []);
      assert t == [CLOSE_BRACKET] + rest;
    } else {
      var items := ItemsHaveSyntax(t, space, depth, []);
      c := ArraySyntax([], items);
      assert [] + RenderItemsThen(items, rest) == RenderItemsThen(items, rest);
      assert [] + ItemMeanings(items) == ItemMeanings(items);
    }
  }

  lemma SpaceJoins(a: Text, b: Text, rest: Text)
    requires AllSpace(a) && AllSpace(b)
    ensures AllSpace(a + b) && a + (b + rest) == (a + b) + rest
  {
  }

  /** The items from one turn of the loop on; space is what was skipped before the loop saw the text. */
  lemma {:induction false} ItemsHaveSyntax(s: Text, space: Text, depth: nat, acc: seq<Json>)
    returns (items: seq<ItemSyntax>)
    requires depth <= MAX_DEPTH && AllSpace(space) && ReadItems(s, depth, acc).Good?
    ensures items != [] && ValidItems(items) && Fits(NestingOfItems(items), depth) && ItemNumbersFit(items)
    ensures ReadItems(s, depth, acc).value == Array(acc + ItemMeanings(items))
    ensures space + s == RenderItemsThen(items, ReadItems(s, depth, acc).rest)
    decreases |s|, 2
  {
    var v := SkipSpace(s);
    var before := SpaceBefore(s);
    SpaceJoins(space, before, v);
    var r := ReadValue(v, depth + 1);
    var c := ValueHasSyntax(v, depth + 1);
    var t := SkipSpace(r.rest);
    var after := SpaceBefore(r.rest);
    var item := ItemSyntax(space + before, c, after);
    var rest := ReadItems(s, depth, acc).rest;
    assert t == [t[0]] + t[1..];
    if StartsWith(t, COMMA) {
      var tail := ItemsHaveSyntax(t[1..], [], depth, acc + [r.value]);
      assert [] + t[1..] == t[1..];
      items := [item] + tail;
      assert items[0] == item && items[1..] == tail;
      Shift(acc, r.value, ItemMeanings(tail));
    } else {
      items := [item];
      assert items[1..] == [];
      assert ItemMeanings(items) == [r.value];
    }
  }

  lemma MemberHasSyntax(s: Text, space: Text, depth: nat) returns (m: MemberSyntax)
    requires depth <= MAX_DEPTH && AllSpace(space) && ReadMember(s, depth).Good?
    ensures ValidFrame(m) && ValidSyntax(m.value) && m.after == [] && Fits(1 + Nesting(m.value), depth)
    ensures NumbersFit(m.value)
    ensures ReadMember(s, depth).value == JsonValues.Member(PiecesText(m.key), Meaning(m.value))
    ensures space + s == m.before + KeyThen(m, ReadMember(s, depth).rest)
    decreases |s|, 1
  {
    var k := SkipSpace(s);
    var before := SpaceBefore(s);
    SpaceJoins(space, before, k);
    var key := StringHasPieces(k);
    var afterKey, beforeValue, v := ColonHasSpace(ReadUnits(k[1..], []).rest);
    var c := ValueHasSyntax(v, depth + 1);
    var rest := ReadMember(s, depth).rest;
    assert [] + rest == rest;
    m := MemberSyntax(space + before, key, afterKey, beforeValue, c, []);
  }

  /** The colon between a key and its value, with the space around it. */
  lemma ColonHasSpace(s: Text) returns (afterKey: Text, beforeValue: Text, value: Text)
    requires StartsWith(SkipSpace(s), COLON)
    ensures AllSpace(afterKey) && AllSpace(beforeValue) && value == SkipSpace(SkipSpace(s)[1..])
    ensures s == afterKey + ([COLON] + (beforeValue + value))
  {
    var colon := SkipSpace(s);
    afterKey := SpaceBefore(s);
    beforeValue := SpaceBefore(colon[1..]);
    value := SkipSpace(colon[1..]);
    assert colon == [COLON] + colon[1..];
  }

  /** A member in front of the ones that follow it. */
  lemma ConsMember(m: MemberSyntax, tail: seq<MemberSyntax>, depth: nat, acc: seq<JsonValues.Member>, rest: Text)
    requires ValidFrame(m) && ValidSyntax(m.value) && Fits(1 + Nesting(m.value), depth) && NumbersFit(m.value)
    requires ValidMembers(tail) && (tail != [] ==> Fits(NestingOfMembers(tail), depth)) && MemberNumbersFit(tail)
    ensures var members := [m] + tail;
      && ValidMembers(members) && Fits(NestingOfMembers(members), depth) && MemberNumbersFit(members)
      && PutMeanings(acc, members) == PutMeanings(Put(acc, PiecesText(m.key), Meaning(m.value)), tail)
      && RenderMembersThen(members, rest) == m.before + KeyThen(m, MoreMembersThen(tail, rest))
  {
    var members := [m] + tail;
    assert members[0] == m && members[1..] == tail;
  }

  lemma {:induction false} MembersHaveSyntax(s: Text, space: Text, depth: nat, acc: seq<JsonValues.Member>)
    returns (members: seq<MemberSyntax>)
    requires depth <= MAX_DEPTH && AllSpace(space) && ReadMembers(s, depth, acc).Good?
    ensures members != [] && ValidMembers(members) && Fits(NestingOfMembers(members), depth) && MemberNumbersFit(members)
    ensures ReadMembers(s, depth, acc).value == Object(PutMeanings(acc, members))
    ensures space + s == RenderMembersThen(members, ReadMembers(s, depth, acc).rest)
    decreases |s|, 2
  {
    var r := ReadMember(s, depth);
    var bare := MemberHasSyntax(s, space, depth);
    var t := SkipSpace(r.rest);
    var after := SpaceBefore(r.rest);
    var m := bare.(after := after);
    KeyThenAfter(bare, after, t);
    assert t == [t[0]] + t[1..];
    var tail: seq<MemberSyntax> := [];
    if StartsWith(t, COMMA) {
      tail := MembersHaveSyntax(t[1..], [], depth, Put(acc, r.value.key, r.value.value));
      assert [] + t[1..] == t[1..];
    }
    members := [m] + tail;
    ConsMember(m, tail, depth, acc, ReadMembers(s, depth, acc).rest);
  }

  lemma KeyThenAfter(m: MemberSyntax, after: Text, t: Text)
    requires m.after == []
    ensures KeyThen(m, after + t) == KeyThen(m.(after := after), t)
  {
    assert [] + (after + t) == after + t;
  }

  // --- The theorem ---------------------------------------------------------------------------------------------

  /** text is the tree's text between optional spaces. */
  ghost predicate IsTextOf(text: Text, c: Syntax) {
    exists before, after :: AllSpace(before) && AllSpace(after) && text == before + RenderThen(c, after)
  }

  /** The tree is within the parser's bounds. */
  predicate Within(c: Syntax) {
    Nesting(c) <= 512 && NumbersFit(c)
  }

  lemma SpaceStops(space: Text)
    requires AllSpace(space)
    ensures Stops(space) && SkipSpace(space) == []
  {
  }

  /** Every text of a valid tree parses to the tree's meaning, or is refused for its nesting or for a number. */
  lemma TextOfSyntaxParses(text: Text, c: Syntax)
    requires ValidSyntax(c) && IsTextOf(text, c)
    ensures if Within(c) then Parse(text) == Ok(Meaning(c))
            else Parse(text).Err? && Refuses(Parse(text).error.reason, Nesting(c) <= 512, NumbersFit(c))
  {
    var before, after :| AllSpace(before) && AllSpace(after) && text == before + RenderThen(c, after);
    FirstUnit(c, after);
    SpaceSkipped(before, RenderThen(c, after));
    SpaceStops(after);
    SyntaxReadsBack(c, 0, after);
  }

  lemma ParsedTextHasSyntax(text: Text) returns (c: Syntax)
    requires Parse(text).Ok?
    ensures ValidSyntax(c) && Within(c) && Meaning(c) == Parse(text).value && IsTextOf(text, c)
  {
    var s := SkipSpace(text);
    var before := SpaceBefore(text);
    c := ValueHasSyntax(s, 0);
    var rest := ReadValue(s, 0).rest;
    var after := SpaceBefore(rest);
    assert after == rest;
  }

  /** The parser accepts a text with a value exactly when a valid tree of that text has that meaning. */
  lemma ParserAcceptsGrammar(text: Text, v: Json)
    ensures Parse(text) == Ok(v) <==>
            exists c :: ValidSyntax(c) && Within(c) && IsTextOf(text, c) && Meaning(c) == v
  {
    if Parse(text) == Ok(v) {
      var c := ParsedTextHasSyntax(text);
      assert ValidSyntax(c) && IsTextOf(text, c);
    }
    if c :| ValidSyntax(c) && Within(c) && IsTextOf(text, c) && Meaning(c) == v {
      TextOfSyntaxParses(text, c);
    }
  }
}
