/**
 JSON values as the Java SDK holds them, and their serialization (Json.write).

 Objects keep insertion order like LinkedHashMap. A number is either an exact decimal, printed the way BigDecimal and
 the integer types print, or the token a Double prints.
 */
module JsonValues {
  import opened Results
  import opened Utf16
  import opened Decimals
  import opened JsonNumbers

  datatype Number = Exact(value: Decimal) | Floating(token: NumberParts)

  datatype Member = Member(key: Text, value: Json)

  datatype Json =
    | Null
    | Bool(b: bool)
    | Number(n: Number)
    | String(text: Text)
    | Array(items: seq<Json>)
    | Object(members: seq<Member>)

  const QUOTE: Unit := 0x22
  const BACKSLASH: Unit := 0x5C
  const COMMA: Unit := 0x2C
  const COLON: Unit := 0x3A
  const OPEN_BRACKET: Unit := 0x5B
  const CLOSE_BRACKET: Unit := 0x5D
  const OPEN_BRACE: Unit := 0x7B
  const CLOSE_BRACE: Unit := 0x7D
  const NULL_TEXT: Text := [0x6E, 0x75, 0x6C, 0x6C]
  const TRUE_TEXT: Text := [0x74, 0x72, 0x75, 0x65]
  const FALSE_TEXT: Text := [0x66, 0x61, 0x6C, 0x73, 0x65]

  /** ASCII characters as units. */
  function Ascii(s: string): (r: Text)
    requires forall i :: 0 <= i < |s| ==> s[i] < '\U{0080}'
    ensures |r| == |s|
  {
    seq(|s|, i requires 0 <= i < |s| => s[i] as int)
  }

  /** The words and the punctuation of sections 2, 3 and 7 of RFC 8259. */
  lemma WordsAndPunctuation()
    ensures NULL_TEXT == Ascii("null") && TRUE_TEXT == Ascii("true") && FALSE_TEXT == Ascii("false")
    ensures [OPEN_BRACKET, CLOSE_BRACKET, OPEN_BRACE, CLOSE_BRACE, COMMA, COLON, QUOTE, BACKSLASH]
         == Ascii("[]{},:\"\\")
    ensures [MINUS, PLUS, DOT, UPPER_E, LOWER_E, ZERO] == Ascii("-+.Ee0")
  {
  }

  // --- Insertion-ordered maps ----------------------------------------------------------------------------------

  predicate HasKey(members: seq<Member>, key: Text) {
    exists i :: 0 <= i < |members| && members[i].key == key
  }

  predicate DistinctKeys(members: seq<Member>) {
    forall i, j :: 0 <= i < j < |members| ==> members[i].key != members[j].key
  }

  /** LinkedHashMap.put: a key that is present keeps its place and takes the new value, a new key goes last. */
  function Put(members: seq<Member>, key: Text, value: Json): seq<Member> {
    if members == [] then [Member(key, value)]
    else if members[0].key == key then [Member(key, value)] + members[1..]
    else [members[0]] + Put(members[1..], key, value)
  }

  lemma {:induction false} PutKeepsKeysDistinct(members: seq<Member>, key: Text, value: Json)
    requires DistinctKeys(members)
    ensures DistinctKeys(Put(members, key, value))
    ensures forall k :: HasKey(Put(members, key, value), k) <==> k == key || HasKey(members, k)
  {
    var r := Put(members, key, value);
    if members == [] {
      assert r[0].key == key;
    } else if members[0].key == key {
      assert forall i :: 0 <= i < |r| ==> r[i].key == members[i].key;
    } else {
      var tail := Put(members[1..], key, value);
      PutKeepsKeysDistinct(members[1..], key, value);
      assert forall i :: 0 <= i < |tail| ==> HasKey(tail, tail[i].key);
      forall k
        ensures HasKey(r, k) <==> k == key || HasKey(members, k)
      {
        FirstOrRest(r, k);
        FirstOrRest(members, k);
      }
      if HasKey(members[1..], members[0].key) {
        assert false;
      }
    }
  }

  lemma FirstOrRest(members: seq<Member>, key: Text)
    requires members != []
    ensures HasKey(members, key) <==> members[0].key == key || HasKey(members[1..], key)
  {
  }

  lemma {:induction false} PutNewKey(members: seq<Member>, key: Text, value: Json)
    requires !HasKey(members, key)
    ensures Put(members, key, value) == members + [Member(key, value)]
  {
    if members != [] {
      FirstOrRest(members, key);
      PutNewKey(members[1..], key, value);
      assert [members[0]] + (members[1..] + [Member(key, value)]) == members + [Member(key, value)];
    }
  }

  /** What a map holds under a key. */
  function Find(members: seq<Member>, key: Text): (r: Option<Json>)
    ensures match r case Some(value) => Member(key, value) in members case None => !HasKey(members, key)
  {
    if members == [] then None
    else if members[0].key == key then
      assert members[0] == Member(key, members[0].value);
      Some(members[0].value)
    else
      FirstOrRest(members, key);
      Find(members[1..], key)
  }

  function Keys(members: seq<Member>): seq<Text> {
    seq(|members|, i requires 0 <= i < |members| => members[i].key)
  }

  /** put stores the value under its key and leaves every other key its own. */
  lemma {:induction false} PutStores(members: seq<Member>, key: Text, value: Json, k: Text)
    ensures Find(Put(members, key, value), k) == if k == key then Some(value) else Find(members, k)
  {
    if members != [] && members[0].key != key {
      PutStores(members[1..], key, value, k);
      assert Put(members, key, value)[1..] == Put(members[1..], key, value);
    } else if members != [] {
      assert Put(members, key, value)[1..] == members[1..];
    } else {
      assert Put(members, key, value)[1..] == [];
    }
  }

  /** A key that is present keeps its place; a new one goes last. */
  lemma {:induction false} PutKeepsPlaces(members: seq<Member>, key: Text, value: Json)
    ensures Keys(Put(members, key, value)) == Keys(members) + (if HasKey(members, key) then [] else [key])
  {
    if members != [] {
      FirstOrRest(members, key);
      if members[0].key != key {
        PutKeepsPlaces(members[1..], key, value);
        assert Keys(members) == [members[0].key] + Keys(members[1..]);
        assert Keys(Put(members, key, value)) == [members[0].key] + Keys(Put(members[1..], key, value));
      }
    }
  }

  // --- Shape ---------------------------------------------------------------------------------------------------

  function Max(a: nat, b: nat): nat {
    if a < b then b else a
  }

  /** How many containers enclose the most deeply nested value. */
  function Depth(v: Json): nat {
    match v
    case Array(items) => DepthOfItems(items)
    case Object(members) => DepthOfMembers(members)
    case _ => 0
  }

  function DepthOfItems(items: seq<Json>): nat {
    if items == [] then 0 else Max(1 + Depth(items[0]), DepthOfItems(items[1..]))
  }

  function DepthOfMembers(members: seq<Member>): nat {
    if members == [] then 0 else Max(1 + Depth(members[0].value), DepthOfMembers(members[1..]))
  }

  /** The token a number prints. */
  function PartsOf(n: Number): NumberParts {
    match n
    case Exact(value) => PrintParts(value)
    case Floating(token) => token
  }

  /** A BigDecimal, or the token of a Double. */
  predicate WritableNumber(n: Number) {
    match n
    case Exact(value) => ScaleFits(value)
    case Floating(token) => ValidParts(token) && TokenFits(token)
  }

  /** What the normalized values given to the writer satisfy: maps have distinct keys and numbers print as tokens. */
  predicate Writable(v: Json) {
    match v
    case Number(n) => WritableNumber(n)
    case Array(items) => WritableItems(items)
    case Object(members) => DistinctKeys(members) && WritableMembers(members)
    case _ => true
  }

  predicate WritableItems(items: seq<Json>) {
    items == [] || (Writable(items[0]) && WritableItems(items[1..]))
  }

  predicate WritableMembers(members: seq<Member>) {
    members == [] || (Writable(members[0].value) && WritableMembers(members[1..]))
  }

  /** Every number in the value prints as a token that can be read again. */
  predicate Rereadable(v: Json) {
    match v
    case Number(n) => n.Exact? ==> PrintFits(n.value)
    case Array(items) => RereadableItems(items)
    case Object(members) => RereadableMembers(members)
    case _ => true
  }

  predicate RereadableItems(items: seq<Json>) {
    items == [] || (Rereadable(items[0]) && RereadableItems(items[1..]))
  }

  predicate RereadableMembers(members: seq<Member>) {
    members == [] || (Rereadable(members[0].value) && RereadableMembers(members[1..]))
  }

  /** The value holds the zero whose exponent prints beyond 32 bits. */
  predicate HasLowestZero(v: Json) {
    match v
    case Number(n) => n == Exact(LOWEST_ZERO)
    case Array(items) => ItemsHaveLowestZero(items)
    case Object(members) => MembersHaveLowestZero(members)
    case _ => false
  }

  predicate ItemsHaveLowestZero(items: seq<Json>) {
    items != [] && (HasLowestZero(items[0]) || ItemsHaveLowestZero(items[1..]))
  }

  predicate MembersHaveLowestZero(members: seq<Member>) {
    members != [] && (HasLowestZero(members[0].value) || MembersHaveLowestZero(members[1..]))
  }

  /** The value a reader that holds every number as a decimal gets for v. */
  function Canonical(v: Json): Json
    requires Writable(v)
  {
    match v
    case Number(n) => Json.Number(Exact(PartsValue(PartsOf(n))))
    case Array(items) => Array(CanonicalItems(items))
    case Object(members) => Object(CanonicalMembers(members))
    case _ => v
  }

  function CanonicalItems(items: seq<Json>): (r: seq<Json>)
    requires WritableItems(items)
    ensures |r| == |items|
  {
    if items == [] then [] else [Canonical(items[0])] + CanonicalItems(items[1..])
  }

  function CanonicalMembers(members: seq<Member>): (r: seq<Member>)
    requires WritableMembers(members)
    ensures |r| == |members| && forall i :: 0 <= i < |members| ==> r[i].key == members[i].key
  {
    if members == [] then []
    else [Member(members[0].key, Canonical(members[0].value))] + CanonicalMembers(members[1..])
  }

  // --- Serialization -------------------------------------------------------------------------------------------
  // As for number tokens, every text is built in front of the text that follows it.

  function HexDigit(n: nat): Unit
    requires n < 16
  {
    if n < 10 then 0x30 + n else 0x61 + (n - 10)
  }

  function EscapeText(u: Unit): Text {
    if u == QUOTE then [BACKSLASH, QUOTE]
    else if u == BACKSLASH then [BACKSLASH, BACKSLASH]
    else if u == 0x0A then [BACKSLASH, 0x6E]
    else if u == 0x0D then [BACKSLASH, 0x72]
    else if u == 0x09 then [BACKSLASH, 0x74]
    else if u == 0x08 then [BACKSLASH, 0x62]
    else if u == 0x0C then [BACKSLASH, 0x66]
    else if u < 0x20 then [BACKSLASH, 0x75, 0x30, 0x30, HexDigit(u / 16), HexDigit(u % 16)]
    else [u]
  }

  function EscapeThen(text: Text, rest: Text): Text {
    if text == [] then rest else EscapeText(text[0]) + EscapeThen(text[1..], rest)
  }

  function StringThen(text: Text, rest: Text): Text {
    [QUOTE] + EscapeThen(text, [QUOTE] + rest)
  }

  function WriteThen(v: Json, rest: Text): Text {
    match v
    case Null => NULL_TEXT + rest
    case Bool(b) => (if b then TRUE_TEXT else FALSE_TEXT) + rest
    case Number(n) => NumberThen(PartsOf(n), rest)
    case String(text) => StringThen(text, rest)
    case Array(items) => [OPEN_BRACKET] + ItemsThen(items, true, rest)
    case Object(members) => [OPEN_BRACE] + MembersThen(members, true, rest)
  }

  /** The items still to write, each but the very first after a comma, and the closing bracket. */
  function ItemsThen(items: seq<Json>, first: bool, rest: Text): Text {
    if items == [] then [CLOSE_BRACKET] + rest
    else if first then WriteThen(items[0], ItemsThen(items[1..], false, rest))
    else [COMMA] + WriteThen(items[0], ItemsThen(items[1..], false, rest))
  }

  function MemberThen(member: Member, rest: Text): Text {
    StringThen(member.key, [COLON] + WriteThen(member.value, rest))
  }

  function MembersThen(members: seq<Member>, first: bool, rest: Text): Text {
    if members == [] then [CLOSE_BRACE] + rest
    else if first then MemberThen(members[0], MembersThen(members[1..], false, rest))
    else [COMMA] + MemberThen(members[0], MembersThen(members[1..], false, rest))
  }

  function Write(v: Json): Text {
    WriteThen(v, [])
  }

  lemma {:induction false} EscapeAppends(text: Text, a: Text, b: Text)
    ensures EscapeThen(text, a + b) == EscapeThen(text, a) + b
  {
    if text != [] {
      EscapeAppends(text[1..], a, b);
      PrefixAppends(EscapeText(text[0]), EscapeThen(text[1..], a), b);
    }
  }

  lemma StringAppends(text: Text, a: Text, b: Text)
    ensures StringThen(text, a + b) == StringThen(text, a) + b
  {
    assert [QUOTE] + (a + b) == ([QUOTE] + a) + b;
    EscapeAppends(text, [QUOTE] + a, b);
    assert [QUOTE] + (EscapeThen(text, [QUOTE] + a) + b) == ([QUOTE] + EscapeThen(text, [QUOTE] + a)) + b;
  }

  lemma NumberAppends(p: NumberParts, a: Text, b: Text)
    ensures NumberThen(p, a + b) == NumberThen(p, a) + b
  {
  }

  /** Writing in front of a + b is writing in front of a and then appending b. */
  lemma WriteAppends(v: Json, a: Text, b: Text)
    ensures WriteThen(v, a + b) == WriteThen(v, a) + b
  {
    match v
    case Null => PrefixAppends(NULL_TEXT, a, b);
    case Bool(value) => PrefixAppends(if value then TRUE_TEXT else FALSE_TEXT, a, b);
    case Number(n) => NumberAppends(PartsOf(n), a, b);
    case String(text) => StringAppends(text, a, b);
    case Array(items) =>
      ItemsAppend(items, true, a, b);
      PrefixAppends([OPEN_BRACKET], ItemsThen(items, true, a), b);
    case Object(members) =>
      MembersAppend(members, true, a, b);
      PrefixAppends([OPEN_BRACE], MembersThen(members, true, a), b);
  }

  lemma PrefixAppends(prefix: Text, a: Text, b: Text)
    ensures prefix + (a + b) == (prefix + a) + b
  {
  }

  lemma {:induction false} ItemsAppend(items: seq<Json>, first: bool, a: Text, b: Text)
    ensures ItemsThen(items, first, a + b) == ItemsThen(items, first, a) + b
  {
    if items == [] {
      PrefixAppends([CLOSE_BRACKET], a, b);
    } else {
      var more := ItemsThen(items[1..], false, a);
      ItemsAppend(items[1..], false, a, b);
      WriteAppends(items[0], more, b);
      PrefixAppends([COMMA], WriteThen(items[0], more), b);
    }
  }

  lemma {:induction false} MembersAppend(members: seq<Member>, first: bool, a: Text, b: Text)
    ensures MembersThen(members, first, a + b) == MembersThen(members, first, a) + b
  {
    if members == [] {
      PrefixAppends([CLOSE_BRACE], a, b);
    } else {
      var more := MembersThen(members[1..], false, a);
      MembersAppend(members[1..], false, a, b);
      MemberAppends(members[0], more, b);
      PrefixAppends([COMMA], MemberThen(members[0], more), b);
    }
  }

  lemma MemberAppends(member: Member, a: Text, b: Text)
    ensures MemberThen(member, a + b) == MemberThen(member, a) + b
  {
    WriteAppends(member.value, a, b);
    PrefixAppends([COLON], WriteThen(member.value, a), b);
    StringAppends(member.key, [COLON] + WriteThen(member.value, a), b);
  }
}
