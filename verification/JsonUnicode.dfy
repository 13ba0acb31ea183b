/**
 Serialization neither hides nor creates ill-formed UTF-16: the text is well formed exactly when every string in the
 value is, so converting it to UTF-8 replaces nothing.
 */
module JsonUnicode {
  import opened Utf16
  import opened JsonNumbers
  import opened JsonValues

  /** Every string and every key is valid Unicode. */
  predicate UnicodeText(v: Json) {
    match v
    case String(text) => WellFormed(text)
    case Array(items) => UnicodeItems(items)
    case Object(members) => UnicodeMembers(members)
    case _ => true
  }

  predicate UnicodeItems(items: seq<Json>) {
    items == [] || (UnicodeText(items[0]) && UnicodeItems(items[1..]))
  }

  predicate UnicodeMembers(members: seq<Member>) {
    members == [] ||
    (WellFormed(members[0].key) && UnicodeText(members[0].value) && UnicodeMembers(members[1..]))
  }

  predicate NoSurrogates(s: Text) {
    forall i :: 0 <= i < |s| ==> !IsSurrogate(s[i])
  }

  lemma {:induction false} PlainPrefix(prefix: Text, rest: Text)
    requires NoSurrogates(prefix)
    ensures WellFormed(prefix + rest) <==> WellFormed(rest)
  {
    if prefix == [] {
      assert prefix + rest == rest;
    } else {
      assert (prefix + rest)[1..] == prefix[1..] + rest;
      PlainPrefix(prefix[1..], rest);
    }
  }

  lemma {:induction false} EscapedWellFormed(text: Text, rest: Text)
    ensures WellFormed(EscapeThen(text, [QUOTE] + rest)) <==> WellFormed(text) && WellFormed(rest)
  {
    if text == [] {
      PlainPrefix([QUOTE], rest);
    } else if !IsSurrogate(text[0]) {
      EscapedWellFormed(text[1..], rest);
      PlainPrefix(EscapeText(text[0]), EscapeThen(text[1..], [QUOTE] + rest));
    } else {
      var more := EscapeThen(text[1..], [QUOTE] + rest);
      assert EscapeThen(text, [QUOTE] + rest) == [text[0]] + more && ([text[0]] + more)[1..] == more;
      if IsHighSurrogate(text[0]) {
        EscapeKeepsSurrogate(text[1..], rest);
        if |text| > 1 && IsLowSurrogate(text[1]) {
          EscapedWellFormed(text[2..], rest);
          assert text[1..][1..] == text[2..];
          assert ([text[0]] + more)[2..] == more[1..];
        }
      }
    }
  }

  /** The next escaped unit is a low surrogate exactly when the next unit is, and then it is written as it stands. */
  lemma EscapeKeepsSurrogate(text: Text, rest: Text)
    ensures var more := EscapeThen(text, [QUOTE] + rest);
      && more != []
      && (IsLowSurrogate(more[0]) <==> text != [] && IsLowSurrogate(text[0]))
      && (IsLowSurrogate(more[0]) ==> more[0] == text[0] && more[1..] == EscapeThen(text[1..], [QUOTE] + rest))
  {
  }

  lemma StringWellFormed(text: Text, rest: Text)
    ensures WellFormed(StringThen(text, rest)) <==> WellFormed(text) && WellFormed(rest)
  {
    EscapedWellFormed(text, rest);
    PlainPrefix([QUOTE], EscapeThen(text, [QUOTE] + rest));
  }

  lemma NumberWellFormed(p: NumberParts, rest: Text)
    requires ValidParts(p)
    ensures WellFormed(NumberThen(p, rest)) <==> WellFormed(rest)
  {
    var e := ExponentThen(p.exponent, rest);
    var f := FractionThen(p.fraction, e);
    if p.exponent.Exponent? {
      PlainPrefix(p.exponent.digits, rest);
      PlainPrefix(p.exponent.sign, p.exponent.digits + rest);
      PlainPrefix([p.exponent.marker], p.exponent.sign + (p.exponent.digits + rest));
    }
    if p.fraction != [] {
      PlainPrefix(p.fraction, e);
      PlainPrefix([DOT], p.fraction + e);
    }
    PlainPrefix(p.whole, f);
    PlainPrefix([MINUS], p.whole + f);
  }

  lemma WrittenWellFormed(v: Json, rest: Text)
    requires Writable(v)
    ensures WellFormed(WriteThen(v, rest)) <==> UnicodeText(v) && WellFormed(rest)
  {
    match v
    case Null => PlainPrefix(NULL_TEXT, rest);
    case Bool(b) => PlainPrefix(if b then TRUE_TEXT else FALSE_TEXT, rest);
    case Number(n) => NumberWellFormed(PartsOf(n), rest);
    case String(text) => StringWellFormed(text, rest);
    case Array(items) =>
      ItemsWellFormed(items, true, rest);
      PlainPrefix([OPEN_BRACKET], ItemsThen(items, true, rest));
    case Object(members) =>
      MembersWellFormed(members, true, rest);
      PlainPrefix([OPEN_BRACE], MembersThen(members, true, rest));
  }

  lemma {:induction false} ItemsWellFormed(items: seq<Json>, first: bool, rest: Text)
    requires WritableItems(items)
    ensures WellFormed(ItemsThen(items, first, rest)) <==> UnicodeItems(items) && WellFormed(rest)
  {
    if items == [] {
      PlainPrefix([CLOSE_BRACKET], rest);
    } else {
      var more := ItemsThen(items[1..], false, rest);
      ItemsWellFormed(items[1..], false, rest);
      WrittenWellFormed(items[0], more);
      PlainPrefix([COMMA], WriteThen(items[0], more));
    }
  }

  lemma {:induction false} MembersWellFormed(members: seq<Member>, first: bool, rest: Text)
    requires WritableMembers(members)
    ensures WellFormed(MembersThen(members, first, rest)) <==> UnicodeMembers(members) && WellFormed(rest)
  {
    if members == [] {
      PlainPrefix([CLOSE_BRACE], rest);
    } else {
      var more := MembersThen(members[1..], false, rest);
      var value := WriteThen(members[0].value, more);
      MembersWellFormed(members[1..], false, rest);
      WrittenWellFormed(members[0].value, more);
      PlainPrefix([COLON], value);
      StringWellFormed(members[0].key, [COLON] + value);
      PlainPrefix([COMMA], MemberThen(members[0], more));
    }
  }

  /** The serialized text is the UTF-16 encoding of scalar values exactly when every string in the value is. */
  lemma WriteIsUnicode(v: Json)
    requires Writable(v)
    ensures (exists xs :: Encode(xs) == Write(v)) <==> UnicodeText(v)
  {
    WrittenWellFormed(v, []);
    WellFormedIffEncoding(Write(v));
  }
}
