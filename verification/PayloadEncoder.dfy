/**
 PayloadEncoder.encode: an event becomes the JSON text of a request body. Whenever it succeeds, the text is valid
 Unicode and RFC 8259 for an object with exactly the payload fields, whose properties are the unfolding of the caller's
 objects. It parses back to that object unless the properties hold one zero, which prints with too large an exponent.
 */
module PayloadEncoder {
  import opened Results
  import opened Utf16
  import opened Decimals
  import opened JsonNumbers
  import opened JsonValues
  import opened JsonReader
  import opened JsonRoundTrip
  import opened JsonUnicode
  import opened JsonParser
  import opened ObjectGraphs
  import opened GraphCopiers

  const EVENT_KEY: Text := [0x65, 0x76, 0x65, 0x6E, 0x74, 0x5F, 0x6B, 0x65, 0x79] // event_key
  const EVENT_ID: Text := [0x65, 0x76, 0x65, 0x6E, 0x74, 0x5F, 0x69, 0x64] // event_id
  const OCCURRED_AT: Text := [0x6F, 0x63, 0x63, 0x75, 0x72, 0x72, 0x65, 0x64, 0x5F, 0x61, 0x74] // occurred_at
  const IS_COMMON: Text := [0x69, 0x73, 0x5F, 0x63, 0x6F, 0x6D, 0x6D, 0x6F, 0x6E] // is_common
  const EMAIL: Text := [0x65, 0x6D, 0x61, 0x69, 0x6C] // email
  const PHONE_NUMBER: Text := [0x70, 0x68, 0x6F, 0x6E, 0x65, 0x5F, 0x6E, 0x75, 0x6D, 0x62, 0x65, 0x72] // phone_number
  const CONTACT_NAME: Text := [0x63, 0x6F, 0x6E, 0x74, 0x61, 0x63, 0x74, 0x5F, 0x6E, 0x61, 0x6D, 0x65] // contact_name
  const VISITOR_ID: Text := [0x76, 0x69, 0x73, 0x69, 0x74, 0x6F, 0x72, 0x5F, 0x69, 0x64] // visitor_id
  const PROPERTIES: Text := [0x70, 0x72, 0x6F, 0x70, 0x65, 0x72, 0x74, 0x69, 0x65, 0x73] // properties

  /** The payload's names in the order they are put. */
  const NAMES: seq<Text> :=
    [EVENT_KEY, EVENT_ID, OCCURRED_AT, IS_COMMON, EMAIL, PHONE_NUMBER, CONTACT_NAME, VISITOR_ID, PROPERTIES]

  /** properties is the event's own copy of the caller's map, which may be empty but is never null. */
  datatype Event = Event(
    email: Option<Text>,
    phoneNumber: Option<Text>,
    contactName: Option<Text>,
    visitorId: Option<Text>,
    properties: Ref,
    eventId: Option<Text>)

  datatype EncodeError =
    | BlankEventKey
    | MissingEvent
    | MissingIdentity
    | OccurredAtOutOfRange
    | BadText(name: Text)
    | BadProperties(refusal: Refusal)

  // --- Blank and stripped text ---------------------------------------------------------------------------------

  /** Character.isWhitespace on the characters of the BMP: separators that may break, and the control separators. */
  predicate IsWhitespace(u: Unit) {
    || 0x09 <= u <= 0x0D || 0x1C <= u <= 0x20 || u == 0x1680 || (0x2000 <= u <= 0x200A && u != 0x2007)
    || u == 0x2028 || u == 0x2029 || u == 0x205F || u == 0x3000
  }

  predicate IsBlank(s: Text) {
    forall i :: 0 <= i < |s| ==> IsWhitespace(s[i])
  }

  /** The white space of the BMP: the controls, then the space, line and paragraph separators that may break. */
  lemma WhitespaceCharacters(u: Unit)
    ensures IsWhitespace(u) <==>
            u in {0x09, 0x0A, 0x0B, 0x0C, 0x0D, 0x1C, 0x1D, 0x1E, 0x1F, 0x20, 0x1680, 0x2000, 0x2001, 0x2002, 0x2003,
                  0x2004, 0x2005, 0x2006, 0x2008, 0x2009, 0x200A, 0x2028, 0x2029, 0x205F, 0x3000}
  {
  }

  function StripStart(s: Text): (r: Text)
    ensures r == [] || !IsWhitespace(r[0])
    ensures r == [] <==> IsBlank(s)
  {
    if s == [] || !IsWhitespace(s[0]) then s else StripStart(s[1..])
  }

  function StripEnd(s: Text): (r: Text)
    ensures r == [] || !IsWhitespace(r[|r| - 1])
    ensures r <= s && IsBlank(s[|r|..])
  {
    if s == [] || !IsWhitespace(s[|s| - 1]) then s else StripEnd(s[..|s| - 1])
  }

  predicate MissingOrBlank(value: Option<Text>) {
    value.Some? ==> IsBlank(value.value)
  }

  /** t is s without the white space around it, and there is something left. */
  ghost predicate IsCutFrom(t: Text, s: Text) {
    && t != [] && !IsWhitespace(t[0]) && !IsWhitespace(t[|t| - 1])
    && exists a, b :: IsBlank(a) && IsBlank(b) && s == a + t + b
  }

  /** The stripped text, or None when nothing is left. */
  function TrimToNull(value: Option<Text>): (r: Option<Text>)
    ensures r.None? <==> MissingOrBlank(value)
  {
    match value
    case None => None
    case Some(s) =>
      var trimmed := StripEnd(StripStart(s));
      if trimmed == [] then None else Some(trimmed)
  }

  lemma CutFromParts(s: Text, u: Text, a: Text, t: Text, b: Text)
    requires s == a + u && u == t + b && IsBlank(a) && IsBlank(b)
    requires t != [] && !IsWhitespace(t[0]) && !IsWhitespace(t[|t| - 1])
    ensures IsCutFrom(t, s)
  {
    assert s == a + t + b;
  }

  /** How much is stripped from the start. */
  lemma {:induction false} StripsStart(s: Text) returns (k: nat)
    ensures k <= |s| && IsBlank(s[..k]) && StripStart(s) == s[k..]
  {
    k := 0;
    if s != [] && IsWhitespace(s[0]) {
      var more := StripsStart(s[1..]);
      k := more + 1;
      assert s[..k] == [s[0]] + s[1..][..more] && s[1..][more..] == s[k..];
    }
  }

  lemma StrippedIsCut(s: Text, u: Text, t: Text)
    requires u == StripStart(s) && t == StripEnd(u) && t != []
    ensures IsCutFrom(t, s)
  {
    var k := StripsStart(s);
    Joined(s, k);
    Joined(u, |t|);
    CutFromParts(s, u, s[..k], t, u[|t|..]);
  }

  lemma Joined(s: Text, k: nat)
    requires k <= |s|
    ensures s == s[..k] + s[k..]
  {
  }

  lemma TrimmedIsCut(value: Option<Text>)
    ensures TrimToNull(value).Some? ==> value.Some? && IsCutFrom(TrimToNull(value).value, value.value)
  {
    if TrimToNull(value).Some? {
      StrippedIsCut(value.value, StripStart(value.value), StripEnd(StripStart(value.value)));
    }
  }

  /** Where the text that is left begins and ends. */
  lemma CutBounds(s: Text, a: Text, t: Text, b: Text)
    requires IsBlank(a) && IsBlank(b) && s == a + t + b && t != []
    requires !IsWhitespace(t[0]) && !IsWhitespace(t[|t| - 1])
    ensures s[|a|..|a| + |t|] == t && !IsWhitespace(s[|a|]) && !IsWhitespace(s[|a| + |t| - 1])
    ensures forall i :: 0 <= i < |s| && (i < |a| || i >= |a| + |t|) ==> IsWhitespace(s[i])
  {
    forall i | |a| + |t| <= i < |s|
      ensures IsWhitespace(s[i])
    {
      assert s[i] == b[i - |a| - |t|];
    }
  }

  /** There is one way to cut a text. */
  lemma CutIsUnique(s: Text, t: Text, u: Text)
    requires IsCutFrom(t, s) && IsCutFrom(u, s)
    ensures t == u
  {
    var a, b :| IsBlank(a) && IsBlank(b) && s == a + t + b;
    var c, d :| IsBlank(c) && IsBlank(d) && s == c + u + d;
    CutBounds(s, a, t, b);
    CutBounds(s, c, u, d);
    assert |a| == |c| && |a| + |t| == |c| + |u|;
  }

  // --- The payload ---------------------------------------------------------------------------------------------

  /** The visitor of the event if it has one, else the visitor of the current scope. */
  function Visitor(event: Event, ambient: Option<Text>): Option<Text> {
    if TrimToNull(event.visitorId).Some? then TrimToNull(event.visitorId) else TrimToNull(ambient)
  }

  function EventId(event: Event, generated: Text): Text {
    if TrimToNull(event.eventId).Some? then TrimToNull(event.eventId).value else generated
  }

  function OptionalString(value: Option<Text>): Option<Json> {
    match value case None => None case Some(s) => Some(String(s))
  }

  /** The fields of a payload: the name at each position of NAMES, for the values that are present. */
  function Fields(values: seq<Option<Json>>): seq<Member>
    requires |values| <= |NAMES|
  {
    if values == [] then []
    else
      var n := |values| - 1;
      Fields(values[..n]) + (if values[n].Some? then [Member(NAMES[n], values[n].value)] else [])
  }

  lemma NamesAreDistinct(i: nat, j: nat)
    requires i < j < |NAMES|
    ensures NAMES[i] != NAMES[j]
  {
  }

  lemma {:induction false} FieldNames(values: seq<Option<Json>>)
    requires |values| <= |NAMES|
    ensures forall i :: 0 <= i < |Fields(values)| ==> Fields(values)[i].key in NAMES[..|values|]
    ensures DistinctKeys(Fields(values))
    ensures |values| < |NAMES| ==> !HasKey(Fields(values), NAMES[|values|])
  {
    if values != [] {
      var n := |values| - 1;
      FieldNames(values[..n]);
      assert NAMES[..n + 1] == NAMES[..n] + [NAMES[n]];
    }
    if |values| < |NAMES| {
      NameIsNew(|values|);
    }
  }

  lemma NameIsNew(n: nat)
    requires n < |NAMES|
    ensures NAMES[n] !in NAMES[..n]
  {
  }

  lemma {:induction false} FindAppended(members: seq<Member>, member: Member, key: Text)
    ensures Find(members + [member], key) ==
            if HasKey(members, key) then Find(members, key) else Find([member], key)
    ensures Find(members, key).Some? <==> HasKey(members, key)
  {
    if members == [] {
      assert members + [member] == [member];
    } else {
      FirstOrRest(members, key);
      FindAppended(members[1..], member, key);
      assert (members + [member])[1..] == members[1..] + [member];
    }
  }

  /** Each field is found under its name, and an absent one is not found. */
  lemma {:induction false} FindField(values: seq<Option<Json>>, k: nat)
    requires |values| <= |NAMES| && k < |values|
    ensures Find(Fields(values), NAMES[k]) == values[k]
  {
    var n := |values| - 1;
    var front := Fields(values[..n]);
    FieldNames(values[..n]);
    if k < n {
      NamesAreDistinct(k, n);
      FindField(values[..n], k);
      FindAppended(front, Member(NAMES[n], Null), NAMES[k]);
      if values[n].Some? {
        FindAppended(front, Member(NAMES[n], values[n].value), NAMES[k]);
      } else {
        assert front + [] == front;
      }
    } else if values[n].Some? {
      FindAppended(front, Member(NAMES[n], values[n].value), NAMES[n]);
    } else {
      FindAppended(front, Member(NAMES[n], Null), NAMES[n]);
      assert front + [] == front;
    }
  }

  lemma {:induction false} CanonicalFields(values: seq<Option<Json>>)
    requires |values| <= |NAMES| && forall k :: 0 <= k < |values| && values[k].Some? ==> Writable(values[k].value)
    ensures WritableMembers(Fields(values))
    ensures CanonicalMembers(Fields(values)) == Fields(CanonicalValues(values))
  {
    if values != [] {
      var n := |values| - 1;
      CanonicalFields(values[..n]);
      var front, canonical := Fields(values[..n]), Fields(CanonicalValues(values[..n]));
      assert CanonicalValues(values)[..n] == CanonicalValues(values[..n]);
      if values[n].Some? {
        CanonicalAppend(front, Member(NAMES[n], values[n].value));
      } else {
        assert front + [] == front && canonical + [] == canonical;
      }
    }
  }

  function CanonicalValues(values: seq<Option<Json>>): (r: seq<Option<Json>>)
    ensures |r| == |values| && forall k :: 0 <= k < |r| ==> r[k] == CanonicalValue(values[k])
  {
    seq(|values|, k requires 0 <= k < |values| => CanonicalValue(values[k]))
  }

  function CanonicalValue(value: Option<Json>): Option<Json> {
    match value case None => None case Some(v) => Some(if Writable(v) then Canonical(v) else v)
  }

  lemma {:induction false} CanonicalAppend(members: seq<Member>, member: Member)
    requires WritableMembers(members) && Writable(member.value)
    ensures WritableMembers(members + [member])
    ensures CanonicalMembers(members + [member])
         == CanonicalMembers(members) + [Member(member.key, Canonical(member.value))]
  {
    var r := members + [member];
    if members == [] {
      assert r[0] == member && r[1..] == [];
      assert CanonicalMembers(r) == [Member(member.key, Canonical(member.value))] + CanonicalMembers(r[1..]);
    } else {
      assert r[0] == members[0] && r[1..] == members[1..] + [member];
      CanonicalAppend(members[1..], member);
    }
  }

  predicate EmptyMap(c: Container) {
    c == MapObject([])
  }

  /** The properties as sent: none for an empty map, else the unfolding. */
  ghost predicate IsPropertiesOf(h: Heap, ref: Ref, properties: Option<Json>)
    requires Proper(h) && ref in h
  {
    if EmptyMap(h[ref]) then properties == None
    else properties.Some? && Unfolds(JAVA, h, Reference(ref), properties.value) && Depth(properties.value) <= 256
  }

  /** The event's own id without the blanks around it, or the generated one. */
  ghost predicate IsEventId(id: Text, event: Event, generated: Text) {
    if MissingOrBlank(event.eventId) then id == generated else IsCutFrom(id, event.eventId.value)
  }

  /** The event's own visitor without the blanks around it; if that is missing or blank, the ambient one; or none. */
  ghost predicate IsVisitor(visitor: Option<Text>, event: Event, ambient: Option<Text>) {
    if !MissingOrBlank(event.visitorId) then visitor.Some? && IsCutFrom(visitor.value, event.visitorId.value)
    else if !MissingOrBlank(ambient) then visitor.Some? && IsCutFrom(visitor.value, ambient.value)
    else visitor.None?
  }

  /**
   What a payload holds under each name, with the properties' numbers as decimals; it holds nothing under any other key.
   */
  ghost predicate IsPayload(
    members: seq<Member>, eventKey: Text, isCommon: bool, event: Event, ambient: Option<Text>, generated: Text,
    occurredAt: Text, properties: Option<Json>)
  {
    && DistinctKeys(members) && (forall i :: 0 <= i < |members| ==> members[i].key in NAMES)
    && Find(members, EVENT_KEY) == Some(String(eventKey))
    && (exists id :: Find(members, EVENT_ID) == Some(String(id)) && IsEventId(id, event, generated))
    && Find(members, OCCURRED_AT) == Some(String(occurredAt))
    && Find(members, IS_COMMON) == Some(Bool(isCommon))
    && Find(members, EMAIL) == OptionalString(event.email)
    && Find(members, PHONE_NUMBER) == OptionalString(event.phoneNumber)
    && Find(members, CONTACT_NAME) == OptionalString(event.contactName)
    && (exists visitor :: Find(members, VISITOR_ID) == OptionalString(visitor) && IsVisitor(visitor, event, ambient))
    && Find(members, PROPERTIES) == CanonicalValue(properties)
  }

  /** The payload's values in the order of NAMES, up to the properties. */
  function Leading(
    eventKey: Text, isCommon: bool, event: Event, ambient: Option<Text>, generated: Text, occurredAt: Text)
    : seq<Option<Json>>
  {
    [Some(String(eventKey)), Some(String(EventId(event, generated))), Some(String(occurredAt)), Some(Bool(isCommon))]
    + Contacts(event, ambient)
  }

  function Contacts(event: Event, ambient: Option<Text>): seq<Option<Json>> {
    [OptionalString(event.email), OptionalString(event.phoneNumber), OptionalString(event.contactName),
     OptionalString(Visitor(event, ambient))]
  }

  function Values(
    eventKey: Text, isCommon: bool, event: Event, ambient: Option<Text>, generated: Text, occurredAt: Text,
    properties: Option<Json>): seq<Option<Json>>
  {
    Leading(eventKey, isCommon, event, ambient, generated, occurredAt) + [properties]
  }

  /** All nine fields at once. */
  lemma FindFields(values: seq<Option<Json>>)
    requires |values| == |NAMES|
    ensures var m := Fields(values);
      && Find(m, EVENT_KEY) == values[0] && Find(m, EVENT_ID) == values[1] && Find(m, OCCURRED_AT) == values[2]
      && Find(m, IS_COMMON) == values[3] && Find(m, EMAIL) == values[4] && Find(m, PHONE_NUMBER) == values[5]
      && Find(m, CONTACT_NAME) == values[6] && Find(m, VISITOR_ID) == values[7] && Find(m, PROPERTIES) == values[8]
      && DistinctKeys(m) && forall i :: 0 <= i < |m| ==> m[i].key in NAMES
  {
    forall k: nat | k < |NAMES|
      ensures Find(Fields(values), NAMES[k]) == values[k]
    {
      FindField(values, k);
    }
    FieldNames(values);
    assert NAMES[..|NAMES|] == NAMES;
    assert NAMES[0] == EVENT_KEY && NAMES[1] == EVENT_ID && NAMES[2] == OCCURRED_AT && NAMES[3] == IS_COMMON;
    assert NAMES[4] == EMAIL && NAMES[5] == PHONE_NUMBER && NAMES[6] == CONTACT_NAME && NAMES[7] == VISITOR_ID;
    assert NAMES[8] == PROPERTIES;
  }

  /** Fields that fit are written as RFC 8259, and parse to the same fields if every number can be read again. */
  lemma FieldsRoundTrip(values: seq<Option<Json>>)
    requires |values| <= |NAMES|
    requires forall k :: 0 <= k < |values| && values[k].Some? ==> Writable(values[k].value) && Depth(values[k].value) <= 256
    ensures Writable(Object(Fields(values)))
    ensures IsStrictTextOf(Write(Object(Fields(values))), Object(Fields(CanonicalValues(values))))
    ensures Parse(Write(Object(Fields(values)))) == Ok(Object(Fields(CanonicalValues(values)))) <==> AllRereadable(values)
    ensures Parse(Write(Object(Fields(values)))).Ok? <==> AllRereadable(values)
  {
    FieldNames(values);
    CanonicalFields(values);
    FieldsDepth(values);
    RereadableFields(values);
    ParseWrite(Object(Fields(values)));
  }

  predicate AllRereadable(values: seq<Option<Json>>) {
    forall k :: 0 <= k < |values| && values[k].Some? ==> Rereadable(values[k].value)
  }

  lemma {:induction false} RereadableFields(values: seq<Option<Json>>)
    requires |values| <= |NAMES|
    ensures RereadableMembers(Fields(values)) <==> AllRereadable(values)
  {
    if values != [] {
      var n := |values| - 1;
      RereadableFields(values[..n]);
      assert AllRereadable(values) <==> AllRereadable(values[..n]) && (values[n].Some? ==> Rereadable(values[n].value));
      if values[n].Some? {
        RereadableAppend(Fields(values[..n]), Member(NAMES[n], values[n].value));
      } else {
        assert Fields(values[..n]) + [] == Fields(values[..n]);
      }
    }
  }

  lemma {:induction false} RereadableAppend(members: seq<Member>, member: Member)
    ensures RereadableMembers(members + [member]) <==> RereadableMembers(members) && Rereadable(member.value)
  {
    var r := members + [member];
    if members == [] {
      assert r[0] == member && r[1..] == [];
      assert RereadableMembers(r) <==> Rereadable(r[0].value) && RereadableMembers(r[1..]);
    } else {
      assert r[0] == members[0] && r[1..] == members[1..] + [member];
      RereadableAppend(members[1..], member);
    }
  }

  lemma CopiedProperties(h: Heap, ref: Ref, properties: Option<Json>)
    requires Proper(h) && ref in h
    requires if EmptyMap(h[ref]) then properties == None
             else properties.Some? && Copy(JAVA, h, Reference(ref), {}, 0) == Ok(properties.value)
    ensures properties.Some? ==> Writable(properties.value) && Depth(properties.value) <= 256
    ensures IsPropertiesOf(h, ref, properties)
    ensures properties.Some? ==> (Rereadable(properties.value) <==> !HasLowestZero(properties.value))
  {
    if properties.Some? {
      CopyIffUnfolding(JAVA, h, Reference(ref), properties.value);
      UnfoldingIsRereadableIff(JAVA, h, Reference(ref), properties.value);
      UnfoldingIsWritable(JAVA, h, Reference(ref), properties.value);
    }
  }

  /** Texts and truth values are canonical as they stand. */
  lemma PayloadValues(
    eventKey: Text, isCommon: bool, event: Event, ambient: Option<Text>, generated: Text, occurredAt: Text,
    properties: Option<Json>)
    ensures var values := Values(eventKey, isCommon, event, ambient, generated, occurredAt, properties);
            var c := CanonicalValues(values);
      && |values| == |NAMES| && values[8] == properties
      && c[0] == Some(String(eventKey)) && c[1] == Some(String(EventId(event, generated)))
      && c[2] == Some(String(occurredAt)) && c[3] == Some(Bool(isCommon))
      && c[4] == OptionalString(event.email) && c[5] == OptionalString(event.phoneNumber)
      && c[6] == OptionalString(event.contactName) && c[7] == OptionalString(Visitor(event, ambient))
      && c[8] == CanonicalValue(properties)
  {
  }

  predicate FitsAlone(value: Option<Json>) {
    value.Some? ==> Writable(value.value) && Depth(value.value) == 0 && Rereadable(value.value)
  }

  lemma FlatFits(value: Option<Json>)
    requires value.Some? ==> value.value.String? || value.value.Bool?
    ensures FitsAlone(value)
  {
  }

  /** Only the properties have depth or numbers. */
  lemma PayloadFits(
    eventKey: Text, isCommon: bool, event: Event, ambient: Option<Text>, generated: Text, occurredAt: Text,
    properties: Option<Json>)
    ensures var values := Values(eventKey, isCommon, event, ambient, generated, occurredAt, properties);
      && |values| == |NAMES| && values[8] == properties
      && (forall k :: 0 <= k < 8 ==> FitsAlone(values[k]))
  {
    var values := Values(eventKey, isCommon, event, ambient, generated, occurredAt, properties);
    forall k | 0 <= k < 8
      ensures FitsAlone(values[k])
    {
      FlatFits(values[k]);
    }
  }

  /** The names of the fields. */
  lemma NamesInAscii()
    ensures EVENT_KEY == Ascii("event_key") && EVENT_ID == Ascii("event_id") && OCCURRED_AT == Ascii("occurred_at")
    ensures IS_COMMON == Ascii("is_common") && EMAIL == Ascii("email") && PHONE_NUMBER == Ascii("phone_number")
    ensures CONTACT_NAME == Ascii("contact_name") && VISITOR_ID == Ascii("visitor_id")
    ensures PROPERTIES == Ascii("properties")
  {
  }

  /** The text of a payload is RFC 8259 for exactly its fields, and parses to them but for one zero. */
  lemma PayloadRoundTrip(
    h: Heap, eventKey: Text, isCommon: bool, event: Event, ambient: Option<Text>, generated: Text, occurredAt: Text,
    properties: Option<Json>)
    requires Proper(h) && event.properties in h
    requires if EmptyMap(h[event.properties]) then properties == None
             else properties.Some? && Copy(JAVA, h, Reference(event.properties), {}, 0) == Ok(properties.value)
    ensures var values := Values(eventKey, isCommon, event, ambient, generated, occurredAt, properties);
            var members := Fields(CanonicalValues(values));
      && Writable(Object(Fields(values))) && IsPropertiesOf(h, event.properties, properties)
      && IsPayload(members, eventKey, isCommon, event, ambient, generated, occurredAt, properties)
      && Sends(Write(Object(Fields(values))), members, properties)
  {
    var values := Values(eventKey, isCommon, event, ambient, generated, occurredAt, properties);
    CopiedProperties(h, event.properties, properties);
    PayloadFits(eventKey, isCommon, event, ambient, generated, occurredAt, properties);
    assert AllRereadable(values) <==> properties.Some? ==> Rereadable(properties.value) by {
      assert forall k :: 0 <= k < |values| && k != 8 ==> FitsAlone(values[k]);
    }
    FieldsRoundTrip(values);
    PayloadValues(eventKey, isCommon, event, ambient, generated, occurredAt, properties);
    FindFields(CanonicalValues(values));
    SentIdentity(event, ambient, generated);
  }

  lemma SentIdentity(event: Event, ambient: Option<Text>, generated: Text)
    ensures IsEventId(EventId(event, generated), event, generated) && IsVisitor(Visitor(event, ambient), event, ambient)
  {
    TrimmedIsCut(event.eventId);
    TrimmedIsCut(event.visitorId);
    TrimmedIsCut(ambient);
  }

  /** The text is RFC 8259 for the members, and parses to them unless the properties hold the one zero. */
  ghost predicate Sends(text: Text, members: seq<Member>, properties: Option<Json>) {
    && IsStrictTextOf(text, Object(members))
    && (Parse(text) == Ok(Object(members)) <==> properties.None? || !HasLowestZero(properties.value))
    && (Parse(text).Ok? <==> properties.None? || !HasLowestZero(properties.value))
  }

  /** The heap with one map, which has one entry, and the copy of the map. */
  function OneEntry(key: Text, n: Number): Heap {
    map[0 := MapObject([Entry(TextKey(key), NumberValue(n))])]
  }

  function OneMember(key: Text, n: Number): Json {
    Object([Member(key, Json.Number(n))])
  }

  lemma OneEntryIsCopied(key: Text, n: Number)
    requires WellFormed(key) && WritableNumber(n) && NumberAllowed(n)
    ensures Proper(OneEntry(key, n)) && Copy(JAVA, OneEntry(key, n), Reference(0), {}, 0) == Ok(OneMember(key, n))
  {
    var h, t := OneEntry(key, n), OneMember(key, n);
    OneEntryUnfolds(h, h[0].entries, t.members, key, n);
    assert Unfolds(JAVA, h, Reference(0), t) && Depth(t) == 1;
    CopyIffUnfolding(JAVA, h, Reference(0), t);
  }

  lemma OneEntryUnfolds(h: Heap, entries: seq<Entry>, members: seq<Member>, key: Text, n: Number)
    requires Proper(h) && WellFormed(key) && WritableNumber(n) && NumberAllowed(n)
    requires entries == [Entry(TextKey(key), NumberValue(n))] && members == [Member(key, Json.Number(n))]
    ensures EntriesPresent(h, entries) && UnfoldsEntries(JAVA, h, entries, members) && DepthOfMembers(members) == 1
  {
    assert entries[1..] == [] && members[1..] == [];
    assert UnfoldsEntries(JAVA, h, entries[1..], members[1..]) && DepthOfMembers(members[1..]) == 0;
    assert Unfolds(JAVA, h, entries[0].value, members[0].value);
  }

  /** The encoder accepts properties of just the one zero, and what is written for them is refused by the parser. */
  lemma LowestZeroIsSent(key: Text)
    requires WellFormed(key)
    ensures var n := Exact(LOWEST_ZERO);
      && Proper(OneEntry(key, n)) && Copy(JAVA, OneEntry(key, n), Reference(0), {}, 0) == Ok(OneMember(key, n))
      && HasLowestZero(OneMember(key, n)) && Parse(Write(OneMember(key, n))).Err?
  {
    var n := Exact(LOWEST_ZERO);
    LowestZeroIsAllowed();
    OneEntryIsCopied(key, n);
    OneLowestZero(OneMember(key, n), [Member(key, Json.Number(n))]);
    ParseWrite(OneMember(key, n));
  }

  lemma OneLowestZero(t: Json, members: seq<Member>)
    requires t == Object(members) && |members| == 1 && members[0].value == Json.Number(Exact(LOWEST_ZERO))
    ensures Writable(t) && HasLowestZero(t) && !Rereadable(t)
  {
    assert members[1..] == [] && WritableMembers(members[1..]);
    LowestZeroIsAllowed();
    OnlyLowestZeroOverflows(LOWEST_ZERO);
    assert !Rereadable(members[0].value) && HasLowestZero(members[0].value);
    assert !RereadableMembers(members) && MembersHaveLowestZero(members);
  }

  lemma LowestZeroIsAllowed()
    ensures WritableNumber(Exact(LOWEST_ZERO)) && NumberAllowed(Exact(LOWEST_ZERO))
    ensures !UnsafeInteger(LOWEST_ZERO)
  {
    PrintedValue(LOWEST_ZERO);
  }

  /** The encoder's bound of 256 leaves the payload well within the parser's 512. */
  lemma {:induction false} FieldsDepth(values: seq<Option<Json>>)
    requires |values| <= |NAMES|
    requires forall k :: 0 <= k < |values| && values[k].Some? ==> Depth(values[k].value) <= 256
    ensures DepthOfMembers(Fields(values)) <= 257
  {
    if values != [] {
      var n := |values| - 1;
      FieldsDepth(values[..n]);
      if values[n].Some? {
        DepthAppend(Fields(values[..n]), Member(NAMES[n], values[n].value));
      } else {
        assert Fields(values[..n]) + [] == Fields(values[..n]);
      }
    }
  }

  lemma {:induction false} DepthAppend(members: seq<Member>, member: Member)
    ensures DepthOfMembers(members + [member]) == Max(DepthOfMembers(members), 1 + Depth(member.value))
  {
    var r := members + [member];
    if members == [] {
      assert r[0] == member && r[1..] == [];
    } else {
      assert r[0] == members[0] && r[1..] == members[1..] + [member];
      DepthAppend(members[1..], member);
    }
  }

  lemma {:induction false} UnicodeFields(values: seq<Option<Json>>)
    requires |values| <= |NAMES|
    requires forall k :: 0 <= k < |values| && values[k].Some? ==> UnicodeText(values[k].value)
    ensures UnicodeMembers(Fields(values))
  {
    if values != [] {
      var n := |values| - 1;
      UnicodeFields(values[..n]);
      if values[n].Some? {
        AsciiNames(n);
        UnicodeAppend(Fields(values[..n]), Member(NAMES[n], values[n].value));
      } else {
        assert Fields(values[..n]) + [] == Fields(values[..n]);
      }
    }
  }

  lemma AsciiNames(k: nat)
    requires k < |NAMES|
    ensures WellFormed(NAMES[k])
  {
    assert NoSurrogates(NAMES[k]);
    PlainPrefix(NAMES[k], []);
    assert NAMES[k] + [] == NAMES[k];
  }

  lemma {:induction false} UnicodeAppend(members: seq<Member>, member: Member)
    requires UnicodeMembers(members) && WellFormed(member.key) && UnicodeText(member.value)
    ensures UnicodeMembers(members + [member])
  {
    var r := members + [member];
    if members == [] {
      assert r[0] == member && r[1..] == [];
    } else {
      assert r[0] == members[0] && r[1..] == members[1..] + [member];
      UnicodeAppend(members[1..], member);
    }
  }

  // --- encode --------------------------------------------------------------------------------------------------

  predicate BadOptional(value: Option<Text>) {
    value.Some? && !WellFormed(value.value)
  }

  /** The first text that may not be sent, or the instant outside its years, in the order the fields are put. */
  function TextProblem(eventKey: Text, e: Event, ambient: Option<Text>, occurredAt: Option<Text>): Option<EncodeError> {
    if !WellFormed(eventKey) then Some(BadText(EVENT_KEY))
    else if BadOptional(TrimToNull(e.eventId)) then Some(BadText(EVENT_ID))
    else if occurredAt.None? then Some(OccurredAtOutOfRange)
    else if BadOptional(e.email) then Some(BadText(EMAIL))
    else if BadOptional(e.phoneNumber) then Some(BadText(PHONE_NUMBER))
    else if BadOptional(e.contactName) then Some(BadText(CONTACT_NAME))
    else if BadOptional(Visitor(e, ambient)) then Some(BadText(VISITOR_ID))
    else None
  }

  /** The first reason encode finds to refuse an event. occurredAt is the formatted instant, None outside its years. */
  ghost function Problem(
    h: Heap, eventKey: Option<Text>, event: Option<Event>, ambient: Option<Text>, occurredAt: Option<Text>)
    : Option<EncodeError>
    requires Proper(h) && (event.Some? ==> event.value.properties in h)
  {
    if MissingOrBlank(eventKey) then Some(BlankEventKey)
    else if event.None? then Some(MissingEvent)
    else if MissingOrBlank(event.value.email) && MissingOrBlank(event.value.phoneNumber) then Some(MissingIdentity)
    else if TextProblem(eventKey.value, event.value, ambient, occurredAt).Some? then
      TextProblem(eventKey.value, event.value, ambient, occurredAt)
    else if EmptyMap(h[event.value.properties]) then None
    else match Copy(JAVA, h, Reference(event.value.properties), {}, 0)
      case Ok(_) => None
      case Err(refusal) => Some(BadProperties(refusal))
  }

  predicate Nonblank(value: Option<Text>) {
    value.Some? && exists i :: 0 <= i < |value.value| && !IsWhitespace(value.value[i])
  }

  /** Every problem that is reported is there. */
  lemma ProblemHasReason(
    h: Heap, eventKey: Option<Text>, event: Option<Event>, ambient: Option<Text>, occurredAt: Option<Text>)
    requires Proper(h) && (event.Some? ==> event.value.properties in h)
    ensures var p := Problem(h, eventKey, event, ambient, occurredAt);
      && (p == Some(BlankEventKey) <==> !Nonblank(eventKey))
      && (p == Some(MissingEvent) ==> event.None?)
      && (p == Some(MissingIdentity) ==>
            event.Some? && !Nonblank(event.value.email) && !Nonblank(event.value.phoneNumber))
      && (p == Some(OccurredAtOutOfRange) ==> occurredAt.None?)
      && (p.Some? && p.value.BadText? ==>
            eventKey.Some? && event.Some? && IllFormed(p.value.name, eventKey.value, event.value, ambient))
      && (p.Some? && p.value.BadProperties? ==>
            event.Some? && Copy(JAVA, h, Reference(event.value.properties), {}, 0) == Err(p.value.refusal))
  {
    NamesInAscii();
  }

  /** The text sent under the name is not valid Unicode. */
  predicate IllFormed(name: Text, eventKey: Text, event: Event, ambient: Option<Text>) {
    || (name == Ascii("event_key") && !WellFormed(eventKey))
    || (name == Ascii("event_id") && !Sendable(TrimToNull(event.eventId)))
    || (name == Ascii("email") && !Sendable(event.email))
    || (name == Ascii("phone_number") && !Sendable(event.phoneNumber))
    || (name == Ascii("contact_name") && !Sendable(event.contactName))
    || (name == Ascii("visitor_id") && !Sendable(Visitor(event, ambient)))
  }

  predicate Sendable(value: Option<Text>) {
    value.Some? ==> WellFormed(value.value)
  }

  /** The encoder refuses nothing exactly for an event with a key, an identity and texts and properties it may send. */
  lemma SentIff(
    h: Heap, eventKey: Option<Text>, event: Option<Event>, ambient: Option<Text>, occurredAt: Option<Text>)
    requires Proper(h) && (event.Some? ==> event.value.properties in h)
    ensures Problem(h, eventKey, event, ambient, occurredAt).None? <==>
            && Nonblank(eventKey) && Sendable(eventKey) && event.Some? && occurredAt.Some?
            && (Nonblank(event.value.email) || Nonblank(event.value.phoneNumber))
            && Sendable(event.value.email) && Sendable(event.value.phoneNumber) && Sendable(event.value.contactName)
            && Sendable(TrimToNull(event.value.eventId)) && Sendable(Visitor(event.value, ambient))
            && (h[event.value.properties] == MapObject([])
                || Copy(JAVA, h, Reference(event.value.properties), {}, 0).Ok?)
  {
  }

  /**
   The text is RFC 8259 for exactly the payload, parses to it unless the properties hold the one zero, and is valid
   Unicode if the generated texts are.
   */
  ghost predicate IsEncoding(
    text: Text, h: Heap, eventKey: Text, isCommon: bool, event: Event, ambient: Option<Text>, generated: Text,
    occurredAt: Text)
    requires Proper(h) && event.properties in h
  {
    && (exists members, properties ::
          && IsPropertiesOf(h, event.properties, properties) && Sends(text, members, properties)
          && IsPayload(members, eventKey, isCommon, event, ambient, generated, occurredAt, properties))
    && (WellFormed(generated) && WellFormed(occurredAt) ==> exists xs :: Encode(xs) == text)
  }

  lemma PayloadIsUnicode(
    h: Heap, eventKey: Text, isCommon: bool, event: Event, ambient: Option<Text>, generated: Text, occurredAt: Text,
    properties: Option<Json>)
    requires Proper(h) && event.properties in h && WellFormed(generated) && WellFormed(occurredAt)
    requires TextProblem(eventKey, event, ambient, Some(occurredAt)).None?
    requires properties.Some? ==> Copy(JAVA, h, Reference(event.properties), {}, 0) == Ok(properties.value)
    requires Writable(Object(Fields(Values(eventKey, isCommon, event, ambient, generated, occurredAt, properties))))
    ensures var fields := Fields(Values(eventKey, isCommon, event, ambient, generated, occurredAt, properties));
      exists xs :: Encode(xs) == Write(Object(fields))
  {
    var values := Values(eventKey, isCommon, event, ambient, generated, occurredAt, properties);
    if properties.Some? {
      CopyIffUnfolding(JAVA, h, Reference(event.properties), properties.value);
      UnfoldingRules(h, Reference(event.properties), properties.value);
    }
    UnicodeFields(values);
    WriteIsUnicode(Object(Fields(values)));
  }

  lemma TextIsEncoding(
    h: Heap, eventKey: Text, isCommon: bool, event: Event, ambient: Option<Text>, generated: Text, occurredAt: Text,
    properties: Option<Json>)
    requires Proper(h) && event.properties in h
    requires TextProblem(eventKey, event, ambient, Some(occurredAt)).None?
    requires if EmptyMap(h[event.properties]) then properties == None
             else properties.Some? && Copy(JAVA, h, Reference(event.properties), {}, 0) == Ok(properties.value)
    ensures var fields := Fields(Values(eventKey, isCommon, event, ambient, generated, occurredAt, properties));
      && Writable(Object(fields))
      && IsEncoding(Write(Object(fields)), h, eventKey, isCommon, event, ambient, generated, occurredAt)
  {
    PayloadRoundTrip(h, eventKey, isCommon, event, ambient, generated, occurredAt, properties);
    if WellFormed(generated) && WellFormed(occurredAt) {
      PayloadIsUnicode(h, eventKey, isCommon, event, ambient, generated, occurredAt, properties);
    }
  }

  /** LinkedHashMap.put of the next field. */
  lemma PutField(values: seq<Option<Json>>, v: Json)
    requires |values| < |NAMES|
    ensures Put(Fields(values), NAMES[|values|], v) == Fields(values + [Some(v)])
    ensures Fields(values + [None]) == Fields(values)
  {
    FieldNames(values);
    PutNewKey(Fields(values), NAMES[|values|], v);
    assert (values + [Some(v)])[..|values|] == values && (values + [None])[..|values|] == values;
    assert Fields(values) + [] == Fields(values);
  }

  class Payload {
    var fields: seq<Member>
    ghost var values: seq<Option<Json>>

    ghost predicate Valid()
      reads this
    {
      |values| <= |NAMES| && fields == Fields(values)
    }

    constructor ()
      ensures Valid() && values == []
    {
      fields, values := [], [];
    }

    method PutNext(name: Text, value: Json)
      requires Valid() && |values| < |NAMES| && name == NAMES[|values|]
      modifies this
      ensures Valid() && values == old(values) + [Some(value)]
    {
      PutField(values, value);
      fields := Put(fields, name, value);
      values := values + [Some(value)];
    }

    /** putIfPresent: check the text and put it, unless it is null. */
    method PutIfPresent(name: Text, value: Option<Text>) returns (bad: bool)
      requires Valid() && |values| < |NAMES| && name == NAMES[|values|]
      modifies this
      ensures Valid() && bad == BadOptional(value)
      ensures !bad ==> values == old(values) + [OptionalString(value)]
    {
      match value
      case None =>
        PutField(values, Null);
        values := values + [None];
        return false;
      case Some(text) =>
        var checked := JavaText(text);
        if checked.Err? {
          return true;
        }
        PutNext(name, String(text));
        return false;
    }
  }

  method PutKeyAndId(payload: Payload, eventKey: Text, event: Event, generated: Text)
    returns (problem: Option<EncodeError>)
    requires payload.Valid() && payload.values == []
    modifies payload
    ensures payload.Valid()
    ensures problem == if !WellFormed(eventKey) then Some(BadText(EVENT_KEY))
                       else if BadOptional(TrimToNull(event.eventId)) then Some(BadText(EVENT_ID)) else None
    ensures problem.None? ==> payload.values == [Some(String(eventKey)), Some(String(EventId(event, generated)))]
  {
    var bad := payload.PutIfPresent(EVENT_KEY, Some(eventKey));
    if bad {
      return Some(BadText(EVENT_KEY));
    }
    var explicitEventId := TrimToNull(event.eventId);
    if explicitEventId.Some? {
      bad := payload.PutIfPresent(EVENT_ID, explicitEventId);
      if bad {
        return Some(BadText(EVENT_ID));
      }
    } else {
      payload.PutNext(EVENT_ID, String(generated));
    }
    return None;
  }

  method PutContacts(payload: Payload, event: Event, ambient: Option<Text>) returns (problem: Option<EncodeError>)
    requires payload.Valid() && |payload.values| == 4
    modifies payload
    ensures payload.Valid()
    ensures problem == if BadOptional(event.email) then Some(BadText(EMAIL))
                       else if BadOptional(event.phoneNumber) then Some(BadText(PHONE_NUMBER))
                       else if BadOptional(event.contactName) then Some(BadText(CONTACT_NAME))
                       else if BadOptional(Visitor(event, ambient)) then Some(BadText(VISITOR_ID)) else None
    ensures problem.None? ==> payload.values == old(payload.values) + Contacts(event, ambient)
  {
    var bad := payload.PutIfPresent(EMAIL, event.email);
    if bad {
      return Some(BadText(EMAIL));
    }
    bad := payload.PutIfPresent(PHONE_NUMBER, event.phoneNumber);
    if bad {
      return Some(BadText(PHONE_NUMBER));
    }
    bad := payload.PutIfPresent(CONTACT_NAME, event.contactName);
    if bad {
      return Some(BadText(CONTACT_NAME));
    }
    var visitorId := TrimToNull(event.visitorId);
    if visitorId.None? {
      visitorId := TrimToNull(ambient);
    }
    bad := payload.PutIfPresent(VISITOR_ID, visitorId);
    return if bad then Some(BadText(VISITOR_ID)) else None;
  }

  method PutLeading(
    payload: Payload, eventKey: Text, isCommon: bool, event: Event, ambient: Option<Text>, generated: Text,
    occurredAt: Option<Text>)
    returns (problem: Option<EncodeError>)
    requires payload.Valid() && payload.values == []
    modifies payload
    ensures payload.Valid() && problem == TextProblem(eventKey, event, ambient, occurredAt)
    ensures problem.None? ==>
              payload.values == Leading(eventKey, isCommon, event, ambient, generated, occurredAt.value)
  {
    problem := PutKeyAndId(payload, eventKey, event, generated);
    if problem.Some? {
      return;
    }
    if occurredAt.None? {
      return Some(OccurredAtOutOfRange);
    }
    payload.PutNext(OCCURRED_AT, String(occurredAt.value));
    payload.PutNext(IS_COMMON, Bool(isCommon));
    problem := PutContacts(payload, event, ambient);
  }

  /** The properties go last, unless the map is empty. */
  method PutProperties(h: Heap, payload: Payload, ref: Ref) returns (r: Result<Option<Json>, Refusal>)
    requires Proper(h) && ref in h && payload.Valid() && |payload.values| == 8
    modifies payload
    ensures payload.Valid()
    ensures if EmptyMap(h[ref]) then r == Ok(None)
            else match Copy(JAVA, h, Reference(ref), {}, 0)
              case Ok(t) => r == Ok(Some(t))
              case Err(refusal) => r == Err(refusal)
    ensures r.Ok? ==> payload.fields == Fields(old(payload.values) + [r.value])
  {
    if EmptyMap(h[ref]) {
      PutField(payload.values, Null);
      return Ok(None);
    }
    var ancestors := new IdentitySet();
    var t := JavaNormalize(h, Reference(ref), ancestors, 0);
    if t.Err? {
      return Err(t.error);
    }
    payload.PutNext(PROPERTIES, t.value);
    return Ok(Some(t.value));
  }

  method EncodeEvent(
    h: Heap, eventKey: Option<Text>, isCommon: bool, event: Option<Event>, ambient: Option<Text>, generated: Text,
    occurredAt: Option<Text>)
    returns (r: Result<Text, EncodeError>)
    requires Proper(h) && (event.Some? ==> event.value.properties in h)
    ensures match Problem(h, eventKey, event, ambient, occurredAt) case Some(e) => r == Err(e) case None => r.Ok?
    ensures r.Ok? ==>
              && eventKey.Some? && event.Some? && occurredAt.Some?
              && IsEncoding(r.value, h, eventKey.value, isCommon, event.value, ambient, generated, occurredAt.value)
  {
    if MissingOrBlank(eventKey) {
      return Err(BlankEventKey);
    }
    if event.None? {
      return Err(MissingEvent);
    }
    var e := event.value;
    if MissingOrBlank(e.email) && MissingOrBlank(e.phoneNumber) {
      return Err(MissingIdentity);
    }
    var payload := new Payload();
    var problem := PutLeading(payload, eventKey.value, isCommon, e, ambient, generated, occurredAt);
    if problem.Some? {
      return Err(problem.value);
    }
    var properties := PutProperties(h, payload, e.properties);
    if properties.Err? {
      return Err(BadProperties(properties.error));
    }
    TextIsEncoding(h, eventKey.value, isCommon, e, ambient, generated, occurredAt.value, properties.value);
    var text := WriteJson(Object(payload.fields));
    return Ok(text);
  }
}
