/**
 UTF-16 text as Java and .NET strings hold it: sequences of 16-bit code units that need not be valid Unicode.
 The two surrogate scans are proved to accept exactly the encodings of sequences of Unicode scalar values.
 */
module Utf16 {

  type Unit = u: int | 0 <= u < 0x10000
  type Text = seq<Unit>

  predicate IsHighSurrogate(u: Unit) {
    0xD800 <= u < 0xDC00
  }

  predicate IsLowSurrogate(u: Unit) {
    0xDC00 <= u < 0xE000
  }

  predicate IsSurrogate(u: Unit) {
    0xD800 <= u < 0xE000
  }

  /** Every surrogate is half of an adjacent high-low pair. */
  predicate WellFormed(s: Text) {
    s == [] ||
    if IsHighSurrogate(s[0]) then |s| > 1 && IsLowSurrogate(s[1]) && WellFormed(s[2..])
    else !IsLowSurrogate(s[0]) && WellFormed(s[1..])
  }

  // --- The encoding of section 2.2 of RFC 2781 -----------------------------------------------------------------

  /** A Unicode scalar value: a code point that is not a surrogate. */
  type Scalar = x: int | 0 <= x < 0x110000 && !(0xD800 <= x < 0xE000)

  function EncodeScalar(x: Scalar): Text {
    if x < 0x10000 then [x]
    else [0xD800 + (x - 0x10000) / 0x400, 0xDC00 + (x - 0x10000) % 0x400]
  }

  /** A scalar value beyond the BMP is 2^16 and twenty bits, of which the pair holds ten each. */
  lemma ScalarOfUnits(x: Scalar)
    ensures var s := EncodeScalar(x);
      && (x < 0x10000 ==> s == [x])
      && (x >= 0x10000 ==>
            |s| == 2 && 0xD800 <= s[0] <= 0xDBFF && 0xDC00 <= s[1] <= 0xDFFF
            && x as int - 0x10000 == (s[0] as int - 0xD800) * 1024 + (s[1] as int - 0xDC00))
  {
  }

  function Encode(xs: seq<Scalar>): Text {
    if xs == [] then [] else EncodeScalar(xs[0]) + Encode(xs[1..])
  }

  function Decode(s: Text): seq<Scalar>
    requires WellFormed(s)
  {
    if s == [] then []
    else if IsHighSurrogate(s[0]) then [0x10000 + (s[0] - 0xD800) * 0x400 + (s[1] - 0xDC00)] + Decode(s[2..])
    else [s[0]] + Decode(s[1..])
  }

  lemma {:induction false} EncodeDecode(s: Text)
    requires WellFormed(s)
    ensures Encode(Decode(s)) == s
  {
    if s == [] {
    } else if IsHighSurrogate(s[0]) {
      EncodeDecode(s[2..]);
      var x := Decode(s)[0];
      assert Decode(s)[1..] == Decode(s[2..]);
      assert EncodeScalar(x) == [s[0], s[1]];
      assert s == [s[0], s[1]] + s[2..];
    } else {
      EncodeDecode(s[1..]);
      assert Decode(s)[0] == s[0] && Decode(s)[1..] == Decode(s[1..]);
      assert s == [s[0]] + s[1..];
    }
  }

  lemma {:induction false} DecodeEncode(xs: seq<Scalar>)
    ensures WellFormed(Encode(xs)) && Decode(Encode(xs)) == xs
  {
    if xs != [] {
      var unit, tail := EncodeScalar(xs[0]), Encode(xs[1..]);
      var s := unit + tail;
      DecodeEncode(xs[1..]);
      if xs[0] < 0x10000 {
        assert s[1..] == tail;
      } else {
        assert s[2..] == tail;
        assert IsHighSurrogate(s[0]) && IsLowSurrogate(s[1]);
      }
      assert xs == [xs[0]] + xs[1..];
    }
  }

  /** A text is well formed exactly when it encodes some sequence of scalar values, and then only one. */
  lemma WellFormedIffEncoding(s: Text)
    ensures WellFormed(s) <==> exists xs :: Encode(xs) == s
    ensures forall xs, ys :: Encode(xs) == s && Encode(ys) == s ==> xs == ys
  {
    if WellFormed(s) {
      EncodeDecode(s);
    }
    forall xs | Encode(xs) == s
      ensures WellFormed(s) && xs == Decode(s)
    {
      DecodeEncode(xs);
    }
  }

  /** Well-formed text stays well formed when more text is appended exactly when the addition is well formed. */
  lemma {:induction false} WellFormedAppend(a: Text, b: Text)
    requires WellFormed(a)
    ensures WellFormed(a + b) <==> WellFormed(b)
  {
    if a == [] {
      assert a + b == b;
    } else if IsHighSurrogate(a[0]) {
      WellFormedAppend(a[2..], b);
      assert (a + b)[2..] == a[2..] + b;
    } else {
      WellFormedAppend(a[1..], b);
      assert (a + b)[1..] == a[1..] + b;
    }
  }

  // --- The two scans -------------------------------------------------------------------------------------------

  /** The Java scan: reject a high surrogate without its low half, then a low surrogate on its own. */
  method JavaScan(value: Text) returns (valid: bool)
    ensures valid <==> exists xs :: Encode(xs) == value
  {
    var index := 0;
    while index < |value|
      invariant 0 <= index <= |value|
      invariant WellFormed(value) <==> WellFormed(value[index..])
    {
      WellFormedIffEncoding(value);
      var character := value[index];
      ghost var rest := value[index..];
      if IsHighSurrogate(character) {
        if index + 1 < |value| && IsLowSurrogate(value[index + 1]) {
          assert rest[2..] == value[index + 2..];
          index := index + 2;
          continue;
        }
        return false;
      }
      if IsLowSurrogate(character) {
        return false;
      }
      assert rest[1..] == value[index + 1..];
      index := index + 1;
    }
    WellFormedIffEncoding(value);
    return true;
  }

  /** The .NET scan: skip a complete pair, otherwise reject any surrogate. */
  method DotnetScan(value: Text) returns (valid: bool)
    ensures valid <==> exists xs :: Encode(xs) == value
  {
    WellFormedIffEncoding(value);
    var index := 0;
    while index < |value|
      invariant 0 <= index <= |value|
      invariant WellFormed(value) <==> WellFormed(value[index..])
    {
      ghost var rest := value[index..];
      if IsHighSurrogate(value[index]) && index + 1 < |value| && IsLowSurrogate(value[index + 1]) {
        assert rest[2..] == value[index + 2..];
        index := index + 1;
      } else if IsSurrogate(value[index]) {
        return false;
      } else {
        assert rest[1..] == value[index + 1..];
      }
      index := index + 1;
    }
    return true;
  }
}
