# Event delivery: a verified model

This project models the hard parts of the Cekat event SDKs and of the mock ingest server their conformance runs use,
and proves what they promise. `dafny verify dfyconfig.toml` covers all of it.

## What is modelled

- **JSON (Java).** `JsonParser` is the writer (a `StringBuilder` appended to) and the parser (a class with a moving
  `position`). `JsonReader` and `JsonValues` say what they compute, as functions on the text that is left.
  `JsonGrammar` describes JSON independently, as syntax trees with their own spaces, escapes and number tokens, and proves
  that the parser accepts exactly the texts of trees nested at most 512 deep whose numbers `BigDecimal` takes, with the
  trees' meaning. `JsonRoundTrip`
  has the round trips, `JsonStrictness` tells which accepted texts are RFC 8259, and `JsonUnicode` shows that writing
  keeps Unicode well-formedness.
- **Numbers.** A `BigDecimal` is a pair of unscaled value and scale; its canonical text is modelled from the
  documentation of `BigDecimal.toString` and proved to denote the same pair. By the documentation of its constructor, a
  token is refused when its scale, or its exponent as written, is not of 32 bits. A `Double` is carried as the decimal
  token it prints. `Decimals` holds the two safe-integer tests on pairs.
- **Copying the caller's values.** `ObjectGraphs` has the caller's objects as a finite heap that may share containers
  and be cyclic, the copy that remembers only ancestors, and the unfolding of a graph into a tree. `GraphCopiers` has
  the Java, Python and Node.js copiers with their mutable ancestor sets. `PayloadEncoder` puts the payload together.
- **Delivery.** `Delivery` is one specification of the retry loop over any transcript of outcomes and any jitter
  stream. `DeliveryLoops` has the Python, Java, Node.js and .NET loops, `GoDelivery` the Go loop. All but the Python loop
  take a signal that the environment may cancel at any moment (`Cancellation`). `RetryPolicy` has the arithmetic.
- **The mock server.** `MockState` is the server's state over maps and slices on the heap, down to the values of each
  header, so that aliasing is part of what is proved; `JournalHeaders` normalizes headers; `MockInterleaving` runs any number of ingests at once, with resets and
  script replacements in between; `MockComposition` puts the SDKs' loops and the server together.
- **Bounded bodies, packaging, accounting.** `BoundedBody` (three chunked readers), `PublishableModules` (files to Go
  modules), `Accounting` (records against fixtures).
- **Automatic propagation in the browser.** `AutoPropagation` has the wrappers around the global hooks, the functions
  they captured and disable handles of any age; `PropagationRuns` reads the log of what the browser saw;
  `AllowedTargets` has the allowlist and its canonical form.

A number of promises turn out not to hold on all inputs. The model keeps what the code does, exhibits an input, and
proves exactly when the promise holds:

- The parser's documentation promises RFC 8259. Its `\u` escapes go through `Integer.parseInt`, which also takes a sign
  and the digits of other scripts. A text is RFC 8259, nested at most 512 deep and with numbers `BigDecimal` takes,
  exactly when it parses and every `\u` in it is followed by four ASCII hexadecimal digits:
  `JsonStrictness.RfcTextIff`. The inputs are `"\u+041"`, which is accepted and is not RFC 8259
  (`JsonStrictness.SignedEscapeIsAccepted`), and `1.0e2147483648`, which is and is refused
  (`JsonRoundTrip.ExponentIsRefused`).
- Writing what was parsed, and parsing it again, gives the same value exactly if no decimal in it prints with an
  exponent beyond 32 bits: `JsonRoundTrip.ParseIsNormalForm`. The input is `10e2147483647`, written
  `1.0E+2147483648`: `JsonRoundTrip.LargestIsNoNormalForm`.
- The text of a payload is RFC 8259 for exactly the payload. It parses back exactly if the properties hold no
  `BigDecimal` zero of scale -2^31, which prints `0E+2147483648`: `PayloadEncoder.EncodeEvent`,
  `GraphCopiers.UnfoldingIsRereadableIff`, `PayloadEncoder.LowestZeroIsSent`.
- Delta-seconds of more than nine digits count as infinite even when leading zeros make them small:
  `RetryPolicy.LengthTestIsExact`, `RetryPolicy.PaddedSecondIsRefused`.
- A reset can fall between an ingest's record and its response: `MockInterleaving.ResetLosesRecordInFlight`. Records and
  answers tally exactly when no ingest was in flight at the last reset: `MockInterleaving.RecordsTallyIff`.
- A Node.js body read that fails loses the bytes read so far, which the other readers keep:
  `BoundedBody.RecoveredIsCaptureIff`, `BoundedBody.FailedReadLosesBytes`.
- Archive names collide: `PublishableModules.ArchiveStemCollides`, `PublishableModules.DistinctModulesCollide`.
- The visitor header is added after one of the page's own exactly when an event handler sets it before `open` returns:
  `PropagationRuns.OpenThenSend`, `PropagationRuns.HandlerHeaderIsOverlooked`, `PropagationRuns.NeverAfterThePagesOwn`.
- Listing the same targets in another order is the same configuration exactly if the locale's collation tells the
  targets apart: `AllowedTargets.OrderIsImmaterialIff`. A collation that ignores soft hyphens does not tell `/` from
  `/` with one: `PropagationRuns.ReorderedIsRefused`.

## Model

| member | source | states |
|---|---|---|
| `Utf16.WellFormedIffEncoding` | java/cekat-event-sdk-core/src/main/java/ai/cekat/events/internal/PayloadEncoder.java:201-216 | A text has its surrogates paired exactly when it is the UTF-16 encoding of some scalar values, and then of only one sequence of them. |
| `Utf16.JavaScan` | java/cekat-event-sdk-core/src/main/java/ai/cekat/events/internal/PayloadEncoder.java:201-216 | Java's index loop accepts exactly the UTF-16 encodings of scalar values. |
| `Utf16.DotnetScan` | dotnet/src/Cekat.EventSdk/Internal/EventPayload.cs:374-389 | The .NET loop, with its other branch order, accepts exactly the same texts. |
| `Utf16.DecodeEncode` | java/cekat-event-sdk-core/src/main/java/ai/cekat/events/internal/PayloadEncoder.java:201-216 | Scalar values survive encoding and decoding, and an encoding is well-formed. |
| `Utf16.ScalarOfUnits` | java/cekat-event-sdk-core/src/main/java/ai/cekat/events/internal/PayloadEncoder.java:201-216 | A scalar value is its own unit, or beyond 0xFFFF a high and a low surrogate holding its upper and lower ten bits. |
| `Decimals.JavaRejectsUnsafeIntegers` | java/cekat-event-sdk-core/src/main/java/ai/cekat/events/internal/PayloadEncoder.java:163-169 | The test after stripping trailing zeros refuses exactly the integers beyond 2^53-1, for every unscaled value and scale, negative scales included. |
| `Decimals.StripOverflowIsUnsafe` | java/cekat-event-sdk-core/src/main/java/ai/cekat/events/internal/PayloadEncoder.java:163-169 | Where stripping trailing zeros throws because the scale leaves 32 bits, the number is an unsafe integer, so it is refused in any case. |
| `Decimals.DotnetRejectsUnsafeIntegers` | dotnet/src/Cekat.EventSdk/Internal/EventPayload.cs:210-217 | The truncate-and-compare test refuses exactly the same integers. |
| `Decimals.JavaAndDotnetAgree` | dotnet/src/Cekat.EventSdk/Internal/EventPayload.cs:210-217 | On every .NET decimal the two tests agree. |
| `Decimals.MaxSafeInteger` | java/cekat-event-sdk-core/src/main/java/ai/cekat/events/internal/PayloadEncoder.java:20 | The bound is 2^53-1. |
| `JsonNumbers.NumberReadsBack` | java/cekat-event-sdk-core/src/main/java/ai/cekat/events/internal/Json.java:237-267 | Maximal munch stops exactly at the end of a number token, before any text that cannot extend it, with the token's parts. |
| `JsonNumbers.ReadNumberIsToken` | java/cekat-event-sdk-core/src/main/java/ai/cekat/events/internal/Json.java:237-267 | Whatever is scanned as a number is a token of section 6 of RFC 8259 followed by the rest of the text. |
| `JsonNumbers.PrintedValue` | java/cekat-event-sdk-core/src/main/java/ai/cekat/events/internal/Json.java:38-39 | The printed token of a decimal denotes the same unscaled value and scale, in plain and in exponent notation. |
| `JsonNumbers.PrintedShape` | java/cekat-event-sdk-core/src/main/java/ai/cekat/events/internal/Json.java:38-39 | The printed token has an exponent exactly below adjusted exponent -6 or for a negative scale, then with one digit in front, and otherwise as many digits after the point as the scale says. |
| `JsonNumbers.PartsValueSays` | java/cekat-event-sdk-core/src/main/java/ai/cekat/events/internal/Json.java:266 | The pair a token denotes is its digits as one signed integer, and the count of its fraction digits less its exponent. |
| `JsonNumbers.PrintedFitsIff` | java/cekat-event-sdk-core/src/main/java/ai/cekat/events/internal/Json.java:266 | What a decimal prints is a token that `BigDecimal` takes again exactly when its digits and its negative scale do not add up to an exponent beyond 32 bits. |
| `JsonNumbers.OnlyLowestZeroOverflows` | java/cekat-event-sdk-core/src/main/java/ai/cekat/events/internal/PayloadEncoder.java:163-169 | Among the decimals the encoder lets through, the zero of scale -2^31 alone prints with such an exponent. |
| `JsonParser.WriteString` | java/cekat-event-sdk-core/src/main/java/ai/cekat/events/internal/Json.java:67-89 | The loop appends the quoted text with each unit escaped as specified; the specification is what the round trips are about. |
| `JsonParser.WriteTo` | java/cekat-event-sdk-core/src/main/java/ai/cekat/events/internal/Json.java:33-65 | The recursive writer with its separators appends the specified text of any value. |
| `JsonParser.WriteJson` | java/cekat-event-sdk-core/src/main/java/ai/cekat/events/internal/Json.java:27-31 | The returned text parses to the value with its numbers as decimals exactly up to depth 512 and if no number prints with an exponent beyond 32 bits. |
| `JsonParser.TokenReadsAlone` | java/cekat-event-sdk-core/src/main/java/ai/cekat/events/internal/Json.java:266 | Cutting the scanned token out of the text and reading it on its own gives the number that stood in the text. |
| `JsonParser.Parser.SkipWhitespace` | java/cekat-event-sdk-core/src/main/java/ai/cekat/events/internal/Json.java:277-285 | The position stops at the first unit that is not white space. |
| `JsonParser.Parser.Literal` | java/cekat-event-sdk-core/src/main/java/ai/cekat/events/internal/Json.java:269-275 | A literal is consumed whole or refused without moving. |
| `JsonParser.Parser.String` | java/cekat-event-sdk-core/src/main/java/ai/cekat/events/internal/Json.java:190-235 | The string loop answers, and leaves the position, as the specification of string tokens says, with each of its errors at its place. |
| `JsonParser.Parser.Escape` | java/cekat-event-sdk-core/src/main/java/ai/cekat/events/internal/Json.java:208-233 | One escape is read as specified, including the four characters after `\u` by way of `Integer.parseInt`; which unit that gives is stated by `JsonGrammar.SimpleEscapes` and `JsonGrammar.HexUnitIsRead`. |
| `JsonParser.Parser.ScanNumber` | java/cekat-event-sdk-core/src/main/java/ai/cekat/events/internal/Json.java:237-265 | Moving the position past sign, digits, fraction and exponent ends where the specified token ends, or fails where it fails. |
| `JsonParser.Parser.Number` | java/cekat-event-sdk-core/src/main/java/ai/cekat/events/internal/Json.java:237-267 | The number cut out between start and position is the specified decimal, or is refused when its scale or its exponent is not of 32 bits. |
| `JsonParser.Parser.Value` | java/cekat-event-sdk-core/src/main/java/ai/cekat/events/internal/Json.java:117-139 | Dispatch, depth bound and errors are as specified, from any position. |
| `JsonParser.Parser.Object` | java/cekat-event-sdk-core/src/main/java/ai/cekat/events/internal/Json.java:141-167 | The member loop builds the specified object; the last of equal keys wins and keeps the first one's place. |
| `JsonParser.Parser.Array` | java/cekat-event-sdk-core/src/main/java/ai/cekat/events/internal/Json.java:169-188 | The element loop builds the specified array. |
| `JsonParser.ParseJson` | java/cekat-event-sdk-core/src/main/java/ai/cekat/events/internal/Json.java:98-107 | The whole parse, with white space around the value, answers as specified; an error carries its reason and its offset. |
| `JsonValues.WordsAndPunctuation` | java/cekat-event-sdk-core/src/main/java/ai/cekat/events/internal/Json.java:117-139 | The three words and the punctuation are the ASCII texts of RFC 8259. |
| `JsonValues.PutStores` | java/cekat-event-sdk-core/src/main/java/ai/cekat/events/internal/Json.java:158 | After a put the key has the value and every other key what it had. |
| `JsonValues.PutKeepsPlaces` | java/cekat-event-sdk-core/src/main/java/ai/cekat/events/internal/Json.java:158 | A put keeps the places of all keys and appends a new key last. |
| `JsonGrammar.SimpleEscapes` | java/cekat-event-sdk-core/src/main/java/ai/cekat/events/internal/Json.java:213-220 | The one-letter escapes the parser reads are the eight of section 7 of RFC 8259, each with its character, and no others. |
| `JsonGrammar.HexUnitIsRead` | java/cekat-event-sdk-core/src/main/java/ai/cekat/events/internal/Json.java:221-230 | What `parseInt` and the cast to `char` make of four characters is 4096a + 256b + 16c + d of their hexadecimal values, in ASCII as RFC 8259 has them, or of a sign and three digits that number counted up or down from zero modulo 2^16; all else is refused. |
| `JsonGrammar.SyntaxReadsBack` | java/cekat-event-sdk-core/src/main/java/ai/cekat/events/internal/Json.java:117-139 | Started at the text of any syntax tree, followed by any text that cannot extend a number, the parser stops exactly after it with the tree's meaning, or reports nesting only when the tree is too deep, or a number only when one does not fit. |
| `JsonGrammar.TextOfSyntaxParses` | java/cekat-event-sdk-core/src/main/java/ai/cekat/events/internal/Json.java:98-139 | The text of a syntax tree, with any white space, parses to its meaning if it is nested at most 512 deep and `BigDecimal` takes its numbers, and is refused for one of these reasons that holds of it otherwise. |
| `JsonGrammar.ParsedTextHasSyntax` | java/cekat-event-sdk-core/src/main/java/ai/cekat/events/internal/Json.java:98-311 | Every accepted text is the text of a syntax tree within those bounds with the parsed meaning. |
| `JsonGrammar.ParserAcceptsGrammar` | java/cekat-event-sdk-core/src/main/java/ai/cekat/events/internal/Json.java:98-311 | A text parses to a value if and only if it is the text of a syntax tree that means the value, is nested at most 512 deep and has numbers `BigDecimal` takes; the grammar has its own escapes, words and white space. |
| `JsonGrammar.LastMemberWins` | java/cekat-event-sdk-core/src/main/java/ai/cekat/events/internal/Json.java:158 | Looking a key up in what an object text means gives the value of the last member with that key. |
| `JsonRoundTrip.WrittenSyntax` | java/cekat-event-sdk-core/src/main/java/ai/cekat/events/internal/Json.java:33-89 | What is written is the text of a tree of strict RFC 8259 syntax, as deep as the value and meaning the value; its numbers fit exactly if the value's print with exponents of 32 bits. |
| `JsonRoundTrip.ParseWrite` | java/cekat-event-sdk-core/src/main/java/ai/cekat/events/internal/Json.java:33-139 | Every value with distinct keys is written as strict RFC 8259 text for it; parsing the text succeeds exactly up to depth 512 and if no number prints with an exponent beyond 32 bits, gives the value back with its numbers as decimals, and is refused otherwise for a reason that holds. |
| `JsonRoundTrip.ParseIsNormalForm` | java/cekat-event-sdk-core/src/main/java/ai/cekat/events/internal/Json.java:98-188 | What the parser accepts has distinct keys and depth at most 512; written again it parses to the same value exactly if no decimal in it prints with an exponent beyond 32 bits, and is refused for that number otherwise. |
| `JsonRoundTrip.LargestIsNoNormalForm` | java/cekat-event-sdk-core/src/main/java/ai/cekat/events/internal/Json.java:266 | `10e2147483647` is accepted, and what is written for its value is refused. |
| `JsonRoundTrip.ExponentIsRefused` | java/cekat-event-sdk-core/src/main/java/ai/cekat/events/internal/Json.java:266 | `1.0e2147483648` has a scale of 32 bits and is refused for its exponent. |
| `JsonStrictness.SyntaxScanned` | java/cekat-event-sdk-core/src/main/java/ai/cekat/events/internal/Json.java:98-311 | The scan passes the text of a tree, in front of any text, exactly when every escape in the tree is four ASCII hexadecimal digits and the rest passes. |
| `JsonStrictness.TreeIsStrictIff` | java/cekat-event-sdk-core/src/main/java/ai/cekat/events/internal/Json.java:98-311 | All trees of one text are strict or none is, and one scan of the text tells which. |
| `JsonStrictness.RfcTextIff` | java/cekat-event-sdk-core/src/main/java/ai/cekat/events/internal/Json.java:98-311 | A text is RFC 8259 for a value, nested at most 512 deep and with numbers `BigDecimal` takes, if and only if it parses to the value and every `\u` in it is followed by four ASCII hexadecimal digits. |
| `JsonStrictness.AcceptedIsRfcIff` | java/cekat-event-sdk-core/src/main/java/ai/cekat/events/internal/Json.java:221-230 | Among the accepted texts the ones of RFC 8259 are exactly those that pass the scan. |
| `JsonStrictness.EscapeAccepted` | java/cekat-event-sdk-core/src/main/java/ai/cekat/events/internal/Json.java:221-230 | Four characters pass as an escape exactly when they are four digits of any script, or a sign and three of them. |
| `JsonStrictness.LenientString` | java/cekat-event-sdk-core/src/main/java/ai/cekat/events/internal/Json.java:221-230 | Every string of one accepted escape that is not four ASCII hexadecimal digits parses, and is not RFC 8259. |
| `JsonStrictness.SignedEscapeIsAccepted` | java/cekat-event-sdk-core/src/main/java/ai/cekat/events/internal/Json.java:226 | The text `"\u+041"` parses, and no strict RFC 8259 tree has that text. |
| `JsonUnicode.WriteIsUnicode` | java/cekat-event-sdk-core/src/main/java/ai/cekat/events/internal/Json.java:67-89 | The written text is the UTF-16 encoding of scalar values exactly when every string and key in the value is. |
| `ObjectGraphs.UnfoldingIsUnique` | node/src/node/validation.ts:101-159 | A value of the caller's heap unfolds to at most one tree. |
| `ObjectGraphs.CopyIffUnfolding` | java/cekat-event-sdk-core/src/main/java/ai/cekat/events/internal/PayloadEncoder.java:131-199 | The copy with an ancestor set, which terminates by that set alone, yields a tree exactly when the tree is the unfolding and within the depth bound. |
| `ObjectGraphs.CopyIffAcyclicAndLegal` | node/src/node/validation.ts:101-159 | Without a depth bound the copy succeeds exactly when no path reaches an illegal value or key and none returns to a container it has been in; sharing is allowed. |
| `ObjectGraphs.RefusalHasReason` | java/cekat-event-sdk-core/src/main/java/ai/cekat/events/internal/PayloadEncoder.java:131-199 | Each refusal names a fault that a path in the graph reaches: a cycle, a container too deep, an illegal key, text or number. |
| `GraphCopiers.JavaNormalize` | java/cekat-event-sdk-core/src/main/java/ai/cekat/events/internal/PayloadEncoder.java:131-193 | The Java copier answers as the specification, error kind included, and on success leaves the ancestor map as it found it. |
| `GraphCopiers.JavaMap` | java/cekat-event-sdk-core/src/main/java/ai/cekat/events/internal/PayloadEncoder.java:170-182 | The loop over a map's entries, which enters the map and leaves it on success, copies the specified members. |
| `GraphCopiers.JavaList` | java/cekat-event-sdk-core/src/main/java/ai/cekat/events/internal/PayloadEncoder.java:183-191 | The loop over a list's elements copies the specified elements. |
| `GraphCopiers.JavaText` | java/cekat-event-sdk-core/src/main/java/ai/cekat/events/internal/PayloadEncoder.java:201-216 | A text is passed on unchanged exactly when its surrogates are paired. |
| `GraphCopiers.PythonNormalize` | python/src/cekat_event_sdk/validation.py:151-174 | The Python copier answers as the specification and always leaves the ancestor set as it found it. |
| `GraphCopiers.PythonContainer` | python/src/cekat_event_sdk/validation.py:177-198 | Entering a container and leaving it in `finally` restores the set on success and on every error. |
| `GraphCopiers.NodeCopy` | node/src/node/validation.ts:101-159 | The Node.js copier terminates on every finite heap with no depth bound, answers as the specification, and restores its set. |
| `GraphCopiers.BoundedVersusUnbounded` | java/cekat-event-sdk-core/src/main/java/ai/cekat/events/internal/PayloadEncoder.java:131-199 | Java and Python accept the same graphs with the same trees and the same refusals; these are the graphs Node.js accepts whose tree is valid Unicode and at most 256 deep. |
| `GraphCopiers.UnfoldingIsWritable` | java/cekat-event-sdk-core/src/main/java/ai/cekat/events/internal/PayloadEncoder.java:111-114 | Whatever the copiers produce has distinct keys and numbers with printed tokens, as the writer needs. |
| `GraphCopiers.UnfoldingIsRereadableIff` | java/cekat-event-sdk-core/src/main/java/ai/cekat/events/internal/PayloadEncoder.java:131-193 | Every number in it prints as a token that `BigDecimal` takes again exactly if it does not hold the zero of scale -2^31. |
| `PayloadEncoder.TrimToNull` | java/cekat-event-sdk-core/src/main/java/ai/cekat/events/internal/PayloadEncoder.java:222-228 | Nothing is left exactly of a missing or blank text; what is left of any other is `PayloadEncoder.TrimmedIsCut`. |
| `PayloadEncoder.WhitespaceCharacters` | java/cekat-event-sdk-core/src/main/java/ai/cekat/events/internal/PayloadEncoder.java:226 | White space is the 25 units of `Character.isWhitespace`. |
| `PayloadEncoder.TrimmedIsCut` | java/cekat-event-sdk-core/src/main/java/ai/cekat/events/internal/PayloadEncoder.java:222-228 | What is left lies in the text between white space only, is not empty and has white space at neither end. |
| `PayloadEncoder.CutIsUnique` | java/cekat-event-sdk-core/src/main/java/ai/cekat/events/internal/PayloadEncoder.java:226 | Only one text lies so in another. |
| `PayloadEncoder.SentIdentity` | java/cekat-event-sdk-core/src/main/java/ai/cekat/events/internal/PayloadEncoder.java:99-109 | The event id sent is cut so from the event's, or is the generated one if that is missing or blank; the visitor is cut from the event's, and only if that is missing or blank from the ambient one. |
| `PayloadEncoder.NamesInAscii` | java/cekat-event-sdk-core/src/main/java/ai/cekat/events/internal/PayloadEncoder.java:98-112 | The nine field names. |
| `PayloadEncoder.SentIff` | java/cekat-event-sdk-core/src/main/java/ai/cekat/events/internal/PayloadEncoder.java:86-113 | The encoder refuses nothing exactly for an event with a key and an email or phone number that are not blank, valid Unicode in all texts sent, a time in range and properties that can be copied. |
| `PayloadEncoder.ProblemHasReason` | java/cekat-event-sdk-core/src/main/java/ai/cekat/events/internal/PayloadEncoder.java:87-113 | Every problem reported is there: the named text is not valid Unicode, the properties are refused for that reason, the key, event, identity or time is missing. |
| `PayloadEncoder.PutProperties` | java/cekat-event-sdk-core/src/main/java/ai/cekat/events/internal/PayloadEncoder.java:111-113 | The properties are put last, as the copy of the caller's map or its refusal, unless the map is empty. |
| `PayloadEncoder.EncodeEvent` | java/cekat-event-sdk-core/src/main/java/ai/cekat/events/internal/PayloadEncoder.java:86-115 | The first of the documented problems is reported; if there is none, the text is RFC 8259 for an object with exactly the payload's fields, event id and visitor cut of their white space, parses to it exactly if the properties do not hold the zero of scale -2^31, and is valid Unicode if the generated texts are. |
| `PayloadEncoder.PayloadRoundTrip` | java/cekat-event-sdk-core/src/main/java/ai/cekat/events/internal/PayloadEncoder.java:97-114 | The payload's text is RFC 8259 for, and but for that zero parses back to, an object holding each field under its name and nothing else, with properties equal to the unfolding of the caller's graph. |
| `PayloadEncoder.LowestZeroIsSent` | java/cekat-event-sdk-core/src/main/java/ai/cekat/events/internal/PayloadEncoder.java:163-169 | Properties of just that zero pass the encoder, and what is written for them is refused by the parser. |
| `PayloadEncoder.FieldsDepth` | java/cekat-event-sdk-core/src/main/java/ai/cekat/events/internal/PayloadEncoder.java:111-114 | Properties within the encoder's 256 levels leave the payload within the parser's 512. |
| `PayloadEncoder.PayloadIsUnicode` | java/cekat-event-sdk-core/src/main/java/ai/cekat/events/internal/PayloadEncoder.java:114 | The text given to the UTF-8 conversion is the encoding of scalar values, so that the conversion replaces nothing. |
| `RetryPolicy.BoundsAgree` | go/retry.go:80-88 | The clamped and shifted bounds of Go, Python, Java and Node.js are min(100·2^(n-1), 1000) ms for every n ≥ 1. |
| `RetryPolicy.NineDigits` | go/retry.go:46-55 | Nine digits stay below 10^9, so that in nanoseconds they fit in 64 bits. |
| `RetryPolicy.GoRetryAfter` | go/retry.go:41-65 | The 64-bit computation does not overflow and is never negative. |
| `RetryPolicy.FixedWidthAgrees` | java/cekat-event-sdk-core/src/main/java/ai/cekat/events/internal/RetryPolicy.java:58-75 | Go's nanoseconds and Java's milliseconds make the decision of the unbounded specification, and give its delay whenever it is honoured. |
| `RetryPolicy.LengthTestIsExact` | go/retry.go:46-50 | Judging digits by their length agrees with judging their value exactly when there are at most nine or the value is over five. |
| `RetryPolicy.PaddedSecondIsRefused` | go/retry.go:47-50 | One second written with nine leading zeros is taken for an unacceptable delay. |
| `Delivery.Deliver` | go/client.go:81-113 | A run makes at least one and at most retryCount + 1 attempts. |
| `Delivery.DeliverIsRun` | go/client.go:86-111 | Every attempt but the last was transient, the delays are the specified pauses, and the result is that of the last attempt. |
| `Delivery.RunIsUnique` | python/src/cekat_event_sdk/client.py:91-108 | Those conditions determine the run. |
| `Delivery.AcceptedIsLast` | node/src/node/delivery.ts:48-71 | A received 200 ends the run, acknowledged or as a decode failure, never a retry. |
| `Delivery.AcknowledgedIff` | go/client.go:86-111 | Attempt k is acknowledged exactly when it is a decodable 200 within the retries and everything before it was transient. |
| `Delivery.WhyRetried` | python/src/cekat_event_sdk/client.py:95-107 | Every attempt before the last was a transport failure or one of the listed statuses with at most five seconds of Retry-After, and its pause is the draw or that, whichever is longer. |
| `Delivery.WhyEnded` | python/src/cekat_event_sdk/client.py:95-108 | The last attempt is worth another only when the retries are used up, and the result says what it met. |
| `Delivery.PausesRespectServer` | python/src/cekat_event_sdk/retry.py:46-53 | Each pause is at least what the server asked for, at most the larger of that and the bound, and at most five seconds. |
| `Delivery.TotalSleep` | go/client.go:100-106 | A run sleeps at most 5000·r ms; with no Retry-After and r ≥ 4, at most 1500 + 1000·(r-4). |
| `DeliveryLoops.PythonTrack` | python/src/cekat_event_sdk/client.py:91-108 | The loop sends, sleeps and returns exactly what the specification says, on every transcript and jitter stream. |
| `DeliveryLoops.PythonRetryDelay` | python/src/cekat_event_sdk/retry.py:46-53 | None exactly when the server's delay is over the cap, without drawing jitter; otherwise the specified pause. |
| `DeliveryLoops.JavaTrack` | java/cekat-event-sdk-core/src/main/java/ai/cekat/events/CekatClient.java:155-182 | Whenever the thread is interrupted: if the loop completes it made the specified run, with a 32-bit counter that never overflows for a retry count the options accept; else it found the interruption and made a beginning of that run, every request having passed the head check. |
| `DeliveryLoops.NodeAttempt` | node/src/node/delivery.ts:52-62 | An attempt that does not end in the abort reason is an acknowledgement, a response to retry or an error, as the outcome and the attempts left say. |
| `DeliveryLoops.NodeBackoff` | node/src/node/delivery.ts:130-142 | The longer of jitter and Retry-After is slept unless the signal is found aborted before, meanwhile or after. |
| `DeliveryLoops.NodeDeliver` | node/src/node/delivery.ts:45-75 | The same for the loop that decides inside the attempt's callback, with an abort signal raised at any moment. |
| `DeliveryLoops.DotnetTrack` | dotnet/src/Cekat.EventSdk/CekatClient.cs:128-160 | The same for the .NET loop with its cancellation token. |
| `Cancellation.AtMostOneRequestAfter` | node/src/node/delivery.ts:48-49 | Once the signal is cancelled no attempt passes the head check of any of these loops, and at most the request admitted last is still sent. |
| `GoDelivery.RetryAttempts` | go/retry.go:21-27 | The number of attempts is offered exactly when an int can hold it. |
| `GoDelivery.DoAttempt` | go/client.go:115-158 | An attempt is classified by its outcome and, for a transport failure, by the context at that moment. |
| `GoDelivery.GoPause` | go/client.go:103-110 | The larger of jitter and Retry-After is slept, unless cancellation interrupts it. |
| `GoDelivery.Deliver64` | go/client.go:81-113 | The Go loop, in 64-bit integers and with cancellation at any tick, does what its specification says; an unrepresentable retry count sends nothing. |
| `GoDelivery.UncancelledIsDelivery` | go/client.go:86-111 | Without cancellation that is the common specification: same attempts, delays and result. |
| `GoDelivery.AttemptsAreAdmitted` | go/client.go:87-90 | Every request sent passed a head check of its own while the context was not cancelled. |
| `GoDelivery.AcknowledgementSurvives` | go/client.go:90-96 | Whatever the context does and when, a run that has sent ends acknowledged exactly if its last attempt received a decodable 200. |
| `GoDelivery.RunIsBeginning` | go/client.go:86-111 | Under any cancellation, attempts and pauses are a beginning of those of the common specification, and all of them, with its result, unless the run ends with the context's error. |
| `GoDelivery.AtMostOneAfterCancellation` | go/client.go:86-98 | After cancellation no iteration passes the head check, and at most the attempt admitted just before is still sent. |
| `GoDelivery.EndingUnderCancellation` | go/client.go:86-111 | A run ends with the context's error only if the context is cancelled by the head check that follows its last attempt and pause, and with an attempt's own final error only if it was not yet cancelled at the check after that attempt. |
| `JournalHeaders.AppendValues` | conformance/mock-ingest-server/internal/state/state.go:143 | The values land behind those already under the name, in an array no other name and no caller has. |
| `JournalHeaders.LowerIff` | conformance/mock-ingest-server/internal/server/server.go:115 | Lowering a name adds 32 to each capital and keeps everything else, so that no capital is left. |
| `JournalHeaders.MergeHeaders` | conformance/mock-ingest-server/internal/server/server.go:113-117 | Whatever the iteration order, the loop gathers under each lowered name all the values of the names that lower to it, in new arrays no two names share; headers with lowered names keep their values in order. |
| `JournalHeaders.SortValues` | conformance/mock-ingest-server/internal/server/server.go:120-122 | Sorting each slice in place leaves every name its own values, sorted. |
| `JournalHeaders.NormalizeHeaders` | conformance/mock-ingest-server/internal/server/server.go:113-122 | The result is the journal form, in new arrays: no name has a capital, every request name is there with 32 added to its capitals and no other change, values of merged names are sorted, none lost or added; the request's own headers are untouched. |
| `JournalHeaders.JournalFormIsUnique` | conformance/mock-ingest-server/internal/server/server.go:118-122 | Headers have only one journal form, so iteration order does not show. |
| `MockState.CopyNormalizedHeaders` | conformance/mock-ingest-server/internal/state/state.go:135-146 | The copy is a new map over new arrays; on normalized headers it is the identity by value. |
| `MockState.CopyResponses` | conformance/mock-ingest-server/internal/state/state.go:101-116 | The copy is a new slice whose elements have new maps, equal by value. |
| `MockState.CopyRequests` | conformance/mock-ingest-server/internal/state/state.go:94-98 | The copy is a new slice whose elements have new maps over new arrays, equal by value. |
| `MockState.State.Reset` | conformance/mock-ingest-server/internal/state/state.go:42-49 | Queue, journal and numbering start over. |
| `MockState.State.ReplaceResponses` | conformance/mock-ingest-server/internal/state/state.go:52-59 | The queue holds copies of exactly the given responses, in a new slice with new maps; the journal is untouched. |
| `MockState.State.Record` | conformance/mock-ingest-server/internal/state/state.go:62-71 | The journal gains a copy of the request, down to the values of its headers, with the next number; normalized headers are kept exactly. |
| `MockState.State.NextResponse` | conformance/mock-ingest-server/internal/state/state.go:74-87 | The oldest response is removed and a copy of it, with a map of its own, returned. |
| `MockState.State.Requests` | conformance/mock-ingest-server/internal/state/state.go:90-99 | The snapshot equals the journal and shares no slice, map or value array with it. |
| `MockState.QueueThenScribble` | conformance/mock-ingest-server/internal/state/state.go:52-59 | Writing to the script's slots and maps after queueing it does not change the state. |
| `MockState.RecordThenScribble` | conformance/mock-ingest-server/internal/state/state.go:62-71 | Writing to the request's header map, and to each value in it, after recording does not change the state. |
| `MockState.TakeThenScribble` | conformance/mock-ingest-server/internal/state/state.go:74-87 | Writing to a returned response does not change the state. |
| `MockState.ReadThenScribble` | conformance/mock-ingest-server/internal/state/state.go:90-99 | Writing to a snapshot's slots, header maps and single header values does not change the state. |
| `MockInterleaving.EveryInterleaving` | conformance/mock-ingest-server/internal/state/state.go:42-99 | In every interleaving the journal has exactly the requests of the ingests that recorded since the last reset, each once, in order and numbered from 1; responses taken and responses queued make up the script in order; each response goes to one ingest; and records plus ingests carried over a reset equal responses taken plus ingests in flight. |
| `MockInterleaving.RecordsTallyIff` | conformance/mock-ingest-server/internal/server/server.go:123-130 | Records and answers tally exactly when no ingest was in flight at the last reset. |
| `MockInterleaving.AnswersAreFinal` | conformance/mock-ingest-server/internal/server/server.go:130-136 | No later step changes what an ingest was answered. |
| `MockInterleaving.ConsumesInQueueOrder` | conformance/mock-ingest-server/internal/state/state.go:74-87 | The k-th ingest to take a response since a script was installed gets its k-th entry. |
| `MockInterleaving.ResetLosesRecordInFlight` | conformance/mock-ingest-server/internal/server/server.go:123-130 | A reset between record and response leaves an answered ingest that is not in the journal. |
| `MockComposition.HandleIngest` | conformance/mock-ingest-server/internal/server/server.go:107-136 | An ingest journals the normalized request, its header names without capitals, then takes the next response. |
| `MockComposition.AttemptsOfScript` | go/client.go:86-111 | A script with a retryable prefix of length p is answered with min(r + 1, 1 + p) attempts, and the last one decides the result. |
| `MockComposition.OneEntry` | conformance/mock-ingest-server/internal/server/server.go:130-172 | An empty script is acknowledged at once; a single entry gives what its status, body and two disconnects say, and is followed by the default if worth a retry. |
| `MockComposition.Serve` | conformance/mock-ingest-server/internal/server/server.go:107-136 | From a reset, n requests of one delivery are answered with the script's first n entries and then the default; the journal holds n records of that request's method, path, normalized headers and body, numbered 1..n, and the queue is the script without its first n entries. |
| `MockComposition.RunLoop` | go/client.go:81-113 | The loop of each of the five SDKs, not cancelled, makes the specified run. |
| `MockComposition.DeliverToMock` | conformance/mock-ingest-server/internal/server/server.go:107-136 | From a reset, for every script and retry count and for the Python, Java, Node.js, .NET and Go loops, what each attempt meets is what the server answers it; attempts, result, journal and queue are those of the script. |
| `BoundedBody.CaptureOfPrefix` | python/src/cekat_event_sdk/protocol.py:72-88 | Everything after 65,537 bytes is immaterial, a failure included. |
| `BoundedBody.CaptureSays` | python/src/cekat_event_sdk/protocol.py:72-88 | A body of at most 65,536 bytes is kept whole, with its failure; a longer one is cut there, counted as 65,537 and marked truncated, and its failure is not reported. |
| `BoundedBody.FlattenSplit` | python/src/cekat_event_sdk/client.py:120-124 | Chunks read so far and chunks to come make up the body, at every cut. |
| `BoundedBody.BoundedBuffer.Append` | php/src/Transport/BoundedBodyBuffer.php:18-26 | The buffer holds the first 65,537 bytes of what was appended, and asks for more exactly until it has seen the last of them. |
| `BoundedBody.AppendReader` | python/src/cekat_event_sdk/client.py:117-129 | For every chunking, the appending reader, which stops early, reports the first 65,536 bytes, the bounded count and truncation of the whole body. |
| `BoundedBody.RemainingReader` | node/src/node/body.ts:15-61 | The reader that fills an array in place reports the same, and throws exactly when the stream fails before the sentinel. |
| `BoundedBody.RecoveredIsCaptureIff` | node/src/node/delivery.ts:178-186 | After the recovery in its caller it agrees with the other readers exactly unless the stream fails after at least one byte and before the sentinel. |
| `BoundedBody.FailedReadLosesBytes` | node/src/node/delivery.ts:178-186 | One byte and then a failure: the other readers keep the byte, this one does not. |
| `BoundedBody.FillReader` | dotnet/src/Cekat.EventSdk/CekatClient.cs:183-209 | The reader that reads into the rest of its array, whatever each read yields, reports the same. |
| `PublishableModules.SplitSlashPath` | go/internal/packageprep/main.go:146-152 | A path splits at its last slash into parts that rejoin to it. |
| `PublishableModules.OwnerIsInnermost` | go/internal/packageprep/main.go:127-132 | The longest-prefix loop finds a module directory above the file with none between them. |
| `PublishableModules.InternalIff` | go/internal/packageprep/main.go:137 | A directory is internal exactly when its first path element is that word. |
| `PublishableModules.InnermostIsUnique` | go/internal/packageprep/main.go:116-117 | A file has only one innermost module. |
| `Ordering.LexLeIff` | go/internal/packageprep/main.go:142 | Directories and header values are ordered with a text after its beginnings, and otherwise by the first character that differs. |
| `PublishableModules.Publish` | go/internal/packageprep/main.go:118-144 | The result holds, strictly sorted by directory, exactly the modules that own files and are not internal, each with exactly the files it owns. |
| `PublishableModules.PublicationAssigns` | go/internal/packageprep/main.go:118-144 | Every file is listed, trimmed, by the module of its innermost directory, and by no second module of that directory, unless that directory is internal. |
| `PublishableModules.PublicationPartitions` | go/internal/packageprep/main.go:118-144 | Of all modules and all paths in them, exactly one stands for a tracked file, in its innermost module, or none does, exactly when that is internal; no module lists a path twice. |
| `PublishableModules.PublicationIsTracked` | go/internal/packageprep/main.go:133 | Prefixing a published file with its directory gives a tracked file that this module owns. |
| `PublishableModules.NestedModuleOwnsGoMod` | go/internal/packageprep/main.go:120-124 | A nested module owns its own go.mod, so it is published unless it is internal. |
| `PublishableModules.RejoinRestores` | go/internal/packageprep/main.go:133 | The directory and the trimmed path give a file back, unless a root file begins with a slash. |
| `PublishableModules.SafePathsRejoin` | go/internal/packageprep/main.go:249-256 | They always do for a path that `safeRelativePath` lets through, which is every path that `publishableModules` is given. |
| `PublishableModules.SafeFilesAreRelative` | go/internal/packageprep/main.go:185 | Files that the guard lets through satisfy what the partition asks of them. |
| `PublishableModules.ArchiveStemCollides` | go/internal/packageprep/main.go:109-114 | Two directories share an archive name exactly when they differ only in slashes against hyphens. |
| `PublishableModules.DistinctModulesCollide` | go/internal/packageprep/main.go:109-114 | Two tracked go.mod files whose modules are both published under one archive name. |
| `Accounting.Account` | scripts/conformance.py:105-131 | Started from any outcome, the loop adds the counts and problems of the records, then the repeated and the missing ids in sorted lists; it adds no problem exactly when the records match the fixtures one to one with legal statuses. |
| `Accounting.Tally` | scripts/conformance.py:107-124 | The loop keeps the number of occurrences of each id and the counts and problems of the records. |
| `Accounting.AccountRecord` | scripts/conformance.py:111-124 | Each record adds to one counter or adds one problem, and a deviation only with a pass. |
| `Accounting.CountsSay` | scripts/conformance.py:114-121 | The three counters count the records of known fixtures that passed, that passed with a deviation, and that are declared not applicable. |
| `Accounting.CountIsPlaces` | scripts/conformance.py:110-124 | To count is to give the number of places in the list that have the property. |
| `Accounting.ProblemSays` | scripts/conformance.py:114-124 | A record's problem is an unknown fixture, an undeclared not_applicable or another status, each exactly when that is so, and otherwise there is none. |
| `Accounting.NoneAddedIffMatches` | scripts/conformance.py:125-131 | Nothing is reported exactly when every record is legal, no id repeats and every fixture has a record. |
| `Accounting.CleanRunAccountsForAll` | scripts/conformance.py:105-131 | Then there are as many records as fixtures, each passed or declared not applicable; the two counts add up to the fixtures, and the two sets of ids are disjoint and cover them. |
| `AllowedTargets.CanonicalMatchesTheSame` | node/src/browser/allowlist.ts:39-52 | Removing duplicates and sorting does not change which URLs are HTTP or HTTPS with the origin and a beginning of the path of a listed target. |
| `AllowedTargets.MatchesIffAllows` | node/src/browser/allowlist.ts:49-52 | A URL matches exactly when it is HTTP or HTTPS and some listed target has its origin and a beginning of its path. |
| `AllowedTargets.AcceptedTarget` | node/src/browser/allowlist.ts:13-36 | A target is accepted exactly as a bare HTTP or HTTPS origin with the path prefix given, which begins with a slash, or `/`. |
| `AllowedTargets.AcceptedEach` | node/src/browser/allowlist.ts:42 | A list is accepted exactly when each target is, in its place. |
| `AllowedTargets.SameFormIffSameTargets` | node/src/browser/allowlist.ts:39-46 | Allowlists the collation tells apart have one canonical form exactly when they name the same targets. |
| `AllowedTargets.OrderIsImmaterialIff` | node/src/browser/allowlist.ts:43-45 | The order and repetition in which targets are listed is immaterial to the canonical form exactly when the collation tells the targets apart. |
| `AllowedTargets.VisibleOrderIsCollation` | node/src/browser/allowlist.ts:44-45 | Comparing origins and then prefixes with soft hyphens ignored, as collations do, is a collation. |
| `AllowedTargets.SoftHyphenTies` | node/src/browser/allowlist.ts:44-45 | It ties two distinct targets. |
| `AllowedTargets.TieShows` | node/src/browser/allowlist.ts:43-45 | Two tied targets have a canonical form for each order they are listed in. |
| `AutoPropagation.Page.Enable` | node/src/browser/auto.ts:46-59 | An invalid or different configuration is refused with nothing changed, the same one gets the active handle, and otherwise the four wrappers are installed over the browser's own functions. |
| `AutoPropagation.Page.Disable` | node/src/browser/auto.ts:115-124 | Only the active handle uninstalls, and it puts the browser's own functions back; any older handle does nothing. |
| `AutoPropagation.Page.CallOpen` | node/src/browser/auto.ts:74-81 | Through whichever function is called, the browser's open runs once and the wrapper then forgets what it knew of the object. |
| `AutoPropagation.Page.CallSetRequestHeader` | node/src/browser/auto.ts:83-93 | The header reaches the browser once, and a page's visitor header is remembered unless the browser refused it. |
| `AutoPropagation.Page.CallSend` | node/src/browser/auto.ts:95-108 | The header is added first when due, is remembered only if the browser took it, and the send happens only then. |
| `AutoPropagation.Page.CallFetch` | node/src/browser/auto.ts:61-72 | Through whichever function is called, at most one request reaches the browser, the specified one; a failed construction or copy sends nothing. What is passed on is `PropagationRuns.FetchIsLegitimate`. |
| `PropagationRuns.RunIsSound` | node/src/browser/auto.ts:46-127 | In every run, what the wrappers remember is true of the log, and every header added was justified by it. |
| `PropagationRuns.TruthIsTrue` | node/src/browser/auto.ts:74-93 | The summary of the log since the last open says, event by event, which open that was and whether the header was set or added since. |
| `PropagationRuns.InjectionIsLegitimate` | node/src/browser/auto.ts:95-106 | Every header added in any run is for the last open of its object, for an HTTP or HTTPS URL with the origin of a target in the allowlist in force whose prefix begins the path, and the first since that open; the page set one since only inside open. |
| `PropagationRuns.FetchIsLegitimate` | node/src/browser/auto.ts:61-72 | In any run, each fetch that reaches the browser has the URL given and the request's own visitor header if it had one; otherwise it has the current visitor's exactly if the log shows an allowlist in force with a target of the URL's origin and a beginning of its path. |
| `PropagationRuns.FetchRejectsIff` | node/src/browser/auto.ts:61-72 | A fetch is rejected, with nothing sent, exactly if the request cannot be constructed or, for an allowed URL, cannot be copied. |
| `PropagationRuns.SendReachesTheBrowser` | node/src/browser/auto.ts:95-108 | A send logs at most one added header and then itself, and nothing at all when the browser refuses the header. |
| `PropagationRuns.AtMostOncePerOpen` | node/src/browser/auto.ts:98-106 | Between two headers added to one object lies an open of it. |
| `PropagationRuns.NeverAfterThePagesOwn` | node/src/browser/auto.ts:89-101 | If no handler sets the header inside open, no header is ever added after the page's own. |
| `PropagationRuns.OpenThenSend` | node/src/browser/auto.ts:74-108 | Opening a URL of a listed origin and prefix and sending adds the header in every installed state, on top of the page's own exactly when a handler set that inside open. |
| `PropagationRuns.HandlerHeaderIsOverlooked` | node/src/browser/auto.ts:74-81 | A run from the start in which the header is added after the page's own. |
| `PropagationRuns.InjectsIff` | node/src/browser/auto.ts:95-106 | In any run, send adds the header exactly when the log since the installation shows a returned open of a URL of a listed origin and prefix, no header set or added since, and there is a visitor. |
| `PropagationRuns.InstalledUntilDisabled` | node/src/browser/auto.ts:115-126 | An installation survives every run that does not use its own handle, and its handle then removes it. |
| `PropagationRuns.EnableAgainIff` | node/src/browser/auto.ts:49-52 | However long after, enabling again gives the same handle exactly for the same set of targets, and never changes anything. |
| `PropagationRuns.TiedOrderIsRefused` | node/src/browser/auto.ts:47-51 | Asking again for two tied targets in the other order is refused as a different configuration. |
| `PropagationRuns.ReorderedIsRefused` | node/src/browser/auto.ts:47-51 | A collation and two targets for which that happens. |

## Left out

- `GoDelivery.Deliver64`: takes the jitter as a stream of draws within their bounds; `fullJitter`, the only function the SDK installs, draws no other.
- `DeliveryLoops.NodeDeliver`: the attempt's own timeout is an outcome of the transcript, a transport failure, as it is for the other loops.
- `RetryPolicy.FixedWidthAgrees`: takes an HTTP-date's delay as a parameter in whole milliseconds, so a date within a millisecond of the cap, which Go and Java may judge differently, is outside; the header is already trimmed. Date formats and clocks are library behaviour.
- `GraphCopiers.PythonNormalize`: takes a `Decimal` for the double it is converted to; the rounding of `float()` is not modelled.
- `GraphCopiers.NodeCopy`: does not model getters, sparse arrays or objects that change while they are read; they are refused by branches of their own. Strings with unpaired surrogates pass, as in the source.
- `JsonNumbers.PrintedValue`: relies on the documented text of `BigDecimal.toString`; a `Double` is carried as its printed token.
- `Decimals.JavaRejectsUnsafeIntegers`: does not tell the `ArithmeticException` with which `stripTrailingZeros` refuses some unsafe integers from the encoder's own exception.
- `JsonParser.Parser.Number`: gives the refusal of a scale or exponent an offset; the `NumberFormatException` of the source carries none.
- `JsonParser.Parser.Value`: does not model the depth of the JVM stack.
- `PayloadEncoder.EncodeEvent`: the formatted instant and the generated id are parameters, UTF-8 conversion is not modelled, and the paths and wording of error messages are reduced to their kind.
- `MockState.State.Record`: numbers are unbounded; the wrap-around of the 64-bit sequence counter is not modelled. Header names are ASCII. `append` always allocates, so spare capacity is not modelled, and a nil slice is an empty one.
- `MockComposition.DeliverToMock`: the response is observed as scripted, so delays never outlast the client's timeout; how a client reads Retry-After from headers and whether it decodes a body are parameters.
- `AutoPropagation.Page.Open`: an event handler that runs inside open may set the visitor header, but not open, send, enable or disable.
- `AutoPropagation.Page.Valid`: nothing else assigns to the four globals, as the design assumes.
- `AutoPropagation.Page.Enable`: the JSON text that identifies a configuration is modelled as the list of targets it renders, and that `fetch` or `XMLHttpRequest` exist is taken for granted.
- `AllowedTargets.OrderIsImmaterialIff`: the locale's collation is any total preorder; URL parsing is a parameter, and two targets are the same when origin and prefix are, which the source's joined key decides because an origin has no NUL.
- The library sorts (`sort.Strings`, `sort.Slice`, `sorted`, `Array.prototype.sort`) are modelled by insertion sort; only sortedness, content and, for targets, stability are used.
- Go's `strings.ToLower` and the checks on HTTP header names are modelled for ASCII.
- The PHP and Ruby retry loops and the PHP encoder: they repeat shapes that are modelled for other languages.
- `withOrderPaidProperties` and its relatives: one-branch checks around the encoder.
- Response envelopes beyond "a 200 decodes or not", error classes, status texts and User-Agent strings.
- Options and origin validation, Stripe metadata, visitor cookies and headers on the server side.
- Framework integrations and the thread-, fiber- and async-local visitor scope: they rest on host semantics.
- Sockets, timeouts, redirects and connection reuse: an attempt is an outcome the environment picks.
- Archive writing, manifests, release and documentation scripts, process supervision of the conformance run.
- Go's portable number test: it rounds through a double; the exact decimal tests are modelled instead.
