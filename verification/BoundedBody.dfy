/**
 Bounded capture of a response body. However the transport cuts the body into chunks, every reader keeps its first
 65,536 bytes, observes at most one byte more, and reports truncation exactly when there is one.

 A chunked stream may end with a failure after its last chunk. A reader that has seen the extra byte stops and never
 meets the failure.
 */
module BoundedBody {
  import opened Results

  type Byte = b: int | 0 <= b < 256
  type Bytes = seq<Byte>

  const MAX_BODY_BYTES := 65_536

  function Min(a: nat, b: nat): nat {
    if a < b then a else b
  }

  function Flatten(chunks: seq<Bytes>): Bytes {
    if chunks == [] then [] else chunks[0] + Flatten(chunks[1..])
  }

  lemma {:induction false} FlattenSnoc(chunks: seq<Bytes>, chunk: Bytes)
    ensures Flatten(chunks + [chunk]) == Flatten(chunks) + chunk
  {
    if chunks == [] {
      assert [chunk][1..] == [] && ([] + [chunk]) == [chunk];
      assert chunk + [] == chunk && [] + chunk == chunk;
    } else {
      var all := chunks + [chunk];
      assert all[1..] == chunks[1..] + [chunk];
      FlattenSnoc(chunks[1..], chunk);
      assert chunks[0] + (Flatten(chunks[1..]) + chunk) == (chunks[0] + Flatten(chunks[1..])) + chunk;
    }
  }

  /** What a reader reports: the kept bytes, how many it looked at, and whether the stream's failure reached it. */
  datatype Captured = Captured(retained: Bytes, observed: nat, truncated: bool, failed: bool)

  /** The documented capture of a body whose stream then ends, with or without a failure. */
  function Capture(body: Bytes, fails: bool): Captured {
    Captured(body[..Min(|body|, MAX_BODY_BYTES)], Min(|body|, MAX_BODY_BYTES + 1), |body| > MAX_BODY_BYTES,
             fails && |body| <= MAX_BODY_BYTES)
  }

  /** The first 65,536 bytes are kept, one more is looked at, and a failure counts only before that. */
  lemma CaptureSays(body: Bytes, fails: bool)
    ensures var c := Capture(body, fails);
      && c.retained <= body && (|c.retained| == 65_536 || c.retained == body) && |c.retained| <= 65_536
      && (|body| <= 65_536 ==> c.observed == |body| && !c.truncated && c.failed == fails)
      && (|body| > 65_536 ==> c.observed == 65_537 && c.truncated && !c.failed)
  {
  }

  /** Only the first 65,537 bytes matter: a longer body is captured like any other with the same beginning. */
  lemma CaptureOfPrefix(prefix: Bytes, more: Bytes, fails: bool, failsThen: bool)
    requires |prefix| == MAX_BODY_BYTES + 1
    ensures Capture(prefix + more, fails) == Capture(prefix, failsThen)
  {
  }

  /** The chunks after some index follow what was read before it. */
  lemma FlattenFrom(chunks: seq<Bytes>, i: nat)
    requires i < |chunks|
    ensures Flatten(chunks[..i + 1]) == Flatten(chunks[..i]) + chunks[i]
  {
    assert chunks[..i + 1] == chunks[..i] + [chunks[i]];
    FlattenSnoc(chunks[..i], chunks[i]);
  }

  lemma {:induction false} FlattenSplit(chunks: seq<Bytes>, i: nat)
    requires i <= |chunks|
    ensures Flatten(chunks) == Flatten(chunks[..i]) + Flatten(chunks[i..])
  {
    if i == 0 {
      assert chunks[..0] == [] && chunks[0..] == chunks;
      assert [] + Flatten(chunks) == Flatten(chunks);
    } else {
      FlattenSplit(chunks, i - 1);
      FlattenFrom(chunks, i - 1);
      assert chunks[i - 1..][1..] == chunks[i..];
      var a, b, c := Flatten(chunks[..i - 1]), chunks[i - 1], Flatten(chunks[i..]);
      assert a + (b + c) == (a + b) + c;
    }
  }

  // --- Python and PHP: a buffer that appends -------------------------------------------------------------------

  class BoundedBuffer {
    var data: Bytes

    constructor ()
      ensures data == []
    {
      data := [];
    }

    /** Appends as much of the chunk as there is room for; false once the extra byte has been observed. */
    method Append(chunk: Bytes) returns (more: bool)
      requires |data| <= MAX_BODY_BYTES + 1
      modifies this
      ensures data == (old(data) + chunk)[..Min(|old(data) + chunk|, MAX_BODY_BYTES + 1)]
      ensures more <==> |data| <= MAX_BODY_BYTES
    {
      var room := MAX_BODY_BYTES + 1 - |data|;
      ghost var all := data + chunk;
      if room > 0 {
        data := data + chunk[..Min(|chunk|, room)];
      }
      assert data == all[..|data|];
      return |data| <= MAX_BODY_BYTES;
    }

    function Retained(): Bytes
      reads this
    {
      data[..Min(|data|, MAX_BODY_BYTES)]
    }

    predicate Overflowed()
      reads this
    {
      |data| > MAX_BODY_BYTES
    }
  }

  /** The read loop of the Python client: stop when the buffer says so, remember a failure otherwise. */
  method AppendReader(chunks: seq<Bytes>, fails: bool) returns (r: Captured)
    ensures r == Capture(Flatten(chunks), fails)
  {
    var buffer := new BoundedBuffer();
    ghost var body := Flatten(chunks);
    var stopped := false;
    var i := 0;
    while i < |chunks| && !stopped
      invariant i <= |chunks|
      invariant stopped <==> |buffer.data| == MAX_BODY_BYTES + 1
      invariant !stopped ==> buffer.data == Flatten(chunks[..i])
      invariant buffer.data <= body && |buffer.data| <= MAX_BODY_BYTES + 1
      decreases |chunks| - i
    {
      FlattenFrom(chunks, i);
      FlattenSplit(chunks, i + 1);
      assert buffer.data + chunks[i] <= body;
      var more := buffer.Append(chunks[i]);
      i := i + 1;
      if !more {
        stopped := true;
      }
    }
    if stopped {
      CaptureOfPrefix(buffer.data, body[|buffer.data|..], fails, false);
      assert buffer.data + body[|buffer.data|..] == body;
    } else {
      assert chunks[..i] == chunks;
    }
    var truncated := buffer.Overflowed();
    return Captured(buffer.Retained(), |buffer.data|, truncated, fails && !stopped && !truncated);
  }

  // --- Node.js: count down the remaining room ------------------------------------------------------------------

  method SetAt(retained: array<Byte>, bytes: Bytes, offset: nat)
    requires offset + |bytes| <= retained.Length
    modifies retained
    ensures retained[..offset] == old(retained[..offset])
    ensures retained[..offset + |bytes|] == old(retained[..offset]) + bytes
  {
    for k := 0 to |bytes|
      invariant retained[..offset] == old(retained[..offset])
      invariant retained[offset..offset + k] == bytes[..k]
    {
      retained[offset + k] := bytes[k];
      assert bytes[..k + 1] == bytes[..k] + [bytes[k]];
    }
    assert bytes[..|bytes|] == bytes;
    assert retained[..offset + |bytes|] == retained[..offset] + retained[offset..offset + |bytes|];
  }

  /** The capture, or None for the exception when the stream fails before the extra byte. */
  function CaptureOrThrow(body: Bytes, fails: bool): Option<Captured> {
    if Capture(body, fails).failed then None else Some(Capture(body, fails))
  }

  /** readBoundedBody; a failure of the stream is thrown to the caller. */
  method RemainingReader(chunks: seq<Bytes>, fails: bool) returns (r: Option<Captured>)
    ensures r == CaptureOrThrow(Flatten(chunks), fails)
  {
    var retained := new Byte[MAX_BODY_BYTES](_ => 0);
    var length: nat := 0;
    var bodyTruncated := false;
    var observed: nat := 0;
    ghost var body := Flatten(chunks);
    var i := 0;
    while true
      invariant i <= |chunks| && length <= MAX_BODY_BYTES && !bodyTruncated
      invariant retained[..length] == Flatten(chunks[..i]) && observed == length
      decreases |chunks| - i
    {
      if i == |chunks| {
        break;
      }
      var value := chunks[i];
      var remaining := MAX_BODY_BYTES - length;
      ghost var before := Flatten(chunks[..i]);
      FlattenFrom(chunks, i);
      FlattenSplit(chunks, i + 1);
      i := i + 1;
      observed := observed + Min(|value|, remaining + 1);
      if |value| <= remaining {
        SetAt(retained, value, length);
        length := length + |value|;
        continue;
      }
      if remaining > 0 {
        SetAt(retained, value[..remaining], length);
      }
      assert retained[..MAX_BODY_BYTES] == before + value[..remaining];
      assert (before + value)[..MAX_BODY_BYTES] == before + value[..remaining];
      assert body[..MAX_BODY_BYTES] == (before + value)[..MAX_BODY_BYTES];
      length := MAX_BODY_BYTES;
      bodyTruncated := true;
      break;
    }
    if !bodyTruncated {
      assert chunks[..i] == chunks;
      assert body[..|body|] == body;
      if fails {
        return None;
      }
    }
    return Some(Captured(retained[..length], observed, bodyTruncated, false));
  }

  /** classifyResponse goes on with an empty body when reading it threw. */
  function Recovered(r: Option<Captured>): Captured {
    match r case None => Captured([], 0, false, true) case Some(captured) => captured
  }

  /** It then has what the other readers report, except for a stream that fails after some bytes, but not too many. */
  lemma RecoveredIsCaptureIff(body: Bytes, fails: bool)
    ensures Recovered(CaptureOrThrow(body, fails)) == Capture(body, fails) <==>
            !(fails && 0 < |body| <= MAX_BODY_BYTES)
  {
    if fails && 0 < |body| <= MAX_BODY_BYTES {
      assert Capture(body, fails).observed == |body|;
    }
  }

  /** One byte, then a failure: it is kept by the appending readers and lost by the other. */
  lemma FailedReadLosesBytes()
    ensures Capture([0x41], true) == Captured([0x41], 1, false, true)
    ensures Recovered(CaptureOrThrow([0x41], true)) == Captured([], 0, false, true)
  {
    assert [0x41][..1] == [0x41];
  }

  // --- .NET: fill an array with whatever each read returns ------------------------------------------------------

  /**
   A stream read into at most n bytes: it returns between 1 and n of the bytes that are left, as it pleases, and 0 at
   the end. The size of each read is arbitrary.
   */
  method ReadSome(left: Bytes, n: nat) returns (read: nat)
    requires n > 0
    ensures read <= n && read <= |left| && (read == 0 <==> left == [])
  {
    if left == [] {
      return 0;
    }
    var size: nat :| 1 <= size <= n && size <= |left|;
    return size;
  }

  /** The loop of AttemptAsync: read into the rest of the array until it is full or the stream ends or fails. */
  method FillReader(body: Bytes, fails: bool) returns (r: Captured)
    ensures r == Capture(body, fails)
  {
    var retained := new Byte[MAX_BODY_BYTES + 1](_ => 0);
    var observed := 0;
    var failure := false;
    while observed < retained.Length
      invariant observed <= |body| && observed <= retained.Length
      invariant retained[..observed] == body[..observed] && !failure
      decreases retained.Length - observed
    {
      var read := ReadSome(body[observed..], retained.Length - observed);
      if read == 0 {
        failure := fails;
        break;
      }
      SetAt(retained, body[observed..observed + read], observed);
      assert body[..observed + read] == body[..observed] + body[observed..observed + read];
      observed := observed + read;
    }
    var truncated := observed > MAX_BODY_BYTES;
    assert retained[..Min(observed, MAX_BODY_BYTES)] == retained[..observed][..Min(observed, MAX_BODY_BYTES)];
    return Captured(retained[..Min(observed, MAX_BODY_BYTES)], observed, truncated, !truncated && failure);
  }
}
