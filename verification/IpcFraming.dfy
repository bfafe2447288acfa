/**
 Frames on the pipe (Services/src/IpcProtocol.cpp, and `readExact`, `writeAll` and `readFrame` of
 Services/src/IpcServer.cpp and IpcClient.cpp): a four-byte little-endian length, then the body. The pipe
 may split and join the bytes as it likes.
 */
module IpcFraming {
  import opened Types
  import opened Wrappers

  type Bytes = seq<Byte>

  const MAX_FRAME_BYTES: nat := 8 * 1024 * 1024

  function Prefix(length: nat): (p: Bytes)
    requires length < 0x1_0000_0000
    ensures |p| == 4
  {
    [length % 0x100, length / 0x100 % 0x100, length / 0x1_0000 % 0x100, length / 0x100_0000 % 0x100]
  }

  function LengthOf(p: Bytes): nat
    requires |p| == 4
  {
    p[0] as int + p[1] as int * 0x100 + p[2] as int * 0x1_0000 + p[3] as int * 0x100_0000
  }

  /** `readFrameLength`: nothing for an empty or oversized frame. */
  function FrameLength(p: Bytes): Option<nat>
    requires |p| == 4
  {
    if LengthOf(p) == 0 || LengthOf(p) > MAX_FRAME_BYTES then None else Some(LengthOf(p))
  }

  lemma PrefixRoundTrip(length: nat)
    requires length < 0x1_0000_0000
    ensures LengthOf(Prefix(length)) == length
  {
    var b, c := length / 0x100, length / 0x1_0000;
    assert length == b * 0x100 + length % 0x100;
    assert b == c * 0x100 + b % 0x100;
    assert c == length / 0x100_0000 * 0x100 + c % 0x100;
  }

  /** The number that bytes stand for, the lowest first. */
  function LittleEndian(p: Bytes): nat {
    if p == [] then 0 else p[0] as nat + 0x100 * LittleEndian(p[1..])
  }

  /** The prefix is little-endian: its first byte is the lowest. */
  lemma PrefixIsLittleEndian(p: Bytes)
    requires |p| == 4
    ensures LengthOf(p) == LittleEndian(p)
    ensures Prefix(LittleEndian(p)) == p
  {
    assert LittleEndian(p[1..][1..][1..]) == p[3] as nat;
    assert LittleEndian(p[1..][1..]) == p[2] as nat + 0x100 * p[3] as nat;
    assert LittleEndian(p[1..]) == p[1] as nat + 0x100 * (p[2] as nat + 0x100 * p[3] as nat);
    BytesOf(p[0], p[1], p[2], p[3]);
  }

  lemma BytesOf(a: Byte, b: Byte, c: Byte, d: Byte)
    ensures
      var n := a as nat + 0x100 * (b as nat + 0x100 * (c as nat + 0x100 * d as nat));
      n < 0x1_0000_0000 && Prefix(n) == [a, b, c, d]
  {
    var n := a as nat + 0x100 * (b as nat + 0x100 * (c as nat + 0x100 * d as nat));
    assert n / 0x100 == b as nat + 0x100 * (c as nat + 0x100 * d as nat);
    assert n / 0x1_0000 == c as nat + 0x100 * d as nat;
    assert n / 0x100_0000 == d as nat;
  }

  predicate Fits(body: Bytes) {
    1 <= |body| <= MAX_FRAME_BYTES
  }

  predicate AllFit(messages: seq<Bytes>) {
    forall i | 0 <= i < |messages| :: Fits(messages[i])
  }

  function Framed(body: Bytes): Bytes
    requires |body| <= MAX_FRAME_BYTES
  {
    Prefix(|body|) + body
  }

  /** `frame`: the prefix is filled in byte by byte. */
  method Frame(text: Bytes) returns (r: Option<Bytes>)
    ensures r == if |text| > MAX_FRAME_BYTES then None else Some(Framed(text))
  {
    if |text| > MAX_FRAME_BYTES {
      return None;
    }
    var out := new Byte[4 + |text|](i => 0);
    var length := |text|;
    out[0] := length % 0x100;
    out[1] := length / 0x100 % 0x100;
    out[2] := length / 0x1_0000 % 0x100;
    out[3] := length / 0x100_0000 % 0x100;
    for i := 0 to |text|
      invariant out[..4] == Prefix(|text|)
      invariant forall j | 0 <= j < i :: out[4 + j] == text[j]
    {
      out[4 + i] := text[i];
    }
    assert out[..] == out[..4] + text;
    return Some(out[..]);
  }

  // ---------- streams ----------

  /** One frame off the front of a stream: what was read, and the stream after it. */
  datatype Taken = Body(body: Bytes, rest: Bytes) | BadPrefix(rest: Bytes) | Ended

  function TakeFrame(stream: Bytes): Taken {
    if |stream| < 4 then Ended
    else
      var length := FrameLength(stream[..4]);
      if length.None? then BadPrefix(stream[4..])
      else if |stream| < 4 + length.value then Ended
      else Body(stream[4..4 + length.value], stream[4 + length.value..])
  }

  /** The frames a receiver gets from a stream before it gives up. */
  function Received(stream: Bytes): seq<Bytes>
    decreases |stream|
  {
    var t := TakeFrame(stream);
    if t.Body? then [t.body] + Received(t.rest) else []
  }

  function Sent(messages: seq<Bytes>): Bytes
    requires AllFit(messages)
  {
    if messages == [] then [] else Framed(messages[0]) + Sent(messages[1..])
  }

  lemma TakeFirst(body: Bytes, after: Bytes)
    requires Fits(body)
    ensures TakeFrame(Framed(body) + after) == Body(body, after)
  {
    var stream := Framed(body) + after;
    PrefixRoundTrip(|body|);
    assert stream[..4] == Prefix(|body|);
    assert stream[4..4 + |body|] == body && stream[4 + |body|..] == after;
  }

  /** Whatever follows them, the sent messages are received first, whole and in order. */
  lemma {:induction false} StreamRoundTrip(messages: seq<Bytes>, after: Bytes)
    requires AllFit(messages)
    ensures Received(Sent(messages) + after) == messages + Received(after)
    decreases |messages|
  {
    hide TakeFrame, Framed;
    if messages == [] {
      assert Sent(messages) + after == after;
    } else {
      TakeFirst(messages[0], Sent(messages[1..]) + after);
      assert Sent(messages) + after == Framed(messages[0]) + (Sent(messages[1..]) + after);
      StreamRoundTrip(messages[1..], after);
      assert [messages[0]] + (messages[1..] + Received(after)) == messages + Received(after);
    }
  }

  /** An empty or oversized length stops the receiver before any byte of a body. */
  lemma BadPrefixStops(messages: seq<Bytes>, length: nat, after: Bytes)
    requires AllFit(messages)
    requires length < 0x1_0000_0000 && (length == 0 || length > MAX_FRAME_BYTES)
    ensures Received(Sent(messages) + (Prefix(length) + after)) == messages
    ensures TakeFrame(Prefix(length) + after) == BadPrefix(after)
  {
    StreamRoundTrip(messages, Prefix(length) + after);
    PrefixRoundTrip(length);
    var stream := Prefix(length) + after;
    assert stream[..4] == Prefix(length) && stream[4..] == after;
    assert Received(stream) == [];
    assert messages + [] == messages;
  }

  /** No frame can be taken: the prefix or the body is cut short, or the length is refused. */
  predicate NoFrame(stream: Bytes) {
    || |stream| < 4
    || (var n := LittleEndian(stream[..4]); n == 0 || n > MAX_FRAME_BYTES || |stream| - 4 < n)
  }

  /** What is left when no further frame can be taken. */
  function Unread(stream: Bytes): Bytes
    decreases |stream|
  {
    var t := TakeFrame(stream);
    if t.Body? then Unread(t.rest) else stream
  }

  lemma TakenExactly(stream: Bytes)
    ensures
      var t := TakeFrame(stream);
      if t.Body? then Fits(t.body) && stream == Framed(t.body) + t.rest && |t.rest| < |stream| else NoFrame(stream)
  {
    hide LengthOf, Prefix, LittleEndian;
    if |stream| >= 4 {
      PrefixIsLittleEndian(stream[..4]);
    }
    var t := TakeFrame(stream);
    if t.Body? {
      assert stream == stream[..4] + t.body + t.rest;
    }
  }

  /** Whatever the stream, the frames received are what was sent by it, up to where no further frame stands. */
  lemma {:induction false} ReceivedExactly(stream: Bytes)
    ensures AllFit(Received(stream)) && stream == Sent(Received(stream)) + Unread(stream) && NoFrame(Unread(stream))
    decreases |stream|
  {
    hide TakeFrame, NoFrame, Framed;
    TakenExactly(stream);
    var t, rest := TakeFrame(stream), Unread(stream);
    if t.Body? {
      ReceivedExactly(t.rest);
      assert Received(stream)[1..] == Received(t.rest);
      assert Framed(t.body) + Sent(Received(t.rest)) + rest == Framed(t.body) + (Sent(Received(t.rest)) + rest);
    } else {
      assert [] + rest == rest;
    }
  }

  /** Different message sequences never look the same on the wire. */
  lemma SentInjective(a: seq<Bytes>, b: seq<Bytes>)
    requires AllFit(a) && AllFit(b) && Sent(a) == Sent(b)
    ensures a == b
  {
    StreamRoundTrip(a, []);
    StreamRoundTrip(b, []);
    assert Sent(a) + [] == Sent(a) && Sent(b) + [] == Sent(b);
    assert a + Received([]) == a && b + Received([]) == b;
  }

  // ---------- the pipe ----------

  /** One direction of a byte-mode pipe: what was written and not yet read. */
  class Pipe {
    var data: Bytes

    /** `ReadFile`: any non-empty part of what is there, up to the size asked for; nothing when the peer is gone. */
    method Read(size: nat) returns (chunk: Bytes)
      requires size > 0
      modifies this
      ensures old(data) == chunk + data && |chunk| <= size
      ensures chunk == [] <==> old(data) == []
    {
      if data == [] {
        return [];
      }
      var n: nat :| 1 <= n <= |data| && n <= size;
      chunk := data[..n];
      data := data[n..];
    }

    /** `WriteFile`: takes any non-empty part of what is offered. */
    method Write(offered: Bytes) returns (written: nat)
      requires offered != []
      modifies this
      ensures 1 <= written <= |offered| && data == old(data) + offered[..written]
    {
      var n: nat :| 1 <= n <= |offered|;
      data := data + offered[..n];
      return n;
    }
  }

  /** `readExact`: fails only when the stream ends too early. */
  method ReadExact(pipe: Pipe, size: nat) returns (ok: bool, buffer: Bytes)
    modifies pipe
    ensures ok <==> |old(pipe.data)| >= size
    ensures ok ==> buffer == old(pipe.data)[..size] && pipe.data == old(pipe.data)[size..]
  {
    buffer := [];
    var remaining := size;
    while remaining > 0
      invariant 0 <= remaining <= size && |buffer| == size - remaining
      invariant old(pipe.data) == buffer + pipe.data
    {
      var chunk := pipe.Read(remaining);
      if chunk == [] {
        return false, buffer;
      }
      buffer := buffer + chunk;
      remaining := remaining - |chunk|;
    }
    assert (buffer + pipe.data)[..size] == buffer && (buffer + pipe.data)[size..] == pipe.data;
    return true, buffer;
  }

  const MAX_CHUNK: nat := 0x10_0000

  /** `writeAll`: at most a megabyte is offered at a time. */
  method WriteAll(pipe: Pipe, bytes: Bytes)
    modifies pipe
    ensures pipe.data == old(pipe.data) + bytes
  {
    var sent := 0;
    while sent < |bytes|
      invariant 0 <= sent <= |bytes|
      invariant pipe.data == old(pipe.data) + bytes[..sent]
    {
      var remaining := |bytes| - sent;
      var chunk := if remaining < MAX_CHUNK then remaining else MAX_CHUNK;
      var written := pipe.Write(bytes[sent..sent + chunk]);
      assert bytes[..sent] + bytes[sent..sent + chunk][..written] == bytes[..sent + written];
      sent := sent + written;
    }
    assert bytes[..|bytes|] == bytes;
  }

  /** `readFrame`: nothing when the stream ends early or the length is refused. */
  method ReadFrame(pipe: Pipe) returns (r: Option<Bytes>)
    modifies pipe
    ensures var t := TakeFrame(old(pipe.data));
      && (t.Body? ==> r == Some(t.body) && pipe.data == t.rest)
      && (t.BadPrefix? ==> r == None && pipe.data == t.rest)
      && (t.Ended? ==> r == None)
  {
    hide LengthOf;
    ghost var stream := pipe.data;
    var ok, prefix := ReadExact(pipe, 4);
    if !ok {
      return None;
    }
    var length := FrameLength(prefix);
    if length.None? {
      return None;
    }
    var whole, body := ReadExact(pipe, length.value);
    if !whole {
      return None;
    }
    assert stream[4..][..length.value] == stream[4..4 + length.value];
    assert stream[4..][length.value..] == stream[4 + length.value..];
    return Some(body);
  }

  /** The bodies before the first that is not understood. */
  function Understood(bodies: seq<Bytes>, parses: Bytes -> bool): seq<Bytes> {
    if bodies == [] || !parses(bodies[0]) then [] else [bodies[0]] + Understood(bodies[1..], parses)
  }

  /** The receiving side: every frame, until the stream ends or is refused or a body cannot be parsed. */
  method ReceiveAll(pipe: Pipe, parses: Bytes -> bool) returns (frames: seq<Bytes>)
    modifies pipe
    ensures frames == Understood(Received(old(pipe.data)), parses)
  {
    hide TakeFrame;
    frames := [];
    while true
      invariant frames + Understood(Received(pipe.data), parses) == Understood(Received(old(pipe.data)), parses)
      decreases |pipe.data|
    {
      ghost var before := pipe.data;
      TakenIsShorter(before);
      var body := ReadFrame(pipe);
      if body.None? || !parses(body.value) {
        assert Understood(Received(before), parses) == [];
        assert frames + [] == frames;
        return frames;
      }
      ghost var later := Understood(Received(pipe.data), parses);
      assert Received(before)[1..] == Received(pipe.data);
      assert frames + ([body.value] + later) == frames + [body.value] + later;
      frames := frames + [body.value];
    }
  }

  /** A receiver that understands every message gets all of them. */
  lemma {:induction false} AllUnderstood(bodies: seq<Bytes>, parses: Bytes -> bool)
    requires forall i | 0 <= i < |bodies| :: parses(bodies[i])
    ensures Understood(bodies, parses) == bodies
  {
    if bodies != [] {
      AllUnderstood(bodies[1..], parses);
    }
  }

  /**
   What a connection is for: messages written whole, in pieces of any size, and read back in pieces of any other
   size, arrive as they were sent.
   */
  method Transfer(pipe: Pipe, messages: seq<Bytes>, parses: Bytes -> bool) returns (received: seq<Bytes>)
    requires pipe.data == [] && AllFit(messages) && forall i | 0 <= i < |messages| :: parses(messages[i])
    modifies pipe
    ensures received == messages
  {
    hide Received, Sent, Fits;
    WriteAll(pipe, Sent(messages));
    assert pipe.data == Sent(messages);
    StreamRoundTrip(messages, []);
    NothingReceived();
    AllUnderstood(messages, parses);
    assert Sent(messages) + [] == Sent(messages) && messages + [] == messages;
    received := ReceiveAll(pipe, parses);
  }

  lemma NothingReceived()
    ensures Received([]) == []
  {
  }

  lemma TakenIsShorter(stream: Bytes)
    ensures TakeFrame(stream).Body? ==> |TakeFrame(stream).rest| < |stream|
  {
  }
}
