/** Cutting a TCP byte stream into HTTP messages (src/transport/tcp_reassembly_buffer.cpp). */
module Framing {
  import opened Text

  /** Number of values of a 64-bit `size_t`; sums of sizes are taken modulo it. */
  const SIZE_T: nat := 0x1_0000_0000_0000_0000
  const LENGTH_KEY: string := "content-length:"

  datatype Frame = Frame(message: string, rest: string)

  lemma KeyHasNoCr(lower: string, k: nat, e: nat)
    requires At(lower, LENGTH_KEY, k) && At(lower, CRLF, e) && k <= e
    ensures k + |LENGTH_KEY| <= e
  {
    AtByte(lower, CRLF, e, 0);
    forall i | k <= i < k + |LENGTH_KEY| ensures lower[i] != '\r' {
      AtByte(lower, LENGTH_KEY, k, i - k);
    }
  }

  /** `parse_content_length`: the value after the leftmost key, 0 when absent or unreadable. */
  function ContentLength(headers: string): (r: nat)
    ensures r < SIZE_T
  {
    var lower := ToLower(headers);
    match Find(lower, LENGTH_KEY, 0)
    case None => 0
    case Some(k) =>
      match Find(lower, CRLF, k)
      case None => 0
      case Some(e) =>
        FindLeftmost(lower, LENGTH_KEY, 0);
        FindLeftmost(lower, CRLF, k);
        KeyHasNoCr(lower, k, e);
        ValueOr0(lower[k + |LENGTH_KEY|..e])
  }

  /** Without a key, or without a line end behind it, the length is 0. */
  lemma NoLengthIsZero(headers: string)
    requires var lower := ToLower(headers);
             Find(lower, LENGTH_KEY, 0).None? || Find(lower, CRLF, Find(lower, LENGTH_KEY, 0).value).None?
    ensures ContentLength(headers) == 0
  {
  }

  function ValueOr0(value: string): (r: nat)
    ensures r < SIZE_T
  {
    match ParseUnsigned(value, SIZE_T - 1) case Some(n) => n case None => 0
  }

  /** Length of the message at the front of `b`, whose header block ends at `h + 4`. */
  function FrameLength(b: string, h: nat): nat
    requires h + 4 <= |b|
  {
    (h + 4 + ContentLength(b[..h + 4])) % SIZE_T
  }

  /** What `try_take_http_message` takes off the buffer `b`, if anything. */
  function Take(b: string): (r: Option<Frame>)
    ensures r.Some? ==> b == r.value.message + r.value.rest
  {
    match Find(b, HEAD_END, 0)
    case None => None
    case Some(h) =>
      var n := FrameLength(b, h);
      if |b| < n then None else Some(Frame(b[..n], b[n..]))
  }

  class TcpReassemblyBuffer {
    var buffer: string

    constructor ()
      ensures buffer == ""
    {
      buffer := "";
    }

    method Append(chunk: string)
      modifies this
      ensures buffer == old(buffer) + chunk
    {
      buffer := buffer + chunk;
    }

    method TakeAll() returns (output: string)
      modifies this
      ensures output == old(buffer) && buffer == ""
    {
      output, buffer := buffer, "";
    }

    method TryTakeHttpMessage() returns (ok: bool, message: string)
      modifies this
      ensures ok <==> Take(old(buffer)).Some?
      ensures ok ==> Take(old(buffer)) == Some(Frame(message, buffer))
      ensures !ok ==> buffer == old(buffer) && message == ""
    {
      hide Find, ContentLength;
      ok, message := false, "";
      var headerEnd := Find(buffer, HEAD_END, 0);
      if headerEnd.None? {
        return;
      }
      var contentLength := ContentLength(buffer[..headerEnd.value + 4]);
      var messageLength := (headerEnd.value + 4 + contentLength) % SIZE_T;
      if |buffer| < messageLength {
        return;
      }
      ok, message := true, buffer[..messageLength];
      buffer := buffer[messageLength..];
    }
  }

  /** Without wrap-around a frame is its header block followed by exactly the declared body. */
  lemma FrameShape(b: string, h: nat)
    requires Find(b, HEAD_END, 0) == Some(h)
    requires h + 4 + ContentLength(b[..h + 4]) < SIZE_T
    ensures Take(b).Some? <==> h + 4 + ContentLength(b[..h + 4]) <= |b|
    ensures Take(b).Some? ==>
              var m := Take(b).value.message;
              |m| == h + 4 + ContentLength(b[..h + 4]) && m[..h + 4] == b[..h + 4]
              && Find(m, HEAD_END, 0) == Some(h)
  {
    hide Find, ContentLength, Flatten;
    var n := h + 4 + ContentLength(b[..h + 4]);
    if n <= |b| {
      var m := b[..n];
      assert b == m + b[n..];
      FindLeftmost(b, HEAD_END, 0);
      AtAppend(m, b[n..], HEAD_END, h);
      AtPrefix(m, b[n..], HEAD_END, h);
      FindIs(m, HEAD_END, 0, h);
      assert m[..h + 4] == b[..h + 4];
    }
  }

  /** A successful take stays the same take when more bytes follow. */
  lemma TakeStable(b: string, more: string)
    requires Take(b).Some?
    ensures Take(b + more) == Some(Frame(Take(b).value.message, Take(b).value.rest + more))
  {
    hide Find, ContentLength;
    FindStable(b, more, HEAD_END, 0);
    var h := Find(b, HEAD_END, 0).value;
    assert (b + more)[..h + 4] == b[..h + 4];
    var n := FrameLength(b, h);
    assert (b + more)[..n] == b[..n];
    assert (b + more)[n..] == b[n..] + more;
  }

  // ---------- draining ----------

  /** The front of `b` is a message of length zero: taking it changes nothing, so a loop that
      takes messages until it fails never ends. */
  predicate ZeroFrame(b: string) {
    Take(b).Some? && Take(b).value.message == ""
  }

  datatype Drained = Drained(messages: seq<string>, rest: string)

  /** Take messages until none is complete, or the front message has length zero. */
  function Drain(b: string): (d: Drained)
    ensures b == Flatten(d.messages) + d.rest
    ensures Take(d.rest).None? || ZeroFrame(d.rest)
    ensures forall m | m in d.messages :: m != ""
    decreases |b|
  {
    match Take(b)
    case Some(f) =>
      if f.message == "" then Drained([], b)
      else
        var d := Drain(f.rest);
        assert ([f.message] + d.messages)[1..] == d.messages;
        Drained([f.message] + d.messages, d.rest)
    case None => Drained([], b)
  }

  /** Append each chunk in turn and drain after each. */
  function Feed(buffer: string, chunks: seq<string>): Drained
    decreases |chunks|
  {
    if chunks == [] then Drained([], buffer)
    else
      var d := Drain(buffer + chunks[0]);
      var e := Feed(d.rest, chunks[1..]);
      Drained(d.messages + e.messages, e.rest)
  }

  lemma DrainStep(b: string)
    requires Take(b).Some? && Take(b).value.message != ""
    ensures Drain(b) ==
            var d := Drain(Take(b).value.rest);
            Drained([Take(b).value.message] + d.messages, d.rest)
  {
    hide Take;
  }

  lemma DrainStop(b: string)
    requires Take(b).None? || ZeroFrame(b)
    ensures Drain(b) == Drained([], b)
  {
    hide Take;
  }

  /** Draining early and then draining the leftover with more bytes loses nothing. */
  lemma {:induction false} DrainAppend(b: string, more: string)
    ensures Drain(b + more) ==
            var d := Drain(b);
            var e := Drain(d.rest + more);
            Drained(d.messages + e.messages, e.rest)
    decreases |b|
  {
    hide Take, Drain, Flatten;
    if Take(b).Some? && Take(b).value.message != "" {
      var f := Take(b).value;
      TakeStable(b, more);
      DrainStep(b);
      DrainStep(b + more);
      DrainAppend(f.rest, more);
      var d := Drain(f.rest);
      var e := Drain(d.rest + more);
      assert [f.message] + (d.messages + e.messages) == [f.message] + d.messages + e.messages;
    } else {
      DrainStop(b);
      assert [] + Drain(b + more).messages == Drain(b + more).messages;
    }
  }

  lemma {:induction false} FeedIsDrain(buffer: string, chunks: seq<string>)
    requires Take(buffer).None? || ZeroFrame(buffer)
    ensures Feed(buffer, chunks) == Drain(buffer + Flatten(chunks))
    decreases |chunks|
  {
    hide Take;
    if chunks == [] {
      assert buffer + Flatten(chunks) == buffer;
    } else {
      var d := Drain(buffer + chunks[0]);
      FeedIsDrain(d.rest, chunks[1..]);
      DrainAppend(buffer + chunks[0], Flatten(chunks[1..]));
      assert buffer + Flatten(chunks) == buffer + chunks[0] + Flatten(chunks[1..]);
    }
  }

  /** Chunking independence: however a stream is split into `append` calls, the messages taken and
      the leftover are those of one append of the whole stream. */
  lemma ChunkingIndependence(chunks: seq<string>)
    ensures Feed("", chunks) == Drain(Flatten(chunks))
  {
    FeedIsDrain("", chunks);
    assert "" + Flatten(chunks) == Flatten(chunks);
  }

  // ---------- messages that frame themselves ----------

  /** `m` is cut back as exactly one message, whatever bytes follow it. */
  ghost predicate SelfFramed(m: string) {
    m != "" && Take(m) == Some(Frame(m, ""))
  }

  lemma SelfFramedBefore(m: string, more: string)
    requires SelfFramed(m)
    ensures Take(m + more) == Some(Frame(m, more))
  {
    TakeStable(m, more);
    assert "" + more == more;
  }

  /** Pipelined self-framed messages, arriving in any chunks, are taken one by one and nothing is left. */
  lemma {:induction false} PipelinedMessages(messages: seq<string>)
    requires forall m | m in messages :: SelfFramed(m)
    ensures Drain(Flatten(messages)) == Drained(messages, "")
    decreases |messages|
  {
    if messages == [] {
    } else {
      SelfFramedBefore(messages[0], Flatten(messages[1..]));
      PipelinedMessages(messages[1..]);
      assert [messages[0]] + messages[1..] == messages;
    }
  }

  lemma PipelinedInAnyChunks(messages: seq<string>, chunks: seq<string>)
    requires forall m | m in messages :: SelfFramed(m)
    requires Flatten(chunks) == Flatten(messages)
    ensures Feed("", chunks) == Drained(messages, "")
  {
    ChunkingIndependence(chunks);
    PipelinedMessages(messages);
  }

  /** Header length plus Content-Length of the front message does not wrap. */
  predicate NoWrap(b: string) {
    match Find(b, HEAD_END, 0)
    case None => true
    case Some(h) => h + 4 + ContentLength(b[..h + 4]) < SIZE_T
  }

  /** Exactly when the message that is taken would be taken again as it is: when the sum of line 40
      does not wrap. A wrapped message is cut before the end of its own head. */
  lemma TakenIsSelfFramedIff(b: string)
    requires Take(b).Some? && |b| < SIZE_T
    ensures SelfFramed(Take(b).value.message) <==> NoWrap(b)
  {
    if NoWrap(b) { TakenIsSelfFramed(b); } else { WrappedHasNoHead(b); }
  }

  lemma TakenIsSelfFramed(b: string)
    requires Take(b).Some? && NoWrap(b)
    ensures SelfFramed(Take(b).value.message)
  {
    hide ContentLength;
    var h := Find(b, HEAD_END, 0).value;
    FrameShape(b, h);
    var m := Take(b).value.message;
    assert FrameLength(m, h) == |m|;
    assert m[..|m|] == m && m[|m|..] == "";
  }

  lemma WrappedHasNoHead(b: string)
    requires Take(b).Some? && |b| < SIZE_T && !NoWrap(b)
    ensures Find(Take(b).value.message, HEAD_END, 0) == None
  {
    hide ContentLength, Find, At;
    var h := Find(b, HEAD_END, 0).value;
    var m, rest := Take(b).value.message, Take(b).value.rest;
    assert |m| < h + 4;
    FindLeftmost(b, HEAD_END, 0);
    FindLeftmost(m, HEAD_END, 0);
    if Find(m, HEAD_END, 0).Some? { AtAppend(m, rest, HEAD_END, Find(m, HEAD_END, 0).value); }
  }

  /** Exactly when the front message has length zero: when the sum wraps to nothing. */
  lemma ZeroFrameIff(b: string)
    requires |b| < SIZE_T
    ensures ZeroFrame(b) <==>
              var h := Find(b, HEAD_END, 0);
              h.Some? && h.value + 4 + ContentLength(b[..h.value + 4]) == 18446744073709551616
  {
    hide ContentLength, Find;
  }

  /** No message taken while draining `b` wraps. */
  predicate DrainsWithoutWrap(b: string)
    decreases |b|
  {
    Take(b).Some? && Take(b).value.message != "" ==> NoWrap(b) && DrainsWithoutWrap(Take(b).value.rest)
  }

  lemma {:induction false} DrainedAreSelfFramed(b: string)
    requires DrainsWithoutWrap(b)
    ensures forall m | m in Drain(b).messages :: SelfFramed(m)
    decreases |b|
  {
    hide Take, NoWrap, SelfFramed;
    if Take(b).Some? && Take(b).value.message != "" {
      DrainStep(b);
      TakenIsSelfFramed(b);
      DrainedAreSelfFramed(Take(b).value.rest);
    } else {
      DrainStop(b);
    }
  }

  /** The negative length that `stoull` accepts makes the 64-bit sum wrap to zero. */
  lemma ZeroFrameExists()
    ensures ZeroFrame("content-length:-22\r\n\r\n")
  {
    hide Find, ContentLength, ToLower;
    var b := "content-length:-22\r\n\r\n";
    assert b[18..22] == HEAD_END;
    forall j: nat | j < 18 ensures !At(b, HEAD_END, j) {
      FirstCharDiffers(b, HEAD_END, j);
    }
    FindIs(b, HEAD_END, 0, 18);
    assert b[..22] == b;
    NegativeLength();
  }

  lemma NegativeLength()
    ensures ContentLength("content-length:-22\r\n\r\n") == SIZE_T - 22
  {
    hide Find, ParseUnsigned, ToLower;
    var b := "content-length:-22\r\n\r\n";
    ExampleIsLower();
    assert b[..15] == LENGTH_KEY;
    FindIs(b, LENGTH_KEY, 0, 0);
    assert b[18..20] == CRLF;
    forall j: nat | j < 18 ensures !At(b, CRLF, j) {
      FirstCharDiffers(b, CRLF, j);
    }
    FindIs(b, CRLF, 0, 18);
    assert b[15..18] == "-22";
    MinusTwentyTwo();
  }

  lemma ExampleIsLower()
    ensures ToLower("content-length:-22\r\n\r\n") == "content-length:-22\r\n\r\n"
  {
    hide ToLower;
    assert LENGTH_KEY + "-22" + HEAD_END == "content-length:-22\r\n\r\n";
    LowerAlready(LENGTH_KEY);
    LowerAlready("-22");
    LowerAlready(HEAD_END);
    ToLowerConcat(LENGTH_KEY, "-22");
    ToLowerConcat(LENGTH_KEY + "-22", HEAD_END);
  }

  lemma LowerAlready(s: string)
    requires forall i | 0 <= i < |s| :: !('A' <= s[i] <= 'Z')
    ensures ToLower(s) == s
  {
  }

  lemma FirstCharDiffers(s: string, p: string, j: nat)
    requires p != "" && j < |s| && s[j] != p[0]
    ensures !At(s, p, j)
  {
    assert j + |p| <= |s| ==> s[j..j + |p|][0] == s[j];
  }

  lemma MinusTwentyTwo()
    ensures ParseUnsigned("-22", SIZE_T - 1) == Some(SIZE_T - 22)
  {
    assert SkipSpace("-22") == "-22";
    assert "-22"[1..] == "22";
    LeadingDigitsOf("22", "");
    assert "22" + "" == "22";
    assert "22"[..1] == "2";
    assert "2"[..0] == "";
    assert DecimalValue("2") == 2;
    assert DecimalValue("22") == 22;
  }
}
