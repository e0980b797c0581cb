/** Reading a response: the readers over the stream, each computing the decoder's function of the
    bytes still to come. */
module HttpMessage {
  import opened Numerals
  import opened Strings
  import opened Wrappers
  import opened HttpText
  import opened HttpDecode
  import opened HttpBuffer
  import opened HttpStream
  import HttpChunks
  import HttpLength

  // ----- one line -----

  /** The end of `s` once blanks are dropped from the right, not going below `from`. */
  method DropBlanks(s: string, from: nat) returns (end: nat)
    requires from <= |s|
    ensures from <= end <= |s| && s[from..end] == TrimRight(s[from..])
  {
    end := |s|;
    assert s[from..end] == s[from..];
    while end > from && Blank(s[end - 1])
      invariant from <= end <= |s| && TrimRight(s[from..end]) == TrimRight(s[from..])
    {
      assert s[from..end][..end - from - 1] == s[from..end - 1];
      end := end - 1;
    }
  }

  method FindColon(line: string) returns (colon: Option<nat>)
    ensures colon == HeaderColon(line)
  {
    hide NoControl;
    var i := Find(line, ':');
    if i == 0 || i == |line| { return None; }
    for j := 0 to i
      invariant forall k :: 0 <= k < j ==> TokenCharacter(line[..i][k])
    {
      if !TokenCharacter(line[j]) {
        assert !TokenCharacter(line[..i][j]);
        return None;
      }
    }
    var control := FindControl(line, i + 1);
    colon := if control then None else Some(i);
  }

  method ParseStatus(line: string) returns (status: Option<nat>)
    ensures status == if StatusForm(line) then Some(StatusOf(line)) else None
  {
    if |line| < 12 || line[..7] != "HTTP/1." || !Digit(line[7]) || line[8] != ' ' || !('1' <= line[9] <= '5')
       || !Digit(line[10]) || !Digit(line[11]) || (|line| > 12 && line[12] != ' ') {
      return None;
    }
    var control := FindControl(line, 12);
    if control { return None; }
    status := Some(DigitValue(line[9]) * 100 + DigitValue(line[10]) * 10 + DigitValue(line[11]));
  }

  // ----- the response record -----

  function NoResponse(): Response {
    Response(0, None, NoCoding, None, "")
  }

  class Reply {
    var status: nat
    var length: Option<nat>
    var coding: Coding
    var location: Option<string>
    var raw: string

    function Value(): Response
      reads this
    {
      Response(status, length, coding, location, raw)
    }

    constructor ()
      ensures Value() == NoResponse()
    {
      status, length, coding, location, raw := 0, None, NoCoding, None, "";
    }

    method ParseHeader(line: string) returns (code: Code)
      modifies this
      ensures match HeaderOf(old(Value()), line)
        case Parsed(r) => code == Ok && Value() == r
        case Rejected => code == Protocol
    {
      hide HeaderColon, TrimLeft, TrimRight, SameIgnoringCase, LengthOf;
      var colon := FindColon(line);
      if colon.None? { return Protocol; }
      var name := line[..colon.value];
      var from := SkipBlanks(line, colon.value + 1);
      var end := DropBlanks(line, from);
      var value := line[from..end];
      assert value == Trim(line[colon.value + 1..]);
      code := Ok;
      if SameIgnoringCase(name, "Content-Length") {
        var n := HttpLength.ParseLength(length, value);
        if n.None? { return Protocol; }
        length := n;
      } else if SameIgnoringCase(name, "Transfer-Encoding") {
        if coding != NoCoding || !SameIgnoringCase(value, "chunked") {
          coding := Unsupported;
        } else {
          coding := Chunked;
        }
      } else if SameIgnoringCase(name, "Location") {
        if location.Some? || value == "" { return Protocol; }
        location := Some(value);
      }
    }

    method Keep(text: string)
      modifies this`raw
      ensures raw == old(raw) + text
    {
      raw := raw + text;
    }
  }

  // ----- heads -----

  /** Keep the current line and read the next one. */
  method NextHeader(stream: Stream, line: ByteBuffer, reply: Reply) returns (code: Code, done: bool)
    requires stream.Valid() && line.Valid() && line.data != stream.buffer
    modifies stream`pieces, stream`begin, stream`end, stream.buffer, line, line.data, reply
    ensures stream.Valid() && line.Valid() && (line.data == old(line.data) || fresh(line.data))
    ensures var h := HeadersOf(old(stream.Rest()), stream.ending, old(reply.Value()), old(line.Contents()));
      if code != Ok then h == BadHead(code)
      else if done then h == Head(reply.Value(), stream.Rest())
      else h == HeadersOf(stream.Rest(), stream.ending, reply.Value(), line.Contents())
    ensures code == Ok ==> |stream.Rest()| < old(|stream.Rest()|)
  {
    hide Concat, Piece, LineOf, HeaderOf;
    done := false;
    if line.length > HEADER_LIMIT - 2 || |reply.raw| > HEADER_LIMIT - line.length - 2 { return Protocol, done; }
    reply.Keep(line.Contents());
    reply.Keep("\r\n");
    code := stream.ReadLine(line);
    if code != Ok { return; }
    if line.length == 0 {
      if |reply.raw| > HEADER_LIMIT - 2 { return Protocol, done; }
      reply.Keep("\r\n");
      done := true;
    } else {
      code := reply.ParseHeader(line.Contents());
    }
  }

  method ReadResponse(stream: Stream, reply: Reply) returns (code: Code)
    requires stream.Valid() && reply.Value() == NoResponse()
    modifies stream`pieces, stream`begin, stream`end, stream.buffer, reply
    ensures stream.Valid()
    ensures match ResponseOf(old(stream.Rest()), stream.ending)
      case Head(r, rest) => code == Ok && reply.Value() == r && stream.Rest() == rest
      case BadHead(c) => code == c
  {
    hide Concat, Piece, LineOf, HeadersOf, StatusForm, StatusOf;
    var line := new ByteBuffer();
    code := stream.ReadLine(line);
    if code != Ok { return; }
    var status := ParseStatus(line.Contents());
    if status.None? { return Protocol; }
    reply.status := status.value;
    ghost var all := HeadersOf(stream.Rest(), stream.ending, reply.Value(), line.Contents());
    var done := false;
    while !done
      invariant stream.Valid() && line.Valid() && line.data != stream.buffer && fresh(line) && fresh(line.data)
      invariant code == Ok
      invariant all == if done then Head(reply.Value(), stream.Rest())
                       else HeadersOf(stream.Rest(), stream.ending, reply.Value(), line.Contents())
      decreases |stream.Rest()|
    {
      code, done := NextHeader(stream, line, reply);
      if code != Ok { return; }
    }
  }

  // ----- bodies -----

  /** The trailer lines and the empty line after them. */
  method SkipTrailers(stream: Stream, line: ByteBuffer) returns (code: Code)
    requires stream.Valid() && line.Valid() && line.data != stream.buffer
    modifies stream`pieces, stream`begin, stream`end, stream.buffer, line, line.data
    ensures stream.Valid()
    ensures match TrailersOf(old(stream.Rest()), stream.ending, 0)
      case Body(_, rest) => code == Ok && stream.Rest() == rest
      case Failed(c, _) => code == c
  {
    hide Concat, Piece, LineOf, HeaderColon;
    ghost var all := TrailersOf(stream.Rest(), stream.ending, 0);
    var size := 0;
    while true
      invariant stream.Valid() && line.Valid() && line.data != stream.buffer
      invariant line.data == old(line.data) || fresh(line.data)
      invariant 0 <= size && TrailersOf(stream.Rest(), stream.ending, size) == all
      decreases |stream.Rest()|
    {
      code := stream.ReadLine(line);
      if code != Ok { return; }
      var colon := FindColon(line.Contents());
      if line.length != 0 && colon.None? { return Protocol; }
      if line.length > HEADER_LIMIT - 2 || size > HEADER_LIMIT - line.length - 2 { return Protocol; }
      size := size + line.length + 2;
      if line.length == 0 { return Ok; }
    }
  }

  lemma PrependTwice(a: string, b: string, r: BodyRes)
    ensures Prepend(a, Prepend(b, r)) == Prepend(a + b, r)
    ensures Prepend("", r) == r
  {
    assert a + (b + r.out) == a + b + r.out;
    assert "" + r.out == r.out;
  }

  lemma PrependNothing(a: string, r: BodyRes)
    requires r.out == ""
    ensures Prepend(a, r) == if r.Body? then Body(a, r.rest) else Failed(r.code, a)
  {
    assert a + "" == a;
  }

  lemma PrependFailed(a: string, b: string, c: Code)
    ensures Prepend(a, Failed(c, b)) == Failed(c, a + b)
  {
  }

  /** A chunk of `n` bytes and the line ending after it; `more` is what was written. */
  method CopyChunk(stream: Stream, out: Sink, n: nat) returns (code: Code, ghost more: string)
    requires stream.Valid()
    modifies stream`pieces, stream`begin, stream`end, stream.buffer, out
    ensures stream.Valid() && out.written == old(out.written) + more
    ensures ChunkOf(old(stream.Rest()), stream.ending, n) ==
      if code == Ok then Prepend(more, ChunkedOf(stream.Rest(), stream.ending)) else Failed(code, more)
    ensures code == Ok ==> |stream.Rest()| < old(|stream.Rest()|)
  {
    hide Concat, Piece, CopyOf, CrlfOf, ChunkedOf;
    more := CopyOf(stream.Rest(), stream.ending, n).out;
    code := stream.Copy(out, n);
    if code != Ok { return; }
    code := stream.ExpectCrlf();
  }

  /** A chunked body. */
  method CopyChunked(stream: Stream, out: Sink) returns (code: Code)
    requires stream.Valid()
    modifies stream`pieces, stream`begin, stream`end, stream.buffer, out
    ensures stream.Valid()
    ensures match ChunkedOf(old(stream.Rest()), stream.ending)
      case Body(o, rest) => code == Ok && out.written == old(out.written) + o && stream.Rest() == rest
      case Failed(c, o) => code == c && out.written == old(out.written) + o
  {
    hide Concat, Piece, LineOf, ChunkOf, TrailersOf, ChunkSize, Prepend;
    ghost var all, done := ChunkedOf(stream.Rest(), stream.ending), "";
    PrependTwice("", "", all);
    var line := new ByteBuffer();
    while true
      invariant stream.Valid() && line.Valid() && line.data != stream.buffer && fresh(line) && fresh(line.data)
      invariant all == Prepend(done, ChunkedOf(stream.Rest(), stream.ending)) && out.written == old(out.written) + done
      decreases |stream.Rest()|
    {
      ghost var w := stream.Rest();
      code := stream.ReadLine(line);
      if code != Ok {
        PrependNothing(done, Failed(code, ""));
        return;
      }
      var size := HttpChunks.ParseChunkSize(line.Contents());
      if size.None? {
        PrependNothing(done, Failed(Protocol, ""));
        return Protocol;
      }
      if size.value == 0 {
        PrependNothing(done, ChunkedOf(w, stream.ending));
        code := SkipTrailers(stream, line);
        return;
      }
      ghost var more;
      code, more := CopyChunk(stream, out, size.value);
      if code != Ok {
        PrependFailed(done, more, code);
        return;
      }
      PrependTwice(done, more, ChunkedOf(stream.Rest(), stream.ending));
      done := done + more;
    }
  }

  method ReadBody(stream: Stream, reply: Reply, out: Sink) returns (code: Code)
    requires stream.Valid()
    modifies stream`pieces, stream`begin, stream`end, stream.buffer, out
    ensures stream.Valid()
    ensures match BodyOf(old(stream.Rest()), stream.ending, reply.Value())
      case Body(o, rest) => code == Ok && out.written == old(out.written) + o && stream.Rest() == rest
      case Failed(c, o) => code == c && out.written == old(out.written) + o
  {
    if reply.coding != NoCoding {
      if reply.coding != Chunked { return Protocol; }
      code := CopyChunked(stream, out);
    } else if reply.length.Some? {
      code := stream.Copy(out, reply.length.value);
    } else {
      code := stream.CopyUntilClose(out);
    }
  }

  // ----- one answer -----

  function Then(out: string, a: (Code, string)): (Code, string) {
    (a.0, out + a.1)
  }

  function BodyAnswer(w: string, z: Ending, request: string, r: Response): (Code, string) {
    if !HasBody(request, r.status) then (Ok, "")
    else
      match BodyOf(w, z, r)
      case Body(o, _) => (Ok, o)
      case Failed(c, o) => (c, o)
  }

  /** How an exchange ends and what it writes, as a function of all the bytes of the connection:
      interim responses are passed over, 101 is refused, and a body follows if there is one. */
  function AnswerOf(w: string, z: Ending, request: string, withHead: bool): (Code, string)
    decreases |w|
  {
    match ResponseOf(w, z)
    case BadHead(c) => (c, "")
    case Head(r, rest) =>
      Then(if withHead then r.raw else "",
           if r.status < 100 || r.status >= 200 then BodyAnswer(rest, z, request, r)
           else if r.status == 101 then (Protocol, "")
           else AnswerOf(rest, z, request, withHead))
  }

  lemma ThenMore(done: string, head: string, a: (Code, string))
    ensures Then(done, Then(head, a)) == Then(done + head, a)
    ensures Then("", a) == a
  {
    assert done + (head + a.1) == done + head + a.1;
    assert "" + a.1 == a.1;
  }

  /** Segmentation independence: however the bytes arrive, the result code and the output are those
      of the decoder on the whole string. */
  method Answer(pieces: seq<string>, z: Ending, request: string, withHead: bool) returns (code: Code, output: string)
    requires forall i :: 0 <= i < |pieces| ==> Piece(pieces[i])
    ensures (code, output) == AnswerOf(Concat(pieces), z, request, withHead)
  {
    hide Concat, Piece, ResponseOf, BodyOf, HasBody, Then, BodyAnswer;
    ghost var all := AnswerOf(Concat(pieces), z, request, withHead);
    var stream := new Stream(pieces, z);
    var out := new Sink();
    var reply := new Reply();
    ThenMore("", "", all);
    while true
      invariant stream.Valid() && reply.Value() == NoResponse() && stream.ending == z
      invariant fresh(stream) && fresh(stream.buffer) && fresh(out) && fresh(reply)
      invariant all == Then(out.written, AnswerOf(stream.Rest(), z, request, withHead))
      decreases |stream.Rest()|
    {
      ghost var done, w := out.written, stream.Rest();
      code := ReadResponse(stream, reply);
      if code != Ok {
        ThenEmpty(done, code);
        return code, out.written;
      }
      if withHead {
        out.Put(reply.raw);
      }
      ghost var head := if withHead then reply.raw else "";
      assert out.written == done + head;
      AnswerStep(done, head, w, z, request, withHead);
      if reply.status < 100 || reply.status >= 200 { break; }
      if reply.status == 101 {
        ThenEmpty(out.written, Protocol);
        return Protocol, out.written;
      }
      reply := new Reply();
    }
    code := FinishAnswer(stream, reply, request, out);
    output := out.written;
  }

  lemma ThenEmpty(done: string, c: Code)
    ensures Then(done, (c, "")) == (c, done)
  {
    assert done + "" == done;
  }

  lemma AnswerStep(done: string, head: string, w: string, z: Ending, request: string, withHead: bool)
    requires ResponseOf(w, z).Head? && head == if withHead then ResponseOf(w, z).r.raw else ""
    ensures var (r, rest) := (ResponseOf(w, z).r, ResponseOf(w, z).rest);
      Then(done, AnswerOf(w, z, request, withHead)) ==
      Then(done + head,
           if r.status < 100 || r.status >= 200 then BodyAnswer(rest, z, request, r)
           else if r.status == 101 then (Protocol, "")
           else AnswerOf(rest, z, request, withHead))
  {
    hide ResponseOf, BodyAnswer, Then;
    var r, rest := ResponseOf(w, z).r, ResponseOf(w, z).rest;
    ThenMore(done, head,
             if r.status < 100 || r.status >= 200 then BodyAnswer(rest, z, request, r)
             else if r.status == 101 then (Protocol, "")
             else AnswerOf(rest, z, request, withHead));
  }

  method FinishAnswer(stream: Stream, reply: Reply, request: string, out: Sink) returns (code: Code)
    requires stream.Valid()
    modifies stream`pieces, stream`begin, stream`end, stream.buffer, out
    ensures (code, out.written) ==
      Then(old(out.written), BodyAnswer(old(stream.Rest()), stream.ending, request, old(reply.Value())))
  {
    hide BodyOf, Concat, Piece;
    code := Ok;
    if HasBody(request, reply.status) {
      code := ReadBody(stream, reply, out);
    } else {
      ThenEmpty(out.written, Ok);
    }
  }
}
