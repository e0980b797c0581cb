/** The refillable byte stream, and the readers over it. Each reader is proved to compute the
    decoder's function of the bytes still to come, however the connection divides them. */
module HttpStream {
  import opened Strings
  import opened HttpText
  import opened HttpDecode
  import opened HttpBuffer

  function Concat(pieces: seq<string>): string {
    if pieces == [] then "" else pieces[0] + Concat(pieces[1..])
  }

  /** What one `recv` may deliver. */
  predicate Piece(p: string) {
    0 < |p| <= IO_BUFFER_SIZE
  }

  /** Where the body goes. */
  class Sink {
    var written: string

    constructor ()
      ensures written == ""
    {
      written := "";
    }

    method Put(s: string)
      modifies this
      ensures written == old(written) + s
    {
      written := written + s;
    }
  }

  class Stream {
    const ending: Ending
    var pieces: seq<string>
    const buffer: array<char>
    var begin: nat
    var end: nat

    ghost predicate Valid()
      reads this
    {
      && buffer.Length == IO_BUFFER_SIZE
      && begin <= end <= buffer.Length
      && forall i :: 0 <= i < |pieces| ==> Piece(pieces[i])
    }

    /** The bytes still to come. */
    ghost function Rest(): string
      reads this, buffer
      requires Valid()
    {
      buffer[begin..end] + Concat(pieces)
    }

    constructor (pieces: seq<string>, ending: Ending)
      requires forall i :: 0 <= i < |pieces| ==> Piece(pieces[i])
      ensures Valid() && Rest() == Concat(pieces) && this.ending == ending && fresh(buffer)
    {
      this.ending := ending;
      this.pieces := pieces;
      this.buffer := new char[IO_BUFFER_SIZE](_ => '\0');
      this.begin := 0;
      this.end := 0;
    }

    /** Have bytes in the buffer if any are left; otherwise 0 at the end, -1 on an error. */
    method Fill() returns (available: int)
      requires Valid()
      modifies this`pieces, this`begin, this`end, buffer
      ensures Valid() && Rest() == old(Rest())
      ensures available == if Rest() != "" then end - begin else if ending.Eof? then 0 else -1
      ensures Rest() != "" ==> end > begin
    {
      if begin != end { return end - begin; }
      if pieces == [] { return if ending.Eof? then 0 else -1; }
      var p := pieces[0];
      assert Piece(p);
      forall i | 0 <= i < |p| {
        buffer[i] := p[i];
      }
      pieces := pieces[1..];
      begin, end := 0, |p|;
      assert buffer[begin..end] == p;
      available := |p|;
    }

    /** The bytes a fill has made available. */
    ghost function Ready(): string
      reads this, buffer
      requires Valid()
    {
      buffer[begin..end]
    }

    method Take(n: nat) returns (s: string)
      requires Valid() && n <= end - begin
      modifies this`begin
      ensures Valid() && s + Rest() == old(Rest()) && |s| == n && s == old(Ready())[..n]
    {
      s := buffer[begin..begin + n];
      begin := begin + n;
      assert s + buffer[begin..end] == old(Ready());
    }

    /** At most `n` bytes; empty only when none are left. */
    method Read(n: nat) returns (s: string)
      requires Valid() && n > 0
      modifies this`pieces, this`begin, this`end, buffer
      ensures Valid() && s + Rest() == old(Rest()) && |s| <= n
      ensures s == "" <==> old(Rest()) == ""
    {
      var available := Fill();
      if available <= 0 { return ""; }
      s := Take(if n < available then n else available);
    }

    /** Move the next `n` bytes of the buffer to `line`. */
    method Move(line: ByteBuffer, n: nat) returns (ghost s: string)
      requires Valid() && line.Valid() && line.data != buffer && n <= end - begin
      requires |line.Contents()| + n <= HEADER_LIMIT
      modifies this`begin, line, line.data
      ensures Valid() && line.Valid() && (line.data == old(line.data) || fresh(line.data))
      ensures s == old(Ready())[..n] && line.Contents() == old(line.Contents()) + s && s + Rest() == old(Rest())
      ensures end - begin == old(end - begin) - n && Ready() == old(Ready())[n..]
    {
      hide Concat, Piece;
      ghost var ready := Ready();
      var t := Take(n);
      assert Ready() == ready[n..];
      s := t;
      var ok := line.Append(t);
    }

    /** Move bytes from the stream to `line`, up to and over a newline or to the end of the buffer.
        `had` is what `line` holds; the line must not grow past the limit. */
    method Gather(line: ByteBuffer) returns (found: bool, code: Code)
      requires Valid() && line.Valid() && line.data != buffer && |line.Contents()| <= HEADER_LIMIT
      requires Find(line.Contents(), '\n') == |line.Contents()|
      modifies this`pieces, this`begin, this`end, buffer, line, line.data
      ensures Valid() && line.Valid() && (line.data == old(line.data) || fresh(line.data))
      ensures code == Ok ==> |line.Contents()| <= HEADER_LIMIT && Find(line.Contents(), '\n') == |line.Contents()|
      ensures code == Ok ==> old(line.Contents() + Rest()) == line.Contents() + (if found then "\n" else "") + Rest()
      ensures code == Ok ==> |Rest()| < old(|Rest()|)
      ensures code != Ok ==> LineOf(old(line.Contents() + Rest()), ending) == NoLine(code)
    {
      hide Find, Concat, LineOf, Piece;
      ghost var had := line.Contents();
      var available := Fill();
      if available <= 0 {
        assert had + Rest() == had;
        LineCut(had, ending);
        return false, if available == 0 then Protocol else if ending.TimedOut? then Timeout else Transfer;
      }
      var ready := buffer[begin..end];
      var part := Find(ready, '\n');
      FindInSum(had, ready, Concat(pieces));
      if line.length + part > HEADER_LIMIT {
        LineTooLong(had + (ready + Concat(pieces)), ending);
        return false, Protocol;
      }
      ghost var s := Move(line, part);
      found, code := part < |ready|, Ok;
      FindNone(had, s);
      Regroup(had, s, Rest());
      if found {
        var newline := Take(1);
        assert newline == "\n";
        Regroup(had + s, newline, Rest());
      } else {
        assert had + s + "" == had + s;
      }
    }

    /** Everything up to and over a newline. */
    method GatherLine(line: ByteBuffer) returns (code: Code)
      requires Valid() && line.Valid() && line.data != buffer && line.Contents() == ""
      modifies this`pieces, this`begin, this`end, buffer, line, line.data
      ensures Valid() && line.Valid() && line.data != buffer && (line.data == old(line.data) || fresh(line.data))
      ensures code == Ok ==> old(Rest()) == line.Contents() + "\n" + Rest()
      ensures code == Ok ==> |line.Contents()| <= HEADER_LIMIT && Find(line.Contents(), '\n') == |line.Contents()|
      ensures code != Ok ==> LineOf(old(Rest()), ending) == NoLine(code)
    {
      hide LineOf, Concat, Piece, Find;
      NoNewline();
      ghost var w := Rest();
      var found := false;
      assert w == line.Contents() + Rest();
      while !found
        invariant Valid() && line.Valid() && line.data != buffer
        invariant line.data == old(line.data) || fresh(line.data)
        invariant w == line.Contents() + (if found then "\n" else "") + Rest()
        invariant |line.Contents()| <= HEADER_LIMIT && Find(line.Contents(), '\n') == |line.Contents()|
        decreases |Rest()|, !found
      {
        assert line.Contents() + "" == line.Contents();
        found, code := Gather(line);
        if code != Ok { return; }
      }
      code := Ok;
    }

    /** One line, its ending dropped. */
    method ReadLine(line: ByteBuffer) returns (code: Code)
      requires Valid() && line.Valid() && line.data != buffer
      modifies this`pieces, this`begin, this`end, buffer, line, line.data
      ensures Valid() && line.Valid() && (line.data == old(line.data) || fresh(line.data))
      ensures var r := LineOf(old(Rest()), ending);
        if r.Line? then code == Ok && line.Contents() == r.text && Rest() == r.rest else code == r.code
    {
      hide LineOf, Concat, Piece, Find, StripCr;
      line.Reset();
      code := GatherLine(line);
      if code != Ok { return; }
      LineFound(line.Contents(), Rest(), ending);
      DropCr(line);
    }

    /** `n` bytes from the stream to the output. */
    method Copy(out: Sink, n: nat) returns (code: Code)
      requires Valid()
      modifies this`pieces, this`begin, this`end, buffer, out
      ensures Valid()
      ensures match CopyOf(old(Rest()), ending, n)
        case Body(o, rest) => code == Ok && out.written == old(out.written) + o && Rest() == rest
        case Failed(c, o) => code == c && out.written == old(out.written) + o
    {
      hide Concat, Piece, CopyOf;
      var length := n;
      ghost var w, done := Rest(), "";
      assert w == done + Rest();
      while length != 0
        invariant Valid() && 0 <= length <= n
        invariant w == done + Rest() && |done| == n - length && out.written == old(out.written) + done
        decreases length
      {
        var available := Fill();
        if available <= 0 {
          assert done + "" == done;
          CopyCut(done, ending, n);
          return if available == 0 then Protocol else if ending.TimedOut? then Timeout else Transfer;
        }
        var part := end - begin;
        if part > length {
          part := length;
        }
        var s := Take(part);
        Regroup(done, s, Rest());
        out.Put(s);
        done := done + s;
        length := length - |s|;
      }
      CopyDone(done, Rest(), ending);
      code := Ok;
    }

    /** Everything up to the end of the connection. */
    method CopyUntilClose(out: Sink) returns (code: Code)
      requires Valid()
      modifies this`pieces, this`begin, this`end, buffer, out
      ensures Valid()
      ensures match CopyAll(old(Rest()), ending)
        case Body(o, rest) => code == Ok && out.written == old(out.written) + o && Rest() == rest
        case Failed(c, o) => code == c && out.written == old(out.written) + o
    {
      hide Concat, Piece, CopyAll;
      ghost var w, done := Rest(), "";
      assert w == done + Rest();
      while true
        invariant Valid()
        invariant w == done + Rest() && out.written == old(out.written) + done
        decreases |Rest()|
      {
        var available := Fill();
        if available <= 0 {
          assert done + "" == done;
          CopyEnds(done, ending);
          return if available == 0 then Ok else if ending.TimedOut? then Timeout else Transfer;
        }
        var s := Take(available);
        Regroup(done, s, Rest());
        out.Put(s);
        done := done + s;
      }
    }

    /** The line ending after a chunk. */
    method ExpectCrlf() returns (code: Code)
      requires Valid()
      modifies this`pieces, this`begin, this`end, buffer
      ensures Valid()
      ensures match CrlfOf(old(Rest()), ending)
        case Body(_, rest) => code == Ok && Rest() == rest
        case Failed(c, _) => code == c
    {
      hide Concat, Piece, CrlfOf;
      ghost var w := Rest();
      var received := "";
      assert w == received + Rest();
      while |received| < 2
        invariant Valid() && |received| <= 2
        invariant w == received + Rest()
      {
        var part := Read(2 - |received|);
        if part == "" {
          assert received + "" == received;
          CrlfCut(received, ending);
          return EndCode(ending);
        }
        Regroup(received, part, Rest());
        received := received + part;
      }
      CrlfRead(received, Rest(), ending);
      code := if received[0] == '\r' && received[1] == '\n' then Ok else Protocol;
    }
  }

  /** Drop a carriage return at the end of a line. */
  method DropCr(line: ByteBuffer)
    requires line.Valid()
    modifies line, line.data
    ensures line.Valid() && line.data == old(line.data) && line.Contents() == StripCr(old(line.Contents()))
  {
    if line.length != 0 && line.data[line.length - 1] == '\r' {
      line.DropLast();
    }
  }

  lemma CopyDone(done: string, rest: string, z: Ending)
    ensures CopyOf(done + rest, z, |done|) == Body(done, rest)
  {
    assert (done + rest)[..|done|] == done && (done + rest)[|done|..] == rest;
  }

  lemma CopyCut(done: string, z: Ending, n: nat)
    requires |done| < n
    ensures CopyOf(done, z, n) == Failed(EndCode(z), done)
  {
  }

  lemma CopyEnds(done: string, z: Ending)
    ensures CopyAll(done, z) == if z.Eof? then Body(done, "") else Failed(EndCode(z), done)
  {
  }

  lemma CrlfRead(s: string, rest: string, z: Ending)
    requires |s| == 2
    ensures CrlfOf(s + rest, z) == if s[0] == '\r' && s[1] == '\n' then Body("", rest) else Failed(Protocol, "")
  {
    assert (s + rest)[2..] == rest;
  }

  lemma CrlfCut(s: string, z: Ending)
    requires |s| < 2
    ensures CrlfOf(s, z) == Failed(EndCode(z), "")
  {
  }

  // ----- lines across pieces -----

  lemma NoNewline()
    ensures Find("", '\n') == 0
  {
  }

  lemma LineCut(had: string, z: Ending)
    requires Find(had, '\n') == |had| <= HEADER_LIMIT
    ensures LineOf(had, z) == NoLine(EndCode(z))
  {
  }

  lemma LineTooLong(w: string, z: Ending)
    requires Find(w, '\n') > HEADER_LIMIT
    ensures LineOf(w, z) == NoLine(Protocol)
  {
  }

  lemma FindNone(a: string, b: string)
    requires Find(a, '\n') == |a| && Find(b, '\n') == |b|
    ensures Find(a + b, '\n') == |a + b|
  {
    FindIs(a + b, '\n', |a + b|);
  }

  /** Where the newline is, seen from the part of the line already read. */
  lemma FindInSum(had: string, ready: string, later: string)
    requires Find(had, '\n') == |had|
    ensures var part, i := Find(ready, '\n'), Find(had + (ready + later), '\n');
      && (part < |ready| ==> i == |had| + part)
      && (part == |ready| ==> i >= |had| + part)
    ensures Find(ready[..Find(ready, '\n')], '\n') == Find(ready, '\n')
  {
    var part, w := Find(ready, '\n'), had + (ready + later);
    FindIs(ready[..part], '\n', part);
    forall j | 0 <= j < |had| + part ensures w[j] != '\n' {
      assert w[j] == if j < |had| then had[j] else ready[j - |had|];
    }
    if part < |ready| {
      FindIs(w, '\n', |had| + part);
    }
  }
}
