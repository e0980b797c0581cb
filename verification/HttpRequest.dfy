/** Checking the options of a request and printing it (section 3.2 of RFC 9112). */
module HttpRequest {
  import opened Numerals
  import opened Strings
  import opened Wrappers
  import opened HttpText
  import opened HttpDecode
  import opened HttpBuffer
  import opened HttpUrl
  import HttpChunks
  import HttpLength

  // ----- named fields -----

  predicate Named(header: string, name: string) {
    Find(header, ':') == |name| < |header| && SameIgnoringCase(header[..|name|], name)
  }

  predicate Have(headers: seq<string>, name: string) {
    exists i :: 0 <= i < |headers| && Named(headers[i], name)
  }

  function Count(headers: seq<string>, name: string): nat {
    if headers == [] then 0 else (if Named(headers[0], name) then 1 else 0) + Count(headers[1..], name)
  }

  lemma {:induction false} CountSum(a: seq<string>, b: seq<string>, name: string)
    ensures Count(a + b, name) == Count(a, name) + Count(b, name)
  {
    if a == [] {
      assert a + b == b;
    } else {
      CountSum(a[1..], b, name);
      assert (a + b)[1..] == a[1..] + b;
    }
  }

  lemma {:induction false} CountHave(headers: seq<string>, name: string)
    ensures Count(headers, name) > 0 <==> Have(headers, name)
  {
    if headers != [] {
      CountHave(headers[1..], name);
      if Have(headers, name) && !Named(headers[0], name) {
        var i :| 0 <= i < |headers| && Named(headers[i], name);
        assert Named(headers[1..][i - 1], name);
      }
      if Have(headers[1..], name) {
        var i :| 0 <= i < |headers[1..]| && Named(headers[1..][i], name);
        assert Named(headers[i + 1], name);
      }
    }
  }

  method HaveHeader(headers: seq<string>, name: string) returns (found: bool)
    ensures found == Have(headers, name)
  {
    for i := 0 to |headers|
      invariant forall k :: 0 <= k < i ==> !Named(headers[k], name)
    {
      if Named(headers[i], name) { return true; }
    }
    found := false;
  }

  // ----- options -----

  predicate Managed(header: string) {
    Named(header, "Connection") || Named(header, "Content-Length") || Named(header, "Transfer-Encoding")
  }

  predicate MethodOk(request: string) {
    request != "" && Token(request) && request != "CONNECT"
  }

  /** A method is any token but CONNECT. */
  lemma MethodExactly(request: string)
    ensures MethodOk(request) <==>
      && request != "" && request != "CONNECT"
      && forall j :: 0 <= j < |request| ==>
           request[j] == '\0' || ('!' <= request[j] <= '~' && !HttpText.Delimiter(request[j]))
  {
    hide TokenCharacter;
    forall c: char ensures TokenCharacter(c) <==> c == '\0' || ('!' <= c <= '~' && !HttpText.Delimiter(c)) {
      TokenMeans(c);
    }
  }

  /** The method and the headers that pass the checks. */
  predicate OptionsOk(request: string, headers: seq<string>) {
    && MethodOk(request)
    && (forall i :: 0 <= i < |headers| ==> HeaderColon(headers[i]).Some? && !Managed(headers[i]))
    && Count(headers, "Host") <= 1
  }

  method CheckOptions(request: string, headers: seq<string>) returns (code: Code)
    ensures code == if OptionsOk(request, headers) then Ok else Usage
  {
    hide HeaderColon, Managed, Named;
    if !MethodOk(request) { return Usage; }
    var hosts := 0;
    for i := 0 to |headers|
      invariant forall k :: 0 <= k < i ==> HeaderColon(headers[k]).Some? && !Managed(headers[k])
      invariant hosts == Count(headers[..i], "Host") <= 1
    {
      if HeaderColon(headers[i]).None? { return Usage; }
      if Managed(headers[i]) { return Usage; }
      CountSum(headers[..i], [headers[i]], "Host");
      assert headers[..i + 1] == headers[..i] + [headers[i]];
      if Named(headers[i], "Host") {
        hosts := hosts + 1;
        if hosts > 1 {
          CountSum(headers[..i + 1], headers[i + 1..], "Host");
          assert headers == headers[..i + 1] + headers[i + 1..];
          return Usage;
        }
      }
    }
    assert headers[..|headers|] == headers;
    code := Ok;
  }

  // ----- the request -----

  function RequestLine(request: string, u: Url): string {
    request + (" " + (u.target + (" " + "HTTP/1.1")))
  }

  function Field(name: string, value: string): string {
    name + ": " + value
  }

  function When(b: bool, line: string): seq<string> {
    if b then [line] else []
  }

  /** The length a request declares; the C code prints it as a 32-bit number. */
  function LengthLine(data: Option<string>): string {
    Field("Content-Length", DecText(if data.Some? then |data.value| % (UINT32_MAX + 1) else 0))
  }

  function AgentLine(): string { Field("User-Agent", "PlantOS-curl/1.0") }
  function AcceptLine(): string { Field("Accept", "*/*") }
  function TypeLine(): string { Field("Content-Type", "application/x-www-form-urlencoded") }
  function CloseLine(): string { Field("Connection", "close") }

  /** The lines printed before the headers of the options. */
  function OwnLines(request: string, headers: seq<string>, u: Url, data: Option<string>): seq<string> {
    [RequestLine(request, u)]
    + When(!Have(headers, "Host"), Field("Host", PrintHost(u)))
    + When(!Have(headers, "User-Agent"), AgentLine())
    + When(!Have(headers, "Accept"), AcceptLine())
    + When(data.Some? && !Have(headers, "Content-Type"), TypeLine())
    + When(data.Some?, LengthLine(data))
  }

  function Lines(request: string, headers: seq<string>, u: Url, data: Option<string>): seq<string> {
    OwnLines(request, headers, u, data) + headers + [CloseLine()]
  }

  /** Lines with their endings, and what follows them. */
  function Text(lines: seq<string>, k: string): string
    decreases |lines|
  {
    if lines == [] then k else lines[0] + ("\r\n" + Text(lines[1..], k))
  }

  function RequestText(request: string, headers: seq<string>, u: Url, data: Option<string>): string {
    Text(Lines(request, headers, u, data), "\r\n")
  }

  // ----- printing -----

  /** After a series of appends that stops at the first failure: `text` has been stored, or is too long. */
  ghost predicate Holds(ok: bool, contents: string, text: string) {
    ok == (|text| + 1 <= UINT32_MAX) && (ok ==> contents == text)
  }

  /** One line more, unless an append has failed before. */
  method AppendLine(b: ByteBuffer, was: bool, line: string, ghost lines: seq<string>) returns (ok: bool)
    requires b.Valid() && Holds(was, b.Contents(), Text(lines, ""))
    modifies b, b.data
    ensures b.Valid() && (b.data == old(b.data) || fresh(b.data))
    ensures Holds(ok, b.Contents(), Text(lines + [line], ""))
  {
    hide Text;
    TextMore(lines, line);
    ok := was;
    if ok { ok := b.Append(line); }
    if ok { ok := b.Append("\r\n"); }
  }

  lemma {:induction false} TextMore(lines: seq<string>, line: string)
    ensures Text(lines + [line], "") == Text(lines, "") + line + "\r\n"
  {
    if lines == [] {
      assert lines + [line] == [line] && [line][1..] == [];
      assert "\r\n" + "" == "\r\n" && "" + line == line;
    } else {
      TextMore(lines[1..], line);
      assert (lines + [line])[1..] == lines[1..] + [line];
      var a, t := lines[0], Text(lines[1..], "");
      assert a + ("\r\n" + (t + line + "\r\n")) == a + ("\r\n" + t) + line + "\r\n";
    }
  }

  lemma {:induction false} TextEnd(lines: seq<string>, k: string)
    ensures Text(lines, k) == Text(lines, "") + k
  {
    if lines == [] {
      assert "" + k == k;
    } else {
      TextEnd(lines[1..], k);
    }
  }

  method AppendIf(b: ByteBuffer, was: bool, wanted: bool, line: string, ghost lines: seq<string>) returns (ok: bool)
    requires b.Valid() && Holds(was, b.Contents(), Text(lines, ""))
    modifies b, b.data
    ensures b.Valid() && (b.data == old(b.data) || fresh(b.data))
    ensures Holds(ok, b.Contents(), Text(lines + When(wanted, line), ""))
  {
    if wanted {
      ok := AppendLine(b, was, line, lines);
    } else {
      assert lines + [] == lines;
      ok := was;
    }
  }

  /** Everything before the headers of the options. */
  method BuildOwn(request: string, headers: seq<string>, u: Url, data: Option<string>, b: ByteBuffer) returns (ok: bool)
    requires b.Valid() && b.Contents() == ""
    modifies b, b.data
    ensures b.Valid() && (b.data == old(b.data) || fresh(b.data))
    ensures Holds(ok, b.Contents(), Text(OwnLines(request, headers, u, data), ""))
  {
    hide Have, PrintHost, LengthLine, RequestLine, Holds, When, Text, Field, AgentLine, AcceptLine, TypeLine;
    HoldsEmpty();
    ghost var l := [RequestLine(request, u)];
    assert [] + l == l;
    ok := AppendLine(b, true, RequestLine(request, u), []);
    var have := HaveHeader(headers, "Host");
    ok := AppendIf(b, ok, !have, Field("Host", PrintHost(u)), l);
    l := l + When(!have, Field("Host", PrintHost(u)));
    have := HaveHeader(headers, "User-Agent");
    ok := AppendIf(b, ok, !have, AgentLine(), l);
    l := l + When(!have, AgentLine());
    have := HaveHeader(headers, "Accept");
    ok := AppendIf(b, ok, !have, AcceptLine(), l);
    l := l + When(!have, AcceptLine());
    have := HaveHeader(headers, "Content-Type");
    ok := AppendIf(b, ok, data.Some? && !have, TypeLine(), l);
    l := l + When(data.Some? && !have, TypeLine());
    ok := AppendIf(b, ok, data.Some?, LengthLine(data), l);
  }

  lemma HoldsEmpty()
    ensures Holds(true, "", Text([], ""))
  {
  }

  /** Print a request: out of memory exactly when it would not fit 32 bits, and refused when it is
      longer than the header limit. */
  method Build(request: string, headers: seq<string>, u: Url, data: Option<string>, b: ByteBuffer) returns (code: Code)
    requires b.Valid() && b.Contents() == ""
    modifies b, b.data
    ensures b.Valid()
    ensures var text := RequestText(request, headers, u, data);
      && code == (if |text| + 1 > 0xffff_ffff then Memory else if |text| > 65536 then Protocol else Ok)
      && (code != Memory ==> b.Contents() == text)
  {
    hide OwnLines, Text, CloseLine;
    ghost var own := OwnLines(request, headers, u, data);
    var ok := BuildOwn(request, headers, u, data, b);
    assert own + headers[..0] == own;
    for i := 0 to |headers|
      invariant b.Valid() && (b.data == old(b.data) || fresh(b.data))
      invariant Holds(ok, b.Contents(), Text(own + headers[..i], ""))
    {
      ok := AppendLine(b, ok, headers[i], own + headers[..i]);
      assert own + headers[..i] + [headers[i]] == own + headers[..i + 1];
    }
    assert headers[..|headers|] == headers;
    ok := AppendLine(b, ok, CloseLine(), own + headers);
    TextEnd(Lines(request, headers, u, data), "\r\n");
    if ok { ok := b.Append("\r\n"); }
    if !ok { return Memory; }
    code := if b.length > HEADER_LIMIT then Protocol else Ok;
  }

  // ----- reading back -----

  /** Lines up to and over an empty one. */
  function ReadLines(w: string): Option<(seq<string>, string)>
    decreases |w|
  {
    match LineOf(w, Eof)
    case NoLine(_) => None
    case Line(text, rest) =>
      if text == "" then Some(([], rest))
      else
        match ReadLines(rest)
        case None => None
        case Some((lines, rest')) => Some(([text] + lines, rest'))
  }

  lemma {:induction false} TextIsRead(lines: seq<string>, rest: string)
    requires forall i :: 0 <= i < |lines| ==> lines[i] != "" && HttpChunks.Plain(lines[i])
    requires |Text(lines, "\r\n")| <= HEADER_LIMIT
    ensures ReadLines(Text(lines, "\r\n" + rest)) == Some((lines, rest))
    decreases |lines|
  {
    hide LineOf, HttpChunks.Plain;
    if lines == [] {
      HttpChunks.PlainEmpty();
      HttpChunks.RowIsRead(HttpChunks.Row("", "\r\n"), rest, Eof);
      assert "" + ("\r\n" + rest) == "\r\n" + rest;
    } else {
      TextIsRead(lines[1..], rest);
      HttpChunks.RowIsRead(HttpChunks.Row(lines[0], "\r\n"), Text(lines[1..], "\r\n" + rest), Eof);
      assert lines == [lines[0]] + lines[1..];
    }
  }

  // ----- what is read back -----

  /** A field line `name: value` whose value is free of control characters. */
  lemma FieldIs(name: string, value: string)
    requires name != "" && Token(name) && ':' !in name && NoControl(value)
    ensures var line := Field(name, value);
      && HeaderColon(line) == Some(|name|) && Find(line, ':') == |name| && line[..|name|] == name
      && line[|name| + 1..] == " " + value
  {
    var line := Field(name, value);
    FindIs(line, ':', |name|);
    assert line[..|name|] == name && line[|name| + 1..] == " " + value;
  }

  lemma FieldNamed(name: string, value: string, asked: string)
    requires name != "" && Token(name) && ':' !in name && NoControl(value)
    ensures Named(Field(name, value), asked) == SameIgnoringCase(name, asked)
    ensures HeaderColon(Field(name, value)).Some?
  {
    FieldIs(name, value);
  }

  lemma PrintHostIsClean(u: Url)
    requires UrlOk(u)
    ensures NoControl(PrintHost(u))
  {
  }

  lemma HostField(u: Url, asked: string)
    requires UrlOk(u)
    ensures Named(Field("Host", PrintHost(u)), asked) == SameIgnoringCase("Host", asked)
    ensures HeaderColon(Field("Host", PrintHost(u))).Some?
  {
    PrintHostIsClean(u);
    FieldNamed("Host", PrintHost(u), asked);
  }

  lemma AgentField(asked: string)
    ensures Named(AgentLine(), asked) == SameIgnoringCase("User-Agent", asked)
    ensures HeaderColon(AgentLine()).Some?
  {
    FieldNamed("User-Agent", "PlantOS-curl/1.0", asked);
  }

  lemma AcceptField(asked: string)
    ensures Named(AcceptLine(), asked) == SameIgnoringCase("Accept", asked)
    ensures HeaderColon(AcceptLine()).Some?
  {
    FieldNamed("Accept", "*/*", asked);
  }

  lemma TypeField(asked: string)
    ensures Named(TypeLine(), asked) == SameIgnoringCase("Content-Type", asked)
    ensures HeaderColon(TypeLine()).Some?
  {
    FieldNamed("Content-Type", "application/x-www-form-urlencoded", asked);
  }

  lemma CloseField(asked: string)
    ensures Named(CloseLine(), asked) == SameIgnoringCase("Connection", asked)
    ensures HeaderColon(CloseLine()).Some?
  {
    FieldNamed("Connection", "close", asked);
  }

  lemma LengthField(data: Option<string>, asked: string)
    ensures Named(LengthLine(data), asked) == SameIgnoringCase("Content-Length", asked)
    ensures HeaderColon(LengthLine(data)).Some?
  {
    var n := if data.Some? then |data.value| % (UINT32_MAX + 1) else 0;
    FieldNamed("Content-Length", DecText(n), asked);
  }

  lemma CountIf(b: bool, line: string, name: string)
    ensures Count(When(b, line), name) == if b && Named(line, name) then 1 else 0
  {
    assert [line][1..] == [];
  }

  /** How often a name occurs among the fields of a request. */
  lemma CountFields(request: string, headers: seq<string>, u: Url, data: Option<string>, name: string)
    requires UrlOk(u)
    ensures Count(Lines(request, headers, u, data)[1..], name) ==
      (if !Have(headers, "Host") && SameIgnoringCase("Host", name) then 1 else 0)
      + (if !Have(headers, "User-Agent") && SameIgnoringCase("User-Agent", name) then 1 else 0)
      + (if !Have(headers, "Accept") && SameIgnoringCase("Accept", name) then 1 else 0)
      + (if data.Some? && !Have(headers, "Content-Type") && SameIgnoringCase("Content-Type", name) then 1 else 0)
      + (if data.Some? && SameIgnoringCase("Content-Length", name) then 1 else 0)
      + Count(headers, name)
      + (if SameIgnoringCase("Connection", name) then 1 else 0)
  {
    hide Named, SameIgnoringCase, Have, PrintHost, RequestLine, AgentLine, AcceptLine, TypeLine, LengthLine,
      CloseLine, UrlOk, When, Field, Count;
    var r := [RequestLine(request, u)];
    var a := When(!Have(headers, "Host"), Field("Host", PrintHost(u)));
    var b := When(!Have(headers, "User-Agent"), AgentLine());
    var c := When(!Have(headers, "Accept"), AcceptLine());
    var d := When(data.Some? && !Have(headers, "Content-Type"), TypeLine());
    var e := When(data.Some?, LengthLine(data));
    CountSum(r, a, name);
    CountSum(r + a, b, name);
    CountSum(r + a + b, c, name);
    CountSum(r + a + b + c, d, name);
    CountSum(r + a + b + c + d, e, name);
    CountSum(r + a + b + c + d + e, headers, name);
    CountSum(r + a + b + c + d + e + headers, [CloseLine()], name);
    CountIf(!Have(headers, "Host"), Field("Host", PrintHost(u)), name);
    CountIf(!Have(headers, "User-Agent"), AgentLine(), name);
    CountIf(!Have(headers, "Accept"), AcceptLine(), name);
    CountIf(data.Some? && !Have(headers, "Content-Type"), TypeLine(), name);
    CountIf(data.Some?, LengthLine(data), name);
    HostField(u, name);
    AgentField(name);
    AcceptField(name);
    TypeField(name);
    LengthField(data, name);
    CloseField(name);
    CountOne(RequestLine(request, u), name);
    CountOne(CloseLine(), name);
    FirstLine(request, headers, u, data);
    CountTail(Lines(request, headers, u, data), name);
  }

  lemma CountTail(lines: seq<string>, name: string)
    requires lines != []
    ensures Count(lines[1..], name) == Count(lines, name) - if Named(lines[0], name) then 1 else 0
  {
  }

  lemma CountOne(line: string, name: string)
    ensures Count([line], name) == if Named(line, name) then 1 else 0
  {
    assert [line][1..] == [];
  }

  lemma FirstLine(request: string, headers: seq<string>, u: Url, data: Option<string>)
    ensures var ls := Lines(request, headers, u, data); ls != [] && ls[0] == RequestLine(request, u)
  {
  }

  /** Framing: exactly one Host and one Connection field, a Content-Length exactly when a body is sent
      and then only one, and no Transfer-Encoding. */
  lemma RequestFraming(request: string, headers: seq<string>, u: Url, data: Option<string>)
    requires OptionsOk(request, headers) && UrlOk(u)
    ensures var fields := Lines(request, headers, u, data)[1..];
      && Count(fields, "Host") == 1 && Count(fields, "Connection") == 1
      && Count(fields, "Content-Length") == (if data.Some? then 1 else 0)
      && Count(fields, "Transfer-Encoding") == 0
  {
    hide Lines, UrlOk, Named, Have, HeaderColon;
    CountFields(request, headers, u, data, "Host");
    CountFields(request, headers, u, data, "Connection");
    CountFields(request, headers, u, data, "Content-Length");
    CountFields(request, headers, u, data, "Transfer-Encoding");
    CountHave(headers, "Host");
    NoManaged(headers);
    Initials();
  }

  lemma NoManaged(headers: seq<string>)
    requires forall i :: 0 <= i < |headers| ==> !Managed(headers[i])
    ensures Count(headers, "Connection") == 0 && Count(headers, "Content-Length") == 0
    ensures Count(headers, "Transfer-Encoding") == 0
  {
    hide Named;
    CountHave(headers, "Connection");
    CountHave(headers, "Content-Length");
    CountHave(headers, "Transfer-Encoding");
    HaveOne(headers, "Connection");
    HaveOne(headers, "Content-Length");
    HaveOne(headers, "Transfer-Encoding");
  }

  lemma HaveOne(headers: seq<string>, name: string)
    requires forall i :: 0 <= i < |headers| ==> !Named(headers[i], name)
    ensures !Have(headers, name)
  {
  }

  lemma Initials()
    ensures SameIgnoringCase("Host", "Host") && !SameIgnoringCase("Host", "Connection")
    ensures !SameIgnoringCase("User-Agent", "Connection") && SameIgnoringCase("Connection", "Connection")
    ensures SameIgnoringCase("Content-Length", "Content-Length")
  {
    assert "User-Agent"[0] == 'U' && "Connection"[0] == 'C';
  }

  /** Header lines after the first line. */
  predicate HeadersAfterFirst(lines: seq<string>) {
    lines != [] && forall i :: 1 <= i < |lines| ==> HeaderColon(lines[i]).Some?
  }

  lemma HeaderAdded(lines: seq<string>, b: bool, line: string)
    requires HeadersAfterFirst(lines) && HeaderColon(line).Some?
    ensures HeadersAfterFirst(lines + When(b, line))
  {
    hide HeaderColon;
  }

  lemma HeadersAdded(lines: seq<string>, more: seq<string>)
    requires HeadersAfterFirst(lines) && forall i :: 0 <= i < |more| ==> HeaderColon(more[i]).Some?
    ensures HeadersAfterFirst(lines + more)
  {
    hide HeaderColon;
  }

  lemma OwnAreHeaders(request: string, headers: seq<string>, u: Url, data: Option<string>)
    requires UrlOk(u)
    ensures HeadersAfterFirst(OwnLines(request, headers, u, data))
  {
    hide HeaderColon, UrlOk, RequestLine, PrintHost, AgentLine, AcceptLine, TypeLine, LengthLine, Have, Field, When,
      HeadersAfterFirst;
    HostField(u, "");
    AgentField("");
    AcceptField("");
    TypeField("");
    LengthField(data, "");
    FirstAlone(RequestLine(request, u));
    var l := [RequestLine(request, u)];
    HeaderAdded(l, !Have(headers, "Host"), Field("Host", PrintHost(u)));
    l := l + When(!Have(headers, "Host"), Field("Host", PrintHost(u)));
    HeaderAdded(l, !Have(headers, "User-Agent"), AgentLine());
    l := l + When(!Have(headers, "User-Agent"), AgentLine());
    HeaderAdded(l, !Have(headers, "Accept"), AcceptLine());
    l := l + When(!Have(headers, "Accept"), AcceptLine());
    HeaderAdded(l, data.Some? && !Have(headers, "Content-Type"), TypeLine());
    l := l + When(data.Some? && !Have(headers, "Content-Type"), TypeLine());
    HeaderAdded(l, data.Some?, LengthLine(data));
  }

  lemma FirstAlone(line: string)
    ensures HeadersAfterFirst([line])
  {
  }

  /** Every field line is a header by the client's own check. */
  lemma FieldsAreHeaders(request: string, headers: seq<string>, u: Url, data: Option<string>)
    requires OptionsOk(request, headers) && UrlOk(u)
    ensures forall i :: 1 <= i < |Lines(request, headers, u, data)| ==>
      HeaderColon(Lines(request, headers, u, data)[i]).Some?
  {
    hide HeaderColon, UrlOk, OwnLines, CloseLine;
    CloseField("");
    OwnAreHeaders(request, headers, u, data);
    HeadersAdded(OwnLines(request, headers, u, data), headers);
    HeadersAdded(OwnLines(request, headers, u, data) + headers, [CloseLine()]);
    assert HeadersAfterFirst(Lines(request, headers, u, data));
  }

  lemma OwnParts(request: string, headers: seq<string>, u: Url, data: Option<string>)
    ensures var own := OwnLines(request, headers, u, data);
      && own != []
      && (!Have(headers, "Host") ==> Field("Host", PrintHost(u)) in own[1..])
      && (!Have(headers, "User-Agent") ==> AgentLine() in own[1..])
      && (!Have(headers, "Accept") ==> AcceptLine() in own[1..])
      && (data.Some? && !Have(headers, "Content-Type") ==> TypeLine() in own[1..])
      && (data.Some? ==> LengthLine(data) in own[1..])
  {
    hide Have, Field, PrintHost, AgentLine, AcceptLine, TypeLine, LengthLine, RequestLine;
    var r := [RequestLine(request, u)];
    var a := When(!Have(headers, "Host"), Field("Host", PrintHost(u)));
    var b := When(!Have(headers, "User-Agent"), AgentLine());
    var c := When(!Have(headers, "Accept"), AcceptLine());
    var d := When(data.Some? && !Have(headers, "Content-Type"), TypeLine());
    var e := When(data.Some?, LengthLine(data));
    assert (r + a + b + c + d + e)[1..] == a + b + c + d + e;
  }

  /** What the fields say. The ones the options do not give themselves: the host and port of the URL, the
      port only when it is not 80; the client's name; any type accepted; with a body, its type and its
      length. The headers of the options follow in order, and at last the connection is to be closed. */
  lemma RequestSays(request: string, headers: seq<string>, u: Url, data: Option<string>)
    ensures var ls := Lines(request, headers, u, data);
      var n := |ls| - 1 - |headers|;
      && 1 <= n && ls[n..|ls| - 1] == headers && ls[|ls| - 1] == "Connection" + ": " + "close"
      && (!Have(headers, "Host") ==>
           "Host" + ": " + (if u.port == 80 then u.host else u.host + (":" + DecText(u.port))) in ls[1..n])
      && (!Have(headers, "User-Agent") ==> "User-Agent" + ": " + "PlantOS-curl/1.0" in ls[1..n])
      && (!Have(headers, "Accept") ==> "Accept" + ": " + "*/*" in ls[1..n])
      && (data.Some? && !Have(headers, "Content-Type") ==>
           "Content-Type" + ": " + "application/x-www-form-urlencoded" in ls[1..n])
      && (data.Some? && |data.value| <= UINT32_MAX ==> "Content-Length" + ": " + DecText(|data.value|) in ls[1..n])
  {
    hide OwnLines, Have, PrintHost, DecText;
    var own, ls := OwnLines(request, headers, u, data), Lines(request, headers, u, data);
    OwnParts(request, headers, u, data);
    HostSays(u);
    assert ls[1..|own|] == own[1..];
    assert ls[|own|..|ls| - 1] == headers;
  }

  lemma HostSays(u: Url)
    ensures PrintHost(u) == if u.port == 80 then u.host else u.host + (":" + DecText(u.port))
  {
    hide DecText;
    assert u.host + "" == u.host;
  }

  lemma RequestLineIs(request: string, u: Url)
    requires MethodOk(request) && UrlOk(u)
    ensures var line := RequestLine(request, u);
      && line != "" && HttpChunks.Plain(line)
      && Find(line, ' ') == |request|
      && line[..|request|] == request
      && Find(line[|request| + 1..], ' ') == |u.target|
      && line[|request| + 1..][..|u.target|] == u.target
      && line[|request| + 1..][|u.target| + 1..] == "HTTP/1.1"
  {
    hide Find, HttpChunks.Plain;
    CleanParts(request, u);
    SplitAtSpace(request, u.target + (" " + "HTTP/1.1"));
    SplitAtSpace(u.target, "HTTP/1.1");
  }

  lemma SplitAtSpace(a: string, b: string)
    requires ' ' !in a && HttpChunks.Plain(a) && HttpChunks.Plain(b)
    ensures var s := a + (" " + b);
      Find(s, ' ') == |a| && s[..|a|] == a && s[|a| + 1..] == b && s != "" && HttpChunks.Plain(s)
  {
    var s := a + (" " + b);
    FindIs(s, ' ', |a|);
    assert forall i :: 0 <= i < |s| ==> s[i] == if i < |a| then a[i] else if i == |a| then ' ' else b[i - |a| - 1];
  }

  lemma CleanParts(request: string, u: Url)
    requires MethodOk(request) && UrlOk(u)
    ensures ' ' !in request && HttpChunks.Plain(request)
    ensures ' ' !in u.target && HttpChunks.Plain(u.target)
    ensures HttpChunks.Plain("HTTP/1.1")
  {
  }

  /** Reading a request back line by line yields the request line, the fields, and one blank line. */
  lemma RequestReadsBack(request: string, headers: seq<string>, u: Url, data: Option<string>, rest: string)
    requires OptionsOk(request, headers) && UrlOk(u) && |RequestText(request, headers, u, data)| <= HEADER_LIMIT
    ensures ReadLines(RequestText(request, headers, u, data) + rest) == Some((Lines(request, headers, u, data), rest))
  {
    hide Lines, UrlOk, MethodOk, HeaderColon, HttpChunks.Plain, Managed;
    var lines := Lines(request, headers, u, data);
    FieldsAreHeaders(request, headers, u, data);
    FirstLine(request, headers, u, data);
    RequestLineIs(request, u);
    forall i | 0 <= i < |lines| ensures lines[i] != "" && HttpChunks.Plain(lines[i]) {
      if i > 0 { HttpChunks.HeaderIsPlain(lines[i]); }
    }
    TextIsRead(lines, rest);
    TextEnd(lines, "\r\n");
    TextEnd(lines, "\r\n" + rest);
    Regroup(Text(lines, ""), "\r\n", rest);
  }

  /** The declared length of a body is the one its receiver reads, up to 32 bits. */
  lemma DeclaredLength(data: string, r: Response)
    requires r.length.None?
    ensures HeaderOf(r, LengthLine(Some(data))) == Parsed(r.(length := Some(|data|))) <==> |data| <= 0xffff_ffff
  {
    hide DecText, DecValue, Trim, LengthOf, HeaderColon, Field, Find;
    var n := |data| % (UINT32_MAX + 1);
    FieldIs("Content-Length", DecText(n));
    Initials();
    DecTextValue(n);
    NumberIsLength(DecText(n));
  }

  lemma NumberIsLength(d: string)
    requires AllDigits(d) && DecValue(d) <= UINT64_MAX
    ensures LengthOf(None, Trim(" " + d)) == Some(DecValue(d))
  {
    hide Elements, Find, TrimLeft, TrimRight, DecValue, AllDigits, Element;
    DigitsTrim(d);
    OneElement(d);
    NumberElement(d);
  }

  /** Digits are left alone by trimming. */
  lemma DigitsTrim(d: string)
    requires AllDigits(d)
    ensures Trim(" " + d) == d && Trim(d) == d
  {
    hide TrimLeft, TrimRight;
    HttpLength.TrimLeftIs(" ", d);
    HttpLength.TrimRightIs(d, "");
    HttpLength.TrimLeftIs("", d);
    assert d + "" == d && "" + d == d;
  }

  lemma OneElement(d: string)
    requires AllDigits(d)
    ensures Elements(d) == [d]
  {
    hide Find;
    FindIs(d, ',', |d|);
  }

  lemma NumberElement(d: string)
    requires AllDigits(d) && DecValue(d) <= UINT64_MAX
    ensures Element(d) == Some(DecValue(d))
  {
    hide Trim, DecValue, AllDigits;
    DigitsTrim(d);
  }
}
