/** The message decoder as functions of the whole byte string a connection delivers. */
module HttpDecode {
  import opened Numerals
  import opened Strings
  import opened Wrappers
  import opened HttpText

  // ----- lines -----

  datatype LineRes = Line(text: string, rest: string) | NoLine(code: Code)

  function StripCr(s: string): string {
    if s != "" && s[|s| - 1] == '\r' then s[..|s| - 1] else s
  }

  /** The line at the head of `w`, without its line ending. */
  function LineOf(w: string, z: Ending): (r: LineRes)
    ensures r.Line? ==> |r.rest| < |w| && |r.text| <= HEADER_LIMIT
    ensures r.NoLine? ==> r.code != Ok
  {
    var i := Find(w, '\n');
    if i > HEADER_LIMIT then NoLine(Protocol)
    else if i == |w| then NoLine(EndCode(z))
    else Line(StripCr(w[..i]), w[i + 1..])
  }

  lemma LineFound(text: string, rest: string, z: Ending)
    requires Find(text, '\n') == |text| && |text| <= HEADER_LIMIT
    ensures LineOf(text + "\n" + rest, z) == Line(StripCr(text), rest)
  {
    var w := text + "\n" + rest;
    FindIs(w, '\n', |text|);
    assert w[..|text|] == text && w[|text| + 1..] == rest;
  }

  // ----- bodies -----

  /** A body is delivered with what is left of the stream, or fails after some output. */
  datatype BodyRes = Body(out: string, rest: string) | Failed(code: Code, out: string)

  function Prepend(out: string, r: BodyRes): BodyRes {
    match r
    case Body(o, rest) => Body(out + o, rest)
    case Failed(c, o) => Failed(c, out + o)
  }

  /** Exactly `n` bytes. */
  function CopyOf(w: string, z: Ending, n: nat): (r: BodyRes)
    ensures r.Body? ==> |r.rest| == |w| - n
    ensures r.Failed? ==> r.code != Ok
  {
    if |w| >= n then Body(w[..n], w[n..]) else Failed(EndCode(z), w)
  }

  /** Everything up to the end of the connection. */
  function CopyAll(w: string, z: Ending): BodyRes {
    if z.Eof? then Body(w, "") else Failed(EndCode(z), w)
  }

  /** The two bytes after a chunk. */
  function CrlfOf(w: string, z: Ending): (r: BodyRes)
    ensures r.Body? ==> |r.rest| < |w|
    ensures r.Failed? ==> r.code != Ok
  {
    if |w| < 2 then Failed(EndCode(z), "")
    else if w[0] == '\r' && w[1] == '\n' then Body("", w[2..])
    else Failed(Protocol, "")
  }

  // ----- chunk sizes -----

  /** The number of hexadecimal digits `s` starts with. */
  function HexRun(s: string): (n: nat)
    ensures n <= |s| && (forall i :: 0 <= i < n ==> HexDigit(s[i]).Some?)
    ensures n < |s| ==> HexDigit(s[n]).None?
  {
    if s == "" || HexDigit(s[0]).None? then 0 else 1 + HexRun(s[1..])
  }

  /** The hexadecimal digits `s` starts with. */
  function HexPart(s: string): (r: string)
    ensures AllHex(r)
  {
    s[..HexRun(s)]
  }

  /** A chunk-size line: digits, blanks, and perhaps an extension after a semicolon. */
  predicate ChunkLineForm(line: string) {
    var n := HexRun(line);
    var tail := TrimLeft(line[n..]);
    n > 0 && (tail == "" || tail[0] == ';') && NoControl(tail)
  }

  function ChunkSize(line: string): Option<nat> {
    if ChunkLineForm(line) && HexValue(HexPart(line)) <= UINT64_MAX then Some(HexValue(HexPart(line))) else None
  }

  // ----- chunked coding -----

  /** The lines after the last chunk, `size` bytes of which have been seen. */
  function TrailersOf(w: string, z: Ending, size: nat): (r: BodyRes)
    ensures r.Body? ==> r.out == ""
    ensures r.Failed? ==> r.out == "" && r.code != Ok
    decreases |w|
  {
    match LineOf(w, z)
    case NoLine(c) => Failed(c, "")
    case Line(text, rest) =>
      if text != "" && HeaderColon(text).None? then Failed(Protocol, "")
      else if size + |text| + 2 > HEADER_LIMIT then Failed(Protocol, "")
      else if text == "" then Body("", rest)
      else TrailersOf(rest, z, size + |text| + 2)
  }

  function ChunkedOf(w: string, z: Ending): BodyRes
    decreases |w|
  {
    match LineOf(w, z)
    case NoLine(c) => Failed(c, "")
    case Line(text, rest) =>
      match ChunkSize(text)
      case None => Failed(Protocol, "")
      case Some(n) => if n == 0 then TrailersOf(rest, z, 0) else ChunkOf(rest, z, n)
  }

  /** A chunk of `n` bytes, its line ending, and the chunks after it. */
  function ChunkOf(w: string, z: Ending, n: nat): BodyRes
    decreases |w|
  {
    match CopyOf(w, z, n)
    case Failed(c, out) => Failed(c, out)
    case Body(out, rest) =>
      match CrlfOf(rest, z)
      case Failed(c, _) => Failed(c, out)
      case Body(_, rest') => Prepend(out, ChunkedOf(rest', z))
  }

  // ----- Content-Length -----

  /** One element of a Content-Length list. */
  function Element(s: string): Option<nat> {
    if AllDigits(Trim(s)) && DecValue(Trim(s)) <= UINT64_MAX then Some(DecValue(Trim(s))) else None
  }

  /** The comma-separated elements of a field value. */
  function Elements(s: string): (r: seq<string>)
    ensures r != []
    decreases |s|
  {
    var i := Find(s, ',');
    if i == |s| then [s] else [s[..i]] + Elements(s[i + 1..])
  }

  /** Every element is the number `n`. */
  predicate AllAre(es: seq<string>, n: nat) {
    forall i :: 0 <= i < |es| ==> Element(es[i]) == Some(n)
  }

  /** The length a field value declares, given the one declared before it. */
  function LengthOf(known: Option<nat>, value: string): Option<nat> {
    var n := Element(Elements(value)[0]);
    if n.Some? && AllAre(Elements(value), n.value) && (known.Some? ==> known == n) then n else None
  }

  // ----- responses -----

  datatype Coding = NoCoding | Chunked | Unsupported

  datatype Response = Response(status: nat, length: Option<nat>, coding: Coding, location: Option<string>, raw: string)

  datatype ParseRes = Parsed(r: Response) | Rejected

  function HeaderOf(r: Response, line: string): ParseRes {
    match HeaderColon(line)
    case None => Rejected
    case Some(i) =>
      var name, value := line[..i], Trim(line[i + 1..]);
      if SameIgnoringCase(name, "Content-Length") then
        match LengthOf(r.length, value)
        case None => Rejected
        case Some(n) => Parsed(r.(length := Some(n)))
      else if SameIgnoringCase(name, "Transfer-Encoding") then
        Parsed(r.(coding := if r.coding.NoCoding? && SameIgnoringCase(value, "chunked") then Chunked else Unsupported))
      else if SameIgnoringCase(name, "Location") then
        if r.location.Some? || value == "" then Rejected else Parsed(r.(location := Some(value)))
      else Parsed(r)
  }

  predicate StatusForm(line: string) {
    && |line| >= 12
    && line[..7] == "HTTP/1." && Digit(line[7]) && line[8] == ' '
    && '1' <= line[9] <= '5' && Digit(line[10]) && Digit(line[11])
    && (|line| > 12 ==> line[12] == ' ')
    && NoControl(line[12..])
  }

  function StatusOf(line: string): nat
    requires StatusForm(line)
  {
    DigitValue(line[9]) * 100 + DigitValue(line[10]) * 10 + DigitValue(line[11])
  }

  datatype HeadRes = Head(r: Response, rest: string) | BadHead(code: Code)

  /** Keep `line` and read the header lines after it. */
  function HeadersOf(w: string, z: Ending, r: Response, line: string): (h: HeadRes)
    ensures h.Head? ==> |h.rest| < |w|
    ensures h.BadHead? ==> h.code != Ok
    decreases |w|
  {
    if |r.raw| + |line| + 2 > HEADER_LIMIT then BadHead(Protocol) else
    var r1 := r.(raw := r.raw + line + "\r\n");
    match LineOf(w, z)
    case NoLine(c) => BadHead(c)
    case Line(text, rest) =>
      if text == "" then
        if |r1.raw| + 2 > HEADER_LIMIT then BadHead(Protocol) else Head(r1.(raw := r1.raw + "\r\n"), rest)
      else
        match HeaderOf(r1, text)
        case Rejected => BadHead(Protocol)
        case Parsed(r2) => HeadersOf(rest, z, r2, text)
  }

  function ResponseOf(w: string, z: Ending): (h: HeadRes)
    ensures h.Head? ==> |h.rest| < |w|
    ensures h.BadHead? ==> h.code != Ok
  {
    match LineOf(w, z)
    case NoLine(c) => BadHead(c)
    case Line(text, rest) =>
      if StatusForm(text) then HeadersOf(rest, z, Response(StatusOf(text), None, NoCoding, None, ""), text)
      else BadHead(Protocol)
  }

  function BodyOf(w: string, z: Ending, r: Response): BodyRes {
    if r.coding.Chunked? then ChunkedOf(w, z)
    else if r.coding.Unsupported? then Failed(Protocol, "")
    else if r.length.Some? then CopyOf(w, z, r.length.value)
    else CopyAll(w, z)
  }

  predicate HasBody(method_: string, status: nat) {
    method_ != "HEAD" && status >= 200 && status != 204 && status != 205 && status != 304
  }
}
