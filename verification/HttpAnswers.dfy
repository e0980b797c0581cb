/** What the client makes of a response as it is written: the head, the body its fields announce, and
    the interim responses before it. */
module HttpAnswers {
  import opened Numerals
  import opened Strings
  import opened Wrappers
  import opened HttpText
  import opened HttpDecode
  import opened HttpChunks
  import opened HttpLength
  import opened HttpMessage

  // ----- heads -----

  /** A header line: a name, a colon, and a value between blanks. */
  datatype Field = Field(name: string, before: string, value: string, after: string, eol: string)

  /** A head: the digit after `HTTP/1.`, the status, perhaps a reason, fields, and the line endings of
      the status line and the empty line. */
  datatype Preamble = Preamble(minor: char, status: nat, reason: Option<string>, fields: seq<Field>,
                               eol: string, last: string)

  predicate LineEnding(s: string) {
    s == "\r\n" || s == "\n"
  }

  predicate Ends(s: string) {
    s == "" || (!Blank(s[0]) && !Blank(s[|s| - 1]))
  }

  predicate FieldOk(f: Field) {
    && f.name != "" && Token(f.name) && LineEnding(f.eol)
    && AllBlank(f.before) && AllBlank(f.after) && Ends(f.value) && NoControl(f.value)
  }

  function FieldLine(f: Field): string {
    f.name + ":" + (f.before + (f.value + f.after))
  }

  function StatusLine(h: Preamble): string
  {
    "HTTP/1." + [h.minor] + " " + DecText(h.status) + (if h.reason.None? then "" else " " + h.reason.value)
  }

  /** The values of the fields with this name, in whatever case. */
  function Values(fs: seq<Field>, name: string): seq<string> {
    if fs == [] then []
    else (if SameIgnoringCase(fs[0].name, name) then [fs[0].value] else []) + Values(fs[1..], name)
  }

  /** The lines of some fields as they are kept. */
  function KeptFields(fs: seq<Field>): string {
    if fs == [] then "" else FieldLine(fs[0]) + "\r\n" + KeptFields(fs[1..])
  }

  /** The head as it is kept, every line with the full line ending. */
  function Kept(h: Preamble): string
  {
    StatusLine(h) + "\r\n" + KeptFields(h.fields) + "\r\n"
  }

  function FieldsAnd(fs: seq<Field>, k: string): string {
    if fs == [] then k else RowAnd(Row(FieldLine(fs[0]), fs[0].eol), FieldsAnd(fs[1..], k))
  }

  /** A head as it is written, followed by `k`. */
  function HeadAnd(h: Preamble, k: string): string
  {
    RowAnd(Row(StatusLine(h), h.eol), FieldsAnd(h.fields, RowAnd(Row("", h.last), k)))
  }

  /** A decimal number, in whatever way it is written. */
  predicate Spells(s: string, n: nat) {
    AllDigits(s) && DecValue(s) == n
  }

  /** A head that is well formed and short enough, with at most one Location. `n` is what its
      Content-Length fields say, if it has any. */
  predicate HeadOk(h: Preamble, n: nat) {
    && 100 <= h.status <= 599 && Digit(h.minor) && (h.reason.Some? ==> NoControl(h.reason.value))
    && LineEnding(h.eol) && LineEnding(h.last) && |Kept(h)| <= 65536
    && (forall f :: f in h.fields ==> FieldOk(f))
    && n <= UINT64_MAX && (forall v :: v in Values(h.fields, "Content-Length") ==> Spells(v, n))
    && |Values(h.fields, "Location")| <= 1 && (forall v :: v in Values(h.fields, "Location") ==> v != "")
  }

  // ----- one field -----

  lemma FieldColon(f: Field)
    requires FieldOk(f)
    ensures var line := FieldLine(f);
      && HeaderColon(line) == Some(|f.name|) && line[..|f.name|] == f.name
      && Trim(line[|f.name| + 1..]) == f.value
  {
    hide TrimLeft, TrimRight;
    var line := FieldLine(f);
    var tail := f.before + (f.value + f.after);
    assert line[..|f.name|] == f.name && line[|f.name| + 1..] == tail && line[|f.name|] == ':';
    forall j | 0 <= j < |f.name| ensures line[j] != ':' {
      assert TokenCharacter(f.name[j]);
    }
    FindIs(line, ':', |f.name|);
    forall i | 0 <= i < |tail| ensures !Control(tail[i]) {
      if i < |f.before| {
        assert tail[i] == f.before[i];
      } else if i < |f.before| + |f.value| {
        assert tail[i] == f.value[i - |f.before|];
      } else {
        assert tail[i] == f.after[i - |f.before| - |f.value|];
      }
    }
    TrimmedField(f.before, f.value, f.after);
  }

  lemma TrimmedField(b: string, v: string, a: string)
    requires AllBlank(b) && AllBlank(a) && Ends(v)
    ensures Trim(b + (v + a)) == v
  {
    hide TrimLeft, TrimRight;
    if v == "" {
      assert b + (v + a) == (b + a) + "";
      TrimLeftIs(b + a, "");
      TrimRightIs("", "");
      assert "" + "" == "";
    } else {
      TrimLeftIs(b, v + a);
      TrimRightIs(v, a);
    }
  }

  lemma OneNumber(v: string, n: nat, known: Option<nat>)
    requires Spells(v, n) && n <= UINT64_MAX && (known.Some? ==> known == Some(n))
    ensures LengthOf(known, v) == Some(n)
  {
    forall i | 0 <= i < |v| ensures v[i] != ',' && !Blank(v[i]) {
      assert Digit(v[i]);
    }
    FindIs(v, ',', |v|);
    TrimmedField("", v, "");
    assert "" + (v + "") == v;
    assert Elements(v) == [v];
  }

  /** The coding after some Transfer-Encoding values. */
  function CodingAfter(c: Coding, vs: seq<string>): Coding {
    if vs == [] then c
    else if c.NoCoding? && |vs| == 1 && SameIgnoringCase(vs[0], "chunked") then Chunked
    else Unsupported
  }

  /** What some fields say, after what was said before. */
  function Said(r: Response, fs: seq<Field>, n: nat): Response {
    r.(length := if Values(fs, "Content-Length") == [] then r.length else Some(n),
       coding := CodingAfter(r.coding, Values(fs, "Transfer-Encoding")),
       location := if Values(fs, "Location") == [] then r.location else Some(Values(fs, "Location")[0]))
  }

  predicate MaySay(r: Response, fs: seq<Field>, n: nat) {
    && (forall f :: f in fs ==> FieldOk(f)) && n <= UINT64_MAX && (r.length.Some? ==> r.length == Some(n))
    && (forall v :: v in Values(fs, "Content-Length") ==> Spells(v, n))
    && (if r.location.Some? then 1 else 0) + |Values(fs, "Location")| <= 1
    && (forall v :: v in Values(fs, "Location") ==> v != "")
  }

  /** The values of one name, from the first field on. */
  lemma ValuesFrom(fs: seq<Field>, name: string)
    requires fs != []
    ensures SameIgnoringCase(fs[0].name, name) ==> Values(fs, name) == [fs[0].value] + Values(fs[1..], name)
    ensures !SameIgnoringCase(fs[0].name, name) ==> Values(fs, name) == Values(fs[1..], name)
  {
    hide SameIgnoringCase;
  }

  lemma OneField(r: Response, fs: seq<Field>, n: nat)
    requires fs != [] && MaySay(r, fs, n)
    ensures var p := HeaderOf(r, FieldLine(fs[0]));
      && p.Parsed? && p.r.raw == r.raw && p.r.status == r.status
      && MaySay(p.r, fs[1..], n) && Said(p.r, fs[1..], n) == Said(r, fs, n)
  {
    hide FieldLine, HeaderColon, Trim, SameIgnoringCase, LengthOf, Token, NoControl, AllBlank, Ends, Spells, Values,
      FieldOk;
    var f := fs[0];
    FieldColon(f);
    NamesDiffer(f.name);
    ValuesFrom(fs, "Content-Length");
    ValuesFrom(fs, "Transfer-Encoding");
    ValuesFrom(fs, "Location");
    if SameIgnoringCase(f.name, "Content-Length") {
      assert f.value in Values(fs, "Content-Length");
      OneNumber(f.value, n, r.length);
    } else if SameIgnoringCase(f.name, "Location") {
      assert f.value in Values(fs, "Location");
    }
  }

  /** No name is two of the three that matter. */
  lemma NamesDiffer(name: string)
    ensures !(SameIgnoringCase(name, "Content-Length") && SameIgnoringCase(name, "Transfer-Encoding"))
    ensures !(SameIgnoringCase(name, "Content-Length") && SameIgnoringCase(name, "Location"))
    ensures !(SameIgnoringCase(name, "Transfer-Encoding") && SameIgnoringCase(name, "Location"))
  {
  }

  // ----- reading a head -----

  lemma FieldRead(f: Field, k: string, z: Ending)
    requires FieldOk(f) && |FieldLine(f)| + 2 <= HEADER_LIMIT
    ensures LineOf(RowAnd(Row(FieldLine(f), f.eol), k), z) == Line(FieldLine(f), k) && FieldLine(f) != ""
  {
    hide FieldLine, HeaderColon, LineOf, Trim;
    FieldColon(f);
    HeaderIsPlain(FieldLine(f));
    RowIsRead(Row(FieldLine(f), f.eol), k, z);
  }

  lemma BlankRead(eol: string, k: string, z: Ending)
    requires LineEnding(eol)
    ensures LineOf(RowAnd(Row("", eol), k), z) == Line("", k)
  {
    PlainEmpty();
    RowIsRead(Row("", eol), k, z);
  }

  lemma {:induction false} FieldsRead(r: Response, line: string, fs: seq<Field>, last: string, k: string, z: Ending,
                                      n: nat)
    requires MaySay(r, fs, n) && LineEnding(last)
    requires |r.raw| + |line| + 2 + |KeptFields(fs)| + 2 <= HEADER_LIMIT
    ensures HeadersOf(FieldsAnd(fs, RowAnd(Row("", last), k)), z, r, line) ==
      Head(Said(r, fs, n).(raw := r.raw + line + "\r\n" + KeptFields(fs) + "\r\n"), k)
    decreases |fs|
  {
    hide FieldLine, HeaderOf, LineOf, RowAnd, MaySay, Said;
    var r1 := r.(raw := r.raw + line + "\r\n");
    if fs == [] {
      BlankRead(last, k, z);
      NothingSaid(r, n);
      assert r1.raw + "\r\n" == r.raw + line + "\r\n" + KeptFields(fs) + "\r\n";
    } else {
      var text, rest := FieldLine(fs[0]), FieldsAnd(fs[1..], RowAnd(Row("", last), k));
      RawDoesNotMatter(r, r1.raw, fs, n);
      OneField(r1, fs, n);
      FirstOk(r, fs, n);
      FieldRead(fs[0], rest, z);
      var r2 := HeaderOf(r1, text).r;
      FieldsRead(r2, text, fs[1..], last, k, z, n);
      assert r1.raw + text + "\r\n" + KeptFields(fs[1..]) + "\r\n" == r.raw + line + "\r\n" + KeptFields(fs) + "\r\n";
    }
  }

  lemma NothingSaid(r: Response, n: nat)
    ensures Said(r, [], n) == r
  {
  }

  lemma FirstOk(r: Response, fs: seq<Field>, n: nat)
    requires MaySay(r, fs, n) && fs != []
    ensures FieldOk(fs[0])
  {
  }

  lemma RawDoesNotMatter(r: Response, raw: string, fs: seq<Field>, n: nat)
    ensures MaySay(r.(raw := raw), fs, n) == MaySay(r, fs, n)
    ensures Said(r.(raw := raw), fs, n) == Said(r, fs, n).(raw := raw)
  {
  }

  lemma ThreeDigits(n: nat)
    requires 100 <= n <= 599
    ensures DecText(n) == [DecChar(n / 100), DecChar(n / 10 % 10), DecChar(n % 10)]
    ensures '1' <= DecChar(n / 100) <= '5'
  {
    assert n / 10 / 10 == n / 100;
    assert DecText(n / 100) == [DecChar(n / 100)];
    assert DecText(n / 10) == [DecChar(n / 100), DecChar(n / 10 % 10)];
  }

  lemma StatusParts(h: Preamble, n: nat)
    requires HeadOk(h, n)
    ensures var line, tail := StatusLine(h), if h.reason.None? then "" else " " + h.reason.value;
      && |line| >= 12 && line[12..] == tail && NoControl(tail) && |line| + 2 <= HEADER_LIMIT
      && line[..7] == "HTTP/1." && line[7] == h.minor && line[8] == ' '
      && line[9] == DecChar(h.status / 100) && line[10] == DecChar(h.status / 10 % 10)
      && line[11] == DecChar(h.status % 10)
  {
    hide DecText, DecChar, Values;
    ThreeDigits(h.status);
    var line := StatusLine(h);
    var tail := if h.reason.None? then "" else " " + h.reason.value;
    assert line[..7] == "HTTP/1." && line[12..] == tail;
    forall i | 0 <= i < |tail| ensures !Control(tail[i]) {
      if i > 0 {
        assert tail[i] == h.reason.value[i - 1];
      }
    }
  }

  lemma ThreePlaces(n: nat)
    ensures n == n / 100 * 100 + n / 10 % 10 * 10 + n % 10
  {
    var tens := n / 10;
    TensOf(n);
    TensOf(tens);
    assert n / 100 == tens / 10;
  }

  lemma TensOf(n: nat)
    ensures n == n / 10 * 10 + n % 10
  {
  }

  lemma StatusPlain(line: string, tail: string)
    requires |line| >= 12 && line[12..] == tail && NoControl(tail)
    requires line[..7] == "HTTP/1." && Digit(line[7]) && line[8] == ' '
    requires Digit(line[9]) && Digit(line[10]) && Digit(line[11])
    ensures Plain(line)
  {
    forall j | 0 <= j < |line| ensures line[j] != '\n' && line[j] != '\r' {
      if j >= 12 {
        assert line[j] == line[12..][j - 12];
      } else if j < 7 {
        assert line[j] == line[..7][j];
      }
    }
  }

  lemma StatusReads(h: Preamble, n: nat)
    requires HeadOk(h, n)
    ensures var line := StatusLine(h);
      StatusForm(line) && StatusOf(line) == h.status && Plain(line) && line != "" && |line| + 2 <= HEADER_LIMIT
  {
    hide StatusLine, Values, Kept, DecText, Plain, NoControl;
    StatusParts(h, n);
    ThreeDigits(h.status);
    ThreePlaces(h.status);
    StatusPlain(StatusLine(h), if h.reason.None? then "" else " " + h.reason.value);
  }

  /** Nothing else is a status line. */
  lemma StatusOnly(line: string) returns (minor: char, status: nat, reason: Option<string>)
    requires StatusForm(line)
    ensures 100 <= status <= 599 && StatusOf(line) == status && Digit(minor)
    ensures reason.Some? ==> NoControl(reason.value)
    ensures line == StatusLine(Preamble(minor, status, reason, [], "", ""))
  {
    hide DecText;
    minor, status := line[7], StatusOf(line);
    reason := if |line| == 12 then None else Some(line[13..]);
    ThreeDigits(status);
    DigitsOf(line);
    var tail := if |line| == 12 then "" else " " + line[13..];
    assert line[12..] == tail;
    assert forall i :: 1 <= i < |tail| ==> line[12..][i] == line[13..][i - 1];
    assert line == line[..7] + [minor] + [line[8]] + [line[9], line[10], line[11]] + tail;
  }

  lemma PlacesOf(a: nat, b: nat, c: nat)
    requires 1 <= a <= 5 && b < 10 && c < 10
    ensures var n := 100 * a + 10 * b + c; n / 100 == a && n / 10 % 10 == b && n % 10 == c && 100 <= n <= 599
  {
    assert (100 * a + 10 * b + c) / 10 == 10 * a + b;
  }

  lemma DigitsOf(line: string)
    requires StatusForm(line)
    ensures var n := StatusOf(line);
      && 100 <= n <= 599
      && line[9] == DecChar(n / 100) && line[10] == DecChar(n / 10 % 10) && line[11] == DecChar(n % 10)
  {
    var a, b, c := DigitValue(line[9]), DigitValue(line[10]), DigitValue(line[11]);
    PlacesOf(a, b, c);
  }

  /** A head as it is written is read as what its fields say, and kept with full line endings. */
  lemma HeadReads(h: Preamble, n: nat, k: string, z: Ending)
    requires HeadOk(h, n)
    ensures ResponseOf(HeadAnd(h, k), z) ==
      Head(Said(Response(h.status, None, NoCoding, None, ""), h.fields, n).(raw := Kept(h)), k)
  {
    hide StatusLine, StatusForm, LineOf, RowAnd, FieldsAnd, KeptFields, HeadersOf, Said, Plain, Token, Values;
    var line, r := StatusLine(h), Response(h.status, None, NoCoding, None, "");
    StatusReads(h, n);
    RowIsRead(Row(line, h.eol), FieldsAnd(h.fields, RowAnd(Row("", h.last), k)), z);
    FieldsRead(r, line, h.fields, h.last, k, z, n);
    assert "" + line == line;
  }

  /** More than one Location, or one without a value. */
  predicate BadLocation(r: Response, fs: seq<Field>) {
    var vs := Values(fs, "Location");
    (if r.location.Some? then 1 else 0) + |vs| > 1 || "" in vs
  }

  lemma BadLocationRest(r: Response, fs: seq<Field>)
    requires fs != [] && (forall f :: f in fs ==> FieldOk(f)) && BadLocation(r, fs)
    ensures var p := HeaderOf(r, FieldLine(fs[0])); p.Parsed? ==> p.r.raw == r.raw && BadLocation(p.r, fs[1..])
  {
    hide FieldLine, HeaderColon, Trim, SameIgnoringCase, LengthOf, Values, FieldOk;
    FieldColon(fs[0]);
    NamesDiffer(fs[0].name);
    ValuesFrom(fs, "Location");
  }

  lemma {:induction false} LocationRefused(r: Response, line: string, fs: seq<Field>, last: string, k: string,
                                           z: Ending)
    requires (forall f :: f in fs ==> FieldOk(f)) && BadLocation(r, fs) && LineEnding(last)
    requires |r.raw| + |line| + 2 + |KeptFields(fs)| + 2 <= HEADER_LIMIT
    ensures HeadersOf(FieldsAnd(fs, RowAnd(Row("", last), k)), z, r, line) == BadHead(Protocol)
    decreases |fs|
  {
    hide FieldLine, HeaderOf, LineOf, RowAnd, BadLocation, FieldOk;
    var r1 := r.(raw := r.raw + line + "\r\n");
    SomeField(r, fs);
    LocationsOnly(r, r1, fs);
    var text := FieldLine(fs[0]);
    FieldRead(fs[0], FieldsAnd(fs[1..], RowAnd(Row("", last), k)), z);
    BadLocationRest(r1, fs);
    var p := HeaderOf(r1, text);
    if p.Parsed? {
      SomeField(p.r, fs[1..]);
      LocationRefused(p.r, text, fs[1..], last, k, z);
    }
  }

  lemma SomeField(r: Response, fs: seq<Field>)
    requires BadLocation(r, fs)
    ensures fs != []
  {
  }

  lemma LocationsOnly(r: Response, q: Response, fs: seq<Field>)
    requires r.location == q.location
    ensures BadLocation(r, fs) == BadLocation(q, fs)
  {
  }

  /** A head with a second Location, or an empty one, is refused. */
  lemma BadLocationAnswer(h: Preamble, k: string, z: Ending, request: string, withHead: bool)
    requires HeadOk(h.(fields := []), 0) && |Kept(h)| <= 65536 && (forall f :: f in h.fields ==> FieldOk(f))
    requires |Values(h.fields, "Location")| > 1 || "" in Values(h.fields, "Location")
    ensures AnswerOf(HeadAnd(h, k), z, request, withHead) == (Protocol, "")
  {
    hide StatusLine, StatusForm, LineOf, RowAnd, FieldsAnd, KeptFields, HeadersOf, Plain, Token, Values, FieldOk;
    var line, r := StatusLine(h), Response(h.status, None, NoCoding, None, "");
    SameStatusLine(h);
    StatusReads(h.(fields := []), 0);
    RowIsRead(Row(line, h.eol), FieldsAnd(h.fields, RowAnd(Row("", h.last), k)), z);
    LocationRefused(r, line, h.fields, h.last, k, z);
  }

  lemma SameStatusLine(h: Preamble)
    ensures StatusLine(h.(fields := [])) == StatusLine(h)
  {
  }

  // ----- interim responses -----

  ghost predicate WellFormed(h: Preamble) {
    exists n: nat :: HeadOk(h, n)
  }

  /** Interim responses: any status from 100 to 199 but the one that switches protocols. */
  ghost predicate InterimOk(hs: seq<Preamble>) {
    forall i :: 0 <= i < |hs| ==> WellFormed(hs[i]) && 100 <= hs[i].status < 200 && hs[i].status != 101
  }

  function HeadsAnd(hs: seq<Preamble>, k: string): string {
    if hs == [] then k else HeadAnd(hs[0], HeadsAnd(hs[1..], k))
  }

  function KeptHeads(hs: seq<Preamble>): string {
    if hs == [] then "" else Kept(hs[0]) + KeptHeads(hs[1..])
  }

  /** The heads that are written before the body, if they are asked for. */
  function HeadsOut(withHead: bool, hs: seq<Preamble>): string {
    if withHead then KeptHeads(hs) else ""
  }

  lemma HeadThen(h: Preamble, n: nat, k: string, z: Ending, request: string, withHead: bool)
    requires HeadOk(h, n)
    ensures var r := Said(Response(h.status, None, NoCoding, None, ""), h.fields, n).(raw := Kept(h));
      AnswerOf(HeadAnd(h, k), z, request, withHead) ==
        Then(if withHead then Kept(h) else "",
             if h.status >= 200 then BodyAnswer(k, z, request, r)
             else if h.status == 101 then (Protocol, "")
             else AnswerOf(k, z, request, withHead))
  {
    hide ResponseOf, HeadAnd, Kept, BodyAnswer, Values, Then;
    HeadReads(h, n, k, z);
  }

  /** Any number of interim responses in front changes nothing but the heads that are written. */
  lemma {:induction false} InterimsPass(hs: seq<Preamble>, k: string, z: Ending, request: string, withHead: bool)
    requires InterimOk(hs)
    ensures var a := AnswerOf(k, z, request, withHead);
      AnswerOf(HeadsAnd(hs, k), z, request, withHead) == (a.0, HeadsOut(withHead, hs) + a.1)
    decreases |hs|
  {
    hide AnswerOf, HeadAnd, Kept, HeadOk;
    var a := AnswerOf(k, z, request, withHead);
    if hs == [] {
      assert "" + a.1 == a.1;
    } else {
      assert WellFormed(hs[0]);
      var n: nat :| HeadOk(hs[0], n);
      HeadThen(hs[0], n, HeadsAnd(hs[1..], k), z, request, withHead);
      InterimsPass(hs[1..], k, z, request, withHead);
      Regroup(if withHead then Kept(hs[0]) else "", HeadsOut(withHead, hs[1..]), a.1);
    }
  }

  // ----- the response itself -----

  /** Interim heads, the head of the response, and what comes after it. */
  function Exchange(hs: seq<Preamble>, h: Preamble, k: string): string {
    HeadsAnd(hs, HeadAnd(h, k))
  }

  lemma ExchangeIs(hs: seq<Preamble>, h: Preamble, n: nat, k: string, z: Ending, request: string, withHead: bool,
                   a: (Code, string))
    requires InterimOk(hs) && HeadOk(h, n)
    requires if h.status >= 200 then
        var r := Said(Response(h.status, None, NoCoding, None, ""), h.fields, n).(raw := Kept(h));
        a == BodyAnswer(k, z, request, r)
      else h.status == 101 && a == (Protocol, "")
    ensures AnswerOf(Exchange(hs, h, k), z, request, withHead) == (a.0, HeadsOut(withHead, hs + [h]) + a.1)
  {
    hide AnswerOf, HeadAnd, Kept, HeadOk, BodyAnswer, Said;
    HeadThen(h, n, k, z, request, withHead);
    InterimsPass(hs, HeadAnd(h, k), z, request, withHead);
    KeptSum(hs, h);
    Regroup(HeadsOut(withHead, hs), if withHead then Kept(h) else "", a.1);
  }

  lemma {:induction false} KeptSum(hs: seq<Preamble>, h: Preamble)
    ensures KeptHeads(hs + [h]) == KeptHeads(hs) + Kept(h)
    decreases |hs|
  {
    hide Kept;
    if hs == [] {
      assert [] + [h] == [h] && Kept(h) + "" == Kept(h) && "" + Kept(h) == Kept(h);
    } else {
      assert (hs + [h])[1..] == hs[1..] + [h];
      KeptSum(hs[1..], h);
      Regroup(Kept(hs[0]), KeptHeads(hs[1..]), Kept(h));
    }
  }

  /** A request and a status whose response may have a body. */
  predicate Carries(request: string, status: nat) {
    request != "HEAD" && 200 <= status <= 599 && status != 204 && status != 205 && status != 304
  }

  /** Exactly the bytes that Content-Length announces are written, and what comes after them is left;
      if there are fewer, those there are are written, and the error says how the connection ended. */
  lemma LengthAnswer(hs: seq<Preamble>, h: Preamble, n: nat, k: string, z: Ending, request: string, withHead: bool)
    requires InterimOk(hs) && HeadOk(h, n) && Carries(request, h.status)
    requires Values(h.fields, "Transfer-Encoding") == [] && Values(h.fields, "Content-Length") != []
    ensures AnswerOf(Exchange(hs, h, k), z, request, withHead) ==
      var heads := HeadsOut(withHead, hs + [h]);
      if |k| >= n then (Ok, heads + k[..n])
      else if z.Eof? then (Protocol, heads + k)
      else if z.TimedOut? then (Timeout, heads + k)
      else (Transfer, heads + k)
  {
    hide AnswerOf, Exchange, Kept, HeadsOut, Values;
    var r := Said(Response(h.status, None, NoCoding, None, ""), h.fields, n).(raw := Kept(h));
    ExchangeIs(hs, h, n, k, z, request, withHead, BodyAnswer(k, z, request, r));
  }

  /** A chunked response gives the data of its chunks, whatever encoding of them is sent and whether or
      not there is a Content-Length too. */
  lemma ChunkedAnswer(hs: seq<Preamble>, h: Preamble, n: nat, m: Message, rest: string, z: Ending, request: string,
                      withHead: bool)
    requires InterimOk(hs) && HeadOk(h, n) && Carries(request, h.status) && MessageOk(m)
    requires |Values(h.fields, "Transfer-Encoding")| == 1
    requires SameIgnoringCase(Values(h.fields, "Transfer-Encoding")[0], "chunked")
    ensures AnswerOf(Exchange(hs, h, Encode(m, rest)), z, request, withHead) ==
      (Ok, HeadsOut(withHead, hs + [h]) + Data(m.chunks))
  {
    hide AnswerOf, Exchange, Kept, HeadsOut, Values, ChunkedOf, MessageOk, Encode, SameIgnoringCase;
    ChunkedRoundTrip(m, rest, z);
    ExchangeIs(hs, h, n, Encode(m, rest), z, request, withHead, (Ok, Data(m.chunks)));
  }

  lemma {:induction false} ChunksFail(w: string, z: Ending)
    ensures ChunkedOf(w, z).Failed? ==> ChunkedOf(w, z).code != Ok
    decreases |w|
  {
    hide LineOf, ChunkSize, TrailersOf;
    var line := LineOf(w, z);
    if line.Line? && ChunkSize(line.text).Some? && ChunkSize(line.text).value > 0 {
      var c := CopyOf(line.rest, z, ChunkSize(line.text).value);
      if c.Body? && CrlfOf(c.rest, z).Body? {
        ChunksFail(CrlfOf(c.rest, z).rest, z);
      }
    }
  }

  /** And a chunked response that is accepted is an encoding of what is written. */
  lemma ChunkedAnswerOnly(hs: seq<Preamble>, h: Preamble, n: nat, k: string, z: Ending, request: string,
                          withHead: bool)
    returns (m: Message, rest: string)
    requires InterimOk(hs) && HeadOk(h, n) && Carries(request, h.status)
    requires |Values(h.fields, "Transfer-Encoding")| == 1
    requires SameIgnoringCase(Values(h.fields, "Transfer-Encoding")[0], "chunked")
    requires AnswerOf(Exchange(hs, h, k), z, request, withHead).0 == Ok
    ensures MessageOk(m) && k == Encode(m, rest)
    ensures AnswerOf(Exchange(hs, h, k), z, request, withHead).1 == HeadsOut(withHead, hs + [h]) + Data(m.chunks)
  {
    hide AnswerOf, Exchange, Kept, HeadsOut, Values, ChunkedOf, MessageOk, Encode, SameIgnoringCase;
    var r := Said(Response(h.status, None, NoCoding, None, ""), h.fields, n).(raw := Kept(h));
    ExchangeIs(hs, h, n, k, z, request, withHead, BodyAnswer(k, z, request, r));
    ChunksFail(k, z);
    m := ChunkedOnly(k, z);
    rest := ChunkedOf(k, z).rest;
    ChunkedAnswer(hs, h, n, m, rest, z, request, withHead);
  }

  /** Any other coding, or a second one, is refused before anything is written of the body. */
  lemma OtherCodingAnswer(hs: seq<Preamble>, h: Preamble, n: nat, k: string, z: Ending, request: string,
                          withHead: bool)
    requires InterimOk(hs) && HeadOk(h, n) && Carries(request, h.status)
    requires var vs := Values(h.fields, "Transfer-Encoding");
      |vs| > 1 || (|vs| == 1 && !SameIgnoringCase(vs[0], "chunked"))
    ensures AnswerOf(Exchange(hs, h, k), z, request, withHead) == (Protocol, HeadsOut(withHead, hs + [h]))
  {
    hide AnswerOf, Exchange, Kept, HeadsOut, Values, SameIgnoringCase;
    ExchangeIs(hs, h, n, k, z, request, withHead, (Protocol, ""));
    assert HeadsOut(withHead, hs + [h]) + "" == HeadsOut(withHead, hs + [h]);
  }

  /** Without a coding and a length the body goes on to the end of the connection. */
  lemma UntilCloseAnswer(hs: seq<Preamble>, h: Preamble, n: nat, k: string, z: Ending, request: string,
                         withHead: bool)
    requires InterimOk(hs) && HeadOk(h, n) && Carries(request, h.status)
    requires Values(h.fields, "Transfer-Encoding") == [] && Values(h.fields, "Content-Length") == []
    ensures AnswerOf(Exchange(hs, h, k), z, request, withHead) ==
      (if z.Eof? then Ok else if z.TimedOut? then Timeout else Transfer, HeadsOut(withHead, hs + [h]) + k)
  {
    hide AnswerOf, Exchange, Kept, HeadsOut, Values;
    var r := Said(Response(h.status, None, NoCoding, None, ""), h.fields, n).(raw := Kept(h));
    ExchangeIs(hs, h, n, k, z, request, withHead, BodyAnswer(k, z, request, r));
  }

  /** Nothing is written of a body after a HEAD request or with the statuses 204, 205 and 304, whatever
      the fields announce. */
  lemma NoBodyAnswer(hs: seq<Preamble>, h: Preamble, n: nat, k: string, z: Ending, request: string, withHead: bool)
    requires InterimOk(hs) && HeadOk(h, n) && h.status >= 200
    requires request == "HEAD" || h.status in {204, 205, 304}
    ensures AnswerOf(Exchange(hs, h, k), z, request, withHead) == (Ok, HeadsOut(withHead, hs + [h]))
  {
    hide AnswerOf, Exchange, Kept, HeadsOut, Values;
    ExchangeIs(hs, h, n, k, z, request, withHead, (Ok, ""));
    assert HeadsOut(withHead, hs + [h]) + "" == HeadsOut(withHead, hs + [h]);
  }

  /** Switching protocols is refused. */
  lemma SwitchAnswer(hs: seq<Preamble>, h: Preamble, n: nat, k: string, z: Ending, request: string, withHead: bool)
    requires InterimOk(hs) && HeadOk(h, n) && h.status == 101
    ensures AnswerOf(Exchange(hs, h, k), z, request, withHead) == (Protocol, HeadsOut(withHead, hs + [h]))
  {
    hide AnswerOf, Exchange, Kept, HeadsOut, Values;
    ExchangeIs(hs, h, n, k, z, request, withHead, (Protocol, ""));
    assert HeadsOut(withHead, hs + [h]) + "" == HeadsOut(withHead, hs + [h]);
  }
}
