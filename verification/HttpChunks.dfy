/** The chunked coding (section 7.1 of RFC 9112): the size parser, and the decoder against the encoding. */
module HttpChunks {
  import opened Numerals
  import opened Strings
  import opened Wrappers
  import opened HttpText
  import opened HttpDecode

  // ----- sizes -----

  lemma HexRunIs(s: string, n: nat)
    requires n <= |s| && AllHex(s[..n]) && (n < |s| ==> HexDigit(s[n]).None?)
    ensures HexRun(s) == n
  {
    assert forall i :: 0 <= i < n ==> s[..n][i] == s[i];
  }

  /** The digits of a size: exact in 64 bits, and refused from 2^64 on. */
  method ScanSize(line: string) returns (value: Option<nat>, position: nat)
    ensures if HexValue(HexPart(line)) <= UINT64_MAX then value == Some(HexValue(HexPart(line)))
      && position == HexRun(line)
            else value == None
  {
    hide HexValue, HexRun;
    ghost var run := HexRun(line);
    var v := 0;
    position := 0;
    assert line[..0] == "";
    HexEmpty();
    while position < |line| && HexDigit(line[position]).Some?
      invariant 0 <= position <= run && AllHex(line[..position])
      invariant 0 <= v <= UINT64_MAX && v == HexValue(line[..position])
    {
      var digit := HexDigit(line[position]).value;
      HexStep(line, position);
      if v > (UINT64_MAX - digit) / 16 {
        HexMono(HexPart(line), position + 1);
        assert HexPart(line)[..position + 1] == line[..position + 1];
        return None, position;
      }
      v := v * 16 + digit;
      position := position + 1;
    }
    assert position == run && HexPart(line) == line[..position];
    value := Some(v);
  }

  method ParseChunkSize(line: string) returns (size: Option<nat>)
    ensures size == ChunkSize(line)
  {
    hide HexValue, HexRun, TrimLeft, NoControl;
    var value, digits := ScanSize(line);
    if value.None? { return None; }
    var position := SkipBlanks(line, digits);
    if digits == 0 || (position < |line| && line[position] != ';') { return None; }
    var control := FindControl(line, position);
    size := if control then None else value;
  }

  /** What may follow the digits of a size: blanks, and perhaps an extension. */
  predicate SizeTail(tail: string) {
    var t := TrimLeft(tail);
    (t == "" || t[0] == ';') && NoControl(t)
  }

  /** Whatever digits and tail a size is written with, it is read back exactly when it fits 64 bits. */
  lemma SizeIsRead(digits: string, tail: string)
    requires digits != "" && AllHex(digits) && SizeTail(tail)
    ensures ChunkSize(digits + tail) == if HexValue(digits) <= UINT64_MAX then Some(HexValue(digits)) else None
  {
    var line := digits + tail;
    assert line[..|digits|] == digits && line[|digits|..] == tail;
    assert tail != "" ==> HexDigit(tail[0]).None? by {
      if tail != "" && !Blank(tail[0]) { assert TrimLeft(tail) == tail; }
    }
    HexRunIs(line, |digits|);
  }

  /** Nothing else is a size line: digits that fit 64 bits, blanks, and perhaps an extension that starts
      with a semicolon and holds no control character. */
  lemma SizeOnly(line: string) returns (digits: string, blanks: string, extension: string)
    requires ChunkSize(line).Some?
    ensures line == digits + (blanks + extension) && digits != "" && AllHex(digits)
    ensures HexValue(digits) == ChunkSize(line).value <= 0xffff_ffff_ffff_ffff
    ensures forall i :: 0 <= i < |blanks| ==> blanks[i] == ' ' || blanks[i] == '\t'
    ensures extension == "" || extension[0] == ';'
    ensures forall i :: 0 <= i < |extension| ==>
      extension[i] == '\t' || (extension[i] >= ' ' && extension[i] != '\U{7f}')
  {
    hide HexValue, HexRun, TrimLeft;
    var n := HexRun(line);
    digits, extension := line[..n], TrimLeft(line[n..]);
    blanks := BlanksBefore(line[n..]);
  }

  lemma {:induction false} BlanksBefore(s: string) returns (b: string)
    ensures s == b + TrimLeft(s) && forall i :: 0 <= i < |b| ==> Blank(b[i])
  {
    hide Blank;
    if s != "" && Blank(s[0]) {
      var more := BlanksBefore(s[1..]);
      b := [s[0]] + more;
      assert s == [s[0]] + (more + TrimLeft(s[1..]));
      assert TrimLeft(s) == TrimLeft(s[1..]);
    } else {
      b := "";
      assert TrimLeft(s) == s;
    }
  }

  lemma NumberIsRead(n: nat, tail: string)
    requires SizeTail(tail)
    ensures ChunkSize(HexText(n) + tail) == if n <= UINT64_MAX then Some(n) else None
  {
    HexTextValue(n);
    SizeIsRead(HexText(n), tail);
  }

  // ----- lines -----

  datatype Row = Row(text: string, eol: string)

  predicate RowOk(r: Row) {
    (r.eol == "\r\n" || r.eol == "\n") && |r.text| + |r.eol| - 1 <= HEADER_LIMIT
  }

  function RowAnd(r: Row, k: string): string {
    r.text + (r.eol + k)
  }

  predicate Plain(s: string) {
    forall i :: 0 <= i < |s| ==> s[i] != '\n' && s[i] != '\r'
  }

  lemma RowIsRead(r: Row, k: string, z: Ending)
    requires RowOk(r) && Plain(r.text)
    ensures LineOf(RowAnd(r, k), z) == Line(r.text, k)
  {
    hide Find, LineOf;
    var body := r.text + if r.eol == "\n" then "" else "\r";
    FindIs(body, '\n', |body|);
    LineFound(body, k, z);
    if r.eol == "\n" {
      assert body == r.text && RowAnd(r, k) == body + "\n" + k;
    } else {
      assert StripCr(body) == r.text;
      assert "\r\n" == "\r" + "\n" && RowAnd(r, k) == body + "\n" + k;
    }
  }

  lemma LineIsRow(w: string, z: Ending) returns (r: Row)
    requires LineOf(w, z).Line?
    ensures RowOk(r) && r.text == LineOf(w, z).text && w == RowAnd(r, LineOf(w, z).rest)
  {
    var i := Find(w, '\n');
    var text := LineOf(w, z).text;
    r := Row(text, if text == w[..i] then "\n" else "\r\n");
    assert w == w[..i] + ("\n" + w[i + 1..]);
    if text != w[..i] {
      assert w[..i] == text + "\r";
      assert w == text + ("\r" + ("\n" + w[i + 1..]));
      assert "\r" + ("\n" + w[i + 1..]) == "\r\n" + w[i + 1..];
    }
  }

  /** A header line holds no line ending. */
  lemma HeaderIsPlain(line: string)
    requires HeaderColon(line).Some?
    ensures line != "" && Plain(line)
  {
    var i := HeaderColon(line).value;
    forall j | 0 <= j < |line| ensures line[j] != '\n' && line[j] != '\r' {
      if j < i {
        assert TokenCharacter(line[..i][j]);
      } else if j > i {
        assert !Control(line[i + 1..][j - i - 1]);
      }
    }
  }

  lemma SizeIsPlain(line: string)
    requires ChunkSize(line).Some?
    ensures Plain(line)
  {
    var n := HexRun(line);
    var u := line[n..];
    TrimKeeps(u);
    forall j | 0 <= j < |line| ensures line[j] != '\n' && line[j] != '\r' {
      if j >= n {
        assert line[j] == u[j - n];
      }
    }
  }

  lemma {:induction false} TrimKeeps(s: string)
    requires NoControl(TrimLeft(s))
    ensures NoControl(s)
  {
    if s != "" && Blank(s[0]) {
      TrimKeeps(s[1..]);
      assert forall i :: 1 <= i < |s| ==> s[i] == s[1..][i - 1];
    }
  }

  // ----- messages -----

  datatype Chunk = Chunk(size: Row, data: string)

  /** A chunked body: chunks, the closing size line, trailer lines, and the ending of the empty line. */
  datatype Message = Message(chunks: seq<Chunk>, last: Row, trailers: seq<Row>, eol: string)

  predicate ChunkOk(c: Chunk) {
    RowOk(c.size) && c.data != "" && ChunkSize(c.size.text) == Some(|c.data|)
  }

  predicate TrailersOk(rows: seq<Row>, size: nat)
    decreases |rows|
  {
    if rows == [] then size + 2 <= HEADER_LIMIT
    else
      && RowOk(rows[0]) && HeaderColon(rows[0].text).Some?
      && size + |rows[0].text| + 2 <= HEADER_LIMIT
      && TrailersOk(rows[1..], size + |rows[0].text| + 2)
  }

  predicate MessageOk(m: Message) {
    && (forall i :: 0 <= i < |m.chunks| ==> ChunkOk(m.chunks[i]))
    && RowOk(m.last) && ChunkSize(m.last.text) == Some(0)
    && TrailersOk(m.trailers, 0) && RowOk(Row("", m.eol))
  }

  function TrailersAnd(rows: seq<Row>, k: string): string
    decreases |rows|
  {
    if rows == [] then k else RowAnd(rows[0], TrailersAnd(rows[1..], k))
  }

  function ChunksAnd(chunks: seq<Chunk>, k: string): string
    decreases |chunks|
  {
    if chunks == [] then k else RowAnd(chunks[0].size, chunks[0].data + ("\r\n" + ChunksAnd(chunks[1..], k)))
  }

  /** The bytes of a message, followed by `rest`. */
  function Encode(m: Message, rest: string): string {
    ChunksAnd(m.chunks, RowAnd(m.last, TrailersAnd(m.trailers, RowAnd(Row("", m.eol), rest))))
  }

  function Data(chunks: seq<Chunk>): string
    decreases |chunks|
  {
    if chunks == [] then "" else chunks[0].data + Data(chunks[1..])
  }

  /** Round trip: every encoding of a message is decoded to its data, and the stream is left at the
      first byte after it. */
  lemma {:induction false} ChunkedRoundTrip(m: Message, rest: string, z: Ending)
    requires MessageOk(m)
    ensures ChunkedOf(Encode(m, rest), z) == Body(Data(m.chunks), rest)
    decreases |m.chunks|
  {
    hide LineOf, RowOk, ChunkSize, RowAnd, Plain, TrailersOf, TrailersOk;
    var w := Encode(m, rest);
    if m.chunks == [] {
      SizeIsPlain(m.last.text);
      RowIsRead(m.last, TrailersAnd(m.trailers, RowAnd(Row("", m.eol), rest)), z);
      TrailersAreRead(m.trailers, m.eol, rest, z, 0);
    } else {
      var c, m' := m.chunks[0], m.(chunks := m.chunks[1..]);
      ChunkedRoundTrip(m', rest, z);
      var k := Encode(m', rest);
      SizeIsPlain(c.size.text);
      RowIsRead(c.size, c.data + ("\r\n" + k), z);
      ChunkIsRead(c.data, k, z);
    }
  }

  lemma ChunkIsRead(data: string, k: string, z: Ending)
    ensures ChunkOf(data + ("\r\n" + k), z, |data|) == Prepend(data, ChunkedOf(k, z))
  {
    hide ChunkedOf;
    var w := data + ("\r\n" + k);
    assert w[..|data|] == data && w[|data|..] == "\r\n" + k;
    assert ("\r\n" + k)[2..] == k;
  }

  lemma {:induction false} TrailersAreRead(rows: seq<Row>, eol: string, rest: string, z: Ending, size: nat)
    requires TrailersOk(rows, size) && RowOk(Row("", eol))
    ensures TrailersOf(TrailersAnd(rows, RowAnd(Row("", eol), rest)), z, size) == Body("", rest)
    decreases |rows|
  {
    hide LineOf, RowAnd, HeaderColon, Plain;
    if rows == [] {
      PlainEmpty();
      RowIsRead(Row("", eol), rest, z);
    } else {
      HeaderIsPlain(rows[0].text);
      RowIsRead(rows[0], TrailersAnd(rows[1..], RowAnd(Row("", eol), rest)), z);
      TrailersAreRead(rows[1..], eol, rest, z, size + |rows[0].text| + 2);
    }
  }

  lemma PlainEmpty()
    ensures Plain("")
  {
  }

  /** And nothing else is accepted: whatever the decoder delivers was encoded by some message. */
  lemma {:induction false} ChunkedOnly(w: string, z: Ending) returns (m: Message)
    requires ChunkedOf(w, z).Body?
    ensures MessageOk(m) && w == Encode(m, ChunkedOf(w, z).rest) && ChunkedOf(w, z).out == Data(m.chunks)
    decreases |w|
  {
    hide LineOf, RowOk, ChunkSize, RowAnd, TrailersOf, TrailersOk;
    var row := LineIsRow(w, z);
    var k := LineOf(w, z).rest;
    var n := ChunkSize(row.text).value;
    if n == 0 {
      var rows, eol := TrailersOnly(k, z, 0);
      m := Message([], row, rows, eol);
    } else {
      ChunkOnly(k, z, n);
      var m' := ChunkedOnly(k[n + 2..], z);
      m := m'.(chunks := [Chunk(row, k[..n])] + m'.chunks);
      assert m.chunks[1..] == m'.chunks;
    }
  }

  lemma ChunkOnly(k: string, z: Ending, n: nat)
    requires ChunkOf(k, z, n).Body?
    ensures n + 2 <= |k| && k == k[..n] + ("\r\n" + k[n + 2..])
    ensures ChunkOf(k, z, n) == Prepend(k[..n], ChunkedOf(k[n + 2..], z))
  {
    hide ChunkedOf;
    assert k[n..][2..] == k[n + 2..];
    assert k[n..] == "\r\n" + k[n + 2..];
    assert k == k[..n] + k[n..];
  }

  lemma {:induction false} TrailersOnly(w: string, z: Ending, size: nat) returns (rows: seq<Row>, eol: string)
    requires TrailersOf(w, z, size).Body?
    ensures TrailersOk(rows, size) && RowOk(Row("", eol))
    ensures w == TrailersAnd(rows, RowAnd(Row("", eol), TrailersOf(w, z, size).rest))
    decreases |w|
  {
    hide LineOf, RowAnd, HeaderColon, RowOk;
    var row := LineIsRow(w, z);
    if row.text == "" {
      rows, eol := [], row.eol;
      assert row == Row("", eol);
    } else {
      var rows', eol' := TrailersOnly(LineOf(w, z).rest, z, size + |row.text| + 2);
      rows, eol := [row] + rows', eol';
      assert rows[1..] == rows';
    }
  }
}
