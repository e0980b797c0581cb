/** Bytes as characters, and the character classes of the HTTP client. */
module HttpText {
  import opened Numerals
  import opened Strings
  import opened Wrappers

  const HEADER_LIMIT: nat := 64 * 1024
  const IO_BUFFER_SIZE: nat := 8192
  const UINT64_MAX: nat := 0xffff_ffff_ffff_ffff

  /** Result codes of the client. */
  datatype Code = Ok | Usage | Url | Resolve | Connect | Protocol | Transfer | Write | Memory | Timeout | Redirect

  /** How a connection ends once its bytes are used up. */
  datatype Ending = Eof | TimedOut | Broken

  /** What running out of bytes in the middle of something means. */
  function EndCode(z: Ending): (c: Code)
    ensures c != Ok
  {
    match z
    case Eof => Protocol
    case TimedOut => Timeout
    case Broken => Transfer
  }

  predicate Letter(c: char) {
    'A' <= c <= 'Z' || 'a' <= c <= 'z'
  }

  predicate Blank(c: char) {
    c == ' ' || c == '\t'
  }

  /** Control characters other than a tab, and DEL. */
  predicate Control(c: char) {
    (c < ' ' && c != '\t') || c == '\U{7f}'
  }

  predicate NoControl(s: string) {
    forall i :: 0 <= i < |s| ==> !Control(s[i])
  }

  /** The token characters; NUL is one of them, because the search for it finds the terminator. */
  predicate TokenCharacter(c: char) {
    Letter(c) || Digit(c) || c in "!#$%&'*+-.^_`|~" || c == '\0'
  }

  predicate Token(s: string) {
    forall i :: 0 <= i < |s| ==> TokenCharacter(s[i])
  }

  function Lower(c: char): char {
    if 'A' <= c <= 'Z' then (c as int + 32) as char else c
  }

  /** Equality ignoring the case of ASCII letters. */
  predicate SameIgnoringCase(s: string, t: string) {
    |s| == |t| && forall i :: 0 <= i < |s| ==> Lower(s[i]) == Lower(t[i])
  }

  /** The delimiters of section 5.6.2 of RFC 9110. */
  predicate Delimiter(c: char) {
    || c == '"' || c == '(' || c == ')' || c == ',' || c == '/' || ':' <= c <= '@' || '[' <= c <= ']'
    || c == '{' || c == '}'
  }

  /** The token characters are the visible ones that are no delimiter, and NUL. */
  lemma TokenMeans(c: char)
    ensures TokenCharacter(c) <==> c == '\0' || ('!' <= c <= '~' && !Delimiter(c))
  {
  }

  /** Two characters are the same up to case when they are equal or the two cases of one letter. */
  lemma CaseMeans(c: char, d: char)
    ensures Lower(c) == Lower(d) <==>
      c == d || (Letter(c) && Letter(d) && (c as int == d as int + 32 || d as int == c as int + 32))
  {
  }

  /** The colon of a header line: a non-empty token before it, no control characters after it. */
  function HeaderColon(line: string): (r: Option<nat>)
    ensures r.Some? ==> 0 < r.value < |line| && line[r.value] == ':'
  {
    var i := Find(line, ':');
    if i == |line| || i == 0 || !Token(line[..i]) || !NoControl(line[i + 1..]) then None else Some(i)
  }

  /** A header line: a token of at least one character, a colon, and anything but control characters. */
  lemma HeaderExactly(line: string, i: nat)
    ensures HeaderColon(line) == Some(i) <==>
      && 0 < i < |line| && line[i] == ':'
      && (forall j :: 0 <= j < i ==> line[j] == '\0' || ('!' <= line[j] <= '~' && !Delimiter(line[j])))
      && (forall j :: i < j < |line| ==> line[j] == '\t' || (line[j] >= ' ' && line[j] != '\U{7f}'))
  {
    hide TokenCharacter;
    forall c: char ensures TokenCharacter(c) <==> c == '\0' || ('!' <= c <= '~' && !Delimiter(c)) {
      TokenMeans(c);
    }
    if 0 < i < |line| && line[i] == ':' {
      if forall j :: 0 <= j < i ==> line[j] != ':' {
        FindIs(line, ':', i);
      }
      assert forall j :: 0 <= j < i ==> line[..i][j] == line[j];
      assert forall j :: i < j < |line| ==> line[i + 1..][j - i - 1] == line[j];
    }
  }

  /** Skip blanks from the left. */
  function TrimLeft(s: string): string {
    if s != "" && Blank(s[0]) then TrimLeft(s[1..]) else s
  }

  function TrimRight(s: string): string
    decreases |s|
  {
    if s != "" && Blank(s[|s| - 1]) then TrimRight(s[..|s| - 1]) else s
  }

  function Trim(s: string): string {
    TrimRight(TrimLeft(s))
  }

  method SkipBlanks(s: string, from: nat) returns (p: nat)
    requires from <= |s|
    ensures from <= p <= |s| && s[p..] == TrimLeft(s[from..])
  {
    p := from;
    while p < |s| && Blank(s[p])
      invariant from <= p <= |s| && TrimLeft(s[p..]) == TrimLeft(s[from..])
    {
      assert s[p..][1..] == s[p + 1..];
      p := p + 1;
    }
  }

  method FindControl(s: string, from: nat) returns (found: bool)
    requires from <= |s|
    ensures found == !NoControl(s[from..])
  {
    var position := from;
    while position < |s|
      invariant from <= position <= |s| && forall i :: 0 <= i < position - from ==> !Control(s[from..][i])
    {
      if Control(s[position]) {
        assert s[from..][position - from] == s[position];
        return true;
      }
      position := position + 1;
    }
    found := false;
  }
}
