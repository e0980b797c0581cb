/** URLs: parsing, printing, and resolving the reference of a redirect (section 5.2 of RFC 3986,
    without the removal of dot segments). */
module HttpUrl {
  import opened Numerals
  import opened Strings
  import opened Wrappers
  import opened HttpText
  import opened HttpBuffer

  const DEFAULT_PORT: nat := 80

  datatype Url = Record(host: string, port: nat, target: string)

  datatype UrlRes = Good(url: Url) | Invalid | NotHttp | NoMemory

  // ----- the grammar -----

  predicate UrlChar(c: char) {
    c > ' ' && c != '\U{7f}'
  }

  predicate AuthorityChar(c: char) {
    UrlChar(c) && c != '@' && c != '[' && c != ']' && c != '\\'
  }

  predicate Delimiter(c: char) {
    c == '/' || c == '?' || c == '#'
  }

  /** The first position where a path, query or fragment starts, or `|s|`. */
  function AuthorityEnd(s: string): (i: nat)
    ensures i <= |s|
    ensures forall j :: 0 <= j < i ==> !Delimiter(s[j])
    ensures i < |s| ==> Delimiter(s[i])
  {
    if s == "" || Delimiter(s[0]) then 0 else 1 + AuthorityEnd(s[1..])
  }

  function PortOf(p: string): Option<nat> {
    if AllDigits(p) && 0 < DecValue(p) <= 65535 then Some(DecValue(p)) else None
  }

  function HostPort(a: string): Option<(string, nat)> {
    var i := Find(a, ':');
    if !(forall k :: 0 <= k < |a| ==> AuthorityChar(a[k])) then None
    else if i == 0 || i > 255 then None
    else if i == |a| then Some((a, DEFAULT_PORT))
    else
      var port :- PortOf(a[i + 1..]);
      Some((a[..i], port))
  }

  predicate AllUrlChars(s: string) {
    forall k :: 0 <= k < |s| ==> UrlChar(s[k])
  }

  /** The request target of what stands after the authority. */
  function TargetOf(t: string): Option<string> {
    var e := t[..Find(t, '#')];
    if !AllUrlChars(e) then None
    else if e == "" then Some("/")
    else Some((if e[0] == '?' then "/" else "") + e)
  }

  function ParseFrom(s: string): UrlRes {
    match (HostPort(s[..AuthorityEnd(s)]), TargetOf(s[AuthorityEnd(s)..]))
    case (Some((host, port)), Some(target)) => Good(Record(host, port, target))
    case _ => Invalid
  }

  predicate HttpPrefix(s: string) {
    |s| >= 7 && SameIgnoringCase(s[..7], "http://")
  }

  predicate HasSeparator(s: string) {
    |s| >= 3 && (s[..3] == "://" || HasSeparator(s[1..]))
  }

  function ParseUrl(text: string): UrlRes {
    if HttpPrefix(text) then ParseFrom(text[7..])
    else if HasSeparator(text) then NotHttp
    else ParseFrom(text)
  }

  /** The records a parse can produce. */
  predicate UrlOk(u: Url) {
    && 0 < |u.host| <= 255
    && (forall k :: 0 <= k < |u.host| ==> AuthorityChar(u.host[k]) && !Delimiter(u.host[k]) && u.host[k] != ':')
    && 0 < u.port <= 65535
    && u.target != "" && u.target[0] == '/' && AllUrlChars(u.target) && '#' !in u.target
  }

  lemma AuthorityIsOk(a: string)
    requires HostPort(a).Some? && forall k :: 0 <= k < |a| ==> !Delimiter(a[k])
    ensures var (host, port) := HostPort(a).value;
      && 0 < |host| <= 255 && 0 < port <= 65535
      && forall k :: 0 <= k < |host| ==> AuthorityChar(host[k]) && !Delimiter(host[k]) && host[k] != ':'
  {
  }

  lemma TargetIsOk(t: string)
    requires TargetOf(t).Some? && (t == "" || Delimiter(t[0]))
    ensures var x := TargetOf(t).value;
      x != "" && x[0] == '/' && AllUrlChars(x) && '#' !in x
  {
  }

  lemma ParsedIsOk(text: string)
    requires ParseUrl(text).Good?
    ensures UrlOk(ParseUrl(text).url)
  {
    hide HostPort, TargetOf;
    var s := if HttpPrefix(text) then text[7..] else text;
    var n := AuthorityEnd(s);
    AuthorityIsOk(s[..n]);
    TargetIsOk(s[n..]);
  }

  // ----- printing -----

  /** Host and port as a URL or a Host field spells them. */
  function PrintHost(u: Url): string {
    u.host + if u.port != DEFAULT_PORT then ":" + DecText(u.port) else ""
  }

  function Print(u: Url): string {
    "http://" + (PrintHost(u) + u.target)
  }

  /** A spelling of host and port: any digits for the port, which may be left out when it is 80. */
  ghost predicate Spells(h: string, u: Url) {
    || (h == u.host && u.port == DEFAULT_PORT)
    || exists p :: AllDigits(p) && DecValue(p) == u.port && h == u.host + ":" + p
  }

  lemma PrintHostSpells(u: Url)
    ensures Spells(PrintHost(u), u)
  {
    if u.port == DEFAULT_PORT {
      assert PrintHost(u) == u.host;
    } else {
      DecTextValue(u.port);
      assert PrintHost(u) == u.host + ":" + DecText(u.port);
    }
  }

  lemma SpellingIsRead(h: string, u: Url)
    requires UrlOk(u) && Spells(h, u)
    ensures HostPort(h) == Some((u.host, u.port))
    ensures h != "" && forall k :: 0 <= k < |h| ==> !Delimiter(h[k])
  {
    hide HostPort;
    if h == u.host && u.port == DEFAULT_PORT {
      HostAlone(u);
    } else {
      var p :| AllDigits(p) && DecValue(p) == u.port && h == u.host + ":" + p;
      HostWithPort(u, p);
    }
  }

  lemma HostAlone(u: Url)
    requires UrlOk(u) && u.port == DEFAULT_PORT
    ensures HostPort(u.host) == Some((u.host, u.port))
  {
    FindIs(u.host, ':', |u.host|);
  }

  lemma HostWithPort(u: Url, p: string)
    requires UrlOk(u) && AllDigits(p) && DecValue(p) == u.port
    ensures var h := u.host + ":" + p;
      HostPort(h) == Some((u.host, u.port)) && forall k :: 0 <= k < |h| ==> !Delimiter(h[k])
  {
    hide Find, DecValue;
    var h := u.host + ":" + p;
    FindIs(h, ':', |u.host|);
    assert h[..|u.host|] == u.host && h[|u.host| + 1..] == p;
    assert forall k :: |u.host| < k < |h| ==> h[k] == p[k - |u.host| - 1];
  }

  /** What is parsed from a spelled authority and a path: the same host and port, and the path up to
      a fragment; refused exactly when that holds a space or a control character. */
  lemma ParsedWithPath(h: string, u: Url, t: string)
    requires UrlOk(u) && Spells(h, u) && t != "" && t[0] == '/'
    ensures ParseUrl("http://" + (h + t)) ==
      if AllUrlChars(t[..Find(t, '#')]) then Good(Record(u.host, u.port, t[..Find(t, '#')])) else Invalid
  {
    hide Find, HostPort, TargetOf, AuthorityEnd, Spells, UrlOk, AllUrlChars;
    SpellingIsRead(h, u);
    WithPrefix(h + t);
    AuthorityEndIs(h + t, |h|);
    assert (h + t)[..|h|] == h && (h + t)[|h|..] == t;
    PathTarget(t);
  }

  lemma WithPrefix(s: string)
    ensures ParseUrl("http://" + s) == ParseFrom(s)
  {
    hide ParseFrom;
    var text := "http://" + s;
    assert text[..7] == "http://" && text[7..] == s;
  }

  lemma PathTarget(t: string)
    requires t != "" && t[0] == '/'
    ensures var e := t[..Find(t, '#')]; TargetOf(t) == if AllUrlChars(e) then Some(e) else None
  {
    var e := t[..Find(t, '#')];
    assert e != "" && "" + e == e;
  }

  lemma {:induction false} AuthorityEndIs(s: string, i: nat)
    requires i <= |s| && (forall j :: 0 <= j < i ==> !Delimiter(s[j])) && (i < |s| ==> Delimiter(s[i]))
    ensures AuthorityEnd(s) == i
  {
  }

  /** Round trip: a record that a parse can produce is read back from any of its spellings. */
  lemma SpelledRoundTrip(u: Url, h: string)
    requires UrlOk(u) && Spells(h, u)
    ensures ParseUrl("http://" + (h + u.target)) == Good(u)
  {
    FindIs(u.target, '#', |u.target|);
    assert u.target[..|u.target|] == u.target;
    ParsedWithPath(h, u, u.target);
  }

  lemma PrintRoundTrip(u: Url)
    requires UrlOk(u)
    ensures ParseUrl(Print(u)) == Good(u)
  {
    PrintHostSpells(u);
    SpelledRoundTrip(u, PrintHost(u));
  }

  /** The records of the grammar are exactly the results of the parser. */
  lemma OkIsParsed(u: Url)
    ensures UrlOk(u) <==> exists text :: ParseUrl(text) == Good(u)
  {
    if UrlOk(u) {
      PrintRoundTrip(u);
    }
    if text :| ParseUrl(text) == Good(u) {
      ParsedIsOk(text);
    }
  }

  // ----- what is accepted, character by character -----

  /** Host, port and target of a record: no user, bracket, backslash, blank or control character in the
      host, a port of 16 bits, and a target that starts with a slash and has no fragment. */
  lemma OkMeans(u: Url)
    ensures UrlOk(u) <==>
      && 0 < |u.host| <= 255 && 0 < u.port <= 65535
      && (forall k :: 0 <= k < |u.host| ==>
            u.host[k] > ' ' && u.host[k] !in "/?#@[]\\:" && u.host[k] != '\U{7f}')
      && u.target != "" && u.target[0] == '/'
      && (forall k :: 0 <= k < |u.target| ==> u.target[k] > ' ' && u.target[k] !in "#\U{7f}")
  {
  }

  /** A target may be left out, or start with its query; then its path is a slash. */
  lemma NoPathRoundTrip(u: Url, h: string, t: string)
    requires UrlOk(u) && Spells(h, u) && (t == "" || t[0] == '?' || t[0] == '#')
    requires u.target == "/" + t[..Find(t, '#')]
    ensures ParseUrl("http://" + (h + t)) == Good(u)
  {
    hide HostPort, TargetOf, AuthorityEnd, Spells, UrlOk;
    SpellingIsRead(h, u);
    WithPrefix(h + t);
    AuthorityEndIs(h + t, |h|);
    assert (h + t)[..|h|] == h && (h + t)[|h|..] == t;
    NoPathTarget(u, t);
  }

  lemma NoPathTarget(u: Url, t: string)
    requires UrlOk(u) && u.target == "/" + t[..Find(t, '#')] && (t == "" || t[0] == '?' || t[0] == '#')
    ensures TargetOf(t) == Some(u.target)
  {
    hide Find;
    var e := t[..Find(t, '#')];
    assert forall k :: 0 <= k < |e| ==> e[k] == u.target[k + 1];
    assert AllUrlChars(e);
    if e == "" {
      assert u.target == "/";
    } else {
      assert e[0] == t[0];
    }
  }

  /** `://` stands behind `a` and before `b`. */
  predicate Separated(s: string, a: string, b: string) {
    s == a + ("://" + b)
  }

  lemma {:induction false} SeparatorFound(s: string, a: string, b: string)
    requires Separated(s, a, b)
    ensures HasSeparator(s)
    decreases |a|
  {
    if a == "" {
      assert s == "://" + b;
      assert s[..3] == "://";
    } else {
      assert s[1..] == a[1..] + ("://" + b);
      SeparatorFound(s[1..], a[1..], b);
    }
  }

  lemma {:induction false} SeparatorIs(s: string) returns (a: string, b: string)
    requires HasSeparator(s)
    ensures Separated(s, a, b)
  {
    if s[..3] == "://" {
      a, b := "", s[3..];
      assert s == s[..3] + s[3..];
    } else {
      a, b := SeparatorIs(s[1..]);
      assert s == [s[0]] + s[1..];
      assert s == ([s[0]] + a) + ("://" + b);
      a := [s[0]] + a;
    }
  }

  /** Without a scheme the text is read as if `http://` stood before it; another scheme is refused. */
  lemma SchemeIsOptional(s: string)
    requires !HttpPrefix(s)
    ensures ParseUrl(s) ==
      if exists a, b :: Separated(s, a, b) then NotHttp else ParseUrl("http://" + s)
  {
    hide ParseFrom, HasSeparator, Separated;
    if HasSeparator(s) {
      var a, b := SeparatorIs(s);
    }
    if a, b :| Separated(s, a, b) {
      SeparatorFound(s, a, b);
    }
    WithPrefix(s);
  }

  // ----- references -----

  predicate SchemeChar(c: char) {
    Letter(c) || Digit(c) || c == '+' || c == '-' || c == '.'
  }

  /** A letter, scheme characters, and a colon. */
  predicate HasScheme(s: string) {
    s != "" && Letter(s[0]) && var i := Find(s, ':'); i < |s| && forall k :: 1 <= k < i ==> SchemeChar(s[k])
  }

  function Path(target: string): string {
    target[..Find(target, '?')]
  }

  /** A path up to and with its last slash; one character if it has none. */
  function Directory(target: string): string
    requires target != ""
  {
    target[..LastSlash(Path(target)) + 1]
  }

  /** The last position of a slash, or 0. */
  function LastSlash(s: string): (i: nat)
    ensures i < |s| || i == 0
    decreases |s|
  {
    if s == "" || s[|s| - 1] == '/' then (if s == "" then 0 else |s| - 1) else LastSlash(s[..|s| - 1])
  }

  /** Path, query and fragment of a reference without scheme and authority, merged with the base. */
  function Merge(target: string, ref: string): string
    requires target != "" && ref != ""
  {
    if ref[0] == '/' then ref
    else if ref[0] == '?' then Path(target) + ref
    else if ref[0] == '#' then target
    else Directory(target) + ref
  }

  /** The URL a trimmed reference stands for, unless it is absolute. */
  function Absolute(base: Url, ref: string): string
    requires base.target != "" && ref != ""
  {
    if ref[..1] == "/" && |ref| > 1 && ref[1] == '/' then "http:" + ref
    else "http://" + (PrintHost(base) + Merge(base.target, ref))
  }

  function ResolveUrl(base: Url, location: string): UrlRes
    requires base.target != ""
  {
    var ref := Trim(location);
    if ref == "" then Invalid
    else if HttpPrefix(ref) then ParseUrl(ref)
    else if HasScheme(ref) then NotHttp
    else if |Absolute(base, ref)| + 1 > UINT32_MAX then NoMemory
    else ParseUrl(Absolute(base, ref))
  }

  /** A reference without scheme and authority keeps host and port; its target is the merged one up to
      the fragment, refused exactly when that holds a space or a control character. */
  lemma ReferenceResolves(base: Url, location: string)
    requires UrlOk(base)
    requires var ref := Trim(location);
      && ref != "" && !HttpPrefix(ref) && !HasScheme(ref) && !(|ref| > 1 && ref[..2] == "//")
      && |Absolute(base, ref)| < UINT32_MAX
    ensures var merged := Merge(base.target, Trim(location));
      var cut := merged[..Find(merged, '#')];
      ResolveUrl(base, location) == if AllUrlChars(cut) then Good(base.(target := cut)) else Invalid
  {
    hide HttpPrefix, HasScheme, UrlOk, Trim, ParseUrl, PrintHost, Merge, Spells;
    var ref := Trim(location);
    assert |ref| > 1 ==> ref[..2] == [ref[0], ref[1]];
    MergedStarts(base, ref);
    PrintHostSpells(base);
    ParsedWithPath(PrintHost(base), base, Merge(base.target, ref));
  }

  lemma MergedStarts(base: Url, ref: string)
    requires UrlOk(base) && ref != ""
    ensures base.target != "" && Merge(base.target, ref) != "" && Merge(base.target, ref)[0] == '/'
  {
  }

  /** A reference that is only a fragment is the base itself. */
  lemma FragmentResolves(base: Url, location: string)
    requires UrlOk(base) && Trim(location) != "" && Trim(location)[0] == '#'
    requires |Absolute(base, Trim(location))| < UINT32_MAX
    ensures ResolveUrl(base, location) == Good(base)
  {
    hide Trim;
    var ref := Trim(location);
    assert |ref| >= 7 ==> ref[..7][0] == '#' && "http://"[0] == 'h';
    FindIs(base.target, '#', |base.target|);
    assert base.target[..|base.target|] == base.target;
    ReferenceResolves(base, location);
  }

  /** Whatever resolves is a record of the grammar: its target starts with a slash and holds no
      fragment mark, space or control character. */
  lemma ResolvedIsOk(base: Url, location: string)
    requires base.target != "" && ResolveUrl(base, location).Good?
    ensures UrlOk(ResolveUrl(base, location).url)
  {
    hide ParseUrl, UrlOk, Trim, HttpPrefix, HasScheme, Absolute;
    var ref := Trim(location);
    if HttpPrefix(ref) {
      ParsedIsOk(ref);
    } else {
      ParsedIsOk(Absolute(base, ref));
    }
  }

  /** The directory of a target is its path up to the last slash. */
  lemma DirectoryEnds(u: Url)
    requires UrlOk(u)
    ensures var d, p := Directory(u.target), Path(u.target);
      && 0 < |d| <= |p| && d == p[..|d|] && d[|d| - 1] == '/'
      && '/' !in p[|d|..]
  {
    var p := Path(u.target);
    assert p != "" && p[0] == '/';
    LastSlashIs(p);
    assert p[..LastSlash(p) + 1] == Directory(u.target);
  }

  lemma {:induction false} LastSlashIs(s: string)
    requires s != "" && s[0] == '/'
    ensures s[LastSlash(s)] == '/' && forall k :: LastSlash(s) < k < |s| ==> s[k] != '/'
    decreases |s|
  {
    if s[|s| - 1] != '/' {
      var t := s[..|s| - 1];
      LastSlashIs(t);
      assert forall k :: 0 <= k < |t| ==> s[k] == t[k];
    }
  }

  // ----- the loops -----

  /** A port: digits of a value from 1 to 65535, refused before the value can leave that range. */
  method ParsePort(p: string) returns (port: Option<nat>)
    ensures port == PortOf(p)
  {
    hide DecValue;
    if p == "" { return None; }
    var value := 0;
    assert p[..0] == "";
    DecEmpty();
    for i := 0 to |p|
      invariant forall k :: 0 <= k < i ==> Digit(p[k])
      invariant 0 <= value <= 65535 && value == DecValue(p[..i])
    {
      if !Digit(p[i]) { return None; }
      DecStep(p, i);
      if value > 6553 || (value == 6553 && p[i] > '5') {
        if AllDigits(p) {
          DecMono(p, i + 1);
        }
        return None;
      }
      value := value * 10 + DigitValue(p[i]);
    }
    assert p[..|p|] == p;
    port := if value == 0 then None else Some(value);
  }

  method ParseAuthority(a: string) returns (r: Option<(string, nat)>)
    ensures r == HostPort(a)
  {
    hide PortOf;
    if a == "" { return None; }
    var colon: Option<nat> := None;
    for i := 0 to |a|
      invariant forall k :: 0 <= k < i ==> AuthorityChar(a[k])
      invariant colon.None? ==> forall k :: 0 <= k < i ==> a[k] != ':'
      invariant colon.Some? ==> colon.value < i && a[colon.value] == ':'
      invariant colon.Some? ==> forall k :: 0 <= k < i && k != colon.value ==> a[k] != ':'
    {
      if !AuthorityChar(a[i]) { return None; }
      if a[i] == ':' {
        if colon.Some? {
          SecondColon(a, colon.value, i);
          return None;
        }
        colon := Some(i);
      }
    }
    var hostEnd := if colon.None? then |a| else colon.value;
    FindIs(a, ':', hostEnd);
    if hostEnd == 0 || hostEnd > 255 { return None; }
    var port := DEFAULT_PORT;
    if colon.Some? {
      var given := ParsePort(a[hostEnd + 1..]);
      if given.None? { return None; }
      port := given.value;
    } else {
      assert a[..hostEnd] == a;
    }
    r := Some((a[..hostEnd], port));
  }

  /** A second colon cannot be part of a port. */
  lemma SecondColon(a: string, i: nat, j: nat)
    requires i < j < |a| && a[i] == ':' && a[j] == ':'
    ensures HostPort(a) == None
  {
    var k := Find(a, ':');
    assert a[k + 1..][j - k - 1] == ':';
  }

  method ParseTarget(t: string) returns (target: Option<string>)
    ensures target == TargetOf(t)
  {
    var end := Find(t, '#');
    for i := 0 to end
      invariant forall k :: 0 <= k < i ==> UrlChar(t[k])
    {
      if !UrlChar(t[i]) {
        assert !UrlChar(t[..end][i]);
        return None;
      }
    }
    if end == 0 { return Some("/"); }
    target := Some((if t[0] == '?' then "/" else "") + t[..end]);
  }

  method Parse(text: string) returns (r: UrlRes)
    ensures r == ParseUrl(text)
  {
    hide SameIgnoringCase, HasSeparator, HostPort, TargetOf;
    var s := text;
    if HttpPrefix(text) {
      s := text[7..];
    } else if HasSeparator(text) {
      return NotHttp;
    }
    var end := AuthorityEnd(s);
    var authority := ParseAuthority(s[..end]);
    var target := ParseTarget(s[end..]);
    if authority.None? || target.None? { return Invalid; }
    r := Good(Record(authority.value.0, authority.value.1, target.value));
  }

  method ScanScheme(s: string) returns (found: bool)
    ensures found == HasScheme(s)
  {
    if s == "" || !Letter(s[0]) { return false; }
    for i := 1 to |s|
      invariant forall k :: 0 <= k < i ==> s[k] != ':' && (k > 0 ==> SchemeChar(s[k]))
    {
      if s[i] == ':' {
        FindIs(s, ':', i);
        return true;
      }
      if !SchemeChar(s[i]) { return false; }
    }
    FindIs(s, ':', |s|);
    found := false;
  }

  method FindDirectory(target: string) returns (n: nat)
    requires target != "" && target[0] == '/'
    ensures n <= |target| && target[..n] == Directory(target)
  {
    var end := Find(target, '?');
    var slash := 0;
    for i := 1 to end
      invariant slash < i && target[slash] == '/' && forall k :: slash < k < i ==> target[k] != '/'
    {
      if target[i] == '/' {
        slash := i;
      }
    }
    SlashIs(Path(target), slash);
    n := slash + 1;
  }

  lemma {:induction false} SlashIs(s: string, i: nat)
    requires i < |s| && s[i] == '/' && forall k :: i < k < |s| ==> s[k] != '/'
    ensures LastSlash(s) == i
    decreases |s|
  {
    if i < |s| - 1 {
      SlashIs(s[..|s| - 1], i);
    }
  }

  method AppendMerged(absolute: ByteBuffer, target: string, ref: string) returns (ok: bool)
    requires absolute.Valid() && target != "" && target[0] == '/' && ref != ""
    modifies absolute, absolute.data
    ensures absolute.Valid() && (absolute.data == old(absolute.data) || fresh(absolute.data))
    ensures ok == (|old(absolute.Contents()) + Merge(target, ref)| + 1 <= UINT32_MAX)
    ensures ok ==> absolute.Contents() == old(absolute.Contents()) + Merge(target, ref)
  {
    hide Directory;
    ghost var was := absolute.Contents();
    if ref[0] == '/' {
      ok := absolute.Append(ref);
    } else if ref[0] == '#' {
      ok := absolute.Append(target);
    } else {
      var n;
      if ref[0] == '?' {
        n := Find(target, '?');
      } else {
        n := FindDirectory(target);
      }
      Regroup(was, target[..n], ref);
      ok := absolute.Append(target[..n]);
      if ok {
        ok := absolute.Append(ref);
      }
    }
  }

  method Resolve(base: Url, location: string) returns (r: UrlRes)
    requires UrlOk(base)
    ensures r == ResolveUrl(base, location)
  {
    hide Trim, HttpPrefix, HasScheme, Merge, ParseUrl, PrintHost;
    var ref := Trim(location);
    if ref == "" { return Invalid; }
    if HttpPrefix(ref) {
      r := Parse(ref);
      return;
    }
    var scheme := ScanScheme(ref);
    if scheme { return NotHttp; }
    var text := AbsoluteText(base, ref);
    if text.None? { return NoMemory; }
    r := Parse(text.value);
  }

  /** Append host and port. */
  method AppendHost(b: ByteBuffer, u: Url) returns (ok: bool)
    requires b.Valid()
    modifies b, b.data
    ensures b.Valid() && (b.data == old(b.data) || fresh(b.data))
    ensures ok == (|old(b.Contents()) + PrintHost(u)| + 1 <= UINT32_MAX)
    ensures ok ==> b.Contents() == old(b.Contents()) + PrintHost(u)
  {
    ghost var was := b.Contents();
    ok := b.Append(u.host);
    if u.port != DEFAULT_PORT {
      Regroup(was, u.host, ":" + DecText(u.port));
      if ok { ok := b.Append(":" + DecText(u.port)); }
    } else {
      assert u.host + "" == u.host;
    }
  }

  method AbsoluteText(base: Url, ref: string) returns (text: Option<string>)
    requires base.target != "" && base.target[0] == '/' && ref != ""
    ensures text == if |Absolute(base, ref)| + 1 <= UINT32_MAX then Some(Absolute(base, ref)) else None
  {
    hide Merge, PrintHost;
    var absolute := new ByteBuffer();
    var ok := absolute.Append("http:");
    assert absolute.Contents() == "http:";
    assert |ref| > 1 ==> ref[..2] == [ref[0], ref[1]] && "//" == ['/', '/'];
    if |ref| > 1 && ref[..2] == "//" {
      ok := absolute.Append(ref);
    } else {
      ok := absolute.Append("//");
      assert absolute.Contents() == "http://";
      Regroup("http://", PrintHost(base), Merge(base.target, ref));
      ok := AppendHost(absolute, base);
      if ok { ok := AppendMerged(absolute, base.target, ref); }
    }
    text := if ok then Some(absolute.Contents()) else None;
  }
}
