/** Content-Length values: the scanning loop against the list grammar of the field. */
module HttpLength {
  import opened Numerals
  import opened Strings
  import opened Wrappers
  import opened HttpText
  import opened HttpDecode

  // ----- trimming -----

  predicate AllBlank(s: string) {
    forall i :: 0 <= i < |s| ==> Blank(s[i])
  }

  /** What is skipped on the left is blank, and what is left does not start with a blank. */
  lemma {:induction false} TrimLeftSpan(s: string) returns (b: string)
    ensures s == b + TrimLeft(s) && AllBlank(b)
    ensures TrimLeft(s) != "" ==> !Blank(TrimLeft(s)[0])
  {
    if s != "" && Blank(s[0]) {
      var b' := TrimLeftSpan(s[1..]);
      b := [s[0]] + b';
      assert s == [s[0]] + s[1..];
    } else {
      b := "";
    }
  }

  lemma {:induction false} TrimRightSpan(s: string) returns (b: string)
    ensures s == TrimRight(s) + b && AllBlank(b)
    decreases |s|
  {
    if s != "" && Blank(s[|s| - 1]) {
      var b' := TrimRightSpan(s[..|s| - 1]);
      b := b' + [s[|s| - 1]];
      assert s == s[..|s| - 1] + [s[|s| - 1]];
    } else {
      b := "";
    }
  }

  /** Between two characters that are not blanks, trimming removes nothing. */
  lemma DigitsInside(s: string, j: nat, k: nat)
    requires j <= k < |s| && !Blank(s[j]) && !Blank(s[k])
    ensures AllDigits(Trim(s)) ==> forall i :: j <= i <= k ==> Digit(s[i])
  {
    hide TrimLeft, TrimRight;
    var b := TrimLeftSpan(s);
    var b2 := TrimRightSpan(TrimLeft(s));
    var t := Trim(s);
    assert s == b + (t + b2);
    assert forall i :: 0 <= i < |b| ==> s[i] == b[i];
    assert forall i :: |b| + |t| <= i < |s| ==> s[i] == b2[i - |b| - |t|];
    assert forall i :: |b| <= i < |b| + |t| ==> s[i] == t[i - |b|];
  }

  lemma {:induction false} TrimLeftIs(b: string, t: string)
    requires AllBlank(b) && (t == "" || !Blank(t[0]))
    ensures TrimLeft(b + t) == t
  {
    if b == "" {
      assert b + t == t;
    } else {
      assert Blank((b + t)[0]) && (b + t)[1..] == b[1..] + t;
      TrimLeftIs(b[1..], t);
    }
  }

  lemma {:induction false} TrimRightIs(t: string, b: string)
    requires AllBlank(b) && (t == "" || !Blank(t[|t| - 1]))
    ensures TrimRight(t + b) == t
    decreases |b|
  {
    if b == "" {
      assert t + b == t;
    } else {
      var n := |b| - 1;
      assert Blank((t + b)[|t + b| - 1]) && (t + b)[..|t + b| - 1] == t + b[..n];
      TrimRightIs(t, b[..n]);
    }
  }

  // ----- one element -----

  /** The number of decimal digits `s` starts with. */
  function DigitRun(s: string): (n: nat)
    ensures n <= |s| && (forall i :: 0 <= i < n ==> Digit(s[i]))
    ensures n < |s| ==> !Digit(s[n])
  {
    if s == "" || !Digit(s[0]) then 0 else 1 + DigitRun(s[1..])
  }

  /** What a scan over blanks, digits and blanks finds: the digits, and what stands after. */
  function Scan(s: string): (string, string) {
    var t := TrimLeft(s);
    var n := DigitRun(t);
    (t[..n], TrimLeft(t[n..]))
  }

  predicate Closed(rest: string) {
    rest == "" || rest[0] == ','
  }

  /** The scan accepts exactly the elements that are a number between blanks. */
  lemma ScanElement(s: string)
    ensures var (d, rest) := Scan(s);
      var e := s[..Find(s, ',')];
      && (d != "" && Closed(rest) <==> AllDigits(Trim(e)))
      && (d != "" && Closed(rest) ==> Trim(e) == d && rest == s[|e|..])
  {
    hide Find, TrimLeft, TrimRight, DigitRun, AllDigits;
    var t := TrimLeft(s);
    var n := DigitRun(t);
    var u := t[n..];
    var d, rest := t[..n], TrimLeft(u);
    var b := TrimLeftSpan(s);
    var b2 := TrimLeftSpan(u);
    assert t == d + u;
    if Closed(rest) {
      ClosedElement(b, d, b2, rest);
      AllDigitsIs(d);
    } else {
      OpenElement(b, d, b2, rest);
    }
  }

  lemma AllDigitsIs(d: string)
    requires forall i :: 0 <= i < |d| ==> Digit(d[i])
    ensures AllDigits(d) <==> d != ""
  {
  }

  lemma ElementIs(s: string)
    ensures Elements(s)[0] == s[..Find(s, ',')]
  {
    assert s[..|s|] == s;
  }

  lemma ClosedElement(b: string, d: string, b2: string, rest: string)
    requires AllBlank(b) && AllBlank(b2) && (forall i :: 0 <= i < |d| ==> Digit(d[i])) && Closed(rest)
    ensures var s := b + (d + (b2 + rest));
      var e := s[..Find(s, ',')];
      rest == s[|e|..] && Trim(e) == d
  {
    hide Find, TrimLeft, TrimRight;
    var e := b + (d + b2);
    var s := b + (d + (b2 + rest));
    assert s == e + rest;
    forall i | 0 <= i < |e| ensures s[i] != ',' {
      assert s[i] == if i < |b| then b[i] else if i < |b| + |d| then d[i - |b|] else b2[i - |b| - |d|];
    }
    FindIs(s, ',', |e|);
    assert s[..|e|] == e;
    if d == "" {
      assert e == (b + b2) + "";
      TrimLeftIs(b + b2, "");
      TrimRightIs("", "");
      assert "" + "" == "";
    } else {
      TrimLeftIs(b, d + b2);
      TrimRightIs(d, b2);
    }
  }

  lemma OpenElement(b: string, d: string, b2: string, rest: string)
    requires AllBlank(b) && AllBlank(b2) && (forall i :: 0 <= i < |d| ==> Digit(d[i]))
    requires !Closed(rest) && !Blank(rest[0]) && (b2 == "" ==> !Digit(rest[0])) && (d == "" ==> b2 == "")
    ensures var s := b + (d + (b2 + rest));
      !AllDigits(Trim(s[..Find(s, ',')]))
  {
    hide Find, TrimLeft, TrimRight, AllDigits;
    var s := b + (d + (b2 + rest));
    var m := |b| + |d| + |b2|;
    forall i | 0 <= i <= m ensures s[i] != ',' {
      assert s[i] == if i < |b| then b[i] else if i < |b| + |d| then d[i - |b|]
                     else if i < m then b2[i - |b| - |d|] else rest[0];
    }
    var e := s[..Find(s, ',')];
    assert e[m] == rest[0];
    if d == "" {
      DigitsInside(e, m, m);
    } else {
      assert e[|b|] == d[0];
      assert b2 != "" ==> e[m - 1] == b2[|b2| - 1];
      DigitsInside(e, |b|, m);
    }
  }

  // ----- the list -----

  /** Elements taken one by one must all be the number known so far. */
  function AgreeOn(known: Option<nat>, es: seq<string>): Option<nat>
    decreases |es|
  {
    if es == [] then known
    else
      match Element(es[0])
      case None => None
      case Some(n) => if known.Some? && known.value != n then None else AgreeOn(Some(n), es[1..])
  }

  lemma {:induction false} AgreeOnAll(known: Option<nat>, es: seq<string>, n: nat)
    requires es != [] || known.Some?
    ensures AgreeOn(known, es) == Some(n) <==> AllAre(es, n) && (known.Some? ==> known == Some(n))
    decreases |es|
  {
    if es != [] {
      var m := Element(es[0]);
      if m.Some? && (known.Some? ==> known == m) {
        AgreeOnAll(m, es[1..], n);
        assert AllAre(es, n) <==> m == Some(n) && AllAre(es[1..], n) by {
          if m == Some(n) && AllAre(es[1..], n) {
            forall i | 0 <= i < |es| ensures Element(es[i]) == Some(n) {
              if i > 0 { assert Element(es[1..][i - 1]) == Some(n); }
            }
          }
          if AllAre(es, n) {
            assert Element(es[0]) == Some(n);
            forall i | 0 <= i < |es[1..]| ensures Element(es[1..][i]) == Some(n) {
              assert Element(es[i + 1]) == Some(n);
            }
          }
        }
      } else if AllAre(es, n) {
        assert Element(es[0]) == Some(n);
      }
    }
  }

  lemma LengthIsAgreed(known: Option<nat>, value: string)
    ensures LengthOf(known, value) == AgreeOn(known, Elements(value))
  {
    var es := Elements(value);
    var m := Element(es[0]);
    if m.Some? {
      AgreeOnAll(known, es, m.value);
      if AgreeOn(known, es).Some? {
        AgreeOnAll(known, es, AgreeOn(known, es).value);
        assert Element(es[0]) == AgreeOn(known, es);
      }
    }
  }

  /** The elements of a list are what its commas separate. */
  lemma {:induction false} ElementsMean(s: string)
    ensures Joined(Elements(s)) == s && forall i :: 0 <= i < |Elements(s)| ==> ',' !in Elements(s)[i]
    decreases |s|
  {
    hide Find;
    var i := Find(s, ',');
    if i < |s| {
      ElementsMean(s[i + 1..]);
      assert Elements(s)[1..] == Elements(s[i + 1..]);
      assert s == s[..i] + ("," + s[i + 1..]);
      assert forall j :: 1 <= j < |Elements(s)| ==> Elements(s)[j] == Elements(s[i + 1..])[j - 1];
    }
  }

  function Joined(es: seq<string>): string
    requires es != []
  {
    if |es| == 1 then es[0] else es[0] + ("," + Joined(es[1..]))
  }

  /** An element is a number of at most 64 bits between blanks. */
  lemma ElementExactly(s: string, n: nat)
    ensures Element(s) == Some(n) <==>
      n <= 0xffff_ffff_ffff_ffff && exists b, d, a ::
        s == b + (d + a) && AllBlank(b) && AllBlank(a) && AllDigits(d) && DecValue(d) == n
  {
    hide TrimLeft, TrimRight, DecValue;
    if Element(s) == Some(n) {
      var b := TrimLeftSpan(s);
      var a := TrimRightSpan(TrimLeft(s));
      assert s == b + (Trim(s) + a);
    }
    if b, d, a :| s == b + (d + a) && AllBlank(b) && AllBlank(a) && AllDigits(d) && DecValue(d) == n {
      TrimLeftIs(b, d + a);
      TrimRightIs(d, a);
    }
  }

  // ----- the loop -----

  /** A run of digits; None as soon as the value leaves 64 bits. */
  method ReadNumber(s: string, from: nat) returns (n: Option<nat>, p: nat)
    requires from <= |s|
    ensures from <= p <= |s|
    ensures var d := s[from..][..DigitRun(s[from..])];
      if DecValue(d) <= UINT64_MAX then n == Some(DecValue(d)) && p == from + |d| else n == None
  {
    hide DecValue, DigitRun;
    var t := s[from..];
    ghost var run := DigitRun(t);
    var parsed := 0;
    p := from;
    assert t[..0] == "";
    DecEmpty();
    while p < |s| && Digit(s[p])
      invariant from <= p <= |s| && p - from <= run
      invariant 0 <= parsed <= UINT64_MAX && parsed == DecValue(t[..p - from])
      decreases |s| - p
    {
      assert s[p] == t[p - from];
      var digit := DigitValue(s[p]);
      DecStep(t, p - from);
      p := p + 1;
      if parsed > UINT64_MAX / 10 || (parsed == UINT64_MAX / 10 && digit > UINT64_MAX % 10) {
        DecMono(t[..run], p - from);
        assert t[..run][..p - from] == t[..p - from];
        return None, p;
      }
      parsed := parsed * 10 + digit;
    }
    assert p - from == run;
    n := Some(parsed);
  }

  /** The Content-Length scan: the length declared by `value`, given what is already known. */
  method ParseLength(known: Option<nat>, value: string) returns (r: Option<nat>)
    ensures r == LengthOf(known, value)
  {
    hide Element, Elements, AgreeOn, DigitRun, TrimLeft, Find, Scan, DecValue;
    LengthIsAgreed(known, value);
    ghost var all := LengthOf(known, value);
    var position := 0;
    var expected := known;
    assert value[0..] == value;
    while position < |value|
      invariant position <= |value|
      invariant AgreeOn(expected, Elements(value[position..])) == all
      decreases |value| - position
    {
      ghost var s := value[position..];
      ListStep(expected, s);
      ScanIs(s);
      position := SkipBlanks(value, position);
      var d := position;
      var parsed;
      if position == |value| || !Digit(value[position]) { return None; }
      parsed, position := ReadNumber(value, position);
      if parsed.None? { return None; }
      assert value[d..][DigitRun(value[d..])..] == value[position..];
      position := SkipBlanks(value, position);
      assert Scan(s).1 == value[position..];
      if expected.Some? && parsed.value != expected.value { return None; }
      expected := parsed;
      if position == |value| { return expected; }
      if value[position] != ',' { return None; }
      position := position + 1;
      if position == |value| {
        assert value[position..] == "";
        EmptyElement(expected);
        return None;
      }
    }
    assert value[position..] == "";
    EmptyElement(expected);
    r := None;
  }

  lemma EmptyElement(known: Option<nat>)
    ensures AgreeOn(known, Elements("")) == None
  {
    assert Elements("") == [""];
    assert Trim("") == "";
  }

  lemma ScanIs(s: string)
    ensures var t := TrimLeft(s);
      Scan(s) == (t[..DigitRun(t)], TrimLeft(t[DigitRun(t)..]))
    ensures (TrimLeft(s) == "" || !Digit(TrimLeft(s)[0])) <==> Scan(s).0 == ""
    ensures forall i :: 0 <= i < |Scan(s).0| ==> Digit(Scan(s).0[i])
  {
  }

  /** What one element contributes, in terms of the scan. */
  lemma ListStep(known: Option<nat>, s: string)
    ensures forall i :: 0 <= i < |Scan(s).0| ==> Digit(Scan(s).0[i])
    ensures var (d, rest) := Scan(s);
      var all := AgreeOn(known, Elements(s));
      if d == "" || !Closed(rest) || DecValue(d) > UINT64_MAX then all == None
      else if known.Some? && known.value != DecValue(d) then all == None
      else if rest == "" then all == Some(DecValue(d))
      else all == AgreeOn(Some(DecValue(d)), Elements(rest[1..]))
  {
    hide Scan, Find, Trim, AllDigits;
    ScanElement(s);
    ScanIs(s);
    var (d, rest) := Scan(s);
    var i := Find(s, ',');
    ElementIs(s);
    if i == |s| {
      assert Elements(s)[1..] == [];
    } else {
      assert Elements(s)[1..] == Elements(s[i + 1..]);
      assert d != "" && Closed(rest) ==> rest == s[i..] && rest[1..] == s[i + 1..];
    }
  }

  // ----- several values -----

  /** The length after a sequence of Content-Length values. */
  function LengthAfter(known: Option<nat>, values: seq<string>): Option<nat>
    decreases |values|
  {
    if values == [] then known
    else
      match LengthOf(known, values[0])
      case None => None
      case Some(n) => LengthAfter(Some(n), values[1..])
  }

  /** Every element of every value is the number `n`. */
  predicate AllAgree(values: seq<string>, n: nat) {
    forall i :: 0 <= i < |values| ==> AllAre(Elements(values[i]), n)
  }

  lemma LengthMeans(known: Option<nat>, value: string, n: nat)
    ensures LengthOf(known, value) == Some(n) <==> AllAre(Elements(value), n) && (known.Some? ==> known == Some(n))
  {
    if AllAre(Elements(value), n) {
      assert Element(Elements(value)[0]) == Some(n);
    }
  }

  lemma {:induction false} ValuesAgree(known: Option<nat>, values: seq<string>, n: nat)
    requires values != [] || known.Some?
    ensures LengthAfter(known, values) == Some(n) <==> AllAgree(values, n) && (known.Some? ==> known == Some(n))
    decreases |values|
  {
    hide Elements, Element, AllAre;
    if values != [] {
      LengthMeans(known, values[0], n);
      var m := LengthOf(known, values[0]);
      if m.Some? {
        LengthMeans(known, values[0], m.value);
        ValuesAgree(m, values[1..], n);
        if LengthAfter(known, values) == Some(n) {
          forall i | 0 <= i < |values| ensures AllAre(Elements(values[i]), n) {
            if i > 0 { assert AllAre(Elements(values[1..][i - 1]), n); }
          }
        }
      }
    }
  }

  // ----- header lines -----

  /** Header lines parsed one after another. */
  function HeadersFrom(r: Response, lines: seq<string>): ParseRes
    decreases |lines|
  {
    if lines == [] then Parsed(r)
    else
      match HeaderOf(r, lines[0])
      case Rejected => Rejected
      case Parsed(r1) => HeadersFrom(r1, lines[1..])
  }

  predicate IsLength(line: string) {
    HeaderColon(line).Some? && SameIgnoringCase(line[..HeaderColon(line).value], "Content-Length")
  }

  /** The values of the Content-Length lines among `lines`. */
  function LengthValues(lines: seq<string>): seq<string>
    decreases |lines|
  {
    if lines == [] then []
    else (if IsLength(lines[0]) then [Trim(lines[0][HeaderColon(lines[0]).value + 1..])]
      else []) + LengthValues(lines[1..])
  }

  /** All the other lines. */
  function OtherLines(lines: seq<string>): seq<string>
    decreases |lines|
  {
    if lines == [] then [] else (if IsLength(lines[0]) then [] else [lines[0]]) + OtherLines(lines[1..])
  }

  function WithLength(r: ParseRes, n: Option<nat>): ParseRes {
    if r.Rejected? then r else Parsed(r.r.(length := n))
  }

  lemma HeaderSplits(r: Response, line: string)
    ensures IsLength(line) ==>
      var n := LengthOf(r.length, Trim(line[HeaderColon(line).value + 1..]));
      HeaderOf(r, line) == if n.None? then Rejected else Parsed(r.(length := n))
    ensures !IsLength(line) ==> forall n :: HeaderOf(r.(length := n), line) == WithLength(HeaderOf(r, line), n)
    ensures !IsLength(line) && HeaderOf(r, line).Parsed? ==> HeaderOf(r, line).r.length == r.length
  {
    hide HeaderColon, LengthOf, Trim, SameIgnoringCase;
  }

  /** Lines other than Content-Length neither see the length nor change it. */
  lemma {:induction false} OthersIgnoreLength(r: Response, lines: seq<string>, n: Option<nat>)
    ensures HeadersFrom(r.(length := n), OtherLines(lines)) == WithLength(HeadersFrom(r, OtherLines(lines)), n)
    decreases |lines|
  {
    hide HeaderOf, IsLength;
    var others := OtherLines(lines);
    if lines != [] {
      if IsLength(lines[0]) {
        assert others == OtherLines(lines[1..]);
        OthersIgnoreLength(r, lines[1..], n);
      } else {
        assert others[0] == lines[0] && others[1..] == OtherLines(lines[1..]);
        HeaderSplits(r, lines[0]);
        assert HeaderOf(r.(length := n), lines[0]) == WithLength(HeaderOf(r, lines[0]), n);
        if HeaderOf(r, lines[0]).Parsed? {
          OthersIgnoreLength(HeaderOf(r, lines[0]).r, lines[1..], n);
        }
      }
    }
  }

  /** Header lines are accepted exactly when the lines other than Content-Length are, and the
      Content-Length values, if there are any, agree; the length is then the one they agree on. */
  lemma {:induction false} LengthsDecide(r: Response, lines: seq<string>)
    ensures var values := LengthValues(lines);
      var n := LengthAfter(r.length, values);
      HeadersFrom(r, lines) ==
        if values != [] && n.None? then Rejected else WithLength(HeadersFrom(r, OtherLines(lines)), n)
    decreases |lines|
  {
    hide HeaderOf, IsLength, LengthOf, Trim;
    if lines == [] {
      return;
    }
    var rest, values, others := lines[1..], LengthValues(lines), OtherLines(lines);
    HeaderSplits(r, lines[0]);
    if IsLength(lines[0]) {
      assert values[1..] == LengthValues(rest) && others == OtherLines(rest);
      var n := LengthOf(r.length, values[0]);
      if n.Some? {
        LengthsDecide(r.(length := n), rest);
        OthersIgnoreLength(r, rest, n);
      }
    } else {
      assert values == LengthValues(rest) && others[0] == lines[0] && others[1..] == OtherLines(rest);
      if HeaderOf(r, lines[0]).Parsed? {
        LengthsDecide(HeaderOf(r, lines[0]).r, rest);
      } else if values == [] || LengthAfter(r.length, values).Some? {
        assert HeadersFrom(r, others).Rejected?;
      }
    }
  }

  // ----- the head of a response -----

  /** The header lines up to the blank one, `size` bytes of the head having been kept before them. */
  function HeaderLines(w: string, z: Ending, size: nat): Option<seq<string>>
    decreases |w|
  {
    if size > HEADER_LIMIT then None else
    match LineOf(w, z)
    case NoLine(_) => None
    case Line(text, rest) =>
      if text == "" then if size + 2 > HEADER_LIMIT then None else Some([])
      else
        match HeaderLines(rest, z, size + |text| + 2)
        case None => None
        case Some(lines) => Some([text] + lines)
  }

  /** The fields a head is accepted with, whatever was kept of its text. */
  function Fields(r: Response): Response {
    r.(raw := "")
  }

  lemma HeaderIgnoresRaw(r: Response, line: string, raw: string)
    ensures HeaderOf(r.(raw := raw), line) ==
      if HeaderOf(r, line).Rejected? then Rejected else Parsed(HeaderOf(r, line).r.(raw := raw))
    ensures HeaderOf(r, line).Parsed? ==> HeaderOf(r, line).r.raw == r.raw
  {
    hide HeaderColon, LengthOf, Trim, SameIgnoringCase;
  }

  /** The loop over a head reads its lines and parses them one after another. */
  lemma {:induction false} HeadersAre(w: string, z: Ending, r: Response, line: string)
    ensures var h := HeadersOf(w, z, r, line);
      var lines := HeaderLines(w, z, |r.raw| + |line| + 2);
      && (h.Head? <==> lines.Some? && HeadersFrom(Fields(r), lines.value).Parsed?)
      && (h.Head? ==> Parsed(Fields(h.r)) == HeadersFrom(Fields(r), lines.value))
    decreases |w|
  {
    hide HeaderOf, LineOf;
    if |r.raw| + |line| + 2 <= HEADER_LIMIT && LineOf(w, z).Line? && LineOf(w, z).text != "" {
      var text, rest := LineOf(w, z).text, LineOf(w, z).rest;
      var r1 := r.(raw := r.raw + line + "\r\n");
      HeaderIgnoresRaw(r1, text, "");
      assert Fields(r) == Fields(r1);
      if HeaderOf(r1, text).Parsed? {
        HeadersAre(rest, z, HeaderOf(r1, text).r, text);
      }
      var lines := HeaderLines(w, z, |r.raw| + |line| + 2);
      assert lines.Some? ==> lines.value[1..] == HeaderLines(rest, z, |r1.raw| + |text| + 2).value;
    }
  }

  /** The lines of the head at the front of `w`: the status line and the header lines. */
  function HeadLines(w: string, z: Ending): Option<(string, seq<string>)> {
    match LineOf(w, z)
    case NoLine(_) => None
    case Line(text, rest) =>
      match HeaderLines(rest, z, |text| + 2)
      case None => None
      case Some(lines) => Some((text, lines))
  }

  /** What the lines of a head decide. A response is accepted exactly when its status line has the
      right form, its header lines other than Content-Length are accepted, and its Content-Length values
      are all lists of one and the same number of at most 64 bits. It has a length exactly when there
      is such a value, and that number is it. */
  ghost predicate LinesDecide(h: HeadRes, status: string, lines: seq<string>) {
    var values := LengthValues(lines);
    && (h.Head? <==>
         && StatusForm(status)
         && HeadersFrom(Response(StatusOf(status), None, NoCoding, None, ""), OtherLines(lines)).Parsed?
         && (values == [] || exists n: nat :: AllAgree(values, n)))
    && (h.Head? ==>
         && (h.r.length.Some? <==> values != [])
         && forall n: nat :: h.r.length == Some(n) <==> values != [] && AllAgree(values, n))
  }

  /** Over any sequence of header lines, parsing a response is decided by its lines. */
  lemma LengthsAgree(w: string, z: Ending)
    ensures HeadLines(w, z).Some? ==>
      LinesDecide(ResponseOf(w, z), HeadLines(w, z).value.0, HeadLines(w, z).value.1)
    ensures HeadLines(w, z).None? ==> ResponseOf(w, z).BadHead?
  {
    hide HeadersFrom, LineOf, StatusForm, HeadersOf, HeaderLines, LengthAfter, AllAgree, LengthValues, OtherLines;
    var line := LineOf(w, z);
    if line.Line? && StatusForm(line.text) {
      var r := Response(StatusOf(line.text), None, NoCoding, None, "");
      HeadersAre(line.rest, z, r, line.text);
      assert |r.raw| == 0;
      if HeadLines(w, z).Some? {
        var lines := HeadLines(w, z).value.1;
        LengthsDecide(r, lines);
        ValuesDecide(LengthValues(lines));
      }
    }
  }

  lemma ValuesDecide(values: seq<string>)
    ensures values == [] ==> LengthAfter(None, values) == None
    ensures values != [] ==> forall n: nat :: LengthAfter(None, values) == Some(n) <==> AllAgree(values, n)
    ensures values != [] ==> (LengthAfter(None, values).Some? <==> exists n: nat :: AllAgree(values, n))
  {
    hide AllAgree;
    if values != [] {
      forall n: nat ensures LengthAfter(None, values) == Some(n) <==> AllAgree(values, n) {
        ValuesAgree(None, values, n);
      }
    }
  }

  /** The body of a response whose Content-Length values agree on `n` is exactly the next `n` bytes,
      and no more are consumed. */
  lemma LengthIsCopied(w: string, z: Ending, n: nat)
    requires ResponseOf(w, z).Head? && ResponseOf(w, z).r.coding == NoCoding && HeadLines(w, z).Some?
    requires LengthValues(HeadLines(w, z).value.1) != [] && AllAgree(LengthValues(HeadLines(w, z).value.1), n)
    ensures var rest := ResponseOf(w, z).rest;
      BodyOf(rest, z, ResponseOf(w, z).r) ==
        if |rest| >= n then Body(rest[..n], rest[n..]) else Failed(EndCode(z), rest)
  {
    hide ResponseOf, HeadLines, AllAgree, LengthValues;
    LengthsAgree(w, z);
    assert ResponseOf(w, z).r.length == Some(n);
  }
}
