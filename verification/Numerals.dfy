/** Numbers as text, in decimal and in hexadecimal. */
module Numerals {
  import opened Wrappers

  const UINT32_MAX: nat := 0xffff_ffff

  // ----- decimal -----

  predicate Digit(c: char) {
    '0' <= c <= '9'
  }

  function DigitValue(c: char): (n: nat)
    requires Digit(c)
    ensures n <= 9
  {
    c as int - '0' as int
  }

  predicate AllDigits(s: string) {
    s != "" && forall i :: 0 <= i < |s| ==> Digit(s[i])
  }

  function DecValue(s: string): nat
    requires forall i :: 0 <= i < |s| ==> Digit(s[i])
  {
    if s == "" then 0 else DecValue(s[..|s| - 1]) * 10 + DigitValue(s[|s| - 1])
  }

  function DecChar(d: nat): (c: char)
    requires d < 10
    ensures Digit(c) && DigitValue(c) == d
  {
    ('0' as int + d) as char
  }

  function DecText(n: nat): (s: string)
    ensures AllDigits(s)
  {
    (if n < 10 then "" else DecText(n / 10)) + [DecChar(n % 10)]
  }

  lemma {:induction false} DecTextValue(n: nat)
    ensures DecValue(DecText(n)) == n
  {
    var s := DecText(n);
    if n < 10 {
      assert s[..|s| - 1] == "";
    } else {
      assert s[..|s| - 1] == DecText(n / 10);
      DecTextValue(n / 10);
    }
  }

  lemma DecEmpty()
    ensures DecValue("") == 0
  {
  }

  lemma DecStep(t: string, i: nat)
    requires i < |t| && forall k :: 0 <= k <= i ==> Digit(t[k])
    ensures DecValue(t[..i + 1]) == DecValue(t[..i]) * 10 + DigitValue(t[i])
  {
    assert t[..i + 1][..i] == t[..i];
  }

  lemma {:induction false} DecMono(s: string, i: nat)
    requires i <= |s| && forall k :: 0 <= k < |s| ==> Digit(s[k])
    ensures DecValue(s[..i]) <= DecValue(s)
    decreases |s|
  {
    if i < |s| {
      assert s[..|s| - 1][..i] == s[..i];
      DecMono(s[..|s| - 1], i);
    } else {
      assert s[..i] == s;
    }
  }

  // ----- hexadecimal -----

  function HexDigit(c: char): Option<nat> {
    if '0' <= c <= '9' then Some(c as int - '0' as int)
    else if 'a' <= c <= 'f' then Some(c as int - 'a' as int + 10)
    else if 'A' <= c <= 'F' then Some(c as int - 'A' as int + 10)
    else None
  }

  /** The value of a hexadecimal digit is its place among the sixteen, in either case. */
  lemma HexDigitMeans(c: char, d: nat)
    ensures HexDigit(c) == Some(d) <==> d < 16 && (c == "0123456789abcdef"[d] || c == "0123456789ABCDEF"[d])
  {
  }

  predicate AllHex(s: string) {
    forall i :: 0 <= i < |s| ==> HexDigit(s[i]).Some?
  }

  function HexValue(s: string): nat
    requires AllHex(s)
  {
    if s == "" then 0 else HexValue(s[..|s| - 1]) * 16 + HexDigit(s[|s| - 1]).value
  }

  function HexChar(d: nat): (c: char)
    requires d < 16
    ensures HexDigit(c) == Some(d)
  {
    if d < 10 then ('0' as int + d) as char else ('a' as int + d - 10) as char
  }

  function HexText(n: nat): (s: string)
    ensures s != "" && AllHex(s)
  {
    (if n < 16 then "" else HexText(n / 16)) + [HexChar(n % 16)]
  }

  lemma {:induction false} HexTextValue(n: nat)
    ensures HexValue(HexText(n)) == n
  {
    var s := HexText(n);
    if n < 16 {
      assert s[..|s| - 1] == "";
    } else {
      assert s[..|s| - 1] == HexText(n / 16);
      HexTextValue(n / 16);
    }
  }

  lemma HexEmpty()
    ensures HexValue("") == 0
  {
  }

  lemma HexStep(s: string, i: nat)
    requires i < |s| && AllHex(s[..i + 1])
    ensures AllHex(s[..i]) && HexValue(s[..i + 1]) == HexValue(s[..i]) * 16 + HexDigit(s[i]).value
  {
    assert s[..i + 1][..i] == s[..i];
  }

  lemma {:induction false} HexMono(s: string, i: nat)
    requires i <= |s| && AllHex(s)
    ensures HexValue(s[..i]) <= HexValue(s)
    decreases |s|
  {
    if i < |s| {
      assert s[..|s| - 1][..i] == s[..i];
      HexMono(s[..|s| - 1], i);
    } else {
      assert s[..i] == s;
    }
  }
}
