/** Building a command: the clamp on moves, and turning in steps of 256 with the error carried on. */
module DoomTurns {
  import opened DoomDemo
  import opened Octets

  // ----- moves -----

  /** The clamp, and the store into a signed byte. */
  function Move(n: int, max: int): int {
    SignedByte(if n > max then max else if n < 0 - max then 0 - max else n)
  }

  /** No move is taken for the marker exactly when the largest move fits a signed byte; a `-turbo`
      scale above 255% breaks this. */
  lemma MovesAvoidMarker(max: nat)
    ensures (forall n: int :: Move(n, max) != -128) <==> max < 128
  {
    if max >= 128 {
      assert Move(128, max) == -128;
    }
  }

  lemma MovesAreKept(n: int, max: nat)
    requires max < 128
    ensures Move(n, max) == if n > max then max else if n < 0 - max then 0 - max else n
  {
  }

  // ----- turns -----

  /** The turn given out for a wanted turn, and the error carried to the next one. */
  function Turn(carry: int, wanted: int): (int, int) {
    var desired := Signed16(wanted + carry);
    var turn := Signed16((desired + 128) % 65536 / 256 * 256);
    (turn, Signed16(desired - turn))
  }

  /** a and b are the same 16-bit angle. */
  predicate SameAngle(a: int, b: int) {
    (a - b) % 65536 == 0
  }

  lemma TurnIsRounded(carry: int, wanted: int)
    ensures var (turn, carried) := Turn(carry, wanted);
      turn % 256 == 0 && -32768 <= turn < 32768 && -128 <= carried < 128 && SameAngle(turn + carried, wanted + carry)
  {
    var d := Signed16(wanted + carry);
    var u := (d + 128) % 65536;
    var turn := Signed16(u / 256 * 256);
    assert u == u / 256 * 256 + u % 256;
    assert (u - (d + 128)) % 65536 == 0;
    assert turn == u / 256 * 256 || turn == u / 256 * 256 - 65536;
  }

  function Sum(s: seq<int>): int {
    if s == [] then 0 else Sum(s[..|s| - 1]) + s[|s| - 1]
  }

  class Turner {
    var carry: int

    constructor ()
      ensures carry == 0
    {
      carry := 0;
    }

    method Next(wanted: int) returns (turn: int)
      modifies this
      ensures (turn, carry) == Turn(old(carry), wanted)
    {
      var desired := Signed16(wanted + carry);
      turn := Signed16((desired + 128) % 65536 / 256 * 256);
      carry := Signed16(desired - turn);
    }
  }

  /** Nothing is lost over any run: the turns given out and the last carry add up to the turns wanted,
      every turn given out survives the one-byte format, and the carry stays within half a step. */
  method Turns(wanted: seq<int>) returns (turns: seq<int>, carry: int)
    ensures |turns| == |wanted| && -128 <= carry < 128
    ensures SameAngle(Sum(turns) + carry, Sum(wanted))
    ensures forall i :: 0 <= i < |turns| ==> turns[i] / 256 * 256 == turns[i] && -32768 <= turns[i] < 32768
  {
    hide Turn, SameAngle, Sum;
    var t := new Turner();
    turns := [];
    SumEmpty();
    for i := 0 to |wanted|
      invariant |turns| == i && fresh(t) && -128 <= t.carry < 128
      invariant SameAngle(Sum(turns) + t.carry, Sum(wanted[..i]))
      invariant forall k :: 0 <= k < i ==> turns[k] / 256 * 256 == turns[k] && -32768 <= turns[k] < 32768
    {
      TurnIsRounded(t.carry, wanted[i]);
      ghost var before := t.carry;
      var turn := t.Next(wanted[i]);
      Whole(turn);
      SumNext(turns, turn);
      SumNext(wanted[..i], wanted[i]);
      assert wanted[..i] + [wanted[i]] == wanted[..i + 1];
      AnglesAdd(Sum(turns) + before, Sum(wanted[..i]), turn + t.carry, wanted[i] + before, before);
      turns := turns + [turn];
      assert Sum(turns) + t.carry == Sum(turns[..i]) + before + (turn + t.carry) - before;
    }
    assert wanted[..|wanted|] == wanted;
    carry := t.carry;
  }

  lemma SumEmpty()
    ensures Sum([]) == 0 && SameAngle(0, 0)
  {
  }

  lemma SumNext(s: seq<int>, n: int)
    ensures Sum(s + [n]) == Sum(s) + n && (s + [n])[..|s|] == s
  {
    assert (s + [n])[..|s|] == s;
  }

  lemma Whole(n: int)
    requires n % 256 == 0
    ensures n / 256 * 256 == n
  {
  }

  lemma AnglesAdd(a: int, b: int, c: int, d: int, e: int)
    requires SameAngle(a, b) && SameAngle(c, d)
    ensures SameAngle(a + c - e, b + d - e)
  {
  }
}
