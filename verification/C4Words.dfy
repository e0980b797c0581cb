/** Machine words, byte-addressed memory and the arithmetic of c4's virtual machine. */
module C4Words {
  import opened Octets
  import opened Wrappers

  const TWO63: int := 0x8000_0000_0000_0000
  const TWO64: int := 0x1_0000_0000_0000_0000

  /** `intptr_t` on a 64-bit target. */
  type word = x: int | -0x8000_0000_0000_0000 <= x < 0x8000_0000_0000_0000

  /** Memory is a partial map from byte addresses: an unmapped address faults. */
  type Mem = map<int, byte>

  /** sizeof(intptr_t) */
  const W: int := 8

  function Wrap(x: int): (r: word)
    ensures -TWO63 <= x < TWO63 ==> r == x
    ensures (r - x) % TWO64 == 0
  {
    (x + TWO63) % TWO64 - TWO63
  }

  // ----- words as little-endian bytes -----

  function Pow256(n: nat): (r: int)
    ensures r > 0
  {
    if n == 0 then 1 else 256 * Pow256(n - 1)
  }

  function Bytes(u: int, n: nat): (bs: seq<byte>)
    requires u >= 0
    ensures |bs| == n
  {
    if n == 0 then [] else [u % 256] + Bytes(u / 256, n - 1)
  }

  function Value(bs: seq<byte>): (u: int)
    ensures u >= 0
  {
    if bs == [] then 0 else bs[0] + 256 * Value(bs[1..])
  }

  lemma {:induction false} ValueOfBytes(u: int, n: nat)
    requires 0 <= u < Pow256(n)
    ensures Value(Bytes(u, n)) == u
  {
    if n > 0 {
      assert u / 256 < Pow256(n - 1);
      ValueOfBytes(u / 256, n - 1);
      assert Bytes(u, n)[1..] == Bytes(u / 256, n - 1);
    }
  }

  function Encode(w: word): (bs: seq<byte>)
    ensures |bs| == 8
  {
    Bytes(if w < 0 then w + TWO64 else w, 8)
  }

  function Decode(bs: seq<byte>): word {
    Wrap(Value(bs))
  }

  /** The numbers of eight bytes are those below 2^64. */
  lemma EightBytes()
    ensures Pow256(8) == TWO64
  {
    assert Pow256(1) == 256;
    assert Pow256(2) == 0x1_0000;
    assert Pow256(3) == 0x100_0000;
    assert Pow256(4) == 0x1_0000_0000;
    assert Pow256(5) == 0x100_0000_0000;
    assert Pow256(6) == 0x1_0000_0000_0000;
    assert Pow256(7) == 0x100_0000_0000_0000;
  }

  lemma DecodeEncode(w: word)
    ensures Decode(Encode(w)) == w
  {
    EightBytes();
    ValueOfBytes(if w < 0 then w + TWO64 else w, 8);
  }

  /** Eight bytes as a number, the lowest first. */
  function Positional(bs: seq<int>): int
    requires |bs| == 8
  {
    bs[0] + 0x100 * bs[1] + 0x1_0000 * bs[2] + 0x100_0000 * bs[3] + 0x1_0000_0000 * bs[4]
    + 0x100_0000_0000 * bs[5] + 0x1_0000_0000_0000 * bs[6] + 0x100_0000_0000_0000 * bs[7]
  }

  lemma ValueIsPositional(bs: seq<byte>)
    requires |bs| == 8
    ensures Value(bs) == Positional(bs)
  {
    assert bs == bs[0..];
    ValueFrom(bs, 0);
    ValueFrom(bs, 1);
    ValueFrom(bs, 2);
    ValueFrom(bs, 3);
    ValueFrom(bs, 4);
    ValueFrom(bs, 5);
    ValueFrom(bs, 6);
    ValueFrom(bs, 7);
  }

  lemma ValueFrom(bs: seq<byte>, k: nat)
    requires k < |bs|
    ensures Value(bs[k..]) == bs[k] + 256 * Value(bs[k + 1..])
    ensures k + 1 == |bs| ==> Value(bs[k + 1..]) == 0
  {
    assert bs[k..][1..] == bs[k + 1..];
  }

  /** A word is stored lowest byte first, in two's complement, and read back the same way. */
  lemma LittleEndian(w: word, bs: seq<byte>)
    requires |bs| == 8
    ensures (Positional(Encode(w)) - w) % TWO64 == 0
    ensures (Positional(bs) - Decode(bs)) % TWO64 == 0
  {
    EightBytes();
    var u := if w < 0 then w + TWO64 else w;
    ValueOfBytes(u, 8);
    ValueIsPositional(Encode(w));
    ValueIsPositional(bs);
    assert (Decode(bs) - Value(bs)) % TWO64 == 0;
  }

  // ----- memory -----

  predicate Mapped(m: Mem, p: int, n: nat) {
    forall k :: p <= k < p + n ==> k in m
  }

  function ReadWord(m: Mem, p: int): Option<word> {
    if Mapped(m, p, 8)
    then Some(Decode([m[p], m[p + 1], m[p + 2], m[p + 3], m[p + 4], m[p + 5], m[p + 6], m[p + 7]]))
    else None
  }

  function ReadChar(m: Mem, p: int): Option<word> {
    if p in m then Some(SignedByte(m[p])) else None
  }

  function Range(lo: int, hi: int): (s: set<int>)
    ensures forall k :: k in s <==> lo <= k < hi
    decreases hi - lo
  {
    if lo >= hi then {} else {lo} + Range(lo + 1, hi)
  }

  /** The addresses of the word at `p`. */
  function Span(p: int): (s: set<int>)
    ensures forall k :: k in s <==> p <= k < p + 8
  {
    Range(p, p + 8)
  }

  function WriteWord(m: Mem, p: int, w: word): (m': Mem)
    ensures m'.Keys == m.Keys + Span(p)
    ensures forall k :: k in m && !(p <= k < p + 8) ==> m'[k] == m[k]
  {
    m + (map k | k in Span(p) :: Encode(w)[k - p])
  }

  function WriteChar(m: Mem, p: int, w: word): Mem {
    m[p := w % 256]
  }

  /** Two memories hold the same bytes on [p, p+n). */
  ghost predicate SameAt(m: Mem, m': Mem, p: int, n: nat) {
    forall k :: p <= k < p + n ==> (k in m <==> k in m') && (k in m ==> m[k] == m'[k])
  }

  /** The bytes at `p` are those of `w`. */
  ghost predicate HoldsWord(m: Mem, p: int, w: word) {
    forall k :: k in Span(p) ==> k in m && m[k] == Encode(w)[k - p]
  }

  lemma ReadWritten(m: Mem, p: int, w: word)
    ensures ReadWord(WriteWord(m, p, w), p) == Some(w)
    ensures HoldsWord(WriteWord(m, p, w), p, w)
  {
    hide Encode, Decode;
    var m' := WriteWord(m, p, w);
    var e := Encode(w);
    assert forall k :: 0 <= k < 8 ==> p + k in Span(p) && m'[p + k] == e[k];
    assert [m'[p], m'[p + 1], m'[p + 2], m'[p + 3], m'[p + 4], m'[p + 5], m'[p + 6], m'[p + 7]] == e by {
      assert m'[p + 0] == e[0];
    }
    DecodeEncode(w);
  }

  lemma ReadSame(m: Mem, m': Mem, p: int)
    requires SameAt(m, m', p, 8)
    ensures ReadWord(m, p) == ReadWord(m', p)
  {
    if Mapped(m, p, 8) {
      assert Mapped(m', p, 8);
      assert [m[p], m[p + 1], m[p + 2], m[p + 3], m[p + 4], m[p + 5], m[p + 6], m[p + 7]]
          == [m'[p], m'[p + 1], m'[p + 2], m'[p + 3], m'[p + 4], m'[p + 5], m'[p + 6], m'[p + 7]];
    } else {
      assert !Mapped(m', p, 8);
    }
  }

  // ----- arithmetic -----

  /** Bitwise operation on two's complement numbers, computed on the low `n` bits and the sign. */
  datatype BitKind = BitOr | BitXor | BitAnd

  function Bit(kind: BitKind, x: bool, y: bool): bool {
    match kind
    case BitOr => x || y
    case BitXor => x != y
    case BitAnd => x && y
  }

  function Bitwise(kind: BitKind, x: int, y: int, n: nat): (r: int)
    ensures -PowTwo(n) <= r < PowTwo(n)
    decreases n
  {
    if n == 0 then (if Bit(kind, x < 0, y < 0) then -1 else 0)
    else (if Bit(kind, x % 2 == 1, y % 2 == 1) then 1 else 0) + 2 * Bitwise(kind, x / 2, y / 2, n - 1)
  }

  function PowTwo(n: nat): (r: int)
    ensures r > 0
  {
    if n == 0 then 1 else 2 * PowTwo(n - 1)
  }

  /** C division truncates toward zero. */
  function Quotient(x: int, y: int): int
    requires y != 0
  {
    var ax, ay := if x < 0 then -x else x, if y < 0 then -y else y;
    if (x < 0) == (y < 0) then ax / ay else -(ax / ay)
  }

  function Remainder(x: int, y: int): int
    requires y != 0
  {
    x - y * Quotient(x, y)
  }

  function Truth(b: bool): word {
    if b then 1 else 0
  }
}
