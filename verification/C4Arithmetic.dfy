/** What the operators of c4 compute, told by number theory and by bits, without the machine's own
    arithmetic. */
module C4Arithmetic {
  import opened C4Words
  import opened C4Machine
  import opened C4Syntax
  import opened C4Semantics
  import opened Wrappers

  // ----- relations between numbers -----

  /** The word that agrees with an exact result up to multiples of 2^64. */
  predicate Wraps(r: word, exact: int) {
    (r - exact) % 0x1_0000_0000_0000_0000 == 0
  }

  /** 1 if it holds, 0 if not. */
  predicate Tells(r: word, holds: bool) {
    (holds ==> r == 1) && (!holds ==> r == 0)
  }

  /** Bit `i` of a number in two's complement. */
  predicate BitOf(x: int, i: nat) {
    x / PowTwo(i) % 2 == 1
  }

  /** Division towards zero: what is left over is smaller than the divisor and on the side of `x`. */
  predicate Divided(x: int, y: int, q: int, r: int) {
    && q * y + r == x
    && (if r < 0 then 0 - r else r) < (if y < 0 then 0 - y else y)
    && (r == 0 || (r < 0 <==> x < 0))
  }

  /** The result of `x op y`, for each binary operator by its token. */
  ghost predicate Means(op: int, x: word, y: word, r: word) {
    if op == TK_OR then forall i: nat :: i < 64 ==> (BitOf(r, i) <==> BitOf(x, i) || BitOf(y, i))
    else if op == TK_XOR then forall i: nat :: i < 64 ==> (BitOf(r, i) <==> BitOf(x, i) != BitOf(y, i))
    else if op == TK_AND then forall i: nat :: i < 64 ==> (BitOf(r, i) <==> BitOf(x, i) && BitOf(y, i))
    else if op == TK_EQ then Tells(r, x == y)
    else if op == TK_NE then Tells(r, x != y)
    else if op == TK_LT then Tells(r, x < y)
    else if op == TK_GT then Tells(r, x > y)
    else if op == TK_LE then Tells(r, x <= y)
    else if op == TK_GE then Tells(r, x >= y)
    else if op == TK_SHL then 0 <= y && Wraps(r, x * PowTwo(y))
    else if op == TK_SHR then 0 <= y && r * PowTwo(y) <= x < (r + 1) * PowTwo(y)
    else if op == TK_ADD then Wraps(r, x + y)
    else if op == TK_SUB then Wraps(r, x - y)
    else if op == TK_MUL then Wraps(r, x * y)
    else if op == TK_DIV then exists rest: int :: Divided(x, y, r, rest)
    else if op == TK_MOD then exists q: int :: Divided(x, y, q, r)
    else false
  }

  /** The operands without a result: division by zero, the quotient that does not fit a word, and
      shifts by a count that is no bit number. */
  predicate Traps(op: int, x: word, y: word) {
    if op == TK_DIV || op == TK_MOD then y == 0 || (x == -0x8000_0000_0000_0000 && y == -1)
    else (op == TK_SHL || op == TK_SHR) && !(0 <= y < 64)
  }

  // ----- bits -----

  lemma {:induction false} PowTwoSum(i: nat, j: nat)
    ensures PowTwo(i + j) == PowTwo(i) * PowTwo(j)
  {
    if i > 0 {
      PowTwoSum(i - 1, j);
    }
  }

  lemma HalfOf(x: int, i: nat)
    requires i > 0
    ensures x / PowTwo(i) == x / 2 / PowTwo(i - 1)
  {
    var p := PowTwo(i - 1);
    var q, r := Floor(x / 2, p);
    assert x == q * (2 * p) + (2 * r + x % 2) && 0 <= 2 * r + x % 2 < 2 * p;
    QuotientUnique(x, 2 * p, q, 2 * r + x % 2);
  }

  lemma AtLeastOnce(k: int, d: int)
    requires k >= 1 && d > 0
    ensures k * d >= d && k * d >= k
  {
    assert (k - 1) * d >= 0;
    assert k * (d - 1) >= 0;
  }

  /** There is one way to write a number as a multiple and a remainder. */
  lemma QuotientUnique(x: int, d: int, q: int, r: int)
    requires d > 0 && x == q * d + r && 0 <= r < d
    ensures x / d == q
  {
    var q', r' := Floor(x, d);
    assert (q' - q) * d == q' * d - q * d == r - r';
    if q < q' {
      AtLeastOnce(q' - q, d);
    } else if q > q' {
      assert (q - q') * d == r' - r;
      AtLeastOnce(q - q', d);
    }
  }

  lemma Floor(x: int, d: int) returns (q: int, r: int)
    requires d > 0
    ensures q == x / d && r == x % d && x == q * d + r && 0 <= r < d
  {
    q, r := x / d, x % d;
  }

  /** Bit 0 is the parity, and bit `i` is bit `i - 1` of the half. */
  lemma BitStep(x: int, i: nat)
    ensures i == 0 ==> (BitOf(x, i) <==> x % 2 == 1)
    ensures i > 0 ==> (BitOf(x, i) <==> BitOf(x / 2, i - 1))
  {
    if i > 0 {
      HalfOf(x, i);
    }
  }

  /** Past its highest bit a number repeats its sign. */
  lemma SignBits(x: int, n: nat, i: nat)
    requires -PowTwo(n) <= x < PowTwo(n) && i >= n
    ensures BitOf(x, i) <==> x < 0
  {
    PowTwoMono(n, i);
    var p := PowTwo(i);
    if x < 0 {
      QuotientUnique(x, p, -1, x + p);
    } else {
      QuotientUnique(x, p, 0, x);
    }
  }

  lemma {:induction false} PowTwoMono(n: nat, i: nat)
    requires n <= i
    ensures PowTwo(n) <= PowTwo(i)
  {
    if n < i {
      PowTwoMono(n, i - 1);
    }
  }

  lemma {:induction false} HalfRange(x: int, n: nat)
    requires n > 0 && -PowTwo(n) <= x < PowTwo(n)
    ensures -PowTwo(n - 1) <= x / 2 < PowTwo(n - 1)
  {
  }

  lemma {:induction false} BitwiseBits(kind: BitKind, x: int, y: int, n: nat, i: nat)
    requires -PowTwo(n) <= x < PowTwo(n) && -PowTwo(n) <= y < PowTwo(n)
    ensures BitOf(Bitwise(kind, x, y, n), i) <==> Bit(kind, BitOf(x, i), BitOf(y, i))
    decreases n
  {
    var r := Bitwise(kind, x, y, n);
    if n == 0 {
      SignBits(x, 0, i);
      SignBits(y, 0, i);
      SignBits(r, 0, i);
    } else {
      BitStep(x, i);
      BitStep(y, i);
      BitStep(r, i);
      var half := Bitwise(kind, x / 2, y / 2, n - 1);
      assert r / 2 == half && (r % 2 == 1 <==> Bit(kind, x % 2 == 1, y % 2 == 1));
      if i > 0 {
        HalfRange(x, n);
        HalfRange(y, n);
        BitwiseBits(kind, x / 2, y / 2, n - 1, i - 1);
      }
    }
  }

  lemma WordRange(x: word)
    ensures PowTwo(63) == 0x8000_0000_0000_0000 && -PowTwo(63) <= x < PowTwo(63)
  {
    PowTwoSum(31, 32);
    PowTwoSum(15, 16);
    PowTwoSum(16, 16);
    PowTwoSum(8, 8);
    PowTwoSum(7, 8);
    assert PowTwo(4) == 16;
    PowTwoSum(4, 4);
    PowTwoSum(3, 4);
    assert PowTwo(3) == 8;
  }

  lemma BitsMean(op: int, x: word, y: word)
    requires op == TK_OR || op == TK_XOR || op == TK_AND
    ensures Alu(OpCode(op), x, y).Some? && Means(op, x, y, Alu(OpCode(op), x, y).value)
  {
    hide BitOf, Bitwise, PowTwo;
    var kind := if op == TK_OR then BitOr else if op == TK_XOR then BitXor else BitAnd;
    WordRange(x);
    WordRange(y);
    var r := Bitwise(kind, x, y, 63);
    assert Alu(OpCode(op), x, y) == Some(Wrap(r)) && Wrap(r) == r;
    forall i: nat | i < 64 ensures BitOf(r, i) <==> Bit(kind, BitOf(x, i), BitOf(y, i)) {
      BitwiseBits(kind, x, y, 63, i);
    }
  }

  // ----- division and shifts -----

  lemma QuotientDivides(x: int, y: int)
    requires y != 0
    ensures Divided(x, y, Quotient(x, y), x - y * Quotient(x, y))
  {
    var ax, ay := if x < 0 then -x else x, if y < 0 then -y else y;
    var q, r := ax / ay, ax % ay;
    assert ax == q * ay + r && 0 <= r < ay;
    if (x < 0) == (y < 0) {
      assert q * y == if y < 0 then -(q * ay) else q * ay;
    } else {
      assert (-q) * y == if y < 0 then q * ay else -(q * ay);
    }
  }

  lemma QuotientFits(x: word, y: word)
    requires y != 0 && !(x == -0x8000_0000_0000_0000 && y == -1)
    ensures -0x8000_0000_0000_0000 <= Quotient(x, y) < 0x8000_0000_0000_0000
    ensures -0x8000_0000_0000_0000 <= Remainder(x, y) < 0x8000_0000_0000_0000
  {
    QuotientDivides(x, y);
    var ax: nat, ay: nat := if x < 0 then 0 - x else x, if y < 0 then 0 - y else y;
    QuotientSmall(ax, ay);
  }

  lemma QuotientSmall(a: nat, b: nat)
    requires b > 0
    ensures 0 <= a / b <= a && (b >= 2 ==> 2 * (a / b) <= a)
  {
    var q, r := Floor(a, b);
    assert q >= 0;
    TimesAtLeast(q, b);
  }

  lemma TimesAtLeast(q: nat, b: nat)
    requires b > 0
    ensures q * b >= q && (b >= 2 ==> q * b >= 2 * q)
  {
    assert q * b == q + q * (b - 1);
    if b >= 2 {
      assert q * b == q + q + q * (b - 2);
    }
  }

  lemma DivisionMeans(op: int, x: word, y: word)
    requires op == TK_DIV || op == TK_MOD
    ensures Alu(OpCode(op), x, y).None? <==> Traps(op, x, y)
    ensures !Traps(op, x, y) ==> Means(op, x, y, Alu(OpCode(op), x, y).value)
  {
    hide Quotient;
    if !Traps(op, x, y) {
      QuotientDivides(x, y);
      QuotientFits(x, y);
      assert Divided(x, y, Quotient(x, y), Remainder(x, y));
    }
  }

  lemma ShiftMeans(op: int, x: word, y: word)
    requires op == TK_SHL || op == TK_SHR
    ensures Alu(OpCode(op), x, y).None? <==> Traps(op, x, y)
    ensures !Traps(op, x, y) ==> Means(op, x, y, Alu(OpCode(op), x, y).value)
  {
    hide PowTwo;
    if 0 <= y < 64 {
      var p := PowTwo(y);
      var q := x / p;
      assert x == q * p + x % p && 0 <= x % p < p;
      assert (q + 1) * p == q * p + p;
      FloorSmall(x, p);
    }
  }

  lemma FloorSmall(x: word, p: int)
    requires p > 0
    ensures -0x8000_0000_0000_0000 <= x / p < 0x8000_0000_0000_0000
  {
    var q, r := Floor(x, p);
    if q >= 1 {
      AtLeastOnce(q, p);
    } else if q <= -2 {
      assert q * p == -((-q - 1) * p) - p;
      AtLeastOnce(-q - 1, p);
    }
  }

  lemma PlainMeans(op: int, x: word, y: word)
    requires op in {TK_EQ, TK_NE, TK_LT, TK_GT, TK_LE, TK_GE, TK_ADD, TK_SUB, TK_MUL}
    ensures Alu(OpCode(op), x, y).Some? && Means(op, x, y, Alu(OpCode(op), x, y).value)
  {
  }

  // ----- operators and opcodes -----

  /** Every binary operator computes what it means, and has no result exactly when it traps. */
  lemma OperatorMeans(op: int, x: word, y: word, m: Mem)
    requires IsBinary(op)
    ensures AluRes(OpCode(op), x, y, m).Stuck? <==> Traps(op, x, y)
    ensures !Traps(op, x, y) ==>
      var r := AluRes(OpCode(op), x, y, m);
      r.m == m && Means(op, x, y, r.v)
  {
    hide Alu, Means, OpCode;
    if op == TK_OR || op == TK_XOR || op == TK_AND {
      BitsMean(op, x, y);
    } else if op == TK_DIV || op == TK_MOD {
      DivisionMeans(op, x, y);
    } else if op == TK_SHL || op == TK_SHR {
      ShiftMeans(op, x, y);
    } else {
      PlainMeans(op, x, y);
    }
  }

  /** The operator an opcode is for. */
  function ByOpcode(i: word): int {
    if i == OR then TK_OR else if i == XOR then TK_XOR else if i == AND then TK_AND
    else if i == EQ then TK_EQ else if i == NE then TK_NE
    else if i == LT then TK_LT else if i == GT then TK_GT else if i == LE then TK_LE else if i == GE then TK_GE
    else if i == SHL then TK_SHL else if i == SHR then TK_SHR
    else if i == ADD then TK_ADD else if i == SUB then TK_SUB
    else if i == MUL then TK_MUL else if i == DIV then TK_DIV else TK_MOD
  }

  /** An arithmetic opcode pops the left operand, takes the right one from the accumulator, leaves the
      result there, and changes nothing else; it faults on operands without a result. */
  lemma StepComputes(code: Code, s: State)
    requires 0 <= s.pc < |code| && OR <= code[s.pc] <= MOD
    ensures ReadWord(s.mem, s.sp).None? ==> Step(code, s).None?
    ensures ReadWord(s.mem, s.sp).Some? ==>
      var op, x := ByOpcode(code[s.pc]), ReadWord(s.mem, s.sp).value;
      && (Step(code, s).None? <==> Traps(op, x, s.a))
      && (Step(code, s).Some? ==>
           var t := Step(code, s).value;
           Means(op, x, s.a, t.a) && t == s.(pc := s.pc + 1, sp := Wrap(s.sp + 8), a := t.a))
  {
    hide Alu, Means, Traps, ReadWord, Wrap;
    var op := ByOpcode(code[s.pc]);
    assert OpCode(op) == code[s.pc];
    if ReadWord(s.mem, s.sp).Some? {
      OperatorMeans(op, ReadWord(s.mem, s.sp).value, s.a, s.mem);
    }
  }
}
