/** The opcodes and the interpreter loop of c4's virtual machine. */
module C4Machine {
  import opened Octets
  import opened C4Words
  import opened Wrappers
  import opened Transitions

  const LEA: word := 0
  const IMM: word := 1
  const JMP: word := 2
  const JSR: word := 3
  const BZ: word := 4
  const BNZ: word := 5
  const ENT: word := 6
  const ADJ: word := 7
  const LEV: word := 8
  const LI: word := 9
  const LC: word := 10
  const SI: word := 11
  const SC: word := 12
  const PSH: word := 13
  const OR: word := 14
  const XOR: word := 15
  const AND: word := 16
  const EQ: word := 17
  const NE: word := 18
  const LT: word := 19
  const GT: word := 20
  const LE: word := 21
  const GE: word := 22
  const SHL: word := 23
  const SHR: word := 24
  const ADD: word := 25
  const SUB: word := 26
  const MUL: word := 27
  const DIV: word := 28
  const MOD: word := 29
  const EXIT: word := 39

  type Code = seq<word>

  /** The virtual machine's registers and memory. Code addresses are indices into the text area. */
  datatype State = State(pc: int, sp: word, bp: word, a: word, mem: Mem)

  /** The result of a two-operand opcode: the popped word first, the accumulator second.
      A division that traps, or a shift by a count outside [0, 63], has no result. */
  function Alu(op: word, x: word, y: word): Option<word> {
    if op == OR then Some(Wrap(Bitwise(BitOr, x, y, 63)))
    else if op == XOR then Some(Wrap(Bitwise(BitXor, x, y, 63)))
    else if op == AND then Some(Wrap(Bitwise(BitAnd, x, y, 63)))
    else if op == EQ then Some(Truth(x == y))
    else if op == NE then Some(Truth(x != y))
    else if op == LT then Some(Truth(x < y))
    else if op == GT then Some(Truth(x > y))
    else if op == LE then Some(Truth(x <= y))
    else if op == GE then Some(Truth(x >= y))
    else if op == SHL then if 0 <= y < 64 then Some(Wrap(x * PowTwo(y))) else None
    else if op == SHR then if 0 <= y < 64 then Some(Wrap(x / PowTwo(y))) else None
    else if op == ADD then Some(Wrap(x + y))
    else if op == SUB then Some(Wrap(x - y))
    else if op == MUL then Some(Wrap(x * y))
    else if op == DIV then if y == 0 || (x == -TWO63 && y == -1) then None else Some(Wrap(Quotient(x, y)))
    else if op == MOD then if y == 0 || (x == -TWO63 && y == -1) then None else Some(Wrap(Remainder(x, y)))
    else None
  }

  predicate IsAlu(op: word) {
    OR <= op <= MOD
  }

  /** The load opcodes. */
  function Load(op: word, m: Mem, p: int): Option<word> {
    if op == LC then ReadChar(m, p) else ReadWord(m, p)
  }

  /** The bytes a store opcode writes. */
  function Width(op: word): nat {
    if op == SC then 1 else 8
  }

  function StoreTo(op: word, m: Mem, p: int, v: word): Mem {
    if op == SC then WriteChar(m, p, v) else WriteWord(m, p, v)
  }

  /** What a store leaves in the accumulator. */
  function Stored(op: word, v: word): word {
    if op == SC then SignedByte(v) else v
  }

  /** `*--sp = v` */
  function Push(s: State, v: word): Option<State> {
    if Mapped(s.mem, s.sp - W, 8) && s.sp - W >= -TWO63
    then Some(s.(sp := s.sp - W, mem := WriteWord(s.mem, s.sp - W, v)))
    else None
  }

  predicate Immediate(op: word) {
    LEA <= op <= ADJ
  }

  /** One turn of the interpreter loop; None when the machine faults. The library opcodes
      OPEN to EXIT, which call out of the machine, are not stepped. */
  function Step(code: Code, s: State): Option<State> {
    if !(0 <= s.pc < |code|) then None else
    var i := code[s.pc];
    if Immediate(i) then
      if s.pc + 1 < |code| then StepImmediate(i, code[s.pc + 1], s) else None
    else
      StepPlain(i, s.(pc := s.pc + 1))
  }

  /** Opcodes with an operand word `n`; `s.pc` is still at the opcode. */
  function StepImmediate(i: word, n: word, s: State): Option<State> {
    if i == LEA then Some(s.(pc := s.pc + 2, a := Wrap(s.bp + W * n)))
    else if i == IMM then Some(s.(pc := s.pc + 2, a := n))
    else if i == JMP then Some(s.(pc := n))
    else if i == JSR then
      match Push(s, Wrap(s.pc + 2))
      case None => None
      case Some(t) => Some(t.(pc := n))
    else if i == BZ then Some(s.(pc := if s.a != 0 then s.pc + 2 else n))
    else if i == BNZ then Some(s.(pc := if s.a != 0 then n else s.pc + 2))
    else if i == ENT then
      match Push(s, s.bp)
      case None => None
      case Some(t) => Some(t.(pc := s.pc + 2, bp := t.sp, sp := Wrap(t.sp - W * n)))
    else Some(s.(pc := s.pc + 2, sp := Wrap(s.sp + W * n)))
  }

  /** Opcodes without an operand; `s.pc` is already past the opcode. */
  function StepPlain(i: word, s: State): Option<State> {
    if i == LEV then
      match (ReadWord(s.mem, s.bp), ReadWord(s.mem, s.bp + W))
      case (Some(b), Some(r)) => Some(s.(sp := Wrap(s.bp + 2 * W), bp := b, pc := r))
      case _ => None
    else if i == LI || i == LC then
      match Load(i, s.mem, s.a)
      case None => None
      case Some(v) => Some(s.(a := v))
    else if i == SI || i == SC then
      match ReadWord(s.mem, s.sp)
      case None => None
      case Some(p) =>
        if Mapped(s.mem, p, Width(i))
        then Some(s.(sp := Wrap(s.sp + W), a := Stored(i, s.a), mem := StoreTo(i, s.mem, p, s.a)))
        else None
    else if i == PSH then Push(s, s.a)
    else if IsAlu(i) then
      match ReadWord(s.mem, s.sp)
      case None => None
      case Some(x) =>
        match Alu(i, x, s.a)
        case None => None
        case Some(v) => Some(s.(sp := Wrap(s.sp + W), a := v))
    else None
  }

  // ----- runs -----

  function Stepper(code: Code): State -> Option<State> {
    s => Step(code, s)
  }

  /** The machine goes from `s` to `t` in some number of steps. */
  ghost predicate Runs(code: Code, s: State, t: State) {
    Reach(Stepper(code), s, t)
  }

  lemma RunsStep(code: Code, s: State, t: State)
    requires Step(code, s) == Some(t)
    ensures Runs(code, s, t)
  {
    ReachStep(Stepper(code), s, t);
  }

  lemma RunsTrans(code: Code, s: State, t: State, u: State)
    requires Runs(code, s, t) && Runs(code, t, u)
    ensures Runs(code, s, u)
  {
    ReachTrans(Stepper(code), s, t, u);
  }
}
