/** The interpreter loop of `main`, updating its registers and memory in place. */
module C4Vm {
  import opened C4Words
  import opened C4Machine
  import opened Transitions

  class Vm {
    const code: Code
    var pc: int
    var sp: word
    var bp: word
    var a: word
    var mem: Mem

    constructor (code: Code, s: State)
      ensures this.code == code && Registers() == s
    {
      this.code := code;
      pc, sp, bp, a, mem := s.pc, s.sp, s.bp, s.a, s.mem;
    }

    function Registers(): State
      reads this
    {
      State(pc, sp, bp, a, mem)
    }

    /** `*--sp = v` */
    method PushWord(v: word) returns (ok: bool)
      modifies this
      ensures ok == Push(old(Registers()), v).Some?
      ensures Registers() == if ok then Push(old(Registers()), v).value else old(Registers())
    {
      ok := sp - W >= -TWO63 && Mapped(mem, sp - W, 8);
      if ok {
        sp := sp - W;
        mem := WriteWord(mem, sp, v);
      }
    }

    /** One turn of the loop: fetch, and act on the opcode. False when the machine faults. */
    method Cycle() returns (ok: bool)
      modifies this
      ensures ok == Step(code, old(Registers())).Some?
      ensures ok ==> Registers() == Step(code, old(Registers())).value
    {
      hide StepImmediate, StepPlain;
      if !(0 <= pc < |code|) { return false; }
      var i := code[pc];
      if Immediate(i) {
        if pc + 1 >= |code| { return false; }
        ok := CycleImmediate(i, code[pc + 1]);
      } else {
        pc := pc + 1;
        ok := CyclePlain(i);
      }
    }

    /** Opcodes with an operand; `pc` is still at the opcode. */
    method CycleImmediate(i: word, n: word) returns (ok: bool)
      requires Immediate(i)
      modifies this
      ensures ok == StepImmediate(i, n, old(Registers())).Some?
      ensures ok ==> Registers() == StepImmediate(i, n, old(Registers())).value
    {
      hide Wrap, ReadWord, WriteWord, Mapped;
      ok := true;
      if i == LEA { a := Wrap(bp + W * n); pc := pc + 2; }
      else if i == IMM { a := n; pc := pc + 2; }
      else if i == JMP { pc := n; }
      else if i == JSR {
        ok := PushWord(Wrap(pc + 2));
        pc := n;
      }
      else if i == BZ { pc := if a != 0 then pc + 2 else n; }
      else if i == BNZ { pc := if a != 0 then n else pc + 2; }
      else if i == ENT {
        ok := PushWord(bp);
        ghost var t := Registers();
        bp := sp;
        sp := Wrap(sp - W * n);
        pc := pc + 2;
        assert Registers() == t.(pc := t.pc + 2, bp := t.sp, sp := Wrap(t.sp - W * n));
      }
      else { sp := Wrap(sp + W * n); pc := pc + 2; }
    }

    /** Opcodes without an operand; `pc` is already past the opcode. */
    method CyclePlain(i: word) returns (ok: bool)
      modifies this
      ensures ok == StepPlain(i, old(Registers())).Some?
      ensures ok ==> Registers() == StepPlain(i, old(Registers())).value
    {
      hide ReadWord, WriteWord, Alu, Mapped;
      if i == LEV {
        var b, r := ReadWord(mem, bp), ReadWord(mem, bp + W);
        if b.None? || r.None? { return false; }
        sp := Wrap(bp + 2 * W);
        bp := b.value;
        pc := r.value;
      } else if i == LI || i == LC {
        var v := Load(i, mem, a);
        if v.None? { return false; }
        a := v.value;
      } else if i == SI || i == SC {
        var p := ReadWord(mem, sp);
        if p.None? || !Mapped(mem, p.value, Width(i)) { return false; }
        sp := Wrap(sp + W);
        mem := StoreTo(i, mem, p.value, a);
        a := Stored(i, a);
      } else if i == PSH {
        ok := PushWord(a);
        return;
      } else if IsAlu(i) {
        var x := ReadWord(mem, sp);
        if x.None? { return false; }
        var v := Alu(i, x.value, a);
        if v.None? { return false; }
        sp := Wrap(sp + W);
        a := v.value;
      } else {
        return false;
      }
      ok := true;
    }

    /** `n` turns of the loop. */
    method Run(n: nat) returns (ok: bool)
      modifies this
      ensures ok == Iterate(Stepper(code), old(Registers()), n).Some?
      ensures ok ==> Registers() == Iterate(Stepper(code), old(Registers()), n).value
    {
      hide Step;
      ghost var all := Iterate(Stepper(code), Registers(), n);
      var cycle := 0;
      while cycle < n
        invariant cycle <= n
        invariant Iterate(Stepper(code), Registers(), n - cycle) == all
      {
        ghost var s := Registers();
        assert Stepper(code)(s) == Step(code, s);
        ok := Cycle();
        if !ok { return; }
        cycle := cycle + 1;
      }
      ok := true;
    }
  }
}
