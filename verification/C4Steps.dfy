/** How single instructions act on a machine state that represents a source-level state. */
module C4Steps {
  import opened C4Words
  import opened C4Machine
  import opened C4Semantics
  import opened Transitions
  import opened Wrappers

  /** The machine state `s` represents the frame `c` with source memory `m`: everything below the
      stack pointer is scratch, and what the source owns is stored as the source sees it. */
  ghost predicate Rel(c: Ctx, m: Mem, s: State) {
    && s.bp == c.bp
    && s.sp == c.sp
    && -TWO63 <= c.lo <= c.sp
    && (forall k :: c.lo <= k < c.sp ==> k in s.mem && k !in c.own)
    && (forall k :: k in c.own ==> k in s.mem)
    && (forall k :: k in m ==> k in c.own && k in s.mem && s.mem[k] == m[k])
  }

  /** Nothing outside the owned addresses and the scratch area changed. */
  ghost predicate Kept(c: Ctx, before: Mem, after: Mem) {
    && before.Keys == after.Keys
    && forall k :: k in before && k !in c.own && !(c.lo <= k < c.sp) ==> after[k] == before[k]
  }

  /** The machine goes from `s` to `t` touching only the frame `c`. */
  ghost predicate Seg(code: Code, c: Ctx, s: State, t: State) {
    Runs(code, s, t) && Kept(c, s.mem, t.mem)
  }

  /** From `s` the machine reaches `t` at `pc`, with value `v` and source memory `m`. */
  ghost predicate Goes(code: Code, c: Ctx, s: State, t: State, pc: int, v: word, m: Mem) {
    Seg(code, c, s, t) && t.pc == pc && t.a == v && Rel(c, m, t)
  }

  lemma KeptRefl(c: Ctx, mem: Mem)
    ensures Kept(c, mem, mem)
  {
  }

  lemma SegTrans(code: Code, c: Ctx, s: State, t: State, u: State)
    requires Seg(code, c, s, t) && Seg(code, c, t, u)
    ensures Seg(code, c, s, u)
  {
    ReachTrans(Stepper(code), s, t, u);
  }

  /** What stays within the frame below a pushed word stays within the frame. */
  lemma SegUp(code: Code, c: Ctx, n: nat, s: State, t: State)
    requires Room(c, n) && Seg(code, Down(c, n), s, t)
    ensures Seg(code, c, s, t)
  {
  }

  /** The word just below `c`'s stack pointer is pushed, hidden from the source, and holds `x`. */
  ghost predicate Slot(c: Ctx, mem: Mem, x: word) {
    && Room(c, 1)
    && (forall k :: c.sp - W <= k < c.sp ==> k in mem && k !in c.own)
    && HoldsWord(mem, c.sp - W, x)
    && ReadWord(mem, c.sp - W) == Some(x)
  }

  lemma SlotKept(c: Ctx, mem: Mem, x: word, mem': Mem)
    requires Slot(c, mem, x) && Kept(Down(c, 1), mem, mem')
    ensures Slot(c, mem', x)
  {
    assert SameAt(mem, mem', c.sp - W, 8);
    ReadSame(mem, mem', c.sp - W);
  }

  // ----- code fragments -----

  ghost predicate At(code: Code, k: int, f: Code) {
    0 <= k && k + |f| <= |code| < TWO63 && code[k..k + |f|] == f
  }

  lemma AtSplit(code: Code, k: int, f: Code, g: Code)
    requires At(code, k, f + g)
    ensures At(code, k, f) && At(code, k + |f|, g)
  {
    assert code[k..k + |f|] == (f + g)[..|f|] == f;
    assert code[k + |f|..k + |f| + |g|] == (f + g)[|f|..] == g;
  }

  lemma AtBound(code: Code, k: int, f: Code)
    requires At(code, k, f)
    ensures 0 <= k && k + |f| <= |code| < TWO63
  {
  }

  lemma AtWord(code: Code, k: int, f: Code, i: nat)
    requires At(code, k, f) && i < |f|
    ensures 0 <= k + i < |code| && code[k + i] == f[i]
  {
    assert code[k..k + |f|][i] == f[i];
  }

  // ----- single steps -----

  lemma StepImm(code: Code, c: Ctx, m: Mem, s: State, n: word) returns (t: State)
    requires At(code, s.pc, [IMM, n]) && Rel(c, m, s)
    ensures Goes(code, c, s, t, s.pc + 2, n, m) && t.mem == s.mem
  {
    AtWord(code, s.pc, [IMM, n], 0);
    AtWord(code, s.pc, [IMM, n], 1);
    t := s.(pc := s.pc + 2, a := n);
    RunsStep(code, s, t);
  }

  lemma StepLea(code: Code, c: Ctx, m: Mem, s: State, n: word) returns (t: State)
    requires At(code, s.pc, [LEA, n]) && Rel(c, m, s)
    ensures Goes(code, c, s, t, s.pc + 2, Wrap(c.bp + W * n), m)
  {
    AtWord(code, s.pc, [LEA, n], 0);
    AtWord(code, s.pc, [LEA, n], 1);
    t := s.(pc := s.pc + 2, a := Wrap(s.bp + W * n));
    RunsStep(code, s, t);
  }

  lemma StepJmp(code: Code, c: Ctx, m: Mem, s: State, n: word) returns (t: State)
    requires At(code, s.pc, [JMP, n]) && Rel(c, m, s)
    ensures Goes(code, c, s, t, n, s.a, m)
  {
    AtWord(code, s.pc, [JMP, n], 0);
    AtWord(code, s.pc, [JMP, n], 1);
    t := s.(pc := n);
    RunsStep(code, s, t);
  }

  lemma StepBranch(code: Code, c: Ctx, m: Mem, s: State, op: word, n: word) returns (t: State)
    requires At(code, s.pc, [op, n]) && Rel(c, m, s) && op in {BZ, BNZ}
    ensures Goes(code, c, s, t, if (s.a != 0) == (op == BNZ) then n else s.pc + 2, s.a, m)
  {
    AtWord(code, s.pc, [op, n], 0);
    AtWord(code, s.pc, [op, n], 1);
    t := s.(pc := if (s.a != 0) == (op == BNZ) then n else s.pc + 2);
    RunsStep(code, s, t);
  }

  lemma LoadMono(op: word, m: Mem, mem: Mem, p: int)
    requires forall k :: k in m ==> k in mem && mem[k] == m[k]
    requires Load(op, m, p).Some?
    ensures Load(op, mem, p) == Load(op, m, p)
  {
    if op != LC {
      assert Mapped(mem, p, 8);
    }
  }

  lemma StepLoad(code: Code, c: Ctx, m: Mem, s: State, op: word) returns (t: State)
    requires At(code, s.pc, [op]) && Rel(c, m, s) && op in {LI, LC}
    requires LoadRes(op, m, s.a).Val?
    ensures Goes(code, c, s, t, s.pc + 1, LoadRes(op, m, s.a).v, m)
  {
    AtWord(code, s.pc, [op], 0);
    LoadMono(op, m, s.mem, s.a);
    t := s.(pc := s.pc + 1, a := LoadRes(op, m, s.a).v);
    RunsStep(code, s, t);
  }

  lemma ScratchWrite(c: Ctx, m: Mem, s: State, v: word, t: State)
    requires Rel(c, m, s) && Room(c, 1)
    requires t.bp == s.bp && t.sp == s.sp - W && t.mem == WriteWord(s.mem, s.sp - W, v)
    ensures t.mem.Keys == s.mem.Keys
    ensures Rel(Down(c, 1), m, t) && Kept(c, s.mem, t.mem)
  {
    assert forall k :: k in Span(s.sp - W) ==> k in s.mem;
    assert t.mem.Keys == s.mem.Keys;
  }

  lemma PushSlot(c: Ctx, m: Mem, s: State, v: word)
    requires Rel(c, m, s) && Room(c, 1)
    ensures Slot(c, WriteWord(s.mem, s.sp - W, v), v)
  {
    hide Encode, Decode;
    ReadWritten(s.mem, s.sp - W, v);
  }

  /** A write in the scratch area does not touch what the source sees. */
  lemma PushMem(c: Ctx, m: Mem, s: State, v: word) returns (t: State)
    requires Rel(c, m, s) && Room(c, 1)
    ensures t == s.(sp := s.sp - W, mem := WriteWord(s.mem, s.sp - W, v))
    ensures Push(s, v) == Some(t)
    ensures Rel(Down(c, 1), m, t)
    ensures Kept(c, s.mem, t.mem)
    ensures Slot(c, t.mem, v)
  {
    hide WriteWord, Slot, Kept;
    t := s.(sp := s.sp - W, mem := WriteWord(s.mem, s.sp - W, v));
    ScratchWrite(c, m, s, v, t);
    PushSlot(c, m, s, v);
    assert Mapped(s.mem, s.sp - W, 8);
  }

  lemma StepPush(code: Code, c: Ctx, m: Mem, s: State) returns (t: State)
    requires At(code, s.pc, [PSH]) && Rel(c, m, s) && Room(c, 1)
    ensures Seg(code, c, s, t) && t.pc == s.pc + 1 && t.a == s.a
    ensures Rel(Down(c, 1), m, t) && Slot(c, t.mem, s.a)
  {
    hide Kept, Slot, WriteWord, ReadWord;
    AtWord(code, s.pc, [PSH], 0);
    t := PushMem(c, m, s.(pc := s.pc + 1), s.a);
    RunsStep(code, s, t);
  }

  lemma PopRel(c: Ctx, m: Mem, s: State, x: word, t: State)
    requires Slot(c, s.mem, x) && Rel(Down(c, 1), m, s)
    requires t.bp == s.bp && t.sp == c.sp && t.mem == s.mem
    ensures s.sp == c.sp - W && Rel(c, m, t)
  {
  }

  lemma StepAlu(code: Code, c: Ctx, m: Mem, s: State, op: word, x: word) returns (t: State)
    requires At(code, s.pc, [op]) && IsAlu(op)
    requires Slot(c, s.mem, x) && Rel(Down(c, 1), m, s)
    requires Alu(op, x, s.a).Some?
    ensures Goes(code, c, s, t, s.pc + 1, Alu(op, x, s.a).value, m) && t.mem == s.mem
  {
    hide Alu, WriteWord, Rel, Kept;
    AtWord(code, s.pc, [op], 0);
    t := s.(pc := s.pc + 1, sp := c.sp, a := Alu(op, x, s.a).value);
    PopRel(c, m, s, x, t);
    KeptRefl(c, s.mem);
    assert StepPlain(op, s.(pc := s.pc + 1)) == Some(t);
    RunsStep(code, s, t);
  }

  lemma StoreRel(op: word, c: Ctx, m: Mem, s: State, p: word, v: word, t: State)
    requires op in {SI, SC} && Rel(c, m, s) && StoreRes(op, c.own, m, p, v).Val?
    requires t == s.(mem := StoreTo(op, s.mem, p, v))
    ensures Mapped(s.mem, p, Width(op))
    ensures Rel(c, StoreTo(op, m, p, v), t)
    ensures Kept(c, s.mem, t.mem)
  {
    assert forall k :: k in Range(p, p + Width(op)) ==> k in c.own;
    assert t.mem.Keys == s.mem.Keys;
  }

  lemma StepStore(code: Code, c: Ctx, m: Mem, s: State, op: word, p: word) returns (t: State)
    requires At(code, s.pc, [op]) && op in {SI, SC}
    requires Slot(c, s.mem, p) && Rel(Down(c, 1), m, s)
    requires StoreRes(op, c.own, m, p, s.a).Val?
    ensures Goes(code, c, s, t, s.pc + 1, Stored(op, s.a), StoreTo(op, m, p, s.a))
  {
    AtWord(code, s.pc, [op], 0);
    var u := s.(pc := s.pc + 1, sp := c.sp, a := Stored(op, s.a));
    PopRel(c, m, s, p, u);
    t := u.(mem := StoreTo(op, s.mem, p, s.a));
    StoreRel(op, c, m, u, p, s.a, t);
    StorePlain(c, s, op, p, t);
    RunsStep(code, s, t);
  }

  lemma StorePlain(c: Ctx, s: State, op: word, p: word, t: State)
    requires op in {SI, SC} && Slot(c, s.mem, p) && s.sp == c.sp - W
    requires Mapped(s.mem, p, Width(op))
    requires t == s.(pc := s.pc + 1, sp := c.sp, a := Stored(op, s.a), mem := StoreTo(op, s.mem, p, s.a))
    ensures StepPlain(op, s.(pc := s.pc + 1)) == Some(t)
  {
  }

  // ----- PSH; IMM n; op -----

  lemma StepAluImm(code: Code, c: Ctx, m: Mem, s: State, op: word, n: word) returns (t: State)
    requires At(code, s.pc, [PSH, IMM, n, op]) && IsAlu(op)
    requires Rel(c, m, s) && Room(c, 1) && Alu(op, s.a, n).Some?
    ensures Goes(code, c, s, t, s.pc + 4, Alu(op, s.a, n).value, m)
  {
    hide Rel, Kept, Slot, Runs, At, Alu;
    assert [PSH, IMM, n, op] == [PSH] + ([IMM, n] + [op]);
    AtSplit(code, s.pc, [PSH], [IMM, n] + [op]);
    AtSplit(code, s.pc + 1, [IMM, n], [op]);
    var s1 := StepPush(code, c, m, s);
    var s2 := StepImm(code, Down(c, 1), m, s1, n);
    t := StepAlu(code, c, m, s2, op, s.a);
    SegUp(code, c, 1, s1, s2);
    SegTrans(code, c, s, s1, s2);
    SegTrans(code, c, s, s2, t);
  }
}
