/** Building and leaving a callee's frame: JSR, ENT, LEV and ADJ. */
module C4Frames {
  import opened C4Words
  import opened C4Machine
  import opened C4Syntax
  import opened C4Semantics
  import opened C4Steps
  import opened Wrappers

  /** The words `vs` are pushed from `c`'s stack pointer down and hidden from the source. */
  ghost predicate ArgsStored(c: Ctx, mem: Mem, vs: seq<word>)
    decreases |vs|
  {
    vs == [] || (Slot(c, mem, vs[0]) && ArgsStored(Down(c, 1), mem, vs[1..]))
  }

  lemma {:induction false} ArgsHidden(c: Ctx, mem: Mem, vs: seq<word>)
    requires c.lo >= -TWO63 && c.lo <= c.sp && ArgsStored(c, mem, vs)
    ensures Room(c, |vs|)
    ensures forall k :: c.sp - W * |vs| <= k < c.sp ==> k in mem && k !in c.own
    decreases |vs|
  {
    hide HoldsWord, ReadWord;
    if vs != [] {
      ArgsHidden(Down(c, 1), mem, vs[1..]);
    }
  }

  /** What is written agrees with `mem`, which holds `m` and the pushed word. */
  lemma WriteAgrees(c: Ctx, m: Mem, mem: Mem, v: word)
    requires Slot(c, mem, v)
    requires forall k :: k in m ==> k in mem && mem[k] == m[k]
    ensures Room(c, 1)
    ensures forall k :: k in WriteWord(m, c.sp - W, v) ==> k in mem && mem[k] == WriteWord(m, c.sp - W, v)[k]
    ensures forall k :: k in WriteWord(m, c.sp - W, v) ==> k in m || c.sp - W <= k < c.sp
  {
    hide ReadWord, Encode;
  }

  /** The pushed words are the callee's parameters: reading them back gives the arguments. */
  lemma {:induction false} ArgsBytes(c: Ctx, m: Mem, mem: Mem, vs: seq<word>)
    requires ArgsStored(c, mem, vs)
    requires forall k :: k in m ==> k in mem && mem[k] == m[k]
    ensures forall k :: k in PutArgs(m, c.sp, vs) ==> k in mem && mem[k] == PutArgs(m, c.sp, vs)[k]
    ensures forall k :: k in PutArgs(m, c.sp, vs) ==> k in m || c.sp - W * |vs| <= k < c.sp
    decreases |vs|
  {
    hide Slot, WriteWord;
    if vs != [] {
      var m1 := WriteWord(m, c.sp - W, vs[0]);
      WriteAgrees(c, m, mem, vs[0]);
      ArgsBytes(Down(c, 1), m1, mem, vs[1..]);
      assert PutArgs(m, c.sp, vs) == PutArgs(m1, c.sp - W, vs[1..]);
    }
  }

  /** The context once `n` pushed words belong to the callee. */
  function Give(c: Ctx, n: nat): Ctx
    requires Room(c, n)
  {
    Ctx(c.bp, c.sp - W * n, c.lo, c.own + Range(c.sp - W * n, c.sp))
  }

  lemma GiveArgs(c: Ctx, m: Mem, s: State, vs: seq<word>)
    requires Room(c, |vs|) && c.lo <= c.sp && Rel(Down(c, |vs|), m, s) && ArgsStored(c, s.mem, vs)
    ensures Rel(Give(c, |vs|), PutArgs(m, c.sp, vs), s)
  {
    hide ArgsStored, PutArgs;
    ArgsHidden(c, s.mem, vs);
    ArgsBytes(c, m, s.mem, vs);
  }

  /** After JSR and ENT the callee's frame is in place. */
  lemma EnterRel(f: Func, c: Ctx, m: Mem, s: State, t: State)
    requires Room(c, f.params + 2 + f.locals) && c.lo <= c.sp
    requires Rel(Down(Give(c, f.params), 2), m, s)
    requires t.bp == s.sp && t.sp == s.sp - W * f.locals && t.mem == s.mem
    ensures Rel(CalleeCtx(f, c), m, t)
  {
    hide Range;
    var d, g2 := CalleeCtx(f, c), Down(Give(c, f.params), 2);
    assert d.own == g2.own + Range(d.bp - W * f.locals, d.bp);
  }

  lemma StepJsr(code: Code, c: Ctx, m: Mem, s: State, n: word) returns (t: State)
    requires At(code, s.pc, [JSR, n]) && Rel(c, m, s) && Room(c, 1)
    ensures Seg(code, c, s, t) && t.pc == n && t.a == s.a
    ensures Rel(Down(c, 1), m, t) && Slot(c, t.mem, s.pc + 2)
  {
    hide Kept, Slot, WriteWord, ReadWord;
    AtWord(code, s.pc, [JSR, n], 0);
    AtWord(code, s.pc, [JSR, n], 1);
    var u := PushMem(c, m, s, s.pc + 2);
    t := u.(pc := n);
    RunsStep(code, s, t);
  }

  lemma RelPoints(c: Ctx, m: Mem, s: State)
    requires Rel(c, m, s)
    ensures s.bp == c.bp && s.sp == c.sp
  {
  }

  lemma StepEnt(code: Code, f: Func, c: Ctx, m: Mem, s: State) returns (t: State)
    requires Room(c, f.params + 2 + f.locals) && c.lo <= c.sp
    requires At(code, s.pc, [ENT, Wrap(f.locals)])
    requires Rel(Down(Give(c, f.params), 1), m, s)
    ensures Runs(code, s, t) && t.pc == s.pc + 2 && t.a == s.a
    ensures Rel(CalleeCtx(f, c), m, t) && Slot(Down(Give(c, f.params), 1), t.mem, c.bp)
    ensures Kept(Down(Give(c, f.params), 1), s.mem, t.mem)
  {
    hide Kept, Slot, WriteWord, ReadWord, Rel, Range;
    AtWord(code, s.pc, [ENT, Wrap(f.locals)], 0);
    AtWord(code, s.pc, [ENT, Wrap(f.locals)], 1);
    var give := Give(c, f.params);
    RelPoints(Down(give, 1), m, s);
    var u := PushMem(Down(give, 1), m, s, s.bp);
    assert Down(Down(give, 1), 1) == Down(give, 2);
    t := u.(pc := s.pc + 2, bp := u.sp, sp := u.sp - W * f.locals);
    EnterRel(f, c, m, u, t);
    RunsStep(code, s, t);
  }

  /** The saved frame pointer and return word survive whatever stays in the callee's frame. */
  lemma SavedKept(f: Func, c: Ctx, mem: Mem, mem': Mem, ret: word)
    requires Room(c, f.params + 2 + f.locals) && c.lo <= c.sp
    requires Slot(Give(c, f.params), mem, ret) && Slot(Down(Give(c, f.params), 1), mem, c.bp)
    requires Kept(CalleeCtx(f, c), mem, mem')
    ensures var bp := CalleeCtx(f, c).bp;
      ReadWord(mem', bp) == Some(c.bp) && ReadWord(mem', bp + W) == Some(ret)
  {
    hide ReadWord, HoldsWord, Range;
    var d, g1 := CalleeCtx(f, c), Give(c, f.params);
    assert g1.own <= d.own;
    assert forall k :: d.bp <= k < d.bp + 2 * W ==> k !in d.own;
    assert SameAt(mem, mem', d.bp, 8);
    assert SameAt(mem, mem', d.bp + W, 8);
    ReadSame(mem, mem', d.bp);
    ReadSame(mem, mem', d.bp + W);
  }

  /** The caller's view after LEV: the callee's own slots are forgotten. */
  lemma LeaveRel(f: Func, c: Ctx, m: Mem, s: State, t: State)
    requires Room(c, f.params + 2 + f.locals) && c.lo <= c.sp
    requires Rel(CalleeCtx(f, c), m, s)
    requires forall k :: CalleeCtx(f, c).sp <= k < CalleeCtx(f, c).bp + 2 * W ==> k in s.mem && k !in c.own
    requires t.bp == c.bp && t.sp == c.sp - W * f.params && t.mem == s.mem
    ensures Rel(Down(c, f.params), Restrict(m, c.own), t)
  {
  }

  lemma StepLev(code: Code, f: Func, c: Ctx, m: Mem, s: State, ret: word) returns (t: State)
    requires Room(c, f.params + 2 + f.locals) && c.lo <= c.sp
    requires At(code, s.pc, [LEV]) && Rel(CalleeCtx(f, c), m, s)
    requires forall k :: CalleeCtx(f, c).sp <= k < CalleeCtx(f, c).bp + 2 * W ==> k in s.mem && k !in c.own
    requires ReadWord(s.mem, s.bp) == Some(c.bp) && ReadWord(s.mem, s.bp + W) == Some(ret)
    ensures Runs(code, s, t) && t.pc == ret && t.a == s.a && t.mem == s.mem
    ensures Rel(Down(c, f.params), Restrict(m, c.own), t)
  {
    hide ReadWord, Restrict;
    AtWord(code, s.pc, [LEV], 0);
    t := s.(pc := ret, sp := c.sp - W * f.params, bp := c.bp);
    LeaveRel(f, c, m, s, t);
    RunsStep(code, s, t);
  }

  lemma StepAdj(code: Code, c: Ctx, m: Mem, s: State, vs: seq<word>, before: Mem) returns (t: State)
    requires Room(c, |vs|) && c.lo <= c.sp
    requires At(code, s.pc, [ADJ, Wrap(|vs|)]) && Rel(Down(c, |vs|), m, s)
    requires ArgsStored(c, before, vs) && before.Keys == s.mem.Keys
    ensures Goes(code, c, s, t, s.pc + 2, s.a, m)
  {
    hide ArgsStored;
    AtWord(code, s.pc, [ADJ, Wrap(|vs|)], 0);
    AtWord(code, s.pc, [ADJ, Wrap(|vs|)], 1);
    ArgsHidden(c, before, vs);
    t := s.(pc := s.pc + 2, sp := c.sp);
    assert forall k :: k in before <==> k in s.mem;
    RunsStep(code, s, t);
  }

  /** What a callee does within its frame stays within the caller's. */
  lemma KeptCallee(f: Func, c: Ctx, mem: Mem, mem': Mem)
    requires Room(c, f.params + 2 + f.locals) && Kept(CalleeCtx(f, c), mem, mem')
    ensures Kept(c, mem, mem')
  {
  }

  lemma KeptGive(c: Ctx, n: nat, d: nat, mem: Mem, mem': Mem)
    requires Room(c, n + d) && Kept(Down(Give(c, n), d), mem, mem')
    ensures Kept(c, mem, mem')
  {
  }

  lemma KeptTrans(c: Ctx, m0: Mem, m1: Mem, m2: Mem)
    requires Kept(c, m0, m1) && Kept(c, m1, m2)
    ensures Kept(c, m0, m2)
  {
  }

  /** The callee's part of the stack is scratch of the caller. */
  lemma CalleeArea(f: Func, c: Ctx, m: Mem, s: State, mem: Mem)
    requires Room(c, f.params + 2 + f.locals) && c.lo <= c.sp
    requires Rel(Down(c, f.params), m, s) && mem.Keys == s.mem.Keys
    ensures forall k :: CalleeCtx(f, c).sp <= k < CalleeCtx(f, c).bp + 2 * W ==> k in mem && k !in c.own
  {
    assert forall k :: k in mem <==> k in s.mem;
  }
}
