/** Brainfuck programs as nested while loops, and the bracket machine against them. */
module BrainfuckLoops {
  import opened Octets
  import opened Wrappers
  import opened Transitions
  import opened Brainfuck

  datatype Prog = Nil | Op(c: char, next: Prog) | Loop(body: Prog, next: Prog)

  predicate Plain(p: Prog) {
    match p
    case Nil => true
    case Op(c, next) => c != '[' && c != ']' && Plain(next)
    case Loop(body, next) => Plain(body) && Plain(next)
  }

  function Text(p: Prog): string {
    match p
    case Nil => ""
    case Op(c, next) => [c] + Text(next)
    case Loop(body, next) => "[" + Text(body) + "]" + Text(next)
  }

  datatype Outcome = Done(s: State) | Off | More

  /** Run a program, entering or repeating loops at most `fuel` times. */
  function Exec(p: Prog, keys: nat -> byte, s: State, fuel: nat): Outcome
    decreases fuel, p
  {
    match p
    case Nil => Done(s)
    case Op(c, next) =>
      (match Basic(c, s, keys)
       case None => Off
       case Some(t) => Exec(next, keys, t, fuel))
    case Loop(body, next) =>
      if !s.OnTape() then Off
      else if s.Here() == 0 then Exec(next, keys, s, fuel)
      else if fuel == 0 then More
      else
        match Exec(body, keys, s, fuel - 1)
        case Done(t) => Exec(p, keys, t, fuel - 1)
        case r => r
  }

  // ----- programs inside code -----

  /** `t` stands in the code at position `i`. */
  predicate Has(code: string, i: nat, t: string) {
    i + |t| <= |code| && forall j :: 0 <= j < |t| ==> code[i + j] == t[j]
  }

  lemma HasParts(code: string, i: nat, a: string, b: string)
    requires Has(code, i, a + b)
    ensures Has(code, i, a) && Has(code, i + |a|, b)
  {
    forall j | 0 <= j < |a| ensures code[i + j] == a[j] {
      assert (a + b)[j] == a[j];
    }
    forall j | 0 <= j < |b| ensures code[i + |a| + j] == b[j] {
      assert (a + b)[|a| + j] == b[j];
      assert code[i + (|a| + j)] == (a + b)[|a| + j];
    }
  }

  lemma HasFirst(code: string, i: nat, c: char, t: string)
    requires Has(code, i, [c] + t)
    ensures i < |code| && code[i] == c && Has(code, i + 1, t)
  {
    HasParts(code, i, [c], t);
    assert code[i + 0] == [c][0];
  }

  /** Where the parts of a loop stand. */
  lemma HasLoop(code: string, i: nat, body: Prog, next: Prog)
    requires Has(code, i, Text(Loop(body, next)))
    ensures var e := i + 1 + |Text(body)|;
      && e < |code| && code[i] == '[' && code[e] == ']'
      && Has(code, i + 1, Text(body)) && Has(code, e + 1, Text(next))
      && i + |Text(Loop(body, next))| == e + 1 + |Text(next)|
  {
    hide Has;
    var b, n := Text(body), Text(next);
    assert "[" + b + "]" + n == ['['] + (b + ([']'] + n));
    HasFirst(code, i, '[', b + ([']'] + n));
    HasParts(code, i + 1, b, [']'] + n);
    HasFirst(code, i + 1 + |b|, ']', n);
  }

  lemma HasOp(code: string, i: nat, c: char, next: Prog)
    requires Has(code, i, Text(Op(c, next)))
    ensures i < |code| && code[i] == c && Has(code, i + 1, Text(next))
    ensures i + |Text(Op(c, next))| == i + 1 + |Text(next)|
  {
    hide Has;
    HasFirst(code, i, c, Text(next));
  }

  /** A program leaves open what was open before it. */
  lemma {:induction false} TextOpen(code: string, i: nat, p: Prog)
    requires Has(code, i, Text(p)) && Plain(p)
    ensures i + |Text(p)| <= |code| && Open(code, i + |Text(p)|) == Open(code, i)
    decreases p, 1
  {
    hide Has, Text, Open, Scan;
    HasWithin(code, i, Text(p));
    match p
    case Nil => TextOfNil();
    case Op(c, next) =>
      HasOp(code, i, c, next);
      OpenKept(code, i);
      TextOpen(code, i + 1, next);
    case Loop(body, next) =>
      HasLoop(code, i, body, next);
      LoopEnd(code, i, body, next);
      TextOpen(code, i + 2 + |Text(body)|, next);
  }

  lemma TextOfNil()
    ensures Text(Nil) == ""
  {
  }

  lemma LoopEnd(code: string, i: nat, body: Prog, next: Prog)
    requires Has(code, i, Text(Loop(body, next))) && Plain(body)
    ensures var e := i + 1 + |Text(body)|;
      && e < |code| && Open(code, e) == Open(code, i) + [i] && Open(code, e + 1) == Open(code, i)
      && code[i] == '[' && code[e] == ']' && Scan(code, i, 0) == Some(e)
    decreases Loop(body, next), 0
  {
    hide Has, Text;
    HasLoop(code, i, body, next);
    TextOpen(code, i + 1, body);
    OpenNext(code, i);
    ScanTo(code, i, i + 1, i + 1 + |Text(body)|);
  }

  // ----- the machine runs programs -----

  function Start(code: string, i: nat, s: State): Config
    requires i <= |code|
  {
    At(i, Open(code, i), s)
  }

  /** The machine at `i` does what the program does. */
  ghost predicate Agrees(code: string, keys: nat -> byte, i: nat, end: nat, s: State, fuel: nat, r: Outcome)
    requires i <= |code| && end <= |code|
  {
    match r
    case Done(t) => Reach(Machine(code, keys), Start(code, i, s), Start(code, end, t))
    case Off => Reach(Machine(code, keys), Start(code, i, s), Stopped(OffTape))
    case More => Long(Machine(code, keys), Start(code, i, s), fuel)
  }

  lemma AgreesAfter(code: string, keys: nat -> byte, i: nat, j: nat, end: nat, s: State, t: State, fuel: nat,
      r: Outcome)
    requires i <= |code| && j <= |code| && end <= |code|
    requires Reach(Machine(code, keys), Start(code, i, s), Start(code, j, t)) && Agrees(code, keys, j, end, t, fuel, r)
    ensures Agrees(code, keys, i, end, s, fuel, r)
  {
    var f, c, d := Machine(code, keys), Start(code, i, s), Start(code, j, t);
    match r
    case Done(u) => ReachTrans(f, c, d, Start(code, end, u));
    case Off => ReachTrans(f, c, d, Stopped(OffTape));
    case More => LongAfter(f, c, d, fuel);
  }

  lemma {:induction false} Runs(code: string, keys: nat -> byte, p: Prog, i: nat, s: State, fuel: nat)
    requires Balanced(code) && Plain(p) && Has(code, i, Text(p))
    ensures Agrees(code, keys, i, i + |Text(p)|, s, fuel, Exec(p, keys, s, fuel))
    decreases fuel, p
  {
    hide Has, Open, Basic, Text, Agrees, Balanced;
    HasWithin(code, i, Text(p));
    match p
    case Nil =>
      NilRuns(code, keys, i, s, fuel);
    case Op(c, next) =>
      HasOp(code, i, c, next);
      OpRuns(code, keys, i, i + |Text(p)|, s, fuel);
      if Basic(c, s, keys).Some? {
        var t := Basic(c, s, keys).value;
        Runs(code, keys, next, i + 1, t, fuel);
        AgreesAfter(code, keys, i, i + 1, i + |Text(p)|, s, t, fuel, Exec(next, keys, t, fuel));
      }
    case Loop(body, next) =>
      HasLoop(code, i, body, next);
      LoopEnd(code, i, body, next);
      LoopRuns(code, keys, i, i + 1 + |Text(body)|, i + |Text(p)|, s, fuel);
      var e := i + 1 + |Text(body)|;
      if s.OnTape() && s.Here() == 0 {
        Runs(code, keys, next, e + 1, s, fuel);
        AgreesAfter(code, keys, i, e + 1, i + |Text(p)|, s, s, fuel, Exec(next, keys, s, fuel));
      } else if s.OnTape() && fuel > 0 {
        Runs(code, keys, body, i + 1, s, fuel - 1);
        var r := Exec(body, keys, s, fuel - 1);
        LoopEntered(code, keys, i, e, i + |Text(p)|, s, fuel, r);
        if r.Done? {
          Runs(code, keys, p, i, r.s, fuel - 1);
          LoopAgain(code, keys, i, e, i + |Text(p)|, s, r.s, fuel, Exec(p, keys, r.s, fuel - 1));
        }
      }
  }

  lemma NilRuns(code: string, keys: nat -> byte, i: nat, s: State, fuel: nat)
    requires Has(code, i, Text(Nil))
    ensures Agrees(code, keys, i, i + |Text(Nil)|, s, fuel, Done(s))
  {
    ReachHere(Machine(code, keys), Start(code, i, s));
  }

  lemma OpRuns(code: string, keys: nat -> byte, i: nat, end: nat, s: State, fuel: nat)
    requires i < |code| && end <= |code| && code[i] != '[' && code[i] != ']'
    ensures match Basic(code[i], s, keys)
      case None => Agrees(code, keys, i, end, s, fuel, Off)
      case Some(t) => Reach(Machine(code, keys), Start(code, i, s), Start(code, i + 1, t))
  {
    hide Basic;
    match Basic(code[i], s, keys)
    case None => ReachStep(Machine(code, keys), Start(code, i, s), Stopped(OffTape));
    case Some(t) => ReachStep(Machine(code, keys), Start(code, i, s), Start(code, i + 1, t));
  }

  /** A loop that is off the tape, passed over, or out of fuel. */
  lemma LoopRuns(code: string, keys: nat -> byte, i: nat, e: nat, end: nat, s: State, fuel: nat)
    requires i <= e < |code| && end <= |code| && code[i] == '[' && Scan(code, i, 0) == Some(e)
    requires Open(code, e + 1) == Open(code, i)
    ensures !s.OnTape() ==> Agrees(code, keys, i, end, s, fuel, Off)
    ensures s.OnTape() && s.Here() == 0 ==> Reach(Machine(code, keys), Start(code, i, s), Start(code, e + 1, s))
    ensures Agrees(code, keys, i, end, s, 0, More)
  {
    hide Open, Scan;
    var f, c := Machine(code, keys), Start(code, i, s);
    LongHere(f, c);
    if !s.OnTape() {
      ReachStep(f, c, Stopped(OffTape));
    } else if s.Here() == 0 {
      ReachStep(f, c, Start(code, e + 1, s));
    }
  }

  /** A loop whose body is entered: unless the body finishes, the loop does what the body does. */
  lemma LoopEntered(code: string, keys: nat -> byte, i: nat, e: nat, end: nat, s: State, fuel: nat, r: Outcome)
    requires Balanced(code) && i < e < |code| && end <= |code|
      && code[i] == '[' && s.OnTape() && s.Here() != 0 && fuel > 0
    requires Agrees(code, keys, i + 1, e, s, fuel - 1, r)
    ensures Step(code, keys, Start(code, i, s)) == Some(Start(code, i + 1, s))
    ensures !r.Done? ==> Agrees(code, keys, i, end, s, fuel, r)
  {
    hide Open;
    var f, c, d := Machine(code, keys), Start(code, i, s), Start(code, i + 1, s);
    OpenNext(code, i);
    assert |Open(code, i + 1)| <= DEPTH;
    assert f(c) == Some(d);
    if r.Off? {
      ReachStep(f, c, d);
      ReachTrans(f, c, d, Stopped(OffTape));
    } else if r.More? {
      LongStep(f, c, d, fuel - 1);
    }
  }

  /** A body that finishes leads back to the loop. */
  lemma LoopAgain(code: string, keys: nat -> byte, i: nat, e: nat, end: nat, s: State, t: State, fuel: nat, r: Outcome)
    requires Balanced(code) && i < e < |code| && end <= |code| && fuel > 0 && code[e] == ']'
    requires Open(code, e) == Open(code, i) + [i]
    requires Step(code, keys, Start(code, i, s)) == Some(Start(code, i + 1, s))
    requires Agrees(code, keys, i + 1, e, s, fuel - 1, Done(t)) && Agrees(code, keys, i, end, t, fuel - 1, r)
    ensures Agrees(code, keys, i, end, s, fuel, r)
  {
    hide Open;
    var f, c, d := Machine(code, keys), Start(code, i, s), Start(code, i + 1, s);
    var b, a := Start(code, e, t), Start(code, i, t);
    assert b.stack[..|b.stack| - 1] == Open(code, i);
    ReachStep(f, b, a);
    ReachTrans(f, d, b, a);
    AgreesAfter(code, keys, i + 1, i, end, s, t, fuel - 1, r);
    if r.More? {
      LongStep(f, c, d, fuel - 1);
    } else {
      ReachStep(f, c, d);
      AgreesAfter(code, keys, i, i + 1, end, s, s, fuel, r);
    }
  }

  // ----- every balanced code is a program -----

  lemma HasJoin(code: string, i: nat, a: string, b: string)
    requires Has(code, i, a) && Has(code, i + |a|, b)
    ensures Has(code, i, a + b)
  {
    forall j | 0 <= j < |a + b| ensures code[i + j] == (a + b)[j] {
      if j >= |a| {
        assert code[i + |a| + (j - |a|)] == b[j - |a|];
      }
    }
  }

  /** The program from `i` to the end of the code or of the loop around it. */
  lemma Parse(code: string, i: nat) returns (p: Prog)
    requires Balanced(code) && i <= |code|
    ensures Plain(p) && Has(code, i, Text(p)) && Open(code, i + |Text(p)|) == Open(code, i)
    ensures i + |Text(p)| < |code| ==> code[i + |Text(p)|] == ']'
    decreases |code| - i
  {
    hide Open, Has, Text;
    if i == |code| || code[i] == ']' {
      p := Nil;
      HasNothing(code, i);
    } else if code[i] == '[' {
      var body := Parse(code, i + 1);
      var e := i + 1 + |Text(body)|;
      OpenNext(code, i);
      HasWithin(code, i + 1, Text(body));
      assert e < |code|;
      CloseOpen(code, i, e);
      var next := Parse(code, e + 1);
      p := Loop(body, next);
      LoopStands(code, i, body, next);
    } else {
      var next := Parse(code, i + 1);
      p := Op(code[i], next);
      OpStands(code, i, next);
      OpenKept(code, i);
    }
  }

  lemma LoopStands(code: string, i: nat, body: Prog, next: Prog)
    requires i < |code| && code[i] == '[' && Has(code, i + 1, Text(body))
    requires var e := i + 1 + |Text(body)|; e < |code| && code[e] == ']' && Has(code, e + 1, Text(next))
    ensures Has(code, i, Text(Loop(body, next)))
    ensures i + |Text(Loop(body, next))| == i + 2 + |Text(body)| + |Text(next)|
  {
    hide Has;
    HasOne(code, i);
    HasOne(code, i + 1 + |Text(body)|);
    HasJoin(code, i, "[", Text(body));
    HasJoin(code, i, "[" + Text(body), "]");
    HasJoin(code, i, "[" + Text(body) + "]", Text(next));
  }

  lemma OpStands(code: string, i: nat, next: Prog)
    requires i < |code| && Has(code, i + 1, Text(next))
    ensures Has(code, i, Text(Op(code[i], next)))
    ensures |Text(Op(code[i], next))| == 1 + |Text(next)|
  {
    HasOne(code, i);
    HasJoin(code, i, [code[i]], Text(next));
  }

  lemma HasNothing(code: string, i: nat)
    requires i <= |code|
    ensures Has(code, i, Text(Nil)) && Text(Nil) == ""
  {
  }

  lemma HasWithin(code: string, i: nat, t: string)
    requires Has(code, i, t)
    ensures i + |t| <= |code|
  {
  }

  lemma HasOne(code: string, i: nat)
    requires i < |code|
    ensures Has(code, i, [code[i]])
  {
  }

  lemma CloseOpen(code: string, i: nat, e: nat)
    requires e < |code| && code[e] == ']' && i <= |code| && Open(code, e) == Open(code, i) + [i]
    ensures Open(code, e + 1) == Open(code, i)
  {
    assert Open(code, e)[..|Open(code, e)| - 1] == Open(code, i);
  }

  lemma OpenKept(code: string, i: nat)
    requires i < |code| && code[i] != '[' && code[i] != ']'
    ensures Open(code, i + 1) == Open(code, i)
  {
  }

  lemma BalancedIsProgram(code: string)
    requires Balanced(code)
    ensures exists p :: Plain(p) && Text(p) == code
  {
    hide Open;
    var p := Parse(code, 0);
    var e := |Text(p)|;
    EmptyStart(code);
    HasWithin(code, 0, Text(p));
    assert e == |code|;
    assert code[0..e] == code;
  }

  lemma EmptyStart(code: string)
    ensures Open(code, 0) == []
  {
  }

  // ----- the two agree -----

  ghost predicate Finishes(p: Prog, keys: nat -> byte, s: State, r: Outcome) {
    exists fuel: nat :: Exec(p, keys, s, fuel) == r
  }

  /** Every run of the machine that ends, and no other, is a run of the nested loops, with the same
      tape, output and keys read; and the two leave the tape on the same inputs. */
  lemma MachineAgrees(p: Prog, keys: nat -> byte, s: State, t: State)
    requires Plain(p) && Balanced(Text(p))
    ensures Finishes(p, keys, s, Done(t)) <==>
      Reach(Machine(Text(p), keys), At(0, [], s), At(|Text(p)|, [], t))
    ensures Finishes(p, keys, s, Off) <==>
      Reach(Machine(Text(p), keys), At(0, [], s), Stopped(OffTape))
  {
    hide Open, Exec, Iterate;
    var code := Text(p);
    EmptyStart(code);
    if fuel: nat :| Exec(p, keys, s, fuel) == Done(t) {
      WholeRuns(p, keys, s, fuel);
    }
    if fuel: nat :| Exec(p, keys, s, fuel) == Off {
      WholeRuns(p, keys, s, fuel);
    }
    if Reach(Machine(code, keys), At(0, [], s), At(|code|, [], t)) {
      EndIsFound(p, keys, s, At(|code|, [], t));
    }
    if Reach(Machine(code, keys), At(0, [], s), Stopped(OffTape)) {
      EndIsFound(p, keys, s, Stopped(OffTape));
    }
  }

  function Final(code: string, r: Outcome): Config
    requires !r.More?
  {
    if r.Off? then Stopped(OffTape) else At(|code|, [], r.s)
  }

  lemma WholeRuns(p: Prog, keys: nat -> byte, s: State, fuel: nat)
    requires Plain(p) && Balanced(Text(p))
    ensures var (code, r) := (Text(p), Exec(p, keys, s, fuel));
      if r.More? then Long(Machine(code, keys), At(0, [], s), fuel)
      else Reach(Machine(code, keys), At(0, [], s), Final(code, r))
  {
    hide Open, Exec;
    EmptyStart(Text(p));
    assert Text(p)[0..|Text(p)|] == Text(p);
    Runs(Text(p), keys, p, 0, s, fuel);
  }

  lemma EndIsFound(p: Prog, keys: nat -> byte, s: State, d: Config)
    requires Plain(p) && Balanced(Text(p)) && Reach(Machine(Text(p), keys), At(0, [], s), d)
    requires d == Stopped(OffTape) || (d.At? && d.i == |Text(p)| && d.stack == [])
    ensures d.At? ==> Finishes(p, keys, s, Done(d.s))
    ensures !d.At? ==> Finishes(p, keys, s, Off)
  {
    hide Open, Exec, Iterate;
    var f, c := Machine(Text(p), keys), At(0, [], s);
    var n: nat :| Iterate(f, c, n) == Some(d);
    assert f(d) == None;
    EndsWithin(f, c, n, d);
    WholeRuns(p, keys, s, n + 1);
    var r := Exec(p, keys, s, n + 1);
    assert !r.More?;
    EndIsUnique(f, c, Final(Text(p), r), d);
  }
}
