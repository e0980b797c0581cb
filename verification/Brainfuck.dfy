/** The Brainfuck interpreter: one loop with a stack of open brackets, against nested while loops. */
module Brainfuck {
  import opened Octets
  import opened Wrappers
  import opened Transitions

  const TAPE: nat := 30000
  const DEPTH: nat := 100

  /** The tape, the position on it, what has been written, and how many keys have been read. */
  datatype State = State(tape: seq<byte>, p: int, out: seq<byte>, taken: nat) {
    predicate OnTape() {
      0 <= p < |tape|
    }

    function Here(): byte
      requires OnTape()
    {
      tape[p]
    }
  }

  /** The commands other than brackets; None when a cell off the tape is touched. Anything else is a
      comment. */
  function Basic(c: char, s: State, keys: nat -> byte): Option<State> {
    if c == '>' then Some(s.(p := s.p + 1))
    else if c == '<' then Some(s.(p := s.p - 1))
    else if c !in "+-.," then Some(s)
    else if !s.OnTape() then None
    else if c == '+' then Some(s.(tape := s.tape[s.p := (s.Here() + 1) % 256]))
    else if c == '-' then Some(s.(tape := s.tape[s.p := (s.Here() + 255) % 256]))
    else if c == '.' then Some(s.(out := s.out + [s.Here()]))
    else Some(s.(tape := s.tape[s.p := keys(s.taken)], taken := s.taken + 1))
  }

  /** The same command `n` times. */
  function Times(c: char, n: nat, s: State, keys: nat -> byte): Option<State> {
    if n == 0 then Some(s)
    else
      match Times(c, n - 1, s, keys)
      case None => None
      case Some(s1) => Basic(c, s1, keys)
  }

  /** Moves and comments never fail: `n` moves go `n` cells. */
  lemma {:induction false} MovesMean(c: char, n: nat, s: State, keys: nat -> byte)
    requires c !in "+-.,"
    ensures Times(c, n, s, keys) ==
      Some(s.(p := if c == '>' then s.p + n else if c == '<' then s.p - n else s.p))
  {
    if n > 0 {
      MovesMean(c, n - 1, s, keys);
    }
  }

  /** What a command on a cell does `n` times over: the cell goes up or down by `n` modulo 256, is written
      `n` times, or takes the last of `n` keys, and all else stays. */
  ghost predicate CellLaw(c: char, n: nat, s: State, t: State, keys: nat -> byte)
    requires s.OnTape()
  {
    && t.p == s.p && |t.tape| == |s.tape|
    && (forall k :: 0 <= k < |s.tape| && k != s.p ==> t.tape[k] == s.tape[k])
    && (c == '+' ==> Congruent(t.Here(), s.Here() as int + n))
    && (c == '-' ==> Congruent(t.Here(), s.Here() as int - n))
    && (c == '.' ==> t.Here() == s.Here())
    && (c == ',' && n > 0 ==> t.Here() == keys(s.taken + n - 1))
    && t.taken == (if c == ',' then s.taken + n else s.taken)
    && t.out == s.out + (if c == '.' then Copies(s.Here(), n) else [])
  }

  /** Equal modulo 256. */
  predicate Congruent(a: int, b: int) {
    (a - b) % 256 == 0
  }

  lemma CongruentNext(a: byte, b: int)
    requires Congruent(a, b)
    ensures Congruent((a + 1) % 256, b + 1) && Congruent((a + 255) % 256, b - 1)
  {
  }

  function Copies(b: byte, n: nat): (r: seq<byte>)
    ensures |r| == n && forall k :: 0 <= k < n ==> r[k] == b
  {
    if n == 0 then [] else Copies(b, n - 1) + [b]
  }

  lemma OutNext(out: seq<byte>, b: byte, n: nat)
    ensures out + Copies(b, n) + [b] == out + Copies(b, n + 1)
  {
  }

  lemma CellOnce(c: char, t: State, keys: nat -> byte)
    requires c in "+-.," && t.OnTape()
    ensures Basic(c, t, keys).Some?
    ensures var u := Basic(c, t, keys).value;
      && u.p == t.p && u.OnTape()
      && u.tape == t.tape[t.p := if c == '+' then (t.Here() + 1) % 256 else if c == '-' then (t.Here() + 255) % 256
           else if c == '.' then t.Here() else keys(t.taken)]
      && u.taken == (if c == ',' then t.taken + 1 else t.taken)
      && u.out == t.out + (if c == '.' then [t.Here()] else [])
  {
    assert t.tape[t.p := t.Here()] == t.tape;
    assert t.out + [] == t.out;
  }

  lemma CellNext(c: char, n: nat, s: State, t: State, keys: nat -> byte)
    requires c in "+-.," && s.OnTape() && CellLaw(c, n, s, t, keys)
    ensures Basic(c, t, keys).Some? && CellLaw(c, n + 1, s, Basic(c, t, keys).value, keys)
  {
    hide Basic, Copies, Congruent;
    CellOnce(c, t, keys);
    if c == '+' {
      CongruentNext(t.Here(), s.Here() as int + n);
    } else if c == '-' {
      CongruentNext(t.Here(), s.Here() as int - n);
    }
    OutNext(s.out, s.Here(), n);
    var u := Basic(c, t, keys).value;
    assert forall k :: 0 <= k < |s.tape| && k != s.p ==> u.tape[k] == s.tape[k];
    assert c != '.' ==> u.out == s.out;
  }

  /** Commands on a cell fail off the tape, and otherwise keep to their law. */
  lemma {:induction false} CellsMean(c: char, n: nat, s: State, keys: nat -> byte)
    requires c in "+-.,"
    ensures !s.OnTape() && n > 0 ==> Times(c, n, s, keys) == None
    ensures s.OnTape() ==> Times(c, n, s, keys).Some? && CellLaw(c, n, s, Times(c, n, s, keys).value, keys)
  {
    hide CellLaw, Basic;
    if n > 0 {
      CellsMean(c, n - 1, s, keys);
      if s.OnTape() {
        CellNext(c, n - 1, s, Times(c, n - 1, s, keys).value, keys);
      } else {
        NoCell(c, s, keys);
      }
    } else if s.OnTape() {
      NoneYet(c, s, keys);
    }
  }

  lemma NoCell(c: char, s: State, keys: nat -> byte)
    requires c in "+-.," && !s.OnTape()
    ensures Basic(c, s, keys) == None
  {
  }

  lemma NoneYet(c: char, s: State, keys: nat -> byte)
    requires s.OnTape()
    ensures CellLaw(c, 0, s, s, keys)
  {
    assert s.out + [] == s.out;
  }

  // ----- the machine -----

  datatype Fault = OffTape | Overflow | Underflow | Unmatched

  datatype Config = At(i: nat, stack: seq<nat>, s: State) | Stopped(why: Fault)

  /** The scan for the end of a loop: the first position from `k` on where the depth is back to zero. */
  function Scan(code: string, k: nat, j: int): (r: Option<nat>)
    ensures r.Some? ==> k <= r.value < |code|
    decreases |code| - k
  {
    if k >= |code| then None
    else
      var d := if code[k] == '[' then j + 1 else if code[k] == ']' then j - 1 else j;
      if d == 0 then Some(k) else Scan(code, k + 1, d)
  }

  /** One turn of the loop; None at the end of the code or after a fault. */
  function Step(code: string, keys: nat -> byte, c: Config): Option<Config> {
    if c.Stopped? || c.i >= |code| then None
    else if code[c.i] == '[' then
      Some(
        if !c.s.OnTape() then Stopped(OffTape)
        else if c.s.Here() != 0 then
          if |c.stack| >= DEPTH then Stopped(Overflow) else At(c.i + 1, c.stack + [c.i], c.s)
        else
          match Scan(code, c.i, 0)
          case None => Stopped(Unmatched)
          case Some(k) => At(k + 1, c.stack, c.s))
    else if code[c.i] == ']' then
      Some(if c.stack == [] then Stopped(Underflow)
           else At(c.stack[|c.stack| - 1], c.stack[..|c.stack| - 1], c.s))
    else
      Some(match Basic(code[c.i], c.s, keys)
           case None => Stopped(OffTape)
           case Some(s) => At(c.i + 1, c.stack, s))
  }

  /** The four faults: a cell off the tape, a hundred loops open already, a closing bracket without an open
      loop, and a loop to be left that has no end. */
  lemma FaultsAre(code: string, keys: nat -> byte, i: nat, stack: seq<nat>, s: State)
    requires i < |code|
    ensures var r := Step(code, keys, At(i, stack, s));
      && (r == Some(Stopped(OffTape)) <==> !s.OnTape() && code[i] in "+-.,[")
      && (r == Some(Stopped(Overflow)) <==> code[i] == '[' && s.OnTape() && s.Here() != 0 && |stack| >= 100)
      && (r == Some(Stopped(Underflow)) <==> code[i] == ']' && stack == [])
      && (r == Some(Stopped(Unmatched)) <==> code[i] == '[' && s.OnTape() && s.Here() == 0 && Scan(code, i, 0).None?)
  {
  }

  function Machine(code: string, keys: nat -> byte): Config -> Option<Config> {
    c => Step(code, keys, c)
  }

  // ----- the stack holds the enclosing brackets -----

  /** The brackets open before position `i`, outermost first. */
  function Open(code: string, i: nat): (r: seq<nat>)
    requires i <= |code|
    ensures forall m :: 0 <= m < |r| ==> r[m] < i && code[r[m]] == '['
    ensures forall m, n :: 0 <= m < n < |r| ==> r[m] < r[n]
  {
    if i == 0 then []
    else
      var r := Open(code, i - 1);
      if code[i - 1] == '[' then r + [i - 1]
      else if code[i - 1] == ']' && r != [] then r[..|r| - 1]
      else r
  }

  /** Brackets match, and no more than `DEPTH` are open at once. */
  ghost predicate Balanced(code: string) {
    && Open(code, |code|) == []
    && (forall i :: 0 <= i < |code| && code[i] == ']' ==> Open(code, i) != [])
    && (forall i :: 0 <= i <= |code| ==> |Open(code, i)| <= DEPTH)
  }

  /** What was open at an open bracket is what is open around it. */
  lemma {:induction false} OpenAround(code: string, i: nat, m: nat)
    requires i <= |code| && m < |Open(code, i)|
    ensures Open(code, Open(code, i)[m]) == Open(code, i)[..m]
  {
    if i > 0 {
      var r := Open(code, i - 1);
      if m < |r| {
        OpenAround(code, i - 1, m);
      } else {
        assert r + [i - 1] == Open(code, i);
        assert (r + [i - 1])[..m] == r;
      }
    }
  }

  ghost predicate Tracks(code: string, c: Config) {
    c.At? ==> c.i <= |code| && c.stack == Open(code, c.i)
  }

  /** From inside a loop the scan stops at the bracket that closes it. */
  lemma {:induction false} ScanFinds(code: string, i: nat, k: nat, j: nat)
    requires Balanced(code) && i < k <= |code| && code[i] == '[' && j > 0
    requires |Open(code, k)| == |Open(code, i)| + j && Open(code, i) + [i] <= Open(code, k)
    ensures var r := Scan(code, k, j);
      && r.Some? && code[r.value] == ']'
      && Open(code, r.value) == Open(code, i) + [i] && Open(code, r.value + 1) == Open(code, i)
    decreases |code| - k
  {
    if k < |code| {
      var d := if code[k] == '[' then j + 1 else if code[k] == ']' then j - 1 else j;
      if d > 0 {
        ScanFinds(code, i, k + 1, d);
      }
    }
  }

  lemma ScanMatches(code: string, i: nat)
    requires Balanced(code) && i < |code| && code[i] == '['
    ensures var r := Scan(code, i, 0);
      && r.Some? && code[r.value] == ']'
      && Open(code, r.value) == Open(code, i) + [i] && Open(code, r.value + 1) == Open(code, i)
  {
    ScanFinds(code, i, i + 1, 1);
  }

  /** In every configuration a balanced program reaches, the stack is exactly the list of the brackets
      around the position, and the only fault is a cell off the tape. */
  lemma StepTracks(code: string, keys: nat -> byte, c: Config)
    requires Balanced(code) && Tracks(code, c) && Step(code, keys, c).Some?
    ensures var d := Step(code, keys, c).value; Tracks(code, d) && (d.At? || d.why == OffTape)
  {
    hide Basic;
    if code[c.i] == '[' {
      ScanMatches(code, c.i);
      assert Open(code, c.i + 1) == Open(code, c.i) + [c.i];
    } else if code[c.i] == ']' {
      OpenAround(code, c.i, |c.stack| - 1);
    }
  }

  lemma {:induction false} RunTracks(code: string, keys: nat -> byte, c: Config, n: nat, d: Config)
    requires Balanced(code) && Tracks(code, c) && (c.At? || c.why == OffTape)
    requires Iterate(Machine(code, keys), c, n) == Some(d)
    ensures Tracks(code, d) && (d.At? || d.why == OffTape)
    decreases n
  {
    if n > 0 {
      StepTracks(code, keys, c);
      RunTracks(code, keys, Step(code, keys, c).value, n - 1, d);
    }
  }

  lemma {:induction false} NewlyOpen(code: string, k: nat, e: nat, x: nat)
    requires k <= e <= |code| && x < k && x in Open(code, e)
    ensures x in Open(code, k)
    decreases e
  {
    if k < e {
      NewlyOpen(code, k, e - 1, x);
    }
  }

  lemma {:induction false} ScanTo(code: string, i: nat, k: nat, e: nat)
    requires i < k <= e < |code| && code[i] == '[' && code[e] == ']' && Open(code, e) == Open(code, i) + [i]
    ensures Open(code, i) + [i] <= Open(code, k)
    ensures Scan(code, k, |Open(code, k)| - |Open(code, i)|) == Some(e)
    decreases e - k
  {
    hide Open, Scan;
    StillOpen(code, i, k, e);
    ScanStep(code, k, |Open(code, k)| - |Open(code, i)|);
    if k < e {
      ScanTo(code, i, k + 1, e);
      OpenStep(code, k);
      assert Open(code, k) != [];
    }
  }

  lemma OpenStep(code: string, k: nat)
    requires k < |code| && Open(code, k) != []
    ensures |Open(code, k + 1)| ==
      if code[k] == '[' then |Open(code, k)| + 1 else if code[k] == ']' then |Open(code, k)| - 1 else |Open(code, k)|
  {
  }

  lemma ScanStep(code: string, k: nat, j: int)
    requires k < |code|
    ensures var d := if code[k] == '[' then j + 1 else if code[k] == ']' then j - 1 else j;
      Scan(code, k, j) == if d == 0 then Some(k) else Scan(code, k + 1, d)
  {
  }

  lemma StillOpen(code: string, i: nat, k: nat, e: nat)
    requires i < k <= e < |code| && code[i] == '[' && i in Open(code, e)
    ensures Open(code, i) + [i] <= Open(code, k)
  {
    NewlyOpen(code, k, e, i);
    var m :| 0 <= m < |Open(code, k)| && Open(code, k)[m] == i;
    OpenAround(code, k, m);
  }

  lemma OpenNext(code: string, i: nat)
    requires i < |code| && code[i] == '['
    ensures Open(code, i + 1) == Open(code, i) + [i]
    ensures Scan(code, i, 0) == Scan(code, i + 1, 1)
  {
  }

  lemma OpenAtClose(code: string, i: nat)
    requires Balanced(code) && i < |code| && code[i] == ']'
    ensures Open(code, i) != []
  {
  }

  /** A closing bracket returns to the bracket that opened it, from which the scan leads back. */
  lemma CloseReturns(code: string, keys: nat -> byte, c: Config)
    requires Balanced(code) && c.At? && Tracks(code, c) && c.i < |code| && code[c.i] == ']'
    ensures var d := Step(code, keys, c).value;
      d.At? && code[d.i] == '[' && Scan(code, d.i, 0) == Some(c.i) && d.s == c.s
  {
    hide Open, Scan, Balanced, Basic;
    OpenAtClose(code, c.i);
    var r := Open(code, c.i);
    var i := r[|r| - 1];
    OpenAround(code, c.i, |r| - 1);
    assert r == r[..|r| - 1] + [i];
    OpenNext(code, i);
    ScanTo(code, i, i + 1, c.i);
  }

  // ----- the interpreter -----

  class Interpreter {
    const code: string
    const keys: nat -> byte
    const tape: array<byte>
    const stack: array<nat>
    var p: int
    var stackLen: nat
    var i: nat
    var out: seq<byte>
    var taken: nat

    ghost predicate Valid()
      reads this
    {
      tape.Length == TAPE && stack.Length == DEPTH && stackLen <= DEPTH
    }

    ghost function Value(): Config
      reads this, tape, stack
      requires Valid()
    {
      At(i, stack[..stackLen], State(tape[..], p, out, taken))
    }

    /** A fresh tape holds whatever the memory held. */
    constructor (code: string, keys: nat -> byte, cells: nat -> byte)
      ensures Valid() && this.code == code && this.keys == keys && fresh(tape) && fresh(stack)
      ensures Value() == At(0, [], State(tape[..], 10000, [], 0))
    {
      this.code, this.keys := code, keys;
      tape := new byte[TAPE](cells);
      stack := new nat[DEPTH](_ => 0);
      p, stackLen, i, out, taken := 10000, 0, 0, [], 0;
    }

    /** The forward scan from an open bracket. */
    method FindEnd() returns (end: Option<nat>)
      requires i < |code| && code[i] == '['
      ensures end == Scan(code, i, 0)
    {
      var k, j := i, 0;
      while k < |code|
        invariant i <= k <= |code| && Scan(code, i, 0) == Scan(code, k, j)
      {
        if code[k] == '[' {
          j := j + 1;
        }
        if code[k] == ']' {
          j := j - 1;
        }
        if j == 0 { return Some(k); }
        k := k + 1;
      }
      end := None;
    }

    /** A command that is not a bracket. */
    method Perform() returns (ok: bool)
      requires Valid() && i < |code| && code[i] != '[' && code[i] != ']'
      modifies this`p, this`out, this`taken, tape
      ensures Valid()
      ensures match Basic(code[i], old(Value()).s, keys)
        case None => !ok
        case Some(s) => ok && Value() == old(Value()).(s := s)
    {
      var c := code[i];
      ok := true;
      if c == '>' {
        p := p + 1;
      } else if c == '<' {
        p := p - 1;
      } else if c in "+-.," {
        if !(0 <= p < tape.Length) { return false; }
        var cell: int := tape[p];
        if c == '+' {
          tape[p] := (cell + 1) % 256;
        } else if c == '-' {
          tape[p] := (cell + 255) % 256;
        } else if c == '.' {
          out := out + [tape[p]];
        } else {
          tape[p] := keys(taken);
          taken := taken + 1;
        }
      }
    }

    /** One turn of the loop. */
    method Cycle() returns (fault: Option<Fault>)
      requires Valid() && i < |code|
      modifies this`p, this`stackLen, this`i, this`out, this`taken, tape, stack
      ensures Valid()
      ensures Step(code, keys, old(Value())) == Some(if fault.None? then Value() else Stopped(fault.value))
    {
      hide Basic, Scan;
      ghost var was := stack[..stackLen];
      if code[i] == '[' {
        if !(0 <= p < tape.Length) { return Some(OffTape); }
        if tape[p] != 0 {
          if stackLen == DEPTH { return Some(Overflow); }
          stack[stackLen] := i;
          stackLen := stackLen + 1;
          assert stack[..stackLen] == was + [i];
        } else {
          var end := FindEnd();
          if end.None? { return Some(Unmatched); }
          i := end.value;
        }
        i := i + 1;
      } else if code[i] == ']' {
        if stackLen == 0 { return Some(Underflow); }
        stackLen := stackLen - 1;
        i := stack[stackLen];
        assert stack[..stackLen] == was[..stackLen];
      } else {
        var ok := Perform();
        if !ok { return Some(OffTape); }
        i := i + 1;
      }
      fault := None;
    }

    /** The whole loop, cut off after `limit` turns: it goes through the machine's configurations. */
    method Run(limit: nat) returns (turns: nat, fault: Option<Fault>)
      requires Valid()
      modifies this`p, this`stackLen, this`i, this`out, this`taken, tape, stack
      ensures Valid() && turns <= limit
      ensures Iterate(Machine(code, keys), old(Value()), turns) ==
        Some(if fault.None? then Value() else Stopped(fault.value))
      ensures turns == limit || fault.Some? || i >= |code|
    {
      hide Step;
      turns := 0;
      ghost var f, c := Machine(code, keys), Value();
      while turns < limit && i < |code|
        invariant Valid() && turns <= limit && Iterate(f, c, turns) == Some(Value())
      {
        ghost var d := Value();
        fault := Cycle();
        ghost var e := if fault.None? then Value() else Stopped(fault.value);
        assert f(d) == Some(e);
        IterateAdd(f, c, turns, 1, d);
        assert Iterate(f, e, 0) == Some(e) && Iterate(f, d, 1) == Some(e);
        turns := turns + 1;
        if fault.Some? { return; }
      }
      fault := None;
    }
  }
}
