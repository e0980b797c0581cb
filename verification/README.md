# A model of PlantOS user programs

These modules model algorithms of the applications and scripts of this repository and prove what they are for.
`dafny verify dfyconfig.toml` checks everything.

- **c4** (`C4*.dfy`): the one-pass C compiler and the stack machine that runs its output. `C4Words` has 64-bit words and
  byte memory, `C4Machine` the step function of the machine and `C4Vm` the interpreter loop; `C4Syntax` the trees with a
  direct recursive compile, `C4Semantics` their big-step meaning, `C4ExprRuns` (with `C4Steps`, `C4Parts`, `C4Frames`)
  the proof that compiled code has that meaning; `C4Parser` and `C4Statements` specify the one-pass parser, `C4Compiler`
  is the parser as it runs over mutable state, `C4Printer` and `C4Parens` prove that it reads every printed tree and emits
  its direct compile; `C4Reader`, `C4Accepts` and `C4Bodies` say which tree is read from any tokens, and what is accepted
  and emitted for it; `C4OnePass` joins parsing and running for one function, `C4Jumps` is about jump targets and
  `C4Symbols` about the symbol table and the frame layout; `C4Declarations` specifies the declaration loop of `main`,
  `C4Main` is that loop over mutable state, and `C4Programs`, `C4Written` and `C4Names` are about whole programs. What all
  this rests on is pinned down from outside: `C4Arithmetic` says by number theory and bits what the operators compute,
  `C4Meaning` what expressions mean as C, and `C4Precedence` gives the grammar by a table of ranks.
- **curl** (`Http*.dfy`, with `Strings` and `Numerals`): the HTTP/1.1 client. `HttpDecode` is a decoder on the whole byte
  string of a connection; `HttpBuffer`, `HttpStream` and `HttpMessage` are the growable buffer, the refillable stream and
  the readers over them, proved to compute that decoder for every way `recv` divides the bytes. `HttpChunks` and
  `HttpLength` are about the chunked coding and Content-Length, `HttpAnswers` about what the client delivers for responses
  as they are written, `HttpUrl` and `HttpReferences` about URLs and relative references, and `HttpRequest` about requests.
- **Doom** (`Doom*.dfy`): the melt between two screens, clipping and line drawing of the automap, the tic loop, and demos.
- **Brainfuck** (`Brainfuck*.dfy`): the interpreter with its run-time bracket stack, against nested while loops.
- **kernel-perf** (`KernelPerf`, `KernelFold`, `FlameTree`, `FlameLayout`): checking a profile, folding its stacks, the
  prefix tree, and the layout of the flame graph.

`Wrappers`, `Octets` and `Transitions` are shared: the optional value, bytes, and runs of a deterministic machine; `DoomCmd`
is the command that the tic loop and demos have in common.

## Conventions

- c4. A code address is the index of a word in the text area, which is apart from data memory; a word is a signed 64-bit
  number with wrap-around, `char` is signed, and division traps on zero. In the meaning of a program `own` is the set of
  addresses the running function may touch and `m` its initialised bytes; reading anything else has no meaning. `fuel`
  counts loop iterations and call depth, and every theorem holds for all fuel, so it is about all terminating runs.
  `Library` says that the library names have the opcodes that line 371 of c4.c gives them. Trees for the compile theorems
  have variables, dereferences and index expressions as targets; which other trees c4 lets through is `C4Parens.LvalueTest`.
- curl. A byte is a character. A connection is a list of pieces of 1 to 8192 bytes and a way to end (closed, timed out,
  broken). Memory requests of representable size succeed and output is never refused. A NUL is a token character, because
  the search for it in the list of punctuation finds the terminator; the code is followed in this.
- Doom. Integers are mathematical except where the source stores into a byte or a short. Two pixels are moved as one
  word, so widths are even. Random bytes, the clock and the player's input are parameters; a clock may read anything for
  any finite time and then advances. `DoomTics` is the single-player build: no multiplayer and no drone.
- Brainfuck. What a fresh tape holds is a parameter, as are the keys. Touching a cell off the tape is a fault.
- kernel-perf. The arithmetic of the layout is exact, on reals.

## Model

| member | source | states |
|---|---|---|
| C4ExprRuns.ExprRuns | apps/c4/c4.c:145-293 | Compiling an expression preserves its meaning: from any machine state that represents the source state, the emitted words run to just past themselves with the source value in `a`, `sp` and `bp` unchanged and memory as the source meaning says, for short-circuits (which yield the last operand), `?:`, pre/post `++`/`--` and pointer scaling alike |
| C4ExprRuns.AddrRuns | apps/c4/c4.c:178-183 | The address code of an lvalue leaves the address the source meaning gives it, with everything else represented as before |
| C4ExprRuns.AssignRuns | apps/c4/c4.c:231-235 | Assignment pushes the address in place of the load, evaluates the right side and stores it; a `char` store truncates the value that is left |
| C4ExprRuns.BinRuns | apps/c4/c4.c:247-271 | The code of a binary operator runs to the value the source meaning gives it, left operand first, with `+` and `-` scaled when the left type is above PTR; `C4Meaning.BinaryMeans` says which value that is |
| C4ExprRuns.ShortRuns | apps/c4/c4.c:245-246 | The logical or and and skip the right operand exactly when the left decides, through the backpatched branch, and yield the last operand evaluated |
| C4ExprRuns.CondRuns | apps/c4/c4.c:236-244 | `?:` runs exactly one of its branches, through two backpatched branches |
| C4ExprRuns.PreIncRuns | apps/c4/c4.c:217-226 | `++x` and `--x` read, move and store the value by the unit of its type and yield what was stored |
| C4ExprRuns.PostIncRuns | apps/c4/c4.c:272-282 | `x++` and `x--` store the moved value and undo the move on the accumulator |
| C4ExprRuns.ArgsRuns | apps/c4/c4.c:169 | Arguments are evaluated first to last and pushed downwards, each before the next is evaluated |
| C4ExprRuns.CallRuns | apps/c4/c4.c:166-176 | A call pushes its arguments, runs the callee and drops them: `sp` and `bp` are as before the call, and the value is the callee's |
| C4ExprRuns.CalleeRuns | apps/c4/c4.c:501-506 | JSR, ENT, the body and LEV come back to the word after the call with the caller's `bp` and the arguments still on the stack, for any number of parameters and locals |
| C4ExprRuns.StmtRuns | apps/c4/c4.c:295-342 | Compiling a statement preserves its meaning, for any nesting: it falls off its end with the state the structured meaning gives, or stands at a LEV when the meaning returns |
| C4ExprRuns.StmtsRuns | apps/c4/c4.c:330-334 | The same for the statements of a block, one after another up to the first that returns |
| C4ExprRuns.IfRuns | apps/c4/c4.c:299-312 | `if` without `else`: the backpatched BZ skips the body exactly when the condition is zero |
| C4ExprRuns.IfElseRuns | apps/c4/c4.c:299-312 | `if`/`else`: exactly one branch runs, and the other is jumped over |
| C4ExprRuns.WhileRuns | apps/c4/c4.c:313-323 | `while`: any number of iterations, each back through the JMP to the condition |
| C4Steps.StepBranch | apps/c4/c4.c:502-503 | BZ and BNZ go to their operand or past it by the accumulator alone, and change nothing else |
| C4Steps.StepStore | apps/c4/c4.c:509-510 | SI and SC pop the address and store at it; what is stored is what the source memory then holds there and nowhere else |
| C4Frames.StepEnt | apps/c4/c4.c:504 | ENT saves `bp` and makes room for the locals: the machine then represents the callee's frame |
| C4Frames.StepLev | apps/c4/c4.c:506 | LEV restores the caller's `bp` and `sp` from the frame and returns to the saved word, because the callee cannot have overwritten either |
| C4Frames.StepJsr | apps/c4/c4.c:501 | JSR pushes the index after its operand and goes to the entry |
| C4Frames.StepAdj | apps/c4/c4.c:505 | ADJ drops the arguments: the machine again represents the caller's frame |
| C4Words.DecodeEncode | apps/c4/c4.c:507-510 | A 64-bit word stored as eight bytes is read back as itself |
| C4Words.ReadWritten | apps/c4/c4.c:507-509 | A word written at an address is what is read there, and reads elsewhere are unaffected |
| C4Words.LittleEndian | apps/c4/c4.c:507-509 | A word lies in memory lowest byte first in two's complement: the positional value of its eight bytes is the word modulo 2^64, and reading takes the same value |
| C4Arithmetic.OperatorMeans | apps/c4/c4.c:512-527 | What each binary token computes, without the machine's own arithmetic: comparisons give 1 exactly when the relation holds and 0 otherwise; `+`, `-`, `*` are exact modulo 2^64; division and remainder satisfy `q*y + r = x` with `r` smaller than `y` and of the sign of `x`, and fail exactly for zero and for the one quotient that does not fit; the bit operators work bit by bit; shifts go by powers of two |
| C4Arithmetic.StepComputes | apps/c4/c4.c:512-527 | One turn of the machine on an arithmetic opcode pops the left operand and leaves exactly that |
| C4Meaning.BinaryMeans | apps/c4/c4.c:247-271 | A binary operator in the source: left operand, right operand, then the operator by that meaning, with a pointer moved by the size of what it points to and a difference of pointers counted in elements |
| C4Meaning.LogNotMeans | apps/c4/c4.c:209 | `!` gives 1 for zero and 0 for everything else |
| C4Meaning.BitNotMeans | apps/c4/c4.c:210 | `~` turns every bit |
| C4Meaning.NegMeans | apps/c4/c4.c:212-216 | `-` negates modulo 2^64 |
| C4Meaning.SizeofMeans | apps/c4/c4.c:156-163 | `sizeof` is 1 for `char` and 8 for everything else |
| C4Meaning.ObjectMeans | apps/c4/c4.c:178-204 | An lvalue yields the object of its type at its address: a sign-extended byte for `char`, a word otherwise |
| C4Meaning.StoreMeans | apps/c4/c4.c:509-510 | A store changes exactly the object of its type at the address and leaves the stored value as that type keeps it |
| C4Meaning.AssignMeans | apps/c4/c4.c:231-235 | Assignment evaluates the address, then the right side, and stores |
| C4Meaning.IndexMeans | apps/c4/c4.c:283-290 | `x[y]` is the object `y` elements behind `x` |
| C4Meaning.PreIncMeans | apps/c4/c4.c:217-226 | `++x` and `--x` move the object by one element and yield what it then holds |
| C4Meaning.PostIncMeans | apps/c4/c4.c:272-282 | `x++` and `x--` do the same to memory |
| C4Meaning.CondMeans | apps/c4/c4.c:236-244 | `?:` has the value of its middle part exactly when its condition is not zero, and of its last part otherwise |
| C4Meaning.LorMeans | apps/c4/c4.c:245 | The logical or is its left value unless that is zero, and then its right one |
| C4Meaning.LanMeans | apps/c4/c4.c:246 | The logical and is its right value unless the left one is zero |
| C4Meaning.IfMeans | apps/c4/c4.c:299-312 | A condition other than zero selects the first statement, zero the second or nothing |
| C4Meaning.WhileEnds | apps/c4/c4.c:313-323 | A loop that ends by itself has gone some number of rounds, each with a condition other than zero, and then its condition was zero |
| C4Meaning.StarsMean | apps/c4/c4.c:199-208 | Addresses have one star more, dereferences and index expressions one less |
| C4Meaning.SameTypes | apps/c4/c4.c:217-244 | Assignments and increments keep the type of their target, `?:` that of its last part |
| C4Meaning.BinaryTypes | apps/c4/c4.c:247-271 | The types of binary operators: a sum has its left side's, a difference of two equal pointers is `int` except for two of type `char*`, everything else is `int` |
| C4Meaning.PointersOnly | apps/c4/c4.c:199-203 | Exactly pointers may be dereferenced or indexed |
| C4Vm.Vm.Cycle | apps/c4/c4.c:488-529 | One turn of the interpreter loop computes the step function of the registers and memory, and stops exactly where that has no step |
| C4Vm.Vm.CycleImmediate | apps/c4/c4.c:498-505 | The opcodes with an operand |
| C4Vm.Vm.CyclePlain | apps/c4/c4.c:506-528 | The opcodes without an operand, the arithmetic ones as `C4Arithmetic.StepComputes` says |
| C4Vm.Vm.Run | apps/c4/c4.c:488-541 | `n` turns of the loop are `n` steps of the step function |
| C4Printer.ReadsBack | apps/c4/c4.c:145-293 | Reading the tokens of any tree that stands open at its level consumes exactly them and emits the direct compile of the tree, and the operator loop goes on with what follows |
| C4Printer.ReadOperand | apps/c4/c4.c:229-292 | An operand read at a level above the next token ends exactly there |
| C4Printer.LastWordIsLoad | apps/c4/c4.c:182-206 | The code of an lvalue is its address code and one load |
| C4Printer.ReadAssign | apps/c4/c4.c:231-235 | `=` takes its right side at its own level, so it associates to the right |
| C4Printer.ReadCond | apps/c4/c4.c:236-244 | `?:` takes its last part at its own level, so it associates to the right |
| C4Printer.ReadBin | apps/c4/c4.c:247-271 | Each binary operator takes its right operand one level tighter, so it associates to the left |
| C4Parens.PrecedenceClimbing | apps/c4/c4.c:145-293 | On the tokens of any tree with the parentheses that its levels need, `expr(lev)` consumes exactly them and emits what a direct recursive compile of the tree gives; the levels are those of C by `C4Precedence.FitsGrammar` |
| C4Parens.FittedFits | apps/c4/c4.c:229-292 | Adding a pair of parentheses where an operator may not stand open is always enough |
| C4Parens.FittedStable | apps/c4/c4.c:185-198 | No parentheses are added to a tree whose operators all stand open where they may |
| C4Accepts.ParenthesesNeeded | apps/c4/c4.c:185-198 | Parentheses are added exactly to the trees whose tokens would not be read as themselves |
| C4Reader.ReadBackExactly | apps/c4/c4.c:229-292 | A tree's tokens are read as that tree exactly when every open operator is admitted at its level and every operand ends where its operator wants it to |
| C4Reader.ReadFits | apps/c4/c4.c:145-293 | Whatever tree the parser reads, from any tokens, has every operator standing open where it may, and ends before a looser operator |
| C4Reader.Unambiguous | apps/c4/c4.c:145-293 | No two trees that can be read as themselves are written alike |
| C4Precedence.ReadsGrammar | apps/c4/c4.c:229-292 | The grammar that is read is C's, by a table of ranks: a tree's tokens are read as that tree exactly when each operand of each operator binds tightly enough, with binary operators grouping to the left, `=` and `?:` to the right, prefix operators under postfix ones |
| C4Precedence.ReadIsGrammar | apps/c4/c4.c:145-293 | Whatever tree is read from any tokens is one of that grammar |
| C4Precedence.FitsGrammar | apps/c4/c4.c:229-292 | The levels that `expr` passes to itself ask of a tree exactly what the ranks ask, at every level and before every token |
| C4Precedence.CompilesGrammar | apps/c4/c4.c:145-293 | The one-pass compiler emits for a tree of the grammar the code of that tree |
| C4Precedence.TwoOperators | apps/c4/c4.c:229-271 | `a op1 b op2 c` reads with `b` on the side of the operator of higher rank; of two of the same rank the first takes it, except that assignments group to the right |
| C4Precedence.AroundConditional | apps/c4/c4.c:236-244 | A conditional and any other operator next to it, before it, inside it and behind it |
| C4Accepts.ExprAgrees | apps/c4/c4.c:145-293 | On any tokens at all: what `expr` accepts reads as a tree and consumes that tree's tokens; a tree whose targets of `=`, `&`, `++` and `--` are lvalues is accepted exactly when it is typed; and a typed tree is compiled directly |
| C4Accepts.LoopAgrees | apps/c4/c4.c:229-292 | The same for the operator loop, from any state reached by reading its left side |
| C4Accepts.CondAgrees | apps/c4/c4.c:236-244 | The same for `?:`, whose two branches are patched between and after its parts |
| C4Accepts.ArgsAgree | apps/c4/c4.c:169 | The same for arguments, with a comma between them or not |
| C4Bodies.StmtReadBackExactly | apps/c4/c4.c:295-342 | A statement's tokens are read as that statement exactly when no `else` is taken by another `if` and its expressions need no further parentheses |
| C4Bodies.StmtReadFits | apps/c4/c4.c:295-342 | Whatever statement the parser reads, from any tokens, is one that reads as itself |
| C4Bodies.StmtAgrees | apps/c4/c4.c:295-342 | On any tokens at all: what `stmt` accepts reads as a statement; one whose targets are lvalues is accepted exactly when it is typed; and a typed one is compiled directly, with all branches backpatched |
| C4Bodies.BlockAgrees | apps/c4/c4.c:330-334 | The same for statements up to and over a closing brace |
| C4Parens.FittedAlike | apps/c4/c4.c:194-197 | The added parentheses change no emitted word, type or lvalue |
| C4Parens.LvalueTest | apps/c4/c4.c:206-233 | The test on the last emitted word, exactly: it passes for the lvalues and for those other trees whose last operand happens to equal LI or LC |
| C4Parens.LvaluesPass | apps/c4/c4.c:206-233 | Every variable, dereference and index expression, also in parentheses, passes the test |
| C4Parens.NineIsAssignable | apps/c4/c4.c:231-235 | A concrete tree the test lets through: `9 = 5` compiles, because 9 is the code of LI |
| C4Statements.StmtReadsBack | apps/c4/c4.c:295-342 | Reading the tokens of a statement consumes exactly them and emits its direct compile, with every branch backpatched |
| C4Statements.StmtsReadBack | apps/c4/c4.c:330-334 | The same for a block up to and over its closing brace |
| C4Compiler.Compiler.Expr | apps/c4/c4.c:145-293 | `expr` as it runs over its globals is the parser function that the reading lemmas are about, with the same message on every error |
| C4Compiler.Compiler.Prefix | apps/c4/c4.c:149-227 | The first half of `expr`: literals, identifiers, casts, parentheses and prefix operators |
| C4Compiler.Compiler.Infix | apps/c4/c4.c:229-292 | One round of the operator loop |
| C4Compiler.Compiler.Unary | apps/c4/c4.c:199-226 | The prefix operators, with the last emitted word taken back or moved for `&`, `++` and `--` |
| C4Compiler.Compiler.Call | apps/c4/c4.c:165-176 | A call by name, with its optional commas |
| C4Compiler.Compiler.Variable | apps/c4/c4.c:177-183 | A constant, local or global, or the error for an undefined name |
| C4Compiler.Compiler.Sizeof | apps/c4/c4.c:156-163 | `sizeof` of a type |
| C4Compiler.Compiler.Parenthesis | apps/c4/c4.c:185-198 | A cast or a parenthesised expression |
| C4Compiler.Compiler.Assignment | apps/c4/c4.c:231-235 | Assignment rewrites the load the left side ended in |
| C4Compiler.Compiler.Conditional | apps/c4/c4.c:236-244 | `?:` with both operands backpatched in place |
| C4Compiler.Compiler.Short | apps/c4/c4.c:245-246 | The logical or and and with their operand backpatched in place |
| C4Compiler.Compiler.Binary | apps/c4/c4.c:247-271 | The binary operators |
| C4Compiler.Compiler.Postfix | apps/c4/c4.c:272-282 | Postfix `++` and `--` |
| C4Compiler.Compiler.Subscript | apps/c4/c4.c:283-290 | Index expressions, refused for types below PTR after the index has been read |
| C4Compiler.Compiler.Statement | apps/c4/c4.c:295-342 | `stmt` as it runs is the statement parser, with the same message on every error |
| C4Compiler.Compiler.IfStatement | apps/c4/c4.c:299-312 | `if` with its branches backpatched in place |
| C4Compiler.Compiler.WhileStatement | apps/c4/c4.c:313-323 | `while` with its exit backpatched in place |
| C4OnePass.FuncEmitted | apps/c4/c4.c:452-454 | Compiling a function body from its tokens emits ENT, the body and LEV, the direct compile of the function |
| C4OnePass.TextPlaced | apps/c4/c4.c:415-417 | Every function of a compiled program stands at its entry |
| C4OnePass.ExprOnePass | apps/c4/c4.c:145-293 | End to end for one expression, from its tokens to its value |
| C4OnePass.PostIncValue | apps/c4/c4.c:272-282 | `x++` and `x--` yield the value that was loaded, exactly except when a `char` is stored back and the moved value does not fit one: the undoing is not truncated |
| C4OnePass.PostIncOfCast | apps/c4/c4.c:272-282 | A concrete case that fails: `((char)i)++` with 300 in the `int` variable `i` yields 44 |
| C4Jumps.FuncLands | apps/c4/c4.c:452-454 | Every jump in a compiled function goes to the start of one of that function's own instructions |
| C4Jumps.StmtLands | apps/c4/c4.c:295-342 | Every jump in the code of a statement goes to the start of one of its instructions or to its end |
| C4Jumps.ExprLands | apps/c4/c4.c:236-246 | The same for the code of any expression |
| C4Symbols.DeclareDeclares | apps/c4/c4.c:419-451 | Declarations succeed exactly when no identifier is local already or declared twice, and then shadow exactly the declared identifiers, numbered in order |
| C4Symbols.EnteredExactly | apps/c4/c4.c:418-451 | The head of a function is accepted exactly when its parameters and locals are all different |
| C4Symbols.UnwindRestores | apps/c4/c4.c:455-463 | After the body every symbol has the class, type and value it had before the function, and none is local, for any parameters followed by any locals and whatever identifiers the body has added |
| C4Symbols.SlotsDistinct | apps/c4/c4.c:428-452 | `LEA loc - Val` gives every parameter and local its own slot, none of them the saved `bp` or the return word |
| C4Symbols.ParamIsArgument | apps/c4/c4.c:179 | In the callee, parameter `j` lies where the caller pushed argument `j`, and reading it gives that argument |
| C4Symbols.LocalIsOwned | apps/c4/c4.c:436-452 | In the callee, local `j` lies in the callee's own frame |
| C4Symbols.Table.DeclareAll | apps/c4/c4.c:419-451 | The declaration loop over the symbol table, refusing a duplicate |
| C4Symbols.Table.Unwind | apps/c4/c4.c:455-463 | The unwinding loop over the symbol table |
| C4Symbols.Table.EnterFunction | apps/c4/c4.c:415-452 | The head of a function: parameters, `loc`, locals, and the operand of ENT |
| C4Programs.FunctionReads | apps/c4/c4.c:415-464 | Any function definition that is accepted has a head of different parameters and locals, numbered as the frame needs; its body is compiled in the table they make, after ENT; and afterwards the table is as it was |
| C4Programs.FunctionKeeps | apps/c4/c4.c:415-464 | A function definition keeps what holds between declarations: no symbol local, every symbol of class function at the index of a function read under its name, and the text area the compiled functions one after another |
| C4Programs.DeclarationsKeep | apps/c4/c4.c:383-473 | Every declaration keeps it, so it holds of any program that is accepted |
| C4Programs.ProgramEmitted | apps/c4/c4.c:383-473 | Any program that is accepted, from its tokens: every symbol of class function is one of the functions read, and if the targets in its bodies are lvalues the bodies are typed and the text area is their direct compile one after another, each at the index its symbol holds |
| C4Programs.ProgramRuns | apps/c4/c4.c:383-541 | End to end, from a program's tokens: calling any name that is a function after the last declaration runs to just past the call with the meaning of the function read under that name |
| C4Written.ProgramReads | apps/c4/c4.c:383-473 | Written programs, declarations of any base type or enum with any list of names in any order, the last of a list perhaps a function, are accepted exactly when every name is new where it is declared, the parameters and locals of each function are all different, and each body is typed in the table they make; tables, words and data are then those of the items |
| C4Written.ItemReads | apps/c4/c4.c:408-473 | The same for one declaration |
| C4Written.ParamsRead | apps/c4/c4.c:418-432 | A parameter list is read name by name, and refused at the first name declared twice |
| C4Written.NamesRead | apps/c4/c4.c:408-471 | Any list of names, each with its own stars and perhaps a function as the last, is read as variables in order and then the function |
| C4Written.LinesRead | apps/c4/c4.c:436-451 | Any lines of locals, each with any list of names, declare all names in order, and are refused at the first name declared twice |
| C4Written.EnumRead | apps/c4/c4.c:389-406 | Any items of an enum, with given or counted values, are read and numbered in order |
| C4Names.ListLaw | apps/c4/c4.c:408-470 | Every name of a list becomes a variable of the declaration's base type with the name's own stars and the next word of data, and nothing else changes |
| C4Names.EnumLaw | apps/c4/c4.c:393-404 | Every enum item gets the value it is given, or one more than the item before it, the first 0, unless its name comes again |
| C4Names.NameStays | apps/c4/c4.c:383-473 | A name with a meaning keeps it through any further declarations, unless an enum gives it another: functions restore the table, and variables and functions may not use it again |
| C4Names.VariableIs | apps/c4/c4.c:408-470 | In the table of any accepted program every variable of every list has its base type with its own stars and the word of data after those of all variables before it |
| C4Names.FunctionIs | apps/c4/c4.c:413-417 | Every function has its type and the entry recorded for it |
| C4Names.ItemIs | apps/c4/c4.c:393-404 | Every enum item is a number with its value |
| C4Names.DeclaredVariable | apps/c4/c4.c:383-473 | The same for variables from the program's tokens through the declaration loop |
| C4Main.MainLoop.Run | apps/c4/c4.c:383-473 | The declaration loop as it runs over its globals computes what the program theorems are about, with the same message on every error |
| C4Main.MainLoop.Definition | apps/c4/c4.c:415-464 | A function definition as it runs: its symbol, head, body and the unwinding |
| C4Main.MainLoop.Body | apps/c4/c4.c:452-463 | ENT, the statements one after another, LEV, and the table unwound |
| C4Main.MainLoop.Parameters | apps/c4/c4.c:418-431 | The parameter loop over the symbol table |
| C4Main.MainLoop.LocalDeclarations | apps/c4/c4.c:436-451 | The loops over local declarations and their names |
| C4Main.MainLoop.DeclareGlobals | apps/c4/c4.c:408-471 | The loop over the names of a declaration computes what `C4Written.NamesRead` and `C4Names.ListLaw` are about, with its checks |
| C4Main.MainLoop.Items | apps/c4/c4.c:393-404 | The loop over the items of an enum computes what `C4Written.EnumRead` and `C4Names.EnumLaw` are about |
| HttpBuffer.ByteBuffer.Reserve | apps/curl/curl.c:85-109 | Room for more bytes and the terminator is made exactly when the total fits 32 bits, without touching the contents; the new capacity is the first doubling, from 256, that is enough, or what is needed when doubling would leave 32 bits |
| HttpBuffer.ByteBuffer.Append | apps/curl/curl.c:111-120 | The bytes are appended, or nothing changes when the total would not fit |
| HttpStream.Stream.Fill | apps/curl/curl.c:719-729 | A fill never loses or reorders bytes, and reports end or error only when none are left |
| HttpStream.Stream.Read | apps/curl/curl.c:731-741 | A read takes a non-empty prefix of what is left, unless nothing is |
| HttpStream.Stream.ReadLine | apps/curl/curl.c:743-772 | However the bytes are divided, the line, its limit and its errors are those of the first line of the whole rest, and exactly that line is consumed |
| HttpStream.Stream.Copy | apps/curl/curl.c:949-974 | Exactly `n` bytes go to the output and no more are consumed, or the error and the partial output are those of the whole rest |
| HttpStream.Stream.CopyUntilClose | apps/curl/curl.c:949-974 | Everything up to the end of the connection goes to the output |
| HttpStream.Stream.ExpectCrlf | apps/curl/curl.c:1016-1032 | The two bytes after a chunk, however they arrive |
| HttpMessage.FindColon | apps/curl/curl.c:376-393 | The colon of a header line: a non-empty token before it, no control characters after it |
| HttpMessage.ParseStatus | apps/curl/curl.c:774-793 | A status line is accepted exactly in the form `HTTP/1.d ddd[ text]` with a first digit from 1 to 5, and the status is its three digits |
| HttpMessage.Reply.ParseHeader | apps/curl/curl.c:846-887 | One header line changes exactly the field it names: the agreed length, the coding (a second one makes it unsupported), the one location |
| HttpMessage.ReadResponse | apps/curl/curl.c:895-940 | Segmentation independence of the head: result code, status, fields and raw headers are those of a decoder on the whole string, and the stream is left after the blank line |
| HttpMessage.SkipTrailers | apps/curl/curl.c:1047-1066 | The trailer lines are checked and limited as on the whole string, and consumed up to the blank line |
| HttpMessage.CopyChunked | apps/curl/curl.c:1034-1079 | Segmentation independence of a chunked body: result code, output and what is left are those of the chunked decoder on the whole string |
| HttpMessage.ReadBody | apps/curl/curl.c:1086-1099 | Chunked coding wins over a length, an unsupported coding is refused, and without either the body is all that comes |
| HttpMessage.Answer | apps/curl/curl.c:1143-1182 | Segmentation independence of a whole exchange: for every way of dividing the bytes, code and output are one function of the whole string, the one that the `HttpAnswers` rows are about |
| HttpAnswers.HeadReads | apps/curl/curl.c:895-940 | A head as it is written, in any version of HTTP/1, with any reason and line endings and fields in any case and padding, is read as what its fields say and kept with full line endings |
| HttpAnswers.InterimsPass | apps/curl/curl.c:1143-1163 | Any number of interim responses in front, 101 apart, changes nothing but the heads that are written |
| HttpAnswers.LengthAnswer | apps/curl/curl.c:1081-1099 | Status 200 to 599 but 204, 205 and 304, a request other than HEAD, no coding and Content-Length `n`: code Ok and exactly the next `n` bytes; with fewer, those bytes and the code of the connection's end |
| HttpAnswers.ChunkedAnswer | apps/curl/curl.c:1081-1099 | The same head with chunked coding and any encoding of chunks: code Ok and their concatenation, also when there is a Content-Length |
| HttpAnswers.ChunkedAnswerOnly | apps/curl/curl.c:1034-1099 | And if it ends with Ok, the bytes are an encoding of what is written |
| HttpAnswers.OtherCodingAnswer | apps/curl/curl.c:1089-1092 | Any other coding, or a second one, is a protocol error with nothing of the body written |
| HttpAnswers.UntilCloseAnswer | apps/curl/curl.c:1097-1098 | Without either field everything up to the end of the connection is written, with Ok exactly for a proper close |
| HttpAnswers.NoBodyAnswer | apps/curl/curl.c:1081-1084 | After HEAD, and with 204, 205 and 304, nothing of a body is written, whatever the fields say |
| HttpAnswers.SwitchAnswer | apps/curl/curl.c:1159-1162 | 101 is refused after its head |
| HttpAnswers.BadLocationAnswer | apps/curl/curl.c:879-885 | A head with a second Location, or an empty one, is refused |
| HttpAnswers.StatusOnly | apps/curl/curl.c:774-793 | Nothing is a status line but `HTTP/1.` and a digit, a status from 100 to 599, and perhaps a reason |
| HttpText.HeaderExactly | apps/curl/curl.c:355-393 | A header line is exactly visible characters that are no delimiter (section 5.6.2 of RFC 9110) or NUL, at least one, then a colon, then no control characters but tabs |
| HttpText.CaseMeans | apps/curl/curl.c:395-411 | Names are compared up to the case of letters and nothing else |
| HttpChunks.ScanSize | apps/curl/curl.c:976-998 | The digits of a chunk size are read exactly in 64 bits and refused from 2^64 on |
| HttpChunks.ParseChunkSize | apps/curl/curl.c:976-1014 | A chunk-size line gives its value exactly when it has digits, then blanks, then nothing or an extension without control characters, and fits 64 bits |
| HttpChunks.SizeIsRead | apps/curl/curl.c:976-1014 | Whatever digits and tail a size is written with, it is read back exactly when it is at most 2^64-1 |
| HttpChunks.NumberIsRead | apps/curl/curl.c:976-1014 | The hexadecimal text of any number reads back as the number, up to 2^64-1 |
| HttpChunks.SizeOnly | apps/curl/curl.c:976-1014 | Nothing else is a size line: hexadecimal digits that fit 64 bits, blanks, and perhaps a semicolon and characters that are no controls |
| HttpChunks.ChunkedRoundTrip | apps/curl/curl.c:1034-1079 | Round trip of the chunked coding (section 7.1 of RFC 9112): every encoding of non-empty chunks with any sizes, extensions, line endings and trailers within the limits decodes to the concatenation and leaves the stream at the first byte after the message |
| HttpChunks.ChunkedOnly | apps/curl/curl.c:1034-1079 | And nothing else is accepted: whatever the decoder delivers is the data of some encoding that the consumed bytes are |
| HttpLength.ParseLength | apps/curl/curl.c:795-844 | The scanning loop accepts exactly the comma lists of decimal numbers between blanks that are all equal, equal to a known length, and at most 2^64-1 |
| HttpLength.ReadNumber | apps/curl/curl.c:807-818 | A run of digits is read exactly in 64 bits, and refused as soon as it leaves them |
| HttpLength.ScanElement | apps/curl/curl.c:801-834 | A scan over blanks, digits and blanks closes at a comma or the end exactly for list elements that are a number |
| HttpLength.LengthsAgree | apps/curl/curl.c:895-947 | Over any sequence of header lines: a response is accepted exactly when its status line and other headers are and all Content-Length values are lists of one and the same number of at most 64 bits; it has a length exactly when there is such a value, and that number is it |
| HttpLength.ElementsMean | apps/curl/curl.c:795-844 | The elements of a value are what its commas separate |
| HttpLength.ElementExactly | apps/curl/curl.c:801-834 | An element is a decimal number of at most 64 bits between blanks, and that number |
| HttpLength.LengthsDecide | apps/curl/curl.c:846-887 | Among header lines the Content-Length values alone decide about the length, and the other lines about the rest, in any order |
| HttpLength.HeadersAre | apps/curl/curl.c:895-947 | The loop over a head reads its lines and parses them one after another |
| HttpLength.LengthIsCopied | apps/curl/curl.c:949-974 | The body of a response whose Content-Length values agree on a number is exactly that many bytes, and no more are consumed |
| HttpUrl.Parse | apps/curl/curl.c:159-252 | The URL loops compute the grammar: scheme, authority, host, port, target, and every refusal |
| HttpUrl.ParsePort | apps/curl/curl.c:198-216 | A port is accepted exactly when it is digits of a value from 1 to 65535, without overflow on the way |
| HttpUrl.ParseAuthority | apps/curl/curl.c:173-196 | Host and optional port, with the refused characters, the second colon and the length limit |
| HttpUrl.ParseTarget | apps/curl/curl.c:218-250 | The target up to a fragment, `/` for nothing, a slash before a query |
| HttpUrl.ParsedIsOk | apps/curl/curl.c:159-252 | Every parsed record has a host of 1 to 255 admitted characters, a port from 1 to 65535 and a target that starts with `/` and holds no `#`, space or control character |
| HttpUrl.OkIsParsed | apps/curl/curl.c:159-252 | And every such record is the result of some parse |
| HttpUrl.SpelledRoundTrip | apps/curl/curl.c:159-252 | Parsing `http://host[:port]target` returns the record, for any spelling of the port, which may be left out when it is 80 |
| HttpUrl.PrintRoundTrip | apps/curl/curl.c:311-326 | The text the client prints for a record parses back to the record |
| HttpUrl.OkMeans | apps/curl/curl.c:159-250 | The records of the grammar, character by character |
| HttpUrl.NoPathRoundTrip | apps/curl/curl.c:218-250 | A URL without a path parses to the target `/`, one with only a query to `/` and the query |
| HttpUrl.SchemeIsOptional | apps/curl/curl.c:159-172 | Without a scheme a URL is read as with `http://`; any other text that holds `://` is not HTTP |
| HttpUrl.Resolve | apps/curl/curl.c:276-353 | Reference resolution computes the merge of base and reference, with every refusal |
| HttpUrl.ScanScheme | apps/curl/curl.c:254-274 | A reference has a scheme exactly when letters, digits, `+`, `-` and `.` after a first letter lead to a colon |
| HttpUrl.FindDirectory | apps/curl/curl.c:329-338 | The directory of the base path ends at its last slash |
| HttpUrl.ReferenceResolves | apps/curl/curl.c:306-352 | A reference without scheme and authority (section 5.2 of RFC 3986) keeps host and port; its target is the merged one cut at the fragment, refused exactly when that holds a space or a control character |
| HttpReferences.ReferenceForms | apps/curl/curl.c:306-352 | The forms of section 5.2.2 of RFC 3986, without dot segments, on references as they are written: a path from the root replaces the path, another replaces the last segment, a query alone replaces the query, a fragment alone nothing; the fragment goes |
| HttpReferences.AuthorityForms | apps/curl/curl.c:276-310 | A reference with an authority, with or without `http:`, stands for itself |
| HttpReferences.OtherSchemes | apps/curl/curl.c:254-305 | Any other scheme is refused as not HTTP, and so is `http:` without an authority |
| HttpUrl.FragmentResolves | apps/curl/curl.c:327-328 | A fragment-only reference resolves to the base itself |
| HttpUrl.ResolvedIsOk | apps/curl/curl.c:276-353 | Whatever resolves is a record of the grammar |
| HttpUrl.DirectoryEnds | apps/curl/curl.c:329-341 | The directory is the path up to its last slash, with no slash behind it |
| HttpRequest.CheckOptions | apps/curl/curl.c:576-602 | Methods and headers are accepted exactly when the method is a token other than CONNECT, every header is well formed and not a framing header, and at most one is Host |
| HttpRequest.Build | apps/curl/curl.c:604-654 | The appends produce the request text, or report memory or length exactly when it is too long |
| HttpRequest.RequestReadsBack | apps/curl/curl.c:604-654 | Reading a built request back line by line yields the request line, the fields, and one final blank line |
| HttpRequest.RequestLineIs | apps/curl/curl.c:608-611 | The request line splits at its first two spaces into method, target and version |
| HttpRequest.FieldsAreHeaders | apps/curl/curl.c:612-648 | Every field line is a header by the client's own check |
| HttpRequest.RequestFraming | apps/curl/curl.c:604-654 | Exactly one Host (section 3.2 of RFC 9112), exactly one Connection, Content-Length once exactly when a body is sent, and no Transfer-Encoding |
| HttpRequest.RequestSays | apps/curl/curl.c:604-650 | What the fields hold: Host is the URL's host, with the port exactly when it is not 80; the client's name; any type; the body's type and length; the headers of the options follow unchanged and in order, and the last field closes the connection |
| HttpRequest.MethodExactly | apps/curl/curl.c:576-580 | A method is a token other than CONNECT, character by character |
| HttpRequest.DeclaredLength | apps/curl/curl.c:635-642 | The declared length is the length of the body, by the client's own header reader, exactly when it fits 32 bits |
| DoomWipe.Transpose | apps/doomgeneric/f_wipe.c:42-62 | After the transposition the array holds the columns of the screen one after another |
| DoomWipe.CopyColumn | apps/doomgeneric/f_wipe.c:192-208 | The strided copy replaces exactly the given stretch of one column of the screen |
| DoomWipe.FallsEnd | apps/doomgeneric/f_wipe.c:180-212 | A column reaches the bottom after at most as many ticks as there are rows to go |
| DoomWipe.FallsAdd | apps/doomgeneric/f_wipe.c:180-212 | Ticks in one call or in several come to the same |
| DoomWipe.FallsCourse | apps/doomgeneric/f_wipe.c:180-212 | The course of a column from any start position: it waits, falls 1, 2, 4, 8 and 16 rows, then 8 rows a tick, and stops at the bottom |
| DoomWipe.StartColumns | apps/doomgeneric/f_wipe.c:148-158 | No column has begun to fall, none waits longer than 15 ticks, and neighbours differ by at most one; which of these positions each column has is given by its random byte |
| DoomWipe.Melt.Init | apps/doomgeneric/f_wipe.c:132-161 | The main screen shows the start screen and both screens are held by columns |
| DoomWipe.Melt.FallColumn | apps/doomgeneric/f_wipe.c:188-210 | A falling column shows the end screen above its position and the start screen pushed down below it, and no other column changes |
| DoomWipe.Melt.Tick | apps/doomgeneric/f_wipe.c:182-211 | One tick advances every column by its own step and keeps what every column shows |
| DoomWipe.Melt.DoMelt | apps/doomgeneric/f_wipe.c:163-216 | After any number of ticks every column is where it falls to and shows its part of both screens; done is reported exactly when there were no ticks or nothing had to move |
| DoomWipe.Melt.DownShowsEnd | apps/doomgeneric/f_wipe.c:163-216 | When every column is down, the screen is the untransposed end screen |
| DoomWipe.Melt.ScreenWipe | apps/doomgeneric/f_wipe.c:255-293 | The wipe starts once, ends exactly when the melt reports done, and then, for at least one tick, the screen is the end screen |
| DoomWipe.Melt.Play | apps/doomgeneric/d_main.c:313-329 | With at least one tick to a call the wipe finishes within height + 17 calls and leaves the end screen |
| DoomMap.CutBetween | apps/doomgeneric/am_map.c:926-953 | No cut divides by zero, and each lies between the ends of the line and inside the window in one direction, although the bottom cut is computed for row `h` and placed in row `h - 1` |
| DoomMap.RoundCrosses | apps/doomgeneric/am_map.c:916-973 | Each round moves one outside end, the first if both are outside, to where the line crosses a side it lies beyond, cut off towards the line's first end: short of the exact crossing by less than one and not beyond it; for the bottom it is the crossing with the row below the window, placed in the last row |
| DoomMap.CutOffOnce | apps/doomgeneric/am_map.c:926-953 | That determines the cut |
| DoomMap.FrameOf | apps/doomgeneric/am_map.c:103-106 | Map units become pixels rounded down at 2^32 scaled units a pixel, from the left edge and up from the bottom |
| DoomMap.RejectsExactly | apps/doomgeneric/am_map.c:878-900 | A map line is rejected unseen exactly when both ends lie beyond one side of what is shown |
| DoomMap.RoundReduces | apps/doomgeneric/am_map.c:916-973 | Every round of the clip leaves fewer outcode bits, or both ends beyond one side |
| DoomMap.ClipIsInside | apps/doomgeneric/am_map.c:904-976 | What the clip returns lies in the window and in the box of the line, and a line inside the window is left alone |
| DoomMap.RejectIsRight | apps/doomgeneric/am_map.c:878-914 | A line is rejected for a shared side, on the map or in the window, only if no point of it, in exact arithmetic, is in what is shown |
| DoomMap.Canvas.ClipFrame | apps/doomgeneric/am_map.c:910-976 | The clipping loop on frame-buffer coordinates computes the clip, every round of which is as `DoomMap.RoundCrosses` says |
| DoomMap.Canvas.ClipMapLine | apps/doomgeneric/am_map.c:877-976 | The trivial rejects on the map, the change of coordinates and the loop compute the clip of a map line |
| DoomMap.RoundedIs | apps/doomgeneric/am_map.c:1023-1054 | The pixel row kept by the running error is the ideal one rounded to the nearest, halves up |
| DoomMap.PixelInside | apps/doomgeneric/am_map.c:1012-1054 | Every pixel of a line with both ends in the window is in the window; the first is one end and the last exactly the other |
| DoomMap.WithinHalf | apps/doomgeneric/am_map.c:1012-1054 | Every pixel is within half a pixel of the ideal line across its longer direction |
| DoomMap.Canvas.DrawFlat | apps/doomgeneric/am_map.c:1023-1038 | The x-major loop plots exactly the rounded pixels of the line, one to each step |
| DoomMap.Canvas.DrawSteep | apps/doomgeneric/am_map.c:1039-1054 | The y-major loop plots exactly the rounded pixels of the line, one to each step |
| DoomMap.Canvas.DrawLine | apps/doomgeneric/am_map.c:983-1055 | A line with an end outside the window draws nothing; any other gets the colour on exactly its pixels |
| DoomMap.Canvas.DrawMapLine | apps/doomgeneric/am_map.c:1061-1070 | A map line writes only inside the frame buffer: exactly the pixels of its clipped part, or nothing |
| DoomTics.TicLoop.BuildNewTic | apps/doomgeneric/d_loop.c:136-193 | A command is built exactly when building is less than 5 commands ahead, or 3 under new sync, and no command that has not been run is overwritten |
| DoomTics.TicLoop.NetUpdate | apps/doomgeneric/d_loop.c:203-250 | For any clock: one command is built for each tic that is due once those to be skipped are taken off, as far as building may be ahead of the game; the clock's reading and the tics still to be skipped are kept |
| DoomTics.TicLoop.RunSet | apps/doomgeneric/d_loop.c:797-817 | A command set is run `ticdup` times, the first time as built and then squashed; the check on `gametic` cannot fail |
| DoomTics.TicLoop.WaitForTics | apps/doomgeneric/d_loop.c:765-785 | Waiting ends with enough built or with time passed, and the check on `lowtic` cannot fail |
| DoomTics.TicLoop.TryRunTics | apps/doomgeneric/d_loop.c:706-821 | For any clock readings a turn of the main loop keeps the ring and what has been run as promised, runs exactly the number of sets decided on unless time passed, and reaches neither internal error |
| DoomTics.TicLoop.CountsLeave | apps/doomgeneric/d_loop.c:737-763 | All sets that are available are run when time has caught up, and always under new sync; otherwise one is kept back, and so are those not due yet |
| DoomTics.TicLoop.Delivered | apps/doomgeneric/d_loop.c:787-820 | Tic delivery: every command built for a tic is run exactly `ticdup` times in order, as built first and after that without chat and special buttons, with no other player in the game |
| DoomTics.SlotsDiffer | apps/doomgeneric/d_loop.c:188-189 | Tics less than a ring apart have different slots |
| DoomDemo.DecodeEncode | apps/doomgeneric/g_game.c:1898-2003 | A written command reads back as it is simulated, and looks like the marker exactly when its forward move is -128 |
| DoomDemo.BytesAre | apps/doomgeneric/g_game.c:1956-2003 | The bytes of a command: forward and side move, the turn low byte first or only its high byte, the buttons, all in two's complement |
| DoomDemo.Fidelity | apps/doomgeneric/g_game.c:1898-1922 | Playback of a finished demo yields exactly what was simulated while recording and stops at the marker |
| DoomDemo.Recorder.Grow | apps/doomgeneric/g_game.c:1926-1954 | The buffer doubles with its bytes in place |
| DoomDemo.Recorder.Write | apps/doomgeneric/g_game.c:1956-2003 | A command is kept and played as it will be played back; recording ends instead exactly on request, at a vanilla limit, or for a forward move of -128; nothing is written past the buffer |
| DoomDemo.Recorder.Stop | apps/doomgeneric/g_game.c:2290-2297 | The file is the header, the commands and the marker |
| DoomDemo.RecordAll | apps/doomgeneric/g_game.c:1956-2003 | A whole recording, across any number of doublings, plays back as it was played |
| DoomDemo.Play | apps/doomgeneric/g_game.c:1898-1922 | The reading loop computes the playback of the bytes |
| DoomTurns.MovesAvoidMarker | apps/doomgeneric/g_game.c:553-563 | No clamped move is -128 exactly when the largest move is at most 127, which a large `-turbo` scale breaks |
| DoomTurns.MovesAreKept | apps/doomgeneric/g_game.c:553-563 | With such a largest move the clamped move survives its signed byte |
| DoomTurns.TurnIsRounded | apps/doomgeneric/g_game.c:579-596 | A given turn is a multiple of 256, the carry stays within half a step, and turn plus carry is what was wanted, modulo 2^16 |
| DoomTurns.Turner.Next | apps/doomgeneric/g_game.c:579-596 | One turn of the quantiser with its static carry |
| DoomTurns.Turns | apps/doomgeneric/g_game.c:579-596 | Over any run the turns given and the last carry add up to the turns wanted, modulo 2^16, and every turn survives the one-byte format |
| Brainfuck.StepTracks | apps/brainfuck/bf.c:37-91 | Every turn of the loop keeps the stack exactly the positions of the enclosing `[`, and the only fault of a balanced program is a cell off the tape |
| Brainfuck.RunTracks | apps/brainfuck/bf.c:37-91 | The same for every run |
| Brainfuck.CellsMean | apps/brainfuck/bf.c:37-70 | A command on a cell `n` times over: up or down by `n` modulo 256, `n` copies written, or the last of `n` keys; off the tape it fails, and all else stays |
| Brainfuck.MovesMean | apps/brainfuck/bf.c:37-70 | Moves go one cell each and never fail, and any other character is a comment |
| Brainfuck.FaultsAre | apps/brainfuck/bf.c:37-91 | The faults: a cell off the tape, a loop entered when 100 are open, a closing bracket without an open loop, a loop without an end |
| Brainfuck.ScanMatches | apps/brainfuck/bf.c:71-79 | The forward scan stops at the matching `]` |
| Brainfuck.CloseReturns | apps/brainfuck/bf.c:87-90 | `]` returns to its matching `[`, from which the scan leads back |
| Brainfuck.Interpreter.FindEnd | apps/brainfuck/bf.c:71-79 | The scanning loop computes the scan |
| Brainfuck.Interpreter.Cycle | apps/brainfuck/bf.c:37-91 | One turn of the loop over tape, stack and position is one step of the machine |
| Brainfuck.Interpreter.Run | apps/brainfuck/bf.c:37-91 | The loop goes through the machine's configurations up to the end of the code, a fault, or the limit of turns |
| BrainfuckLoops.Runs | apps/brainfuck/bf.c:37-91 | Wherever a program stands in balanced code, the machine does there what its nested loops mean |
| BrainfuckLoops.BalancedIsProgram | apps/brainfuck/bf.c:37-91 | Every balanced code is the text of a program of nested loops |
| BrainfuckLoops.MachineAgrees | apps/brainfuck/bf.c:37-91 | Every run of the machine that ends, and no other, is a run of the nested while loops, with the same tape, output and keys read |
| KernelPerf.Validate | scripts/kernel-perf.py:71-101 | A dump is accepted exactly when its version, session, number fields and text bounds are in range and its stack and sample counts are those of its records |
| KernelPerf.Resolve | scripts/kernel-perf.py:153-162 | An address in the text is named by the last symbol at or below it, with its offset if wanted, and printed as a number otherwise |
| KernelPerf.NameMeans | scripts/kernel-perf.py:153-162 | The name of an address: the symbol's, with `+0x` and the hexadecimal distance behind it exactly if wanted and not zero, or `0x` and the address |
| KernelPerf.SplitJoin | scripts/kernel-perf.py:271-286 | Frames come back from a folded line exactly when there is one and none holds a semicolon |
| KernelFold.Frames | scripts/kernel-perf.py:271-285 | Frames are listed outermost first behind the grouping frames |
| KernelFold.NamesAre | scripts/kernel-perf.py:271-280 | The innermost address of a dump is the last frame |
| KernelFold.GroupsTell | scripts/kernel-perf.py:265-285 | Two records fall into the same group exactly when they agree in what was asked for: the CPU, and the thread with its generation or that it is unknown |
| KernelFold.Fold | scripts/kernel-perf.py:271-286 | Folding the records into a counter of joined stacks: for every family of paths the counter holds as many samples as the records' stacks when split again |
| KernelFold.FoldingIsFaithful | scripts/kernel-perf.py:271-287 | Without semicolons in symbol names folding loses nothing |
| KernelFold.AllUnderRoot | scripts/kernel-perf.py:271-287 | With the user samples every recorded sample is under the root |
| KernelFold.KernelUnderRoot | scripts/kernel-perf.py:271-287 | Without them, exactly those of the kernel |
| KernelFold.Report | scripts/kernel-perf.py:301-377 | The graph of a valid dump: with user samples the root counts the samples of the header; the picture has exactly the frames that are wide enough with all around them, each as wide as the samples of the records whose stacks start with its path, and where direct counting over the records puts it |
| KernelFold.PictureNests | scripts/kernel-perf.py:327-377 | In that picture a frame lies inside every frame whose path it continues, which is drawn as well, and frames of paths that part lie side by side |
| KernelFold.PictureShares | scripts/kernel-perf.py:327-377 | A frame's width is the share of the plot that its samples are of all samples, its left edge the share of those before it, and no frame under 0.2 units is drawn |
| KernelFold.PictureHas | scripts/kernel-perf.py:338-375 | And every frame is drawn whose width, and that of every frame around it, is at least 0.2 |
| FlameTree.FlameNode.Add | scripts/kernel-perf.py:171-180 | After any number of stacks the tree has a node for exactly the paths some stack starts with, and each counts the samples of those stacks |
| FlameTree.FlameNode.Descend | scripts/kernel-perf.py:174-180 | The child of a node is found or made, and only its count changes |
| FlameLayout.FrameInParent | scripts/kernel-perf.py:338-377 | A frame lies inside the frame of its parent |
| FlameLayout.SiblingsApart | scripts/kernel-perf.py:338-377 | Frames of one parent do not overlap and stand in the order of their names |
| FlameLayout.LessMeans | scripts/kernel-perf.py:339 | The order of names: a proper prefix first, otherwise the smaller character where they first differ |
| FlameLayout.Inside | scripts/kernel-perf.py:338-377 | A frame lies inside the frame of every path it continues |
| FlameLayout.Apart | scripts/kernel-perf.py:338-377 | Frames of paths that part do not overlap |
| FlameLayout.NextChild | scripts/kernel-perf.py:339-375 | Among children in order the next starts where the last ends |
| FlameLayout.Render | scripts/kernel-perf.py:338-375 | The recursion draws exactly the frames that are wide enough, with all around them, each where direct counting puts it |
| FlameLayout.Draw | scripts/kernel-perf.py:301-377 | The picture of any folded stacks: total, frames and places by direct counting |

## Left out

- c4's scanner and `main`'s own start-up stack: programs start from tokens, an identifier token being its place in the symbol table.
- C4Programs.ProgramEmitted: does not model the storage of string literals; a literal's address comes with its token, and the data pointer counts the words of variables only.
- c4's library opcodes OPEN to EXIT, and the printing of source and instructions: foreign calls and output.
- c4 programs that do not terminate: no theorem says that the machine then runs forever.
- C4ExprRuns.ExprRuns: says nothing about runs that overflow the stack area, read uninitialised memory or touch memory the program does not own.
- HttpMessage.Answer: does not model redirects being followed, sending, or a failing output file.
- HttpBuffer.ByteBuffer.Reserve: does not model an allocator that refuses.
- The command line of curl beyond its method and header checks, name resolution and connecting.
- DoomWipe.Melt.ScreenWipe: the other wipe, which the game does not use, and the release of its buffers are not modelled.
- DoomMap.Canvas.ClipMapLine: does not model 32-bit overflow of the products, nor how far rounding may move a line that is cut more than once.
- DoomTics.TicLoop.TryRunTics: does not model other players, whose commands would come from the network.
- DoomDemo.RecordAll: the header is thirteen given bytes; what they mean to playback is not modelled.
- Brainfuck.Interpreter.Run: stops after a given number of turns, because a program need not terminate.
- Brainfuck.StepTracks: is about balanced programs of nesting at most 100; what lies behind a stack overflow in C is not modelled.
- KernelPerf.Validate: starts from header fields and records already taken out of the text by the regular expressions.
- KernelPerf.Resolve: `nm` and the order of its symbols are given.
- FlameLayout.Render: draws rectangles, not their text, colours or script, and in exact arithmetic instead of floating point; the nesting depth, which only sets the height of the picture, is not modelled.
- The other applications, the rest of Doom, and the build and test scripts: they would add only easy members or have no clean specification.
