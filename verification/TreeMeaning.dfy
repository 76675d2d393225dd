/**
 What a source tree means, keyword by keyword and over plain bytes of memory; and that an
 assembled tree, run by the machine, does exactly that.
 */
module TreeMeaning {
  import opened Bytes
  import opened Machine
  import opened Assembler
  import opened CompilerCorrectness
  import opened MachineLaws

  // ---------------------------------------------------------------------------
  // The meaning of a tree

  /** Keywords that take an operand. */
  predicate TakesOperand(word: string) {
    word in {"load-int", "store-int", "load-float", "store-float", "+int", "-int", "*int", "/int",
             "+float", "-float", "*float", "/float"}
  }

  /** Signed division, rounded towards zero. */
  function Truncated(x: int, y: int): int
    requires y != 0
  {
    if (x < 0) == (y < 0) then Abs(x) / Abs(y) else -(Abs(x) / Abs(y))
  }

  /** A signed result in the register; undefined where it does not fit. */
  function Signed(d: Data, z: int): Option<Data> {
    if -2147483648 <= z <= 2147483647 then Some(Data(d.memory, Pattern(z))) else None
  }

  /** Memory with the four bytes at a replaced by those of a word, the least significant first. */
  function WordPut(memory: seq<byte>, a: nat, w: uint32): seq<byte>
    requires a + 4 <= |memory|
  {
    memory[a := w % 256][a + 1 := w / 256 % 256][a + 2 := w / 65536 % 256][a + 3 := w / 16777216]
  }

  /** One keyword with its operand; None is undefined behaviour. */
  function Carried(floats: Floats, frame: uint32, word: string, arg: uint32, d: Data): Option<Data>
    requires TakesOperand(word) && frame + 4 < |d.memory| < 4294967296
  {
    var a := OperandAt(frame, |d.memory|, arg);
    WordBound(d.memory, a);
    var x, y := Number(d.result), SignedAt(d.memory, a);
    var w := Pattern(y);
    if word == "load-int" || word == "load-float" then Some(Data(d.memory, w))
    else if word == "store-int" || word == "store-float" then Some(Data(WordPut(d.memory, a, d.result), d.result))
    else if word == "+int" then Signed(d, x + y)
    else if word == "-int" then Signed(d, x - y)
    else if word == "*int" then Signed(d, x * y)
    else if word == "/int" then (if y == 0 then None else Signed(d, Truncated(x, y)))
    else if word == "+float" then Some(Data(d.memory, floats.add(d.result, w)))
    else if word == "-float" then Some(Data(d.memory, floats.subtract(d.result, w)))
    else if word == "*float" then Some(Data(d.memory, floats.multiply(d.result, w)))
    else Some(Data(d.memory, floats.divide(d.result, w)))
  }

  /** What the assembler accepts: known keywords, operands that resolve, bodies that are routines. */
  predicate Acceptable(resolve: Atom -> Option<uint32>, a: Atom)
    requires Shaped(a)
    decreases a, 1
  {
    if a.items[0].Nested? then AllAcceptable(resolve, a.items)
    else if a.items[0].word == "ifelse" then
      && |a.items| >= 2 && a.items[1].Nested? && AllAcceptable(resolve, a.items[1].items)
      && (|a.items| > 2 ==> a.items[2].Nested? && AllAcceptable(resolve, a.items[2].items))
    else if a.items[0].word == "exit" then |a.items| == 1
    else TakesOperand(a.items[0].word) && |a.items| >= 2 && resolve(a.items[1]).Some?
  }

  predicate AllAcceptable(resolve: Atom -> Option<uint32>, atoms: seq<Atom>)
    requires ShapedAll(atoms)
    decreases atoms, 0
  {
    atoms == [] || (Acceptable(resolve, atoms[0]) && AllAcceptable(resolve, atoms[1..]))
  }

  /** A statement: a routine, a choice by the result register, `exit`, or an operation. */
  function Does(floats: Floats, resolve: Atom -> Option<uint32>, frame: uint32, a: Atom, d: Data): (f: Flow)
    requires Shaped(a) && Acceptable(resolve, a) && frame + 4 < |d.memory| < 4294967296
    ensures f.Next? ==> |f.data.memory| == |d.memory|
    decreases a, 1
  {
    if a.items[0].Nested? then DoesAll(floats, resolve, frame, a.items, d)
    else
      var word := a.items[0].word;
      if word == "ifelse" then
        if d.result != 0 then DoesAll(floats, resolve, frame, a.items[1].items, d)
        else if |a.items| > 2 then DoesAll(floats, resolve, frame, a.items[2].items, d)
        else Next(d)
      else if word == "exit" then Stop(d)
      else
        match Carried(floats, frame, word, resolve(a.items[1]).value, d)
        case None => Stuck
        case Some(e) => Next(e)
  }

  /** Statements one after the other, as long as control goes on. */
  function DoesAll(floats: Floats, resolve: Atom -> Option<uint32>, frame: uint32, atoms: seq<Atom>, d: Data): (f: Flow)
    requires ShapedAll(atoms) && AllAcceptable(resolve, atoms) && frame + 4 < |d.memory| < 4294967296
    ensures f.Next? ==> |f.data.memory| == |d.memory|
    decreases atoms, 0
  {
    if atoms == [] then Next(d)
    else
      var f := Does(floats, resolve, frame, atoms[0], d);
      if f.Next? then DoesAll(floats, resolve, frame, atoms[1..], f.data) else f
  }

  /** How many instructions it becomes: one for each operation, and the jumps of each choice. */
  function Length(a: Atom): nat
    requires Shaped(a)
    decreases a, 1
  {
    if a.items[0].Nested? then LengthOf(a.items)
    else if a.items[0].word == "ifelse" then
      if |a.items| < 2 || !a.items[1].Nested? then 0
      else if |a.items| == 2 then 1 + LengthOf(a.items[1].items)
      else if !a.items[2].Nested? then 0
      else 2 + LengthOf(a.items[1].items) + LengthOf(a.items[2].items)
    else 1
  }

  function LengthOf(atoms: seq<Atom>): nat
    requires ShapedAll(atoms)
    decreases atoms, 0
  {
    if atoms == [] then 0 else Length(atoms[0]) + LengthOf(atoms[1..])
  }

  // ---------------------------------------------------------------------------
  // One operation

  lemma WordBound(memory: seq<byte>, a: nat)
    requires a + 4 <= |memory|
    ensures -2147483648 <= SignedAt(memory, a) <= 2147483647
  {
  }

  lemma PutIsStore(memory: seq<byte>, a: nat, w: uint32)
    requires a + 4 <= |memory|
    ensures WordPut(memory, a, w) == Store(memory, a, w)
  {
    var s := Le32Bytes(w);
    assert s == [w % 256, w / 256 % 256, w / 65536 % 256, w / 16777216];
  }

  lemma TruncatedDivides(x: int, y: int)
    requires y != 0
    ensures Truncated(x, y) == Quotient(x, y)
  {
  }

  /** The keyword's opcode does what the keyword does. */
  ghost predicate IsExecuted(floats: Floats, frame: uint32, word: string, arg: uint32, d: Data)
    requires TakesOperand(word) && Sized(frame, |d.memory|)
  {
    && NamedOpcode(word).Some? && NamedOpcode(word).value != Exit && !IsControl(NamedOpcode(word).value)
    && Execute(floats, frame, Instruction(NamedOpcode(word).value, arg), d) == Carried(floats, frame, word, arg, d)
  }

  lemma OperationIsExecuted(floats: Floats, frame: uint32, word: string, arg: uint32, d: Data)
    requires TakesOperand(word) && Sized(frame, |d.memory|)
    ensures IsExecuted(floats, frame, word, arg, d)
  {
    hide IsExecuted;
    if word in {"+int", "-int", "*int"} {
      ArithmeticIsExecuted(floats, frame, word, arg, d);
    } else if word == "/int" {
      DivisionIsExecuted(floats, frame, arg, d);
    } else if word in {"load-int", "store-int", "load-float", "store-float"} {
      MoveIsExecuted(floats, frame, word, arg, d);
    } else {
      FloatIsExecuted(floats, frame, word, arg, d);
    }
  }

  lemma ArithmeticIsExecuted(floats: Floats, frame: uint32, word: string, arg: uint32, d: Data)
    requires word in {"+int", "-int", "*int"} && Sized(frame, |d.memory|)
    ensures IsExecuted(floats, frame, word, arg, d)
  {
    hide Address, Load, Store, ToInt, FromInt, OperandAt, SignedAt, WordPut, Number, Pattern;
    var a := OperandAt(frame, |d.memory|, arg);
    OperandIsAddress(frame, |d.memory|, arg, a);
    WordBound(d.memory, a);
    LoadedWord(d.memory, a);
    var x, y := Number(d.result), SignedAt(d.memory, a);
    NumberIsToInt(d.result);
    NumberIsToInt(Load(d.memory, a));
    PatternIsFromInt(x + y);
    PatternIsFromInt(x - y);
    PatternIsFromInt(x * y);
  }

  lemma MoveIsExecuted(floats: Floats, frame: uint32, word: string, arg: uint32, d: Data)
    requires word in {"load-int", "store-int", "load-float", "store-float"} && Sized(frame, |d.memory|)
    ensures IsExecuted(floats, frame, word, arg, d)
  {
    hide Address, Load, Store, OperandAt, SignedAt, WordPut, Number, Pattern;
    var a := OperandAt(frame, |d.memory|, arg);
    OperandIsAddress(frame, |d.memory|, arg, a);
    WordBound(d.memory, a);
    LoadedWord(d.memory, a);
    PutIsStore(d.memory, a, d.result);
  }

  lemma FloatIsExecuted(floats: Floats, frame: uint32, word: string, arg: uint32, d: Data)
    requires word in {"+float", "-float", "*float", "/float"} && Sized(frame, |d.memory|)
    ensures IsExecuted(floats, frame, word, arg, d)
  {
    hide Address, Load, Store, OperandAt, SignedAt, WordPut, Number, Pattern;
    var a := OperandAt(frame, |d.memory|, arg);
    OperandIsAddress(frame, |d.memory|, arg, a);
    WordBound(d.memory, a);
    LoadedWord(d.memory, a);
  }

  lemma DivisionIsExecuted(floats: Floats, frame: uint32, arg: uint32, d: Data)
    requires Sized(frame, |d.memory|)
    ensures IsExecuted(floats, frame, "/int", arg, d)
  {
    hide Address, Load, ToInt, FromInt, Quotient, OperandAt, SignedAt, WordPut, Truncated, Number, Pattern;
    var a := OperandAt(frame, |d.memory|, arg);
    OperandIsAddress(frame, |d.memory|, arg, a);
    WordBound(d.memory, a);
    LoadedWord(d.memory, a);
    var x, y := Number(d.result), SignedAt(d.memory, a);
    NumberIsToInt(d.result);
    NumberIsToInt(Load(d.memory, a));
    ZeroWord(y, Load(d.memory, a));
    if y != 0 {
      TruncatedDivides(x, y);
      PatternIsFromInt(Truncated(x, y));
    }
  }

  lemma ZeroWord(y: int, w: uint32)
    requires Number(w) == y
    ensures y == 0 <==> w == 0
  {
  }

  /** No other keyword names an opcode. */
  lemma KeywordsAreAll(word: string)
    ensures NamedOpcode(word) == Some(Exit) <==> word == "exit"
    ensures NamedOpcode(word).Some? <==> word == "exit" || TakesOperand(word)
  {
  }

  // ---------------------------------------------------------------------------
  // Whole trees

  lemma {:induction false} ReadIffAcceptable(resolve: Atom -> Option<uint32>, a: Atom)
    requires Shaped(a)
    ensures Read(resolve, a).Some? <==> Acceptable(resolve, a)
    ensures Read(resolve, a).Some? ==> forall base :: |Compile(Read(resolve, a).value, base)| == Length(a)
    decreases a, 1
  {
    hide NamedOpcode, TakesOperand;
    if a.items[0].Nested? {
      ReadAllIffAcceptable(resolve, a.items);
    } else if a.items[0].word == "ifelse" {
      if |a.items| >= 2 && a.items[1].Nested? {
        ReadAllIffAcceptable(resolve, a.items[1].items);
        if |a.items| > 2 && a.items[2].Nested? { ReadAllIffAcceptable(resolve, a.items[2].items); }
      }
    } else {
      KeywordsAreAll(a.items[0].word);
    }
  }

  lemma {:induction false} ReadAllIffAcceptable(resolve: Atom -> Option<uint32>, atoms: seq<Atom>)
    requires ShapedAll(atoms)
    ensures ReadAll(resolve, atoms).Some? <==> AllAcceptable(resolve, atoms)
    ensures ReadAll(resolve, atoms).Some? ==>
              forall base :: |CompileAll(ReadAll(resolve, atoms).value, base)| == LengthOf(atoms)
    decreases atoms, 0
  {
    hide Read, Acceptable, Length, Compile;
    if atoms != [] {
      ReadIffAcceptable(resolve, atoms[0]);
      ReadAllIffAcceptable(resolve, atoms[1..]);
      if Read(resolve, atoms[0]).Some? && ReadAll(resolve, atoms[1..]).Some? {
        var first, rest := Read(resolve, atoms[0]).value, ReadAll(resolve, atoms[1..]).value;
        assert ([first] + rest)[1..] == rest;
      }
    }
  }

  lemma {:induction false} EvalIsMeaning(floats: Floats, resolve: Atom -> Option<uint32>, frame: uint32,
                                         a: Atom, d: Data)
    requires Shaped(a) && Acceptable(resolve, a) && Sized(frame, |d.memory|)
    ensures Read(resolve, a).Some? && Sourced(Read(resolve, a).value)
    ensures Eval(floats, frame, Read(resolve, a).value, d) == Does(floats, resolve, frame, a, d)
    decreases a, 1
  {
    hide NamedOpcode, TakesOperand, Execute, Carried;
    ReadIffAcceptable(resolve, a);
    ReadIsSourced(resolve, a);
    if a.items[0].Nested? {
      EvalAllIsMeaning(floats, resolve, frame, a.items, d);
    } else if a.items[0].word == "ifelse" {
      EvalAllIsMeaning(floats, resolve, frame, a.items[1].items, d);
      if |a.items| > 2 { EvalAllIsMeaning(floats, resolve, frame, a.items[2].items, d); }
    } else {
      KeywordsAreAll(a.items[0].word);
      if a.items[0].word != "exit" {
        OperationIsExecuted(floats, frame, a.items[0].word, resolve(a.items[1]).value, d);
      }
    }
  }

  lemma {:induction false} EvalAllIsMeaning(floats: Floats, resolve: Atom -> Option<uint32>, frame: uint32,
                                            atoms: seq<Atom>, d: Data)
    requires ShapedAll(atoms) && AllAcceptable(resolve, atoms) && Sized(frame, |d.memory|)
    ensures ReadAll(resolve, atoms).Some? && SourcedAll(ReadAll(resolve, atoms).value)
    ensures EvalAll(floats, frame, ReadAll(resolve, atoms).value, d) == DoesAll(floats, resolve, frame, atoms, d)
    decreases atoms, 0
  {
    hide Read, Acceptable, Shaped, Eval, Does, Sourced;
    ReadAllIffAcceptable(resolve, atoms);
    ReadAllIsSourced(resolve, atoms);
    if atoms != [] {
      var first, rest := Read(resolve, atoms[0]).value, ReadAll(resolve, atoms[1..]).value;
      assert ([first] + rest)[1..] == rest;
      EvalIsMeaning(floats, resolve, frame, atoms[0], d);
      var f := Does(floats, resolve, frame, atoms[0], d);
      if f.Next? { EvalAllIsMeaning(floats, resolve, frame, atoms[1..], f.data); }
    }
  }

  // ---------------------------------------------------------------------------
  // Assembled and run

  /** The last statement is an `exit`. */
  predicate ExitsLast(atoms: seq<Atom>) {
    atoms != [] && atoms[|atoms| - 1] == Nested([Text("exit")])
  }

  /** What the assembler leaves in an empty buffer; None where it reports an error. */
  function Assembled(resolve: Atom -> Option<uint32>, atoms: seq<Atom>): Option<seq<Instruction>>
    requires ShapedAll(atoms)
  {
    match ReadAll(resolve, atoms)
    case None => None
    case Some(ss) => Some(CompileAll(ss, 0))
  }

  lemma {:induction false} ExitIsReadLast(resolve: Atom -> Option<uint32>, atoms: seq<Atom>)
    requires ShapedAll(atoms) && ReadAll(resolve, atoms).Some? && ExitsLast(atoms)
    ensures EndsInExit(ReadAll(resolve, atoms).value)
    decreases |atoms|
  {
    hide NamedOpcode;
    KeywordsAreAll("exit");
    if |atoms| > 1 { ExitIsReadLast(resolve, atoms[1..]); }
  }

  /**
   Assembler and machine against the meaning of the tree. A tree is assembled exactly if it is
   acceptable; the code has the tree's length; and if the tree ends in `exit`, a machine that
   starts at its first instruction, with any memory, frame and result, stops within that many
   rounds as the tree says: with its memory and result, or in its undefined operation.
   */
  lemma AssembledTreeIsCorrect(floats: Floats, resolve: Atom -> Option<uint32>, atoms: seq<Atom>, s: State)
    requires ShapedAll(atoms) && ExitsLast(atoms) && LengthOf(atoms) < 4294967296
    requires s.frame + 4 < |s.data.memory| < 4294967296 && s.pointer == 0
    ensures Assembled(resolve, atoms).Some? <==> AllAcceptable(resolve, atoms)
    ensures AllAcceptable(resolve, atoms) ==>
              var code := Assembled(resolve, atoms).value;
              && |code| == LengthOf(atoms) && Ready(code, s)
              && var o := Rounds(floats, code, s, |code|);
                 match DoesAll(floats, resolve, s.frame, atoms, s.data)
                 case Next(_) => false
                 case Stop(d) => o.Exited? && o.state.data == d
                 case Stuck => o == Undefined
  {
    hide ReadAll, DoesAll, EvalAll, CompileAll, Rounds, AllAcceptable, SourcedAll, LengthOf, ShapedAll;
    ReadAllIffAcceptable(resolve, atoms);
    if AllAcceptable(resolve, atoms) {
      var ss := ReadAll(resolve, atoms).value;
      EvalAllIsMeaning(floats, resolve, s.frame, atoms, s.data);
      ExitIsReadLast(resolve, atoms);
      CodeIsNotEmpty(ss, 0);
      ProgramOutcome(floats, ss, s);
    }
  }

  /** The same of the code: the tree is read, and what was emitted is run until it stops. */
  method AssembleAndRun(floats: Floats, resolve: Atom -> Option<uint32>, atoms: seq<Atom>, memory: array<byte>)
    returns (ok: bool, status: Status, result: uint32)
    requires ShapedAll(atoms) && ExitsLast(atoms) && LengthOf(atoms) < 4294967296
    requires 4 < memory.Length < 4294967296
    modifies memory
    ensures ok == AllAcceptable(resolve, atoms)
    ensures !ok ==> memory[..] == old(memory[..])
    ensures ok ==>
              match DoesAll(floats, resolve, 0, atoms, Data(old(memory[..]), 0))
              case Next(_) => false
              case Stop(d) => status == Success && memory[..] == d.memory && result == d.result
              case Stuck => status == Broken
  {
    hide ReadAll, DoesAll, EvalAll, CompileAll, AllAcceptable, SourcedAll, LengthOf, ShapedAll;
    status, result := Failure, 0;
    var code := new MachineCode();
    ok := code.ParseRecurse(resolve, atoms);
    ReadAllIffAcceptable(resolve, atoms);
    if !ok { return; }
    ghost var ss := ReadAll(resolve, atoms).value;
    assert code.instructions == CompileAll(ss, 0);
    var vm := new Vm(code.instructions, memory);
    assert vm.Now() == State(Data(old(memory[..]), 0), 0, 0);
    EvalAllIsMeaning(floats, resolve, 0, atoms, vm.Now().data);
    ExitIsReadLast(resolve, atoms);
    CodeIsNotEmpty(ss, 0);
    status := RunProgram(vm, floats, ss);
    result := vm.result;
  }
}
