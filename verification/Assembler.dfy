/**
 The structured assembler (backburner/vm/assembler.c): nested routines and `ifelse` become a
 flat array whose absolute jumps are patched in after their bodies are emitted.
 */
module Assembler {
  import opened Bytes
  import opened Machine

  /** The trees the parser delivers: words and parenthesized lists. */
  datatype Atom = Text(word: string) | Nested(items: seq<Atom>)

  datatype Statement =
    | Instr(opcode: Opcode, arg: uint32)
    | Block(body: seq<Statement>)
    | If(thenBody: seq<Statement>)
    | IfElse(thenBody: seq<Statement>, elseBody: seq<Statement>)

  // ---------------------------------------------------------------------------
  // Emitted code, by position

  /** The array index as the instruction's 32-bit argument. */
  function Target(n: nat): uint32 { n % TWO32 }

  /** The code of a statement emitted at index `base`. */
  function Compile(s: Statement, base: nat): seq<Instruction>
    decreases s, 1
  {
    match s
    case Instr(opcode, arg) => [Instruction(opcode, arg)]
    case Block(body) => CompileAll(body, base)
    case If(thenBody) =>
      var thenCode := CompileAll(thenBody, base + 1);
      [Instruction(JumpIfNot, Target(base + 1 + |thenCode|))] + thenCode
    case IfElse(thenBody, elseBody) =>
      var thenCode := CompileAll(thenBody, base + 1);
      var elsejump := base + 1 + |thenCode|;
      var elseCode := CompileAll(elseBody, elsejump + 1);
      [Instruction(JumpIfNot, Target(elsejump + 1))] + thenCode +
      ([Instruction(Jump, Target(elsejump + 1 + |elseCode|))] + elseCode)
  }

  function CompileAll(ss: seq<Statement>, base: nat): seq<Instruction>
    decreases ss, 0
  {
    if ss == [] then []
    else
      var first := Compile(ss[0], base);
      first + CompileAll(ss[1..], base + |first|)
  }

  // ---------------------------------------------------------------------------
  // From trees to statements

  /** The opcode a keyword names; the two jumps have no keyword. */
  function NamedOpcode(word: string): Option<Opcode> {
    if word == "exit" then Some(Exit)
    else if word == "load-int" then Some(IntLoad)
    else if word == "store-int" then Some(IntStore)
    else if word == "load-float" then Some(FloatLoad)
    else if word == "store-float" then Some(FloatStore)
    else if word == "+int" then Some(IntAdd)
    else if word == "+float" then Some(FloatAdd)
    else if word == "-int" then Some(IntSubtract)
    else if word == "-float" then Some(FloatSubtract)
    else if word == "*int" then Some(IntMultiply)
    else if word == "*float" then Some(FloatMultiply)
    else if word == "/int" then Some(IntDivide)
    else if word == "/float" then Some(FloatDivide)
    else None
  }

  /** What the C code dereferences without checking: statements are non-empty lists. */
  predicate Shaped(a: Atom)
    decreases a, 1
  {
    a.Nested? && a.items != [] &&
    if a.items[0].Nested? then ShapedAll(a.items)
    else if a.items[0].word == "ifelse" then
      && (|a.items| > 1 && a.items[1].Nested? ==> a.items[1].items != [] && ShapedAll(a.items[1].items))
      && (|a.items| > 2 && a.items[2].Nested? ==> a.items[2].items != [] && ShapedAll(a.items[2].items))
    else a.items[0].word != "name"
  }

  predicate ShapedAll(atoms: seq<Atom>)
    decreases atoms, 0
  {
    atoms == [] || (Shaped(atoms[0]) && ShapedAll(atoms[1..]))
  }

  /** An instruction: a keyword and, except for `exit`, an operand that resolves. */
  function ReadInstr(resolve: Atom -> Option<uint32>, items: seq<Atom>): Option<Statement>
    requires items != [] && items[0].Text?
  {
    match NamedOpcode(items[0].word)
    case None => None
    case Some(opcode) =>
      if opcode == Exit then (if |items| > 1 then None else Some(Instr(Exit, 0)))
      else if |items| < 2 then None
      else
        match resolve(items[1])
        case None => None
        case Some(arg) => Some(Instr(opcode, arg))
  }

  /** The statement an atom stands for; None where the assembler reports an error. */
  function Read(resolve: Atom -> Option<uint32>, a: Atom): Option<Statement>
    requires Shaped(a)
    decreases a, 1
  {
    if a.items[0].Nested? then
      match ReadAll(resolve, a.items)
      case None => None
      case Some(body) => Some(Block(body))
    else if a.items[0].word == "ifelse" then
      if |a.items| < 2 || a.items[1].Text? then None
      else
        match ReadAll(resolve, a.items[1].items)
        case None => None
        case Some(thenBody) =>
          if |a.items| == 2 then Some(If(thenBody))
          else if a.items[2].Text? then None
          else
            match ReadAll(resolve, a.items[2].items)
            case None => None
            case Some(elseBody) => Some(IfElse(thenBody, elseBody))
    else ReadInstr(resolve, a.items)
  }

  function ReadAll(resolve: Atom -> Option<uint32>, atoms: seq<Atom>): Option<seq<Statement>>
    requires ShapedAll(atoms)
    decreases atoms, 0
  {
    if atoms == [] then Some([])
    else
      match Read(resolve, atoms[0])
      case None => None
      case Some(s) =>
        match ReadAll(resolve, atoms[1..])
        case None => None
        case Some(rest) => Some([s] + rest)
  }

  // ---------------------------------------------------------------------------
  // The code

  class MachineCode {
    var instructions: seq<Instruction>

    constructor ()
      ensures instructions == []
    {
      instructions := [];
    }

    /** A slot pushed without being initialized, to be patched later. */
    method Reserve() returns (location: nat)
      modifies this
      ensures location == |old(instructions)|
      ensures |instructions| == location + 1 && instructions[..location] == old(instructions)
    {
      location := |instructions|;
      var junk: Instruction := *;
      instructions := instructions + [junk];
    }

    /** `parse_recurse` and, for an empty scope, `assembler`. */
    method ParseRecurse(resolve: Atom -> Option<uint32>, atoms: seq<Atom>) returns (ok: bool)
      requires ShapedAll(atoms)
      modifies this
      ensures ok == ReadAll(resolve, atoms).Some?
      ensures ok ==> instructions ==
                     old(instructions) + CompileAll(ReadAll(resolve, atoms).value, |old(instructions)|)
      decreases atoms, 0
    {
      hide Compile, CompileAll, Read, ReadAll, Shaped;
      var i := 0;
      ghost var before, done := instructions, [];
      assert atoms[0..] == atoms;
      StartReading(resolve, atoms, |before|);
      while i < |atoms|
        invariant 0 <= i <= |atoms| && ShapedAll(atoms[i..])
        invariant instructions == before + CompileAll(done, |before|)
        invariant ReadAll(resolve, atoms) == After(done, ReadAll(resolve, atoms[i..]))
      {
        ghost var rest := atoms[i..];
        assert rest[0] == atoms[i] && rest[1..] == atoms[i + 1..];
        ghost var code := CompileAll(done, |before|);
        ContinueReading(resolve, rest, done);
        ok := ParseStatement(resolve, atoms[i]);
        if !ok { return; }
        ghost var s := Read(resolve, atoms[i]).value;
        CompileAllSnoc(done, s, |before|);
        Associative(before, code, Compile(s, |before| + |code|));
        done := done + [s];
        i := i + 1;
      }
      ok := true;
      EndReading(resolve, atoms[i..], done);
    }

    /** The body of the loop in `parse_recurse`: nested routine, `ifelse` or instruction. */
    method ParseStatement(resolve: Atom -> Option<uint32>, a: Atom) returns (ok: bool)
      requires Shaped(a)
      modifies this
      ensures ok == Read(resolve, a).Some?
      ensures ok ==> instructions == old(instructions) + Compile(Read(resolve, a).value, |old(instructions)|)
      decreases a, 1
    {
      hide CompileAll, ReadAll, NamedOpcode;
      if a.items[0].Nested? {
        ok := ParseRecurse(resolve, a.items);
      } else if a.items[0].word == "ifelse" {
        ok := ParseIfElse(resolve, a);
      } else {
        ok := ParseInstruction(resolve, a.items);
      }
    }

    /** `parse_ifelse`. */
    method ParseIfElse(resolve: Atom -> Option<uint32>, a: Atom) returns (ok: bool)
      requires Shaped(a) && a.items[0].Text? && a.items[0].word == "ifelse"
      modifies this
      ensures ok == Read(resolve, a).Some?
      ensures ok ==> instructions == old(instructions) + Compile(Read(resolve, a).value, |old(instructions)|)
      decreases a, 0
    {
      hide Compile, CompileAll, ReadAll, NamedOpcode;
      if |a.items| < 2 { return false; }
      if a.items[1].Text? { return false; }
      ghost var before := instructions;
      var ifjump := Reserve();
      ghost var first := instructions;
      ok := ParseRecurse(resolve, a.items[1].items);
      if !ok { return; }
      ghost var thenBody := ReadAll(resolve, a.items[1].items).value;
      if |a.items| > 2 {
        if a.items[2].Text? { return false; }
        var elsejump := Reserve();
        ghost var second := instructions;
        ok := ParseRecurse(resolve, a.items[2].items);
        if !ok { return; }
        instructions := instructions[elsejump := Instruction(Jump, Target(|instructions|))];
        instructions := instructions[ifjump := Instruction(JumpIfNot, Target(elsejump + 1))];
        IfElsePatched(before, first, thenBody, second, ReadAll(resolve, a.items[2].items).value);
      } else {
        instructions := instructions[ifjump := Instruction(JumpIfNot, Target(|instructions|))];
        IfPatched(before, first, thenBody);
      }
    }

    /** `parse_instruction`. */
    method ParseInstruction(resolve: Atom -> Option<uint32>, items: seq<Atom>) returns (ok: bool)
      requires items != [] && items[0].Text?
      modifies this
      ensures var s := ReadInstr(resolve, items);
        ok == s.Some? && (ok ==> instructions == old(instructions) + Compile(s.value, |old(instructions)|))
    {
      hide NamedOpcode;
      var opcode := NamedOpcode(items[0].word);
      if opcode.None? { return false; }
      var arg: uint32 := 0;
      if opcode.value == Exit {
        if |items| > 1 { return false; }
      } else {
        if |items| < 2 { return false; }
        var operand := resolve(items[1]);
        if operand.None? { return false; }
        arg := operand.value;
      }
      instructions := instructions + [Instruction(opcode.value, arg)];
      return true;
    }
  }

  // ---------------------------------------------------------------------------
  // Back-patching

  lemma Patched(before: seq<Instruction>, first: seq<Instruction>, code: seq<Instruction>, jump: Instruction)
    requires |first| == |before| + 1 && first[..|before|] == before
    ensures (first + code)[|before| := jump] == before + ([jump] + code)
  {
  }

  /** Patching the place reserved in front of the body gives the code of an `ifelse` without else. */
  lemma IfPatched(before: seq<Instruction>, first: seq<Instruction>, thenBody: seq<Statement>)
    requires |first| == |before| + 1 && first[..|before|] == before
    ensures var code := first + CompileAll(thenBody, |first|);
      code[|before| := Instruction(JumpIfNot, Target(|code|))] == before + Compile(If(thenBody), |before|)
  {
    hide CompileAll;
    var code := first + CompileAll(thenBody, |first|);
    Patched(before, first, CompileAll(thenBody, |first|), Instruction(JumpIfNot, Target(|code|)));
  }

  lemma PatchedTwice(before: seq<Instruction>, first: seq<Instruction>, thenCode: seq<Instruction>,
                     second: seq<Instruction>, elseCode: seq<Instruction>, ifjump: Instruction, elsejump: Instruction)
    requires |first| == |before| + 1 && first[..|before|] == before
    requires |second| == |first| + |thenCode| + 1 && second[..|second| - 1] == first + thenCode
    ensures (second + elseCode)[|second| - 1 := elsejump][|before| := ifjump]
         == before + ([ifjump] + thenCode + ([elsejump] + elseCode))
  {
    Patched(before, first, thenCode, ifjump);
    Patched(first + thenCode, second, elseCode, elsejump);
    var patched := [elsejump] + elseCode;
    assert ((first + thenCode) + patched)[|before| := ifjump] == (first + thenCode)[|before| := ifjump] + patched;
    Associative(before, [ifjump] + thenCode, patched);
  }

  /** Patching both reserved places gives the code of one with else. */
  lemma IfElsePatched(before: seq<Instruction>, first: seq<Instruction>, thenBody: seq<Statement>,
                      second: seq<Instruction>, elseBody: seq<Statement>)
    requires |first| == |before| + 1 && first[..|before|] == before
    requires var thenCode := CompileAll(thenBody, |first|);
      |second| == |first| + |thenCode| + 1 && second[..|second| - 1] == first + thenCode
    ensures var code := second + CompileAll(elseBody, |second|);
      code[|second| - 1 := Instruction(Jump, Target(|code|))][|before| := Instruction(JumpIfNot, Target(|second|))]
      == before + Compile(IfElse(thenBody, elseBody), |before|)
  {
    hide Compile, CompileAll, Target;
    var thenCode, elseCode := CompileAll(thenBody, |first|), CompileAll(elseBody, |second|);
    var ifjump, elsejump := Instruction(JumpIfNot, Target(|second|)), Instruction(Jump, Target(|second + elseCode|));
    assert |second + elseCode| == |second| + |elseCode|;
    IfElseCode(thenBody, elseBody, |before|, |second| - 1);
    PatchedTwice(before, first, thenCode, second, elseCode, ifjump, elsejump);
  }

  /** The code of an `ifelse` whose second jump is emitted at `elsejump`. */
  lemma IfElseCode(thenBody: seq<Statement>, elseBody: seq<Statement>, base: nat, elsejump: nat)
    requires elsejump == base + 1 + |CompileAll(thenBody, base + 1)|
    ensures var elseCode := CompileAll(elseBody, elsejump + 1);
      Compile(IfElse(thenBody, elseBody), base)
      == [Instruction(JumpIfNot, Target(elsejump + 1))] + CompileAll(thenBody, base + 1)
         + ([Instruction(Jump, Target(elsejump + 1 + |elseCode|))] + elseCode)
  {
    hide CompileAll;
  }

  // ---------------------------------------------------------------------------
  // Reading statement by statement

  function After(done: seq<Statement>, rest: Option<seq<Statement>>): Option<seq<Statement>> {
    if rest.None? then None else Some(done + rest.value)
  }

  lemma StartReading(resolve: Atom -> Option<uint32>, atoms: seq<Atom>, base: nat)
    requires ShapedAll(atoms)
    ensures ReadAll(resolve, atoms) == After([], ReadAll(resolve, atoms)) && CompileAll([], base) == []
  {
    hide Read, ReadAll;
    var r := ReadAll(resolve, atoms);
    assert r.Some? ==> [] + r.value == r.value;
  }

  lemma ContinueReading(resolve: Atom -> Option<uint32>, rest: seq<Atom>, done: seq<Statement>)
    requires ShapedAll(rest) && rest != []
    ensures Shaped(rest[0]) && ShapedAll(rest[1..])
    ensures After(done, ReadAll(resolve, rest)) ==
            match Read(resolve, rest[0])
            case None => None
            case Some(s) => After(done + [s], ReadAll(resolve, rest[1..]))
  {
    hide Read, Shaped;
    if Read(resolve, rest[0]).Some? && ReadAll(resolve, rest[1..]).Some? {
      Associative(done, [Read(resolve, rest[0]).value], ReadAll(resolve, rest[1..]).value);
    }
  }

  lemma EndReading(resolve: Atom -> Option<uint32>, rest: seq<Atom>, done: seq<Statement>)
    requires rest == []
    ensures After(done, ReadAll(resolve, rest)) == Some(done)
  {
    hide Read;
    assert done + [] == done;
  }

  lemma {:induction false} CompileAllSnoc(ss: seq<Statement>, s: Statement, base: nat)
    ensures CompileAll(ss + [s], base) ==
            CompileAll(ss, base) + Compile(s, base + |CompileAll(ss, base)|)
    decreases |ss|
  {
    hide Compile;
    if ss == [] {
      assert ([] + [s])[1..] == [];
      assert Compile(s, base) + [] == Compile(s, base);
    } else {
      var first := Compile(ss[0], base);
      assert (ss + [s])[1..] == ss[1..] + [s];
      CompileAllSnoc(ss[1..], s, base + |first|);
      var rest := CompileAll(ss[1..], base + |first|);
      Associative(first, rest, Compile(s, base + |first| + |rest|));
    }
  }
}
