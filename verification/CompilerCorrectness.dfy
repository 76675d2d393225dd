/**
 The emitted array, run by the machine, does what the structured program says: same result
 register, same memory, same way of ending; and it ends within as many rounds as it has
 instructions.
 */
module CompilerCorrectness {
  import opened Bytes
  import opened Machine
  import opened Assembler

  // ---------------------------------------------------------------------------
  // Structured evaluation

  /** Control falls through, stops at an `exit`, or meets an undefined operation. */
  datatype Flow = Next(data: Data) | Stop(data: Data) | Stuck

  /** The statements the assembler can read: no jumps written by hand. */
  predicate Sourced(s: Statement)
    decreases s, 1
  {
    match s
    case Instr(opcode, _) => opcode == Exit || !IsControl(opcode)
    case Block(body) => SourcedAll(body)
    case If(thenBody) => SourcedAll(thenBody)
    case IfElse(thenBody, elseBody) => SourcedAll(thenBody) && SourcedAll(elseBody)
  }

  predicate SourcedAll(ss: seq<Statement>)
    decreases ss, 0
  {
    ss == [] || (Sourced(ss[0]) && SourcedAll(ss[1..]))
  }

  function Eval(floats: Floats, frame: uint32, s: Statement, d: Data): (f: Flow)
    requires Sized(frame, |d.memory|) && Sourced(s)
    ensures f.Next? ==> |f.data.memory| == |d.memory|
    decreases s, 1
  {
    match s
    case Instr(opcode, arg) =>
      if opcode == Exit then Stop(d)
      else
        (match Execute(floats, frame, Instruction(opcode, arg), d)
         case None => Stuck
         case Some(e) => Next(e))
    case Block(body) => EvalAll(floats, frame, body, d)
    case If(thenBody) =>
      if d.result != 0 then EvalAll(floats, frame, thenBody, d) else Next(d)
    case IfElse(thenBody, elseBody) =>
      if d.result != 0 then EvalAll(floats, frame, thenBody, d) else EvalAll(floats, frame, elseBody, d)
  }

  function EvalAll(floats: Floats, frame: uint32, ss: seq<Statement>, d: Data): (f: Flow)
    requires Sized(frame, |d.memory|) && SourcedAll(ss)
    ensures f.Next? ==> |f.data.memory| == |d.memory|
    decreases ss, 0
  {
    if ss == [] then Next(d)
    else
      var f := Eval(floats, frame, ss[0], d);
      if f.Next? then EvalAll(floats, frame, ss[1..], f.data) else f
  }

  // ---------------------------------------------------------------------------
  // Simulation

  /** The code sits in the array at `base`, and the machine is about to enter it. */
  ghost predicate Entering(code: seq<Instruction>, part: seq<Instruction>, base: nat, s: State) {
    && Ready(code, s)
    && base + |part| <= |code|
    && code[base..base + |part|] == part
    && s.pointer == base
  }

  /** After k rounds the machine is where the flow says, just past the part if it falls through. */
  ghost predicate Reaches(floats: Floats, code: seq<Instruction>, s: State, k: nat, end: nat, f: Flow)
    requires Ready(code, s)
  {
    var o := Rounds(floats, code, s, k);
    match f
    case Next(d) => end < TWO32 && o == Running(State(d, end, s.frame))
    case Stop(d) => o.Exited? && o.state.data == d
    case Stuck => o == Undefined
  }

  lemma SubPart(code: seq<Instruction>, part: seq<Instruction>, base: nat, i: nat, j: nat)
    requires base + |part| <= |code| && code[base..base + |part|] == part
    requires i <= j <= |part|
    ensures code[base + i..base + j] == part[i..j]
  {
    forall x | i <= x < j ensures code[base + x] == part[x] {
      assert part[x] == code[base..base + |part|][x];
    }
  }

  lemma {:induction false} SimulateAll(floats: Floats, code: seq<Instruction>, ss: seq<Statement>, base: nat, s: State)
    returns (k: nat)
    requires SourcedAll(ss) && Entering(code, CompileAll(ss, base), base, s)
    ensures k <= |CompileAll(ss, base)|
    ensures Reaches(floats, code, s, k, base + |CompileAll(ss, base)|, EvalAll(floats, s.frame, ss, s.data))
    decreases ss, 0
  {
    hide Compile, Eval, Round, Sourced;
    if ss == [] {
      k := 0;
    } else {
      var first := Compile(ss[0], base);
      var part := CompileAll(ss, base);
      SubPart(code, part, base, 0, |first|);
      assert part[0..|first|] == first && part[|first|..] == CompileAll(ss[1..], base + |first|);
      var f := Eval(floats, s.frame, ss[0], s.data);
      k := Simulate(floats, code, ss[0], base, s);
      if f.Next? {
        var t := AfterPart(floats, code, part, base, |first|, s, k, f);
        var n := SimulateAll(floats, code, ss[1..], base + |first|, t);
        ReachesOn(floats, code, s, k, t, n, base + |part|, EvalAll(floats, s.frame, ss, s.data));
        k := k + n;
      }
    }
  }

  /** Where control falls through the first piece, the machine is about to enter the rest. */
  lemma AfterPart(floats: Floats, code: seq<Instruction>, part: seq<Instruction>, base: nat, at: nat, s: State,
                  k: nat, f: Flow)
    returns (t: State)
    requires Entering(code, part, base, s) && at <= |part|
    requires f.Next? && Reaches(floats, code, s, k, base + at, f)
    ensures Rounds(floats, code, s, k) == Running(t) && t == State(f.data, base + at, s.frame)
    ensures Entering(code, part[at..], base + at, t)
  {
    hide Rounds;
    t := Rounds(floats, code, s, k).state;
    SubPart(code, part, base, at, |part|);
    assert part[at..|part|] == part[at..];
  }

  /** Going on from where k rounds have led. */
  lemma ReachesOn(floats: Floats, code: seq<Instruction>, s: State, k: nat, t: State, n: nat, end: nat, f: Flow)
    requires Ready(code, s) && Ready(code, t) && Rounds(floats, code, s, k) == Running(t)
    requires s.frame == t.frame && Reaches(floats, code, t, n, end, f)
    ensures Reaches(floats, code, s, k + n, end, f)
  {
    hide Rounds;
    RoundsAdd(floats, code, s, k, n);
  }

  lemma {:induction false} Simulate(floats: Floats, code: seq<Instruction>, stmt: Statement, base: nat, s: State)
    returns (k: nat)
    requires Sourced(stmt) && Entering(code, Compile(stmt, base), base, s)
    ensures k <= |Compile(stmt, base)|
    ensures Reaches(floats, code, s, k, base + |Compile(stmt, base)|, Eval(floats, s.frame, stmt, s.data))
    decreases stmt, 1
  {
    hide Execute, Rounds;
    match stmt {
      case Instr(opcode, arg) =>
        k := 1;
        SimulateInstr(floats, code, opcode, arg, base, s);
      case Block(body) =>
        hide CompileAll, EvalAll;
        k := SimulateAll(floats, code, body, base, s);
      case If(thenBody) =>
        k := SimulateIf(floats, code, thenBody, base, s);
      case IfElse(thenBody, elseBody) =>
        k := SimulateIfElse(floats, code, thenBody, elseBody, base, s);
    }
  }

  lemma SimulateInstr(floats: Floats, code: seq<Instruction>, opcode: Opcode, arg: uint32, base: nat, s: State)
    requires Sourced(Instr(opcode, arg)) && Entering(code, Compile(Instr(opcode, arg), base), base, s)
    ensures Reaches(floats, code, s, 1, base + 1, Eval(floats, s.frame, Instr(opcode, arg), s.data))
  {
    hide Execute;
    InRange(base, |code|);
    assert code[base] == code[base..base + 1][0] == Instruction(opcode, arg);
    OneRound(floats, code, s);
  }

  lemma OneRound(floats: Floats, code: seq<Instruction>, s: State)
    requires Ready(code, s)
    ensures Rounds(floats, code, s, 1) == Round(floats, code, s)
  {
    hide Round;
    var o := Round(floats, code, s);
    assert o.Running? ==> Rounds(floats, code, o.state, 0) == o;
  }

  lemma InRange(p: nat, n: nat)
    requires p < n
    ensures p % n == p
  {
  }

  /** The conditional jump: into the body, or to its target. */
  lemma Branch(floats: Floats, code: seq<Instruction>, s: State, target: uint32) returns (t: State)
    requires Ready(code, s) && s.pointer < |code| && code[s.pointer] == Instruction(JumpIfNot, target)
    ensures Rounds(floats, code, s, 1) == Running(t)
    ensures t == s.(pointer := if s.data.result != 0 then s.pointer + 1 else target)
  {
    hide Execute, Rounds;
    InRange(s.pointer, |code|);
    OneRound(floats, code, s);
    t := s.(pointer := if s.data.result != 0 then s.pointer + 1 else target);
  }

  lemma SkipElse(floats: Floats, code: seq<Instruction>, s: State, target: uint32)
    requires Ready(code, s) && s.pointer < |code| && code[s.pointer] == Instruction(Jump, target)
    ensures Rounds(floats, code, s, 1) == Running(s.(pointer := target))
  {
    hide Execute, Rounds, Ready;
    InRange(s.pointer, |code|);
    OneRound(floats, code, s);
  }

  lemma {:induction false} SimulateIf(floats: Floats, code: seq<Instruction>, thenBody: seq<Statement>,
                                      base: nat, s: State)
    returns (k: nat)
    requires SourcedAll(thenBody) && Entering(code, Compile(If(thenBody), base), base, s)
    ensures k <= |Compile(If(thenBody), base)|
    ensures Reaches(floats, code, s, k, base + |Compile(If(thenBody), base)|,
                    Eval(floats, s.frame, If(thenBody), s.data))
    decreases thenBody, 2
  {
    hide CompileAll, EvalAll, Round, Rounds;
    var part, thenCode := Compile(If(thenBody), base), CompileAll(thenBody, base + 1);
    var end := base + |part|;
    assert code[base] == part[0];
    SubPart(code, part, base, 1, |part|);
    var t := Branch(floats, code, s, end);
    k := 1;
    if s.data.result != 0 {
      var n := SimulateAll(floats, code, thenBody, base + 1, t);
      ReachesOn(floats, code, s, 1, t, n, end, EvalAll(floats, s.frame, thenBody, s.data));
      k := 1 + n;
    }
  }

  lemma {:induction false} SimulateIfElse(floats: Floats, code: seq<Instruction>, thenBody: seq<Statement>,
                                          elseBody: seq<Statement>, base: nat, s: State)
    returns (k: nat)
    requires SourcedAll(thenBody) && SourcedAll(elseBody)
    requires Entering(code, Compile(IfElse(thenBody, elseBody), base), base, s)
    ensures k <= |Compile(IfElse(thenBody, elseBody), base)|
    ensures Reaches(floats, code, s, k, base + |Compile(IfElse(thenBody, elseBody), base)|,
                    Eval(floats, s.frame, IfElse(thenBody, elseBody), s.data))
    decreases IfElse(thenBody, elseBody), 0
  {
    hide CompileAll, EvalAll, Round, Rounds, Execute;
    var part := Compile(IfElse(thenBody, elseBody), base);
    var thenCode := CompileAll(thenBody, base + 1);
    var elsejump := base + 1 + |thenCode|;
    var elseCode := CompileAll(elseBody, elsejump + 1);
    IfElseParts(code, thenBody, elseBody, base);
    var t := Branch(floats, code, s, elsejump + 1);
    hide Reaches;
    var end := base + |part|;
    if s.data.result != 0 {
      var f := EvalAll(floats, s.frame, thenBody, s.data);
      var n := SimulateAll(floats, code, thenBody, base + 1, t);
      ReachesOn(floats, code, s, 1, t, n, elsejump, f);
      ReachesPastElse(floats, code, s, 1 + n, elsejump, end, f);
      k := if f.Next? then n + 2 else n + 1;
    } else {
      var n := SimulateAll(floats, code, elseBody, elsejump + 1, t);
      ReachesOn(floats, code, s, 1, t, n, end, EvalAll(floats, s.frame, elseBody, s.data));
      k := 1 + n;
    }
  }

  /** The jump over the else code, taken only where control falls through. */
  lemma ReachesPastElse(floats: Floats, code: seq<Instruction>, s: State, k: nat, at: nat, end: nat, f: Flow)
    requires Ready(code, s) && Reaches(floats, code, s, k, at, f)
    requires at < |code| && end < TWO32 && code[at] == Instruction(Jump, end)
    ensures Reaches(floats, code, s, if f.Next? then k + 1 else k, end, f)
  {
    hide Rounds, Round;
    if f.Next? {
      var t := Rounds(floats, code, s, k).state;
      SkipElse(floats, code, t, end);
      RoundsAdd(floats, code, s, k, 1);
    }
  }

  /** The pieces of an `ifelse` within its own code. */
  lemma IfElseShape(thenBody: seq<Statement>, elseBody: seq<Statement>, base: nat)
    requires base + |Compile(IfElse(thenBody, elseBody), base)| < TWO32
    ensures var part := Compile(IfElse(thenBody, elseBody), base);
      var thenCode := CompileAll(thenBody, base + 1);
      var elsejump := 1 + |thenCode|;
      var elseCode := CompileAll(elseBody, base + elsejump + 1);
      && |part| == elsejump + 1 + |elseCode|
      && part[0] == Instruction(JumpIfNot, base + elsejump + 1)
      && part[1..elsejump] == thenCode
      && part[elsejump] == Instruction(Jump, base + |part|)
      && part[elsejump + 1..|part|] == elseCode
  {
    hide CompileAll;
  }

  /** Where the pieces of an `ifelse` lie in the array, and what the two patches hold. */
  lemma IfElseParts(code: seq<Instruction>, thenBody: seq<Statement>, elseBody: seq<Statement>, base: nat)
    requires var part := Compile(IfElse(thenBody, elseBody), base);
      base + |part| <= |code| < TWO32 && code[base..base + |part|] == part
    ensures var thenCode := CompileAll(thenBody, base + 1);
      var elsejump := base + 1 + |thenCode|;
      var elseCode := CompileAll(elseBody, elsejump + 1);
      var end := elsejump + 1 + |elseCode|;
      && |Compile(IfElse(thenBody, elseBody), base)| == 2 + |thenCode| + |elseCode|
      && end <= |code|
      && code[base] == Instruction(JumpIfNot, elsejump + 1)
      && code[base + 1..elsejump] == thenCode
      && code[elsejump] == Instruction(Jump, end)
      && code[elsejump + 1..end] == elseCode
  {
    hide Compile, CompileAll;
    var part := Compile(IfElse(thenBody, elseBody), base);
    var n := |CompileAll(thenBody, base + 1)|;
    IfElseShape(thenBody, elseBody, base);
    assert code[base] == code[base..base + |part|][0] == part[0];
    assert code[base + 1 + n] == code[base..base + |part|][1 + n] == part[1 + n];
    SubPart(code, part, base, 1, 1 + n);
    SubPart(code, part, base, 2 + n, |part|);
  }

  // ---------------------------------------------------------------------------
  // Whole programs

  /** Every path through the program meets an `exit`; a trailing one is enough. */
  predicate EndsInExit(ss: seq<Statement>) {
    ss != [] && ss[|ss| - 1] == Instr(Exit, 0)
  }

  lemma {:induction false} ExitIsReached(floats: Floats, frame: uint32, ss: seq<Statement>, d: Data)
    requires Sized(frame, |d.memory|) && SourcedAll(ss) && EndsInExit(ss)
    ensures !EvalAll(floats, frame, ss, d).Next?
    decreases |ss|
  {
    hide Execute;
    var f := Eval(floats, frame, ss[0], d);
    if f.Next? { ExitIsReached(floats, frame, ss[1..], f.data); }
  }

  /** What the assembler reads never contains a jump. */
  lemma {:induction false} ReadIsSourced(resolve: Atom -> Option<uint32>, a: Atom)
    requires Shaped(a) && Read(resolve, a).Some?
    ensures Sourced(Read(resolve, a).value)
    decreases a, 1
  {
    if a.items[0].Nested? {
      ReadAllIsSourced(resolve, a.items);
    } else if a.items[0].word == "ifelse" {
      ReadAllIsSourced(resolve, a.items[1].items);
      if |a.items| > 2 { ReadAllIsSourced(resolve, a.items[2].items); }
    }
  }

  lemma {:induction false} ReadAllIsSourced(resolve: Atom -> Option<uint32>, atoms: seq<Atom>)
    requires ShapedAll(atoms) && ReadAll(resolve, atoms).Some?
    ensures SourcedAll(ReadAll(resolve, atoms).value)
    decreases atoms, 0
  {
    hide Read, Sourced, Shaped;
    if atoms != [] {
      ReadIsSourced(resolve, atoms[0]);
      ReadAllIsSourced(resolve, atoms[1..]);
      var first, rest := Read(resolve, atoms[0]).value, ReadAll(resolve, atoms[1..]).value;
      assert ([first] + rest)[1..] == rest;
    }
  }

  /**
   Any program, run from its first instruction, reaches within as many rounds as it has
   instructions what its direct evaluation reaches. Where that falls off the end, the machine is
   left with the same memory and result, but it fetches the first instruction again.
   */
  lemma RunsLikeSource(floats: Floats, ss: seq<Statement>, s: State) returns (k: nat)
    requires SourcedAll(ss) && 1 <= |CompileAll(ss, 0)| < TWO32
    requires Sized(s.frame, |s.data.memory|) && s.pointer == 0
    ensures var code, f := CompileAll(ss, 0), EvalAll(floats, s.frame, ss, s.data);
      && k <= |code| && Ready(code, s)
      && Reaches(floats, code, s, k, |code|, f)
      && (f.Next? ==> Fetch(code, Rounds(floats, code, s, k).state) == code[0])
  {
    hide EvalAll, Rounds, SourcedAll, CompileAll;
    var code := CompileAll(ss, 0);
    assert code[0..|code|] == code;
    k := SimulateAll(floats, code, ss, 0, s);
    FullCircle(|code|);
  }

  lemma FullCircle(n: nat)
    requires n > 0
    ensures n % n == 0
  {
  }

  /** What as many rounds as there are instructions make of a program ending in `exit`. */
  lemma ProgramOutcome(floats: Floats, ss: seq<Statement>, s: State)
    requires SourcedAll(ss) && EndsInExit(ss) && Ready(CompileAll(ss, 0), s) && s.pointer == 0
    ensures var o := Rounds(floats, CompileAll(ss, 0), s, |CompileAll(ss, 0)|);
      match EvalAll(floats, s.frame, ss, s.data)
      case Next(_) => false
      case Stop(d) => o.Exited? && o.state.data == d
      case Stuck => o == Undefined
  {
    hide CompileAll, EvalAll, Rounds, SourcedAll;
    var code := CompileAll(ss, 0);
    ExitIsReached(floats, s.frame, ss, s.data);
    var k := RunsLikeSource(floats, ss, s);
    RoundsAdd(floats, code, s, k, |code| - k);
  }

  /**
   Compiler correctness. A program that ends in `exit`, assembled and run from its first
   instruction with any memory, frame and result register, ends within as many rounds as it has
   instructions, exactly as its direct evaluation does: stopped with the same memory and
   result, or in the same undefined operation.
   */
  lemma AssembledProgramIsCorrect(floats: Floats, resolve: Atom -> Option<uint32>, atoms: seq<Atom>, s: State,
                                  limit: nat)
    requires ShapedAll(atoms) && ReadAll(resolve, atoms).Some? && EndsInExit(ReadAll(resolve, atoms).value)
    requires var code := CompileAll(ReadAll(resolve, atoms).value, 0);
      |code| < TWO32 && Sized(s.frame, |s.data.memory|) && s.pointer == 0 && limit >= |code|
    ensures var ss := ReadAll(resolve, atoms).value;
      var code := CompileAll(ss, 0);
      && SourcedAll(ss) && Ready(code, s)
      && match EvalAll(floats, s.frame, ss, s.data)
         case Next(_) => false
         case Stop(d) => Rounds(floats, code, s, limit).Exited? && Rounds(floats, code, s, limit).state.data == d
         case Stuck => Rounds(floats, code, s, limit) == Undefined
  {
    hide ReadAll, EvalAll, Rounds, SourcedAll, ShapedAll;
    var ss := ReadAll(resolve, atoms).value;
    var code := CompileAll(ss, 0);
    ReadAllIsSourced(resolve, atoms);
    assert code != [] by { CodeIsNotEmpty(ss, 0); }
    hide CompileAll;
    ProgramOutcome(floats, ss, s);
    RoundsAdd(floats, code, s, |code|, limit - |code|);
  }

  lemma CodeIsNotEmpty(ss: seq<Statement>, base: nat)
    requires EndsInExit(ss)
    ensures CompileAll(ss, base) != []
  {
    CompileAllSnoc(ss[..|ss| - 1], Instr(Exit, 0), base);
    assert ss[..|ss| - 1] + [Instr(Exit, 0)] == ss;
  }

  // ---------------------------------------------------------------------------
  // Jump targets

  /** Every jump in the part goes forward, and not past the part's end. */
  ghost predicate JumpsForward(part: seq<Instruction>, base: nat) {
    forall i :: 0 <= i < |part| && part[i].opcode in {Jump, JumpIfNot} ==>
      base + i < part[i].arg <= base + |part|
  }

  lemma {:induction false} JumpTargets(stmt: Statement, base: nat)
    requires Sourced(stmt) && base + |Compile(stmt, base)| < TWO32
    ensures JumpsForward(Compile(stmt, base), base)
    decreases stmt, 1
  {
    hide CompileAll;
    match stmt {
      case Instr(_, _) =>
      case Block(body) => AllJumpTargets(body, base);
      case If(thenBody) => AllJumpTargets(thenBody, base + 1);
      case IfElse(thenBody, elseBody) =>
        var thenCode := CompileAll(thenBody, base + 1);
        AllJumpTargets(thenBody, base + 1);
        AllJumpTargets(elseBody, base + 2 + |thenCode|);
        JoinTargets(thenCode, CompileAll(elseBody, base + 2 + |thenCode|), base);
    }
  }

  lemma JoinTargets(thenCode: seq<Instruction>, elseCode: seq<Instruction>, base: nat)
    requires base + 2 + |thenCode| + |elseCode| < TWO32
    requires JumpsForward(thenCode, base + 1) && JumpsForward(elseCode, base + 2 + |thenCode|)
    ensures var elsejump := base + 1 + |thenCode|;
      JumpsForward([Instruction(JumpIfNot, Target(elsejump + 1))] + thenCode +
                   ([Instruction(Jump, Target(elsejump + 1 + |elseCode|))] + elseCode), base)
  {
    var elsejump, n := base + 1 + |thenCode|, |thenCode|;
    var part := [Instruction(JumpIfNot, Target(elsejump + 1))] + thenCode +
                ([Instruction(Jump, Target(elsejump + 1 + |elseCode|))] + elseCode);
    forall i | 0 <= i < |part| && part[i].opcode in {Jump, JumpIfNot}
      ensures base + i < part[i].arg <= base + |part|
    {
      if 1 <= i < 1 + n {
        assert part[i] == thenCode[i - 1];
      } else if i >= 2 + n {
        assert part[i] == elseCode[i - 2 - n];
      }
    }
  }

  /** Nested or not, every emitted target is after its own address and at most the code's end. */
  lemma {:induction false} AllJumpTargets(ss: seq<Statement>, base: nat)
    requires SourcedAll(ss) && base + |CompileAll(ss, base)| < TWO32
    ensures JumpsForward(CompileAll(ss, base), base)
    decreases ss, 0
  {
    hide Compile, Sourced;
    if ss != [] {
      JumpTargets(ss[0], base);
      AllJumpTargets(ss[1..], base + |Compile(ss[0], base)|);
    }
  }

  // ---------------------------------------------------------------------------
  // No wrap

  /** One round that goes on stays inside code whose jumps go forward up to a last `exit`. */
  lemma RoundStaysInside(floats: Floats, body: seq<Instruction>, s: State)
    requires var code := body + [Instruction(Exit, 0)];
      Ready(code, s) && s.pointer < |code| && JumpsForward(body, 0)
    ensures var o := Round(floats, body + [Instruction(Exit, 0)], s);
      o.Running? ==> s.pointer < o.state.pointer <= |body|
  {
    hide Execute;
    var code := body + [Instruction(Exit, 0)];
    InRange(s.pointer, |code|);
    assert s.pointer < |body| ==> code[s.pointer] == body[s.pointer];
  }

  lemma {:induction false} RoundsStayInside(floats: Floats, body: seq<Instruction>, s: State, n: nat)
    requires var code := body + [Instruction(Exit, 0)];
      Ready(code, s) && s.pointer < |code| && JumpsForward(body, 0)
    ensures var o := Rounds(floats, body + [Instruction(Exit, 0)], s, n);
      o.Running? ==> s.pointer + n <= o.state.pointer <= |body|
    decreases n
  {
    hide Round, JumpsForward;
    if n > 0 {
      RoundStaysInside(floats, body, s);
      var o := Round(floats, body + [Instruction(Exit, 0)], s);
      if o.Running? { RoundsStayInside(floats, body, o.state, n - 1); }
    }
  }

  /** The code of a program ending in `exit`: code whose jumps stay inside, and the `exit`. */
  lemma ProgramShape(ss: seq<Statement>) returns (body: seq<Instruction>)
    requires SourcedAll(ss) && EndsInExit(ss) && |CompileAll(ss, 0)| < TWO32
    ensures CompileAll(ss, 0) == body + [Instruction(Exit, 0)] && JumpsForward(body, 0)
  {
    var front := ss[..|ss| - 1];
    body := CompileAll(front, 0);
    assert front + [Instr(Exit, 0)] == ss;
    CompileAllSnoc(front, Instr(Exit, 0), 0);
    SourcedPrefix(front, [Instr(Exit, 0)]);
    AllJumpTargets(front, 0);
  }

  lemma {:induction false} SourcedPrefix(a: seq<Statement>, b: seq<Statement>)
    requires SourcedAll(a + b)
    ensures SourcedAll(a)
    decreases |a|
  {
    hide Sourced;
    if a != [] {
      assert (a + b)[1..] == a[1..] + b;
      SourcedPrefix(a[1..], b);
    }
  }

  /**
   An assembled program ending in `exit` never relies on the wrap of the instruction pointer:
   before every fetch of every run the pointer lies inside the code, further on by at least one
   for every round behind it, so what is fetched is the instruction it points at.
   */
  lemma AssembledProgramNeverWraps(floats: Floats, resolve: Atom -> Option<uint32>, atoms: seq<Atom>, s: State, n: nat)
    requires ShapedAll(atoms) && ReadAll(resolve, atoms).Some? && EndsInExit(ReadAll(resolve, atoms).value)
    requires Ready(CompileAll(ReadAll(resolve, atoms).value, 0), s) && s.pointer == 0
    ensures var code := CompileAll(ReadAll(resolve, atoms).value, 0);
      var o := Rounds(floats, code, s, n);
      o.Running? ==> n <= o.state.pointer < |code| && Fetch(code, o.state) == code[o.state.pointer]
  {
    hide ReadAll, CompileAll, Rounds, SourcedAll, ShapedAll, JumpsForward;
    var ss := ReadAll(resolve, atoms).value;
    ReadAllIsSourced(resolve, atoms);
    var body := ProgramShape(ss);
    RoundsStayInside(floats, body, s, n);
    var o := Rounds(floats, CompileAll(ss, 0), s, n);
    if o.Running? { InRange(o.state.pointer, |CompileAll(ss, 0)|); }
  }

  /**
   `vm_frame` itself, with its loop that only an `exit` or a failure leaves, on the code of a
   program ending in `exit`: the loop ends, as direct evaluation does.
   */
  method RunProgram(vm: Vm, floats: Floats, ghost ss: seq<Statement>) returns (status: Status)
    requires SourcedAll(ss) && EndsInExit(ss) && vm.instructions == CompileAll(ss, 0)
    requires Ready(vm.instructions, vm.Now()) && vm.pointer == 0
    modifies vm`pointer, vm`result, vm.memory
    ensures match EvalAll(floats, vm.frame, ss, old(vm.Now().data))
      case Next(_) => false
      case Stop(d) => status == Success && vm.Now().data == d
      case Stuck => status == Broken
  {
    hide CompileAll, EvalAll, Rounds, Round, SourcedAll, EndsInExit, JumpsForward;
    ghost var code, start := vm.instructions, vm.Now();
    ghost var body := ProgramShape(ss);
    ghost var n := 0;
    assert Rounds(floats, code, start, 0) == Running(start) by { NoRound(floats, code, start); }
    status := StillRunning;
    while status == StillRunning
      invariant Agrees(status, vm.Now(), Rounds(floats, code, start, n))
      invariant status == StillRunning ==> Ready(code, vm.Now()) && n <= vm.pointer < |code|
      invariant n <= |code|
      decreases |code| - n
    {
      ghost var s := vm.Now();
      RoundStaysInside(floats, body, s);
      OneRound(floats, code, s);
      RoundsAdd(floats, code, start, n, 1);
      status := vm.RunRound(floats);
      n := n + 1;
    }
    RoundsAdd(floats, code, start, n, |code| - n);
    ProgramOutcome(floats, ss, start);
  }

  lemma NoRound(floats: Floats, code: seq<Instruction>, s: State)
    requires Ready(code, s)
    ensures Rounds(floats, code, s, 0) == Running(s)
  {
  }
}
