/**
 The accumulator machine (backburner/vm/vm.c): byte-addressed memory, one 32-bit result register
 and a flat array of instructions with absolute jumps.
 */
module Machine {
  import opened Bytes

  datatype Opcode =
    | Exit
    | IntLoad | IntStore | IntAdd | IntSubtract | IntMultiply | IntDivide
    | FloatLoad | FloatStore | FloatAdd | FloatSubtract | FloatMultiply | FloatDivide
    | Itof | Ftoi
    | Jump | JumpIfNot
    | Unrecognized

  datatype Instruction = Instruction(opcode: Opcode, arg: uint32)

  /** Single-precision arithmetic on register bit patterns, left uninterpreted. */
  datatype Floats = Floats(
    add: (uint32, uint32) -> uint32,
    subtract: (uint32, uint32) -> uint32,
    multiply: (uint32, uint32) -> uint32,
    divide: (uint32, uint32) -> uint32,
    fromInt: uint32 -> uint32,
    toInt: uint32 -> Option<uint32>)

  const REGISTER_SIZE := 4

  /** What instructions compute with. */
  datatype Data = Data(memory: seq<byte>, result: uint32)

  datatype State = State(data: Data, pointer: uint32, frame: uint32)

  /** The memory the source's arithmetic needs: room for a register past the frame. */
  predicate Sized(frame: uint32, size: nat) {
    frame + REGISTER_SIZE < size < TWO32
  }

  // ---------------------------------------------------------------------------
  // Registers

  function ToInt(w: uint32): int {
    if w < 0x8000_0000 then w else w - TWO32
  }

  /** None where the signed result does not fit: the C operation is then undefined. */
  function FromInt(n: int): Option<uint32> {
    if -0x8000_0000 <= n < 0 then Some(n + TWO32)
    else if 0 <= n < 0x8000_0000 then Some(n)
    else None
  }

  /** C division truncates towards zero. */
  function Quotient(a: int, b: int): int
    requires b != 0
  {
    if a >= 0 then (if b > 0 then a / b else -(a / -b))
    else (if b > 0 then -(-a / b) else -a / -b)
  }

  /** The address an operand stands for, in 32-bit arithmetic. */
  function Address(frame: uint32, size: nat, arg: uint32): (a: nat)
    requires Sized(frame, size)
    ensures a + REGISTER_SIZE <= size
  {
    var memoryMod := size - REGISTER_SIZE - frame;
    (arg + memoryMod) % TWO32 % memoryMod
  }

  function Load(memory: seq<byte>, a: nat): uint32
    requires a + REGISTER_SIZE <= |memory|
  {
    Le4Bound(memory[a..a + REGISTER_SIZE]);
    Le(memory[a..a + REGISTER_SIZE])
  }

  function Store(memory: seq<byte>, a: nat, w: uint32): (m: seq<byte>)
    requires a + REGISTER_SIZE <= |memory|
    ensures |m| == |memory|
  {
    memory[..a] + Le32Bytes(w) + memory[a + REGISTER_SIZE..]
  }

  lemma Le4Bound(s: seq<byte>)
    requires |s| == 4
    ensures Le(s) < TWO32
  {
    Le4(s);
  }

  // ---------------------------------------------------------------------------
  // One instruction

  function WithResult(d: Data, w: Option<uint32>): Option<Data> {
    if w.None? then None else Some(d.(result := w.value))
  }

  predicate IsControl(op: Opcode) {
    op in {Exit, Jump, JumpIfNot, Unrecognized}
  }

  /** What a non-control instruction does; None is undefined behaviour of the C expression. */
  function Execute(floats: Floats, frame: uint32, i: Instruction, d: Data): (r: Option<Data>)
    requires Sized(frame, |d.memory|) && !IsControl(i.opcode)
    ensures r.Some? ==> |r.value.memory| == |d.memory|
  {
    var a := Address(frame, |d.memory|, i.arg);
    var operand := Load(d.memory, a);
    match i.opcode
    case IntLoad => Some(d.(result := operand))
    case FloatLoad => Some(d.(result := operand))
    case IntStore => Some(d.(memory := Store(d.memory, a, d.result)))
    case FloatStore => Some(d.(memory := Store(d.memory, a, d.result)))
    case IntAdd => WithResult(d, FromInt(ToInt(d.result) + ToInt(operand)))
    case IntSubtract => WithResult(d, FromInt(ToInt(d.result) - ToInt(operand)))
    case IntMultiply => WithResult(d, FromInt(ToInt(d.result) * ToInt(operand)))
    case IntDivide =>
      if operand == 0 then None else WithResult(d, FromInt(Quotient(ToInt(d.result), ToInt(operand))))
    case FloatAdd => Some(d.(result := floats.add(d.result, operand)))
    case FloatSubtract => Some(d.(result := floats.subtract(d.result, operand)))
    case FloatMultiply => Some(d.(result := floats.multiply(d.result, operand)))
    case FloatDivide => Some(d.(result := floats.divide(d.result, operand)))
    case Itof => Some(d.(result := floats.fromInt(d.result)))
    case Ftoi => WithResult(d, floats.toInt(d.result))
  }

  // ---------------------------------------------------------------------------
  // The fetch/execute loop

  /** How a run of some number of rounds ends. */
  datatype Outcome =
    | Exited(state: State)
    | Refused
    | Undefined
    | Running(state: State)

  ghost predicate Ready(code: seq<Instruction>, s: State) {
    1 <= |code| < TWO32 && Sized(s.frame, |s.data.memory|)
  }

  function Fetch(code: seq<Instruction>, s: State): Instruction
    requires Ready(code, s)
  {
    code[s.pointer % |code|]
  }

  /** One round: fetch, advance the pointer, execute. */
  function Round(floats: Floats, code: seq<Instruction>, s: State): (o: Outcome)
    requires Ready(code, s)
    ensures o.Running? ==> Ready(code, o.state)
  {
    var i := Fetch(code, s);
    var next := s.(pointer := (s.pointer + 1) % TWO32);
    match i.opcode
    case Exit => Exited(next)
    case Unrecognized => Refused
    case Jump => Running(s.(pointer := i.arg))
    case JumpIfNot => Running(if s.data.result != 0 then next else s.(pointer := i.arg))
    case _ =>
      match Execute(floats, s.frame, i, s.data)
      case None => Undefined
      case Some(d) => Running(next.(data := d))
  }

  function Rounds(floats: Floats, code: seq<Instruction>, s: State, n: nat): (o: Outcome)
    requires Ready(code, s)
    ensures o.Running? ==> Ready(code, o.state)
    decreases n
  {
    if n == 0 then Running(s)
    else
      var o := Round(floats, code, s);
      if o.Running? then Rounds(floats, code, o.state, n - 1) else o
  }

  /** Rounds compose, and nothing happens after the end. */
  lemma {:induction false} RoundsAdd(floats: Floats, code: seq<Instruction>, s: State, m: nat, n: nat)
    requires Ready(code, s)
    ensures var o := Rounds(floats, code, s, m);
      Rounds(floats, code, s, m + n) == if o.Running? then Rounds(floats, code, o.state, n) else o
    decreases m
  {
    hide Round;
    if m > 0 {
      var o := Round(floats, code, s);
      if o.Running? { RoundsAdd(floats, code, o.state, m - 1, n); }
    }
  }

  /** What the loop reports of an outcome; `Broken` is undefined behaviour. */
  datatype Status = StillRunning | Success | Failure | Broken

  ghost predicate Agrees(status: Status, s: State, o: Outcome) {
    match o
    case Exited(t) => status == Success && s == t
    case Refused => status == Failure
    case Undefined => status == Broken
    case Running(t) => status == StillRunning && s == t
  }

  class Vm {
    var instructions: seq<Instruction>
    const memory: array<byte>
    var pointer: uint32
    var frame: uint32
    var result: uint32

    constructor (instructions: seq<Instruction>, memory: array<byte>)
      ensures this.instructions == instructions && this.memory == memory
      ensures pointer == frame == result == 0
    {
      this.instructions, this.memory := instructions, memory;
      pointer, frame, result := 0, 0, 0;
    }

    ghost function Now(): State
      reads this, memory
    {
      State(Data(memory[..], result), pointer, frame)
    }

    method StoreWord(a: nat, w: uint32)
      requires a + REGISTER_SIZE <= memory.Length
      modifies memory
      ensures memory[..] == Store(old(memory[..]), a, w)
    {
      var s := Le32Bytes(w);
      memory[a], memory[a + 1], memory[a + 2], memory[a + 3] := s[0], s[1], s[2], s[3];
    }

    /** The cases of the switch that compute; false stands for undefined behaviour. */
    method Compute(floats: Floats, i: Instruction) returns (defined: bool)
      requires Sized(frame, memory.Length) && !IsControl(i.opcode)
      modifies this`result, memory
      ensures var r := Execute(floats, frame, i, old(Now().data));
        defined == r.Some? && (defined ==> Now().data == r.value)
    {
      hide Le, Store, Le32Bytes;
      var memoryMod := memory.Length - REGISTER_SIZE - frame;
      var a := (i.arg + memoryMod) % TWO32 % memoryMod;
      assert a == Address(frame, memory.Length, i.arg);
      if i.opcode == IntStore || i.opcode == FloatStore {
        StoreWord(a, result);
        return true;
      }
      var operand := Load(memory[..], a);
      var value: Option<uint32>;
      match i.opcode {
        case IntLoad => value := Some(operand);
        case FloatLoad => value := Some(operand);
        case IntAdd => value := FromInt(ToInt(result) + ToInt(operand));
        case IntSubtract => value := FromInt(ToInt(result) - ToInt(operand));
        case IntMultiply => value := FromInt(ToInt(result) * ToInt(operand));
        case IntDivide =>
          value := if operand == 0 then None else FromInt(Quotient(ToInt(result), ToInt(operand)));
        case FloatAdd => value := Some(floats.add(result, operand));
        case FloatSubtract => value := Some(floats.subtract(result, operand));
        case FloatMultiply => value := Some(floats.multiply(result, operand));
        case FloatDivide => value := Some(floats.divide(result, operand));
        case Itof => value := Some(floats.fromInt(result));
        case Ftoi => value := floats.toInt(result);
      }
      if value.None? { return false; }
      result := value.value;
      return true;
    }

    /** One pass through the loop of `vm_frame`. */
    method RunRound(floats: Floats) returns (status: Status)
      requires Ready(instructions, Now())
      modifies this`pointer, this`result, memory
      ensures Agrees(status, Now(), Round(floats, instructions, old(Now())))
    {
      hide Execute;
      var i := instructions[pointer % |instructions|];
      pointer := (pointer + 1) % TWO32;
      match i.opcode {
        case Exit => return Success;
        case Unrecognized => return Failure;
        case JumpIfNot =>
          if result == 0 { pointer := i.arg; }
          return StillRunning;
        case Jump =>
          pointer := i.arg;
          return StillRunning;
        case _ =>
          var defined := Compute(floats, i);
          return if defined then StillRunning else Broken;
      }
    }

    /** `vm_frame`, cut off after `limit` passes through its loop. */
    method Frame(floats: Floats, limit: nat) returns (status: Status)
      requires Ready(instructions, Now())
      modifies this`pointer, this`result, memory
      ensures Agrees(status, Now(), Rounds(floats, instructions, old(Now()), limit))
    {
      hide Round;
      status := StillRunning;
      var n := 0;
      while n < limit
        invariant n <= limit && status == StillRunning && Ready(instructions, Now())
        invariant Rounds(floats, instructions, Now(), limit - n) == Rounds(floats, instructions, old(Now()), limit)
      {
        status := RunRound(floats);
        n := n + 1;
        if status != StillRunning { return; }
      }
    }
  }
}
