/**
 What single instructions of the machine do (backburner/vm/vm.c), told from the outside: words as
 two's complement numbers over four bytes of memory, operands by where they lie.
 */
module MachineLaws {
  import opened Bytes
  import opened Machine

  // ---------------------------------------------------------------------------
  // Words

  /** The signed number in four bytes of memory, least significant first. */
  function SignedAt(memory: seq<byte>, a: nat): int
    requires a + 4 <= |memory|
  {
    memory[a] as int + 256 * memory[a + 1] as int + 65536 * memory[a + 2] as int + 16777216 * memory[a + 3] as int
    - if memory[a + 3] >= 128 then 4294967296 else 0
  }

  /** The register's bit pattern of a signed number, and the number of a bit pattern. */
  function Pattern(n: int): uint32
    requires -2147483648 <= n <= 2147483647
  {
    if n < 0 then n + 4294967296 else n
  }

  function Number(w: uint32): (n: int)
    ensures -2147483648 <= n <= 2147483647 && Pattern(n) == w
  {
    if w >= 2147483648 then w - 4294967296 else w
  }

  /** Where the word of an operand lies: addresses that fit the memory stand for themselves. */
  function OperandAt(frame: uint32, size: nat, arg: uint32): (a: nat)
    requires frame + 4 < size < 4294967296
    ensures a + 4 <= size - frame
  {
    var room := size - 4 - frame;
    if arg + room < 4294967296 then arg % room else (arg + room - 4294967296) % room
  }

  predicate Operand(frame: uint32, size: nat, arg: uint32, a: nat) {
    frame + 4 < size < 4294967296 && a == OperandAt(frame, size, arg)
  }

  /** Operands below the room stand for themselves, unless the 32-bit sum wraps. */
  lemma SmallOperand(frame: uint32, size: nat, arg: uint32)
    requires frame + 4 < size < 4294967296
    requires arg < size - 4 - frame && arg + (size - 4 - frame) < 4294967296
    ensures Operand(frame, size, arg, arg)
  {
    Itself(arg, size - 4 - frame);
  }

  lemma Itself(n: nat, m: nat)
    requires n < m
    ensures n % m == n
  {
  }

  lemma OperandIsAddress(frame: uint32, size: nat, arg: uint32, a: nat)
    requires Operand(frame, size, arg, a)
    ensures Sized(frame, size) && Address(frame, size, arg) == a && a + 4 <= size
  {
    var room := size - 4 - frame;
    if arg + room < TWO32 {
      OnceMore(arg, room);
      WrapNone(arg + room);
    } else {
      WrapOnce(arg + room);
    }
  }

  lemma OnceMore(n: nat, m: nat)
    requires m > 0
    ensures (n + m) % m == n % m
  {
    assert n == m * (n / m) + n % m;
    assert m * (n / m) + m == m * (n / m + 1);
    RemainderIsOnly(n + m, m, n / m + 1, n % m);
  }

  lemma RemainderIsOnly(n: nat, m: nat, q: nat, r: nat)
    requires r < m && n == m * q + r
    ensures n % m == r
  {
    var p, s := n / m, n % m;
    assert n == m * p + s;
    if p > q {
      assert m * p - m * q == m * (p - q);
      AtLeastOnce(m, p - q);
    } else if p < q {
      assert m * q - m * p == m * (q - p);
      AtLeastOnce(m, q - p);
    }
  }

  lemma AtLeastOnce(m: nat, k: nat)
    requires k >= 1
    ensures m * k >= m
  {
    assert m * k == m + m * (k - 1);
  }

  lemma WrapNone(n: nat)
    requires n < TWO32
    ensures n % TWO32 == n
  {
  }

  lemma WrapOnce(n: nat)
    requires TWO32 <= n < 2 * TWO32
    ensures n % TWO32 == n - TWO32
  {
  }

  lemma LoadedWord(memory: seq<byte>, a: nat)
    requires a + 4 <= |memory|
    ensures Load(memory, a) == Pattern(SignedAt(memory, a)) && Number(Load(memory, a)) == SignedAt(memory, a)
  {
    var s := memory[a..a + 4];
    assert s[0] == memory[a] && s[1] == memory[a + 1] && s[2] == memory[a + 2] && s[3] == memory[a + 3];
    Le4(s);
    hide Le;
  }

  lemma NumberIsToInt(w: uint32)
    ensures ToInt(w) == Number(w)
  {
  }

  lemma PatternIsFromInt(n: int)
    ensures FromInt(n) == if -2147483648 <= n <= 2147483647 then Some(Pattern(n)) else None
  {
  }

  // ---------------------------------------------------------------------------
  // Loads and stores

  /** A load puts the operand's word into the register and changes nothing else. */
  lemma LoadLaw(floats: Floats, frame: uint32, op: Opcode, arg: uint32, d: Data, a: nat)
    requires op == IntLoad || op == FloatLoad
    requires Operand(frame, |d.memory|, arg, a) && a + 4 <= |d.memory|
    ensures Sized(frame, |d.memory|)
    ensures Execute(floats, frame, Instruction(op, arg), d) == Some(Data(d.memory, Pattern(SignedAt(d.memory, a))))
  {
    hide Address, Load;
    OperandIsAddress(frame, |d.memory|, arg, a);
    LoadedWord(d.memory, a);
  }

  /** A store leaves the register's word at the operand, and the register and all other bytes alone. */
  lemma StoreLaw(floats: Floats, frame: uint32, op: Opcode, arg: uint32, d: Data, a: nat)
    requires op == IntStore || op == FloatStore
    requires Operand(frame, |d.memory|, arg, a) && a + 4 <= |d.memory|
    ensures Sized(frame, |d.memory|)
    ensures var r := Execute(floats, frame, Instruction(op, arg), d);
      && r.Some? && r.value.result == d.result && |r.value.memory| == |d.memory|
      && Pattern(SignedAt(r.value.memory, a)) == d.result
      && forall i :: 0 <= i < |d.memory| && !(a <= i < a + 4) ==> r.value.memory[i] == d.memory[i]
  {
    hide Address, Load;
    OperandIsAddress(frame, |d.memory|, arg, a);
    StoredWord(d.memory, a, d.result);
  }

  lemma StoredWord(memory: seq<byte>, a: nat, w: uint32)
    requires a + 4 <= |memory|
    ensures var m := Store(memory, a, w);
      && |m| == |memory| && Pattern(SignedAt(m, a)) == w
      && forall i :: 0 <= i < |m| && !(a <= i < a + 4) ==> m[i] == memory[i]
  {
    hide Le;
    var m := Store(memory, a, w);
    assert m[a..a + 4] == Le32Bytes(w);
    Le32RoundTrip(w);
    LoadedWord(m, a);
  }

  /** Storing and loading back at the same operand gives the register its word again. */
  lemma StoreThenLoad(floats: Floats, frame: uint32, arg: uint32, d: Data, later: uint32)
    requires Sized(frame, |d.memory|)
    ensures var stored := Execute(floats, frame, Instruction(IntStore, arg), d);
      && stored.Some?
      && var back := Execute(floats, frame, Instruction(IntLoad, arg), stored.value.(result := later));
         back == Some(stored.value)
  {
    hide Execute, OperandAt;
    var a := OperandAt(frame, |d.memory|, arg);
    StoreLaw(floats, frame, IntStore, arg, d, a);
    var stored := Execute(floats, frame, Instruction(IntStore, arg), d).value;
    LoadLaw(floats, frame, IntLoad, arg, stored.(result := later), a);
  }

  // ---------------------------------------------------------------------------
  // Signed arithmetic

  /** C division: the quotient is rounded towards zero. */
  ghost predicate Divides(a: int, b: int, q: int) {
    exists r :: a == q * b + r && Abs(r) < Abs(b) && (r == 0 || (r < 0 <==> a < 0))
  }

  function Abs(n: int): nat { if n < 0 then -n else n }

  /** What the four operations make of two signed numbers. */
  ghost predicate Computes(op: Opcode, x: int, y: int, z: int) {
    match op
    case IntAdd => z == x + y
    case IntSubtract => z == x - y
    case IntMultiply => z == x * y
    case IntDivide => y != 0 && Divides(x, y, z)
    case _ => false
  }

  /** An operation of register and operand that has a signed result leaves it in the register. */
  lemma ArithmeticLaw(floats: Floats, frame: uint32, op: Opcode, arg: uint32, d: Data, a: nat, z: int)
    requires op in {IntAdd, IntSubtract, IntMultiply, IntDivide}
    requires Operand(frame, |d.memory|, arg, a) && a + 4 <= |d.memory|
    requires Computes(op, Number(d.result), SignedAt(d.memory, a), z)
    ensures Sized(frame, |d.memory|)
    ensures Execute(floats, frame, Instruction(op, arg), d)
         == if -2147483648 <= z <= 2147483647 then Some(Data(d.memory, Pattern(z))) else None
  {
    hide Address, Load, ToInt, FromInt, Divides;
    OperandIsAddress(frame, |d.memory|, arg, a);
    LoadedWord(d.memory, a);
    NumberIsToInt(d.result);
    NumberIsToInt(Load(d.memory, a));
    PatternIsFromInt(z);
    if op == IntDivide { QuotientIsOnly(Number(d.result), SignedAt(d.memory, a), z); }
  }

  /** The only operation without a result of its own is a division by zero; it is undefined. */
  lemma DivisionByZero(floats: Floats, frame: uint32, arg: uint32, d: Data, a: nat)
    requires Operand(frame, |d.memory|, arg, a) && a + 4 <= |d.memory| && SignedAt(d.memory, a) == 0
    ensures Sized(frame, |d.memory|)
    ensures Execute(floats, frame, Instruction(IntDivide, arg), d) == None
  {
    hide Address, Load;
    OperandIsAddress(frame, |d.memory|, arg, a);
    LoadedWord(d.memory, a);
  }

  lemma QuotientDivides(a: int, b: int) returns (r: int)
    requires b != 0
    ensures a == Quotient(a, b) * b + r && Abs(r) < Abs(b) && (r == 0 || (r < 0 <==> a < 0))
  {
    r := a - Quotient(a, b) * b;
    var m, n := Abs(a), Abs(b);
    var q, s := m / n, m % n;
    assert m == q * n + s;
    assert Quotient(a, b) == if (a >= 0) == (b > 0) then q else -q;
    if a >= 0 && b > 0 {
    } else if a >= 0 {
      assert -q * b == q * n;
    } else if b > 0 {
      assert -q * b == -(q * n);
    } else {
      assert q * b == -(q * n);
    }
  }

  lemma QuotientIsOnly(a: int, b: int, q: int)
    requires b != 0 && Divides(a, b, q)
    ensures q == Quotient(a, b)
  {
    hide Quotient;
    var r := QuotientDivides(a, b);
    var s :| a == q * b + s && Abs(s) < Abs(b) && (s == 0 || (s < 0 <==> a < 0));
    OneQuotient(a, b, Quotient(a, b), r, q, s);
  }

  lemma OneQuotient(a: int, b: int, p: int, r: int, q: int, s: int)
    requires a == p * b + r && Abs(r) < Abs(b) && (r == 0 || (r < 0 <==> a < 0))
    requires a == q * b + s && Abs(s) < Abs(b) && (s == 0 || (s < 0 <==> a < 0))
    ensures p == q
  {
    assert Abs(s - r) < Abs(b);
    Distribute(p, q, b);
    if p != q { ProductIsLarge(p - q, b); }
  }

  lemma Distribute(p: int, q: int, b: int)
    ensures (p - q) * b == p * b - q * b
  {
  }

  lemma ProductIsLarge(x: int, b: int)
    requires x != 0
    ensures Abs(x * b) >= Abs(b)
  {
    AtLeastOnce(Abs(b), Abs(x));
    if x < 0 && b < 0 {
      assert x * b == -x * -b;
    } else if x < 0 {
      assert x * b == -(-x * b);
    } else if b < 0 {
      assert x * b == -(x * -b);
    }
  }

  /** Adding and then subtracting the same operand restores the register. */
  lemma AddThenSubtract(floats: Floats, frame: uint32, arg: uint32, d: Data)
    requires Sized(frame, |d.memory|)
    ensures var sum := Execute(floats, frame, Instruction(IntAdd, arg), d);
      sum.Some? ==> Execute(floats, frame, Instruction(IntSubtract, arg), sum.value) == Some(d)
  {
    hide Execute, OperandAt, SignedAt;
    var a := OperandAt(frame, |d.memory|, arg);
    var x, y := Number(d.result), SignedAt(d.memory, a);
    ArithmeticLaw(floats, frame, IntAdd, arg, d, a, x + y);
    var sum := Execute(floats, frame, Instruction(IntAdd, arg), d);
    if sum.Some? {
      assert Number(sum.value.result) == x + y;
      ArithmeticLaw(floats, frame, IntSubtract, arg, sum.value, a, x);
    }
  }

  // ---------------------------------------------------------------------------
  // Floats

  /** Float arithmetic takes register and operand in this order and changes the register alone. */
  lemma FloatLaw(floats: Floats, frame: uint32, arg: uint32, d: Data, a: nat)
    requires Operand(frame, |d.memory|, arg, a) && a + 4 <= |d.memory|
    ensures Sized(frame, |d.memory|) && -2147483648 <= SignedAt(d.memory, a) <= 2147483647
    ensures var y := Pattern(SignedAt(d.memory, a));
      && Execute(floats, frame, Instruction(FloatAdd, arg), d) == Some(Data(d.memory, floats.add(d.result, y)))
      && Execute(floats, frame, Instruction(FloatSubtract, arg), d)
         == Some(Data(d.memory, floats.subtract(d.result, y)))
      && Execute(floats, frame, Instruction(FloatMultiply, arg), d)
         == Some(Data(d.memory, floats.multiply(d.result, y)))
      && Execute(floats, frame, Instruction(FloatDivide, arg), d) == Some(Data(d.memory, floats.divide(d.result, y)))
  {
    hide Address, Load;
    OperandIsAddress(frame, |d.memory|, arg, a);
    LoadedWord(d.memory, a);
  }

  /** The conversions use the register alone; one to an integer may be undefined. */
  lemma ConversionLaw(floats: Floats, frame: uint32, arg: uint32, d: Data)
    requires Sized(frame, |d.memory|)
    ensures Execute(floats, frame, Instruction(Itof, arg), d) == Some(Data(d.memory, floats.fromInt(d.result)))
    ensures Execute(floats, frame, Instruction(Ftoi, arg), d) ==
            match floats.toInt(d.result)
            case None => None
            case Some(w) => Some(Data(d.memory, w))
  {
  }

  // ---------------------------------------------------------------------------
  // One round

  /** What one pass through the loop does, opcode by opcode. */
  lemma RoundLaw(floats: Floats, code: seq<Instruction>, s: State)
    requires Ready(code, s) && s.pointer < |code|
    ensures var i, o := code[s.pointer], Round(floats, code, s);
      var next := if s.pointer == 4294967295 then 0 else s.pointer + 1;
      && (i.opcode == Exit ==> o == Exited(State(s.data, next, s.frame)))
      && (i.opcode == Jump ==> o == Running(State(s.data, i.arg, s.frame)))
      && (i.opcode == JumpIfNot ==>
            o == Running(State(s.data, if s.data.result == 0 then i.arg else next, s.frame)))
      && (i.opcode == Unrecognized ==> o == Refused)
      && (!IsControl(i.opcode) ==>
            match Execute(floats, s.frame, i, s.data)
            case None => o == Undefined
            case Some(d) => o == Running(State(d, next, s.frame)))
  {
    hide Execute;
    Itself(s.pointer, |code|);
    NextPointer(s.pointer);
  }

  lemma NextPointer(p: uint32)
    ensures (p + 1) % TWO32 == if p == 4294967295 then 0 else p + 1
  {
  }
}
