/**
 Variable-length unsigned integers: seven bits a byte, least significant group first,
 bit 7 set on every byte but the last (src/vluint/vluint.c).
 */
module Vluint {
  import opened Bytes

  const CHAR_MAX := 128

  /** The shortest representation of a number, as the writer produces it. */
  function Encode(n: nat): (s: seq<byte>)
    ensures |s| >= 1
  {
    if n < CHAR_MAX then [n] else [n % CHAR_MAX + CHAR_MAX] + Encode(n / CHAR_MAX)
  }

  /** The number a string of groups stands for, without any width limit. */
  function Value(s: seq<byte>): nat {
    if s == [] then 0 else s[0] % CHAR_MAX + CHAR_MAX * Value(s[1..])
  }

  /** 128 to the power i. */
  function Power(i: nat): (p: nat)
    ensures p >= 1
  {
    if i == 0 then 1 else CHAR_MAX * Power(i - 1)
  }

  /** All bytes carry the continuation bit. */
  predicate Continued(s: seq<byte>) {
    forall i :: 0 <= i < |s| ==> s[i] >= CHAR_MAX
  }

  /** The string is exactly one number: only its last byte ends it. */
  predicate IsVluint(s: seq<byte>) {
    |s| >= 1 && Continued(s[..|s| - 1]) && s[|s| - 1] < CHAR_MAX
  }

  /** How many bytes the number at the front of s occupies; 0 when s is truncated. */
  function PrefixLength(s: seq<byte>): (k: nat)
    ensures k <= |s|
    ensures k > 0 ==> IsVluint(s[..k])
    ensures k == 0 ==> Continued(s)
  {
    if s == [] then 0
    else if s[0] < CHAR_MAX then 1
    else
      var k := PrefixLength(s[1..]);
      if k == 0 then 0
      else
        assert s[..k + 1] == [s[0]] + s[1..][..k];
        assert s[..k + 1][..k] == [s[0]] + s[1..][..k][..k - 1];
        k + 1
  }

  /** What reading s must give: the value modulo 2^64, and how many bytes it used. */
  function Decode(s: seq<byte>): Option<(uint64, nat)> {
    var k := PrefixLength(s);
    if k == 0 then None else Some((Value(s[..k]) % TWO64, k))
  }

  // ---------------------------------------------------------------------------
  // Arithmetic of the groups

  lemma {:induction false} ValueSnoc(s: seq<byte>, b: byte)
    ensures Value(s + [b]) == Value(s) + Power(|s|) * (b % CHAR_MAX)
  {
    if s == [] {
      assert ([] + [b])[1..] == [];
    } else {
      ValueSnoc(s[1..], b);
      assert (s + [b])[1..] == s[1..] + [b];
      calc {
        CHAR_MAX * (Power(|s| - 1) * (b % CHAR_MAX));
        Power(|s|) * (b % CHAR_MAX);
      }
    }
  }

  lemma {:induction false} ValueBound(s: seq<byte>)
    ensures Value(s) < Power(|s|)
  {
    if s != [] { ValueBound(s[1..]); }
  }

  lemma {:induction false} PowerMonotone(i: nat, j: nat)
    requires i <= j
    ensures Power(i) <= Power(j)
    decreases j
  {
    if i < j { PowerMonotone(i, j - 1); }
  }

  lemma PowerNine()
    ensures Power(9) == 0x8000_0000_0000_0000
  {
    assert Power(3) == 0x20_0000;
    assert Power(6) == 0x400_0000_0000;
  }

  lemma SmallPowers()
    ensures Power(1) == 0x80 && Power(2) == 0x4000 && Power(3) == 0x20_0000
  {
    assert Power(1) == CHAR_MAX * Power(0);
  }

  /** Adding with both operands already reduced gives the same residue. */
  lemma AddMulMod(v: nat, p: nat, d: nat)
    ensures (v % TWO64 + (p % TWO64) * d) % TWO64 == (v + p * d) % TWO64
  {
    var q := v / TWO64 + p / TWO64 * d;
    assert p * d == (p / TWO64 * TWO64 + p % TWO64) * d;
    assert p * d == p / TWO64 * d * TWO64 + (p % TWO64) * d;
    assert v + p * d == (v % TWO64 + (p % TWO64) * d) + q * TWO64;
    ModShift(v % TWO64 + (p % TWO64) * d, q);
  }

  lemma ModShift(a: nat, q: nat)
    ensures (a + q * TWO64) % TWO64 == a % TWO64
  {
    assert a + q * TWO64 == (a / TWO64 + q) * TWO64 + a % TWO64;
  }

  // ---------------------------------------------------------------------------
  // Reader and writer

  /** One more group, added in 64-bit arithmetic. */
  lemma NextGroup(s: seq<byte>, c: byte)
    ensures (Value(s) % TWO64 + Power(|s|) % TWO64 * (c % CHAR_MAX)) % TWO64 == Value(s + [c]) % TWO64
  {
    hide Value, Power;
    ValueSnoc(s, c);
    AddMulMod(Value(s), Power(|s|), c % CHAR_MAX);
  }

  lemma NextPower(i: nat)
    ensures Power(i) % TWO64 * CHAR_MAX % TWO64 == Power(i + 1) % TWO64
  {
    var p := Power(i);
    assert Power(i + 1) == CHAR_MAX * p;
    hide Power;
    AddMulMod(0, p, CHAR_MAX);
    assert 0 + p * CHAR_MAX == CHAR_MAX * p;
  }

  /** `vluint_read`: the loop adds `power * group` and multiplies `power` in 64-bit arithmetic. */
  method Read(input: seq<byte>) returns (r: Option<(uint64, nat)>)
    ensures r == Decode(input)
  {
    hide Value, Power, PrefixLength;
    var result: uint64, power: uint64 := 0, 1;
    assert Value(input[..0]) == 0 && Power(0) == 1 by { Unit(); }
    for i := 0 to |input|
      invariant Continued(input[..i])
      invariant result == Value(input[..i]) % TWO64
      invariant power == Power(i) % TWO64
    {
      var c := input[i];
      assert input[..i + 1] == input[..i] + [c];
      NextGroup(input[..i], c);
      result := (result + power * (c % CHAR_MAX)) % TWO64;
      if c < CHAR_MAX {
        assert input[..i + 1][..i] == input[..i];
        PrefixLengthUnique(input, i + 1);
        return Some((result, i + 1));
      }
      NextPower(i);
      power := power * CHAR_MAX % TWO64;
    }
    assert input[..|input|] == input;
    AllContinued(input);
    return None;
  }

  lemma Unit()
    ensures Value([]) == 0 && Power(0) == 1
  {
  }

  lemma {:induction false} AllContinued(s: seq<byte>)
    requires Continued(s)
    ensures PrefixLength(s) == 0
  {
    if s != [] { AllContinued(s[1..]); }
  }

  /** `vluint_write`. */
  method Write(output: Buffer, value: uint64)
    modifies output
    ensures output.bytes == old(output.bytes) + Encode(value)
  {
    var n: uint64 := value;
    while n >= CHAR_MAX
      invariant output.bytes + Encode(n) == old(output.bytes) + Encode(value)
    {
      ghost var before := output.bytes;
      output.Push(n % CHAR_MAX + CHAR_MAX);
      assert before + Encode(n) == output.bytes + Encode(n / CHAR_MAX);
      n := n / CHAR_MAX;
    }
    output.Push(n);
  }

  // ---------------------------------------------------------------------------
  // Properties

  /** A prefix that is one number is the prefix the reader finds. */
  lemma {:induction false} PrefixLengthUnique(s: seq<byte>, k: nat)
    requires 1 <= k <= |s| && IsVluint(s[..k])
    ensures PrefixLength(s) == k
  {
    assert k == 1 || s[..k][..k - 1][0] == s[0];
    if s[0] >= CHAR_MAX {
      assert s[..k][k - 1] == s[k - 1];
      assert s[1..][..k - 1] == s[..k][1..];
      assert s[1..][..k - 1][..k - 2] == s[..k][..k - 1][1..];
      PrefixLengthUnique(s[1..], k - 1);
    }
  }

  lemma {:induction false} EncodeIsVluint(n: nat)
    ensures IsVluint(Encode(n)) && Value(Encode(n)) == n
  {
    var s := Encode(n);
    if n < CHAR_MAX {
      assert s[1..] == [];
    } else {
      EncodeIsVluint(n / CHAR_MAX);
      var t := Encode(n / CHAR_MAX);
      assert s[1..] == t;
      assert s[..|s| - 1] == [s[0]] + t[..|t| - 1];
    }
  }

  /** Reading back what was written, whatever follows it, over all 64-bit values. */
  lemma RoundTrip(n: uint64, rest: seq<byte>)
    ensures Decode(Encode(n) + rest) == Some((n, |Encode(n)|))
  {
    hide Encode, Value, IsVluint, PrefixLength;
    EncodeIsVluint(n);
    var s := Encode(n) + rest;
    assert s[..|Encode(n)|] == Encode(n);
    PrefixLengthUnique(s, |Encode(n)|);
  }

  /** No code word is a proper prefix of another. */
  lemma PrefixFree(m: uint64, n: uint64)
    requires Encode(m) <= Encode(n)
    ensures m == n
  {
    var rest := Encode(n)[|Encode(m)|..];
    assert Encode(n) == Encode(m) + rest;
    assert Encode(n) == Encode(n) + [];
    RoundTrip(m, rest);
    RoundTrip(n, []);
  }

  lemma {:induction false} EncodeLength(n: nat, k: nat)
    requires k >= 1
    ensures |Encode(n)| <= k <==> n < Power(k)
    decreases k
  {
    if k == 1 {
      assert Power(1) == CHAR_MAX;
    } else if n < CHAR_MAX {
      PowerMonotone(1, k);
      assert Power(1) == CHAR_MAX;
    } else {
      EncodeLength(n / CHAR_MAX, k - 1);
      assert n < CHAR_MAX * Power(k - 1) <==> n / CHAR_MAX < Power(k - 1);
    }
  }

  /** The writer is optimal: nothing shorter reads back to the same number, wrapping included. */
  lemma WriterIsShortest(s: seq<byte>, n: uint64)
    requires Decode(s) == Some((n, |s|))
    ensures |Encode(n)| <= |s|
  {
    assert s[..|s|] == s;
    PowerNine();
    if |s| <= 9 {
      ValueBound(s);
      PowerMonotone(|s|, 9);
      EncodeLength(n, |s|);
    } else {
      PowerMonotone(10, 10);
      assert Power(10) == CHAR_MAX * Power(9);
      EncodeLength(n, 10);
    }
  }

  /** While the reader scans what the writer made, neither `power` nor `result` ever wraps. */
  lemma ReaderNeverWraps(n: uint64, i: nat)
    requires i < |Encode(n)|
    ensures Power(i) < TWO64 && Value(Encode(n)[..i + 1]) < TWO64
  {
    PowerNine();
    assert Power(10) == CHAR_MAX * Power(9);
    EncodeLength(n, 10);
    PowerMonotone(i, 9);
    EncodeIsVluint(n);
    ValuePrefix(Encode(n), i + 1);
  }

  lemma {:induction false} ValuePrefix(s: seq<byte>, k: nat)
    requires k <= |s|
    ensures Value(s[..k]) <= Value(s)
  {
    if k > 0 {
      ValuePrefix(s[1..], k - 1);
      assert s[..k][1..] == s[1..][..k - 1];
    }
  }
}
