/**
 Bytes, fixed-width unsigned integers and the growable byte buffer shared by every component.

 C integers are modelled as mathematical integers inside their range; every place where the
 original narrows or wraps is written out with an explicit `%`.
 */
module Bytes {
  const TWO16 := 0x1_0000
  const TWO32 := 0x1_0000_0000
  const TWO64 := 0x1_0000_0000_0000_0000

  type byte = b: int | 0 <= b < 0x100
  type uint16 = n: int | 0 <= n < 0x1_0000
  type uint32 = n: int | 0 <= n < 0x1_0000_0000
  type uint64 = n: int | 0 <= n < 0x1_0000_0000_0000_0000

  datatype Option<+T> = None | Some(value: T)

  /** The little-endian value of a byte string. */
  function Le(s: seq<byte>): nat {
    if s == [] then 0 else s[0] + 0x100 * Le(s[1..])
  }

  /** The four bytes of a 32-bit word, least significant first. */
  function Le32Bytes(n: uint32): (s: seq<byte>)
    ensures |s| == 4
  {
    [n % 0x100, n / 0x100 % 0x100, n / 0x1_0000 % 0x100, n / 0x100_0000]
  }

  /** All the pieces, one after the other. */
  function Concat<T>(pieces: seq<seq<T>>): seq<T> {
    if pieces == [] then [] else pieces[0] + Concat(pieces[1..])
  }

  lemma {:induction false} ConcatAppend<T>(a: seq<seq<T>>, b: seq<seq<T>>)
    ensures Concat(a + b) == Concat(a) + Concat(b)
    decreases |a|
  {
    if a == [] {
      assert a + b == b;
    } else {
      assert (a + b)[1..] == a[1..] + b;
      ConcatAppend(a[1..], b);
      Associative(a[0], Concat(a[1..]), Concat(b));
    }
  }

  lemma Associative<T>(a: seq<T>, b: seq<T>, c: seq<T>)
    ensures (a + b) + c == a + (b + c)
  {
  }

  lemma Regroup<T>(a: seq<T>, b: seq<T>, c: seq<T>, d: seq<T>)
    ensures a + (b + c + d) == (a + b + c) + d
  {
  }

  /** A sequence is its three consecutive parts. */
  lemma ThreeParts<T>(s: seq<T>, k: nat, n: nat)
    requires k <= |s| && n <= |s| - k
    ensures s == s[..k] + s[k..][..n] + s[k..][n..]
  {
    assert s[k..] == s[k..][..n] + s[k..][n..];
  }

  lemma Le4(s: seq<byte>)
    requires |s| == 4
    ensures Le(s) == s[0] as int + 0x100 * s[1] as int + 0x1_0000 * s[2] as int + 0x100_0000 * s[3] as int
  {
    assert Le(s[4..]) == 0;
    assert s[3..][1..] == s[4..] && Le(s[3..]) == s[3];
    assert s[2..][1..] == s[3..] && Le(s[2..]) == s[2] as int + 0x100 * s[3] as int;
    assert s[1..][1..] == s[2..] && Le(s[1..]) == s[1] as int + 0x100 * s[2] as int + 0x1_0000 * s[3] as int;
  }

  lemma Digits(n: uint32)
    ensures n % 0x100 + 0x100 * (n / 0x100 % 0x100) + 0x1_0000 * (n / 0x1_0000 % 0x100)
            + 0x100_0000 * (n / 0x100_0000) == n
  {
    var a := n / 0x100;
    var b := a / 0x100;
    assert n == a * 0x100 + n % 0x100;
    assert a == b * 0x100 + a % 0x100;
    assert b == n / 0x1_0000 && b / 0x100 == n / 0x100_0000;
  }

  lemma Le32RoundTrip(n: uint32)
    ensures Le(Le32Bytes(n)) == n
  {
    var s := Le32Bytes(n);
    assert s[0] == n % 0x100 && s[1] == n / 0x100 % 0x100;
    assert s[2] == n / 0x1_0000 % 0x100 && s[3] == n / 0x100_0000;
    Digits(n);
    Le4(s);
    hide Le, Le32Bytes;
  }

  /** A growable byte buffer (`buffer_unsigned_char`). */
  class Buffer {
    var bytes: seq<byte>

    constructor ()
      ensures bytes == []
    {
      bytes := [];
    }

    method Push(b: byte)
      modifies this
      ensures bytes == old(bytes) + [b]
    {
      bytes := bytes + [b];
    }

    /** `buffer_resize`: cut off behind `count` bytes, or grown by bytes nobody has set. */
    method Resize(count: nat)
      modifies this
      ensures |bytes| == count
      ensures if count <= |old(bytes)| then bytes == old(bytes)[..count] else bytes[..|old(bytes)|] == old(bytes)
    {
      if count <= |bytes| {
        bytes := bytes[..count];
      } else {
        var junk := new byte[count - |bytes|];
        bytes := bytes + junk[..];
      }
    }

    method Append(s: seq<byte>)
      modifies this
      ensures bytes == old(bytes) + s
    {
      bytes := bytes + s;
    }
  }
}
