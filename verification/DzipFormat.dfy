/**
 The dzip chunk format (src/dzip/common): what bytes stand for which commands, and what a
 command sequence does to the output. This is the meaning both the encoder and the decoder
 are proved against.
 */
module DzipFormat {
  import opened Bytes
  import Vluint

  const COMPACT_MAX := 32
  const EXTEND_BIT := 4
  const COMMAND_MAX := 4
  const META_MAX := 8

  const CMD_LITERAL := 0
  const CMD_MATCH := 1

  /** "deezwhat" */
  const MAGIC: seq<byte> := [100, 101, 101, 122, 119, 104, 97, 116]
  const VERSION: uint32 := 1
  const HEADER_SIZE := 16

  datatype Command =
    | Literal(data: seq<byte>)
    | Match(length: nat, distance: nat)

  /** The outcome of decoding: the boolean the C function returns and the output it leaves. */
  datatype Verdict = Verdict(ok: bool, out: seq<byte>)

  // ---------------------------------------------------------------------------
  // Writing

  /** A command byte, extended by a vluint when the argument does not fit five bits. */
  function EncodeArg(command: nat, arg: nat): (s: seq<byte>)
    requires command < COMMAND_MAX
    ensures |s| >= 1
  {
    if arg < COMPACT_MAX then
      [command + META_MAX * arg]
    else
      [command + EXTEND_BIT + META_MAX * (arg % COMPACT_MAX)] + Vluint.Encode(arg / COMPACT_MAX)
  }

  function EncodeCommand(c: Command): (s: seq<byte>)
    ensures |s| >= 1
  {
    match c
    case Literal(data) => EncodeArg(CMD_LITERAL, |data|) + data
    case Match(length, distance) => EncodeArg(CMD_MATCH, length) + Vluint.Encode(distance)
  }

  function EncodeAll(cs: seq<Command>): seq<byte> {
    if cs == [] then [] else EncodeCommand(cs[0]) + EncodeAll(cs[1..])
  }

  function Header(chunkSize: uint32): (h: seq<byte>)
    ensures |h| == HEADER_SIZE
  {
    MAGIC + Le32Bytes(VERSION) + Le32Bytes(chunkSize)
  }

  // ---------------------------------------------------------------------------
  // Reading

  /** The command number, its 64-bit argument and the bytes used; None when truncated. */
  function ParseArg(s: seq<byte>): (r: Option<(nat, uint64, nat)>)
    requires s != []
    ensures r.Some? ==> 1 <= r.value.2 <= |s|
  {
    var command, arg := s[0] % COMMAND_MAX, s[0] / META_MAX;
    if s[0] / EXTEND_BIT % 2 == 0 then
      Some((command, arg, 1))
    else
      match Vluint.Decode(s[1..])
      case None => None
      case Some((high, k)) => Some((command, (arg + COMPACT_MAX * high) % TWO64, 1 + k))
  }

  /** The first command of s and the bytes it occupies; None when s does not start with one. */
  function ParseCommand(s: seq<byte>): (r: Option<(Command, nat)>)
    requires s != []
    ensures r.Some? ==> 1 <= r.value.1 <= |s|
  {
    match ParseArg(s)
    case None => None
    case Some((command, arg, k)) =>
      if command == CMD_LITERAL then
        if arg == 0 || arg > |s| - k then None
        else Some((Literal(s[k..k + arg]), k + arg))
      else if command == CMD_MATCH then
        if arg == 0 then None
        else
          match Vluint.Decode(s[k..])
          case None => None
          case Some((distance, d)) =>
            if distance == 0 then None else Some((Match(arg, distance), k + d))
      else None
  }

  /** The whole string as a command sequence. */
  function Parse(s: seq<byte>): Option<seq<Command>> {
    if s == [] then Some([])
    else
      match ParseCommand(s)
      case None => None
      case Some((c, k)) =>
        match Parse(s[k..])
        case None => None
        case Some(cs) => Some([c] + cs)
  }

  // ---------------------------------------------------------------------------
  // Meaning

  /** Byte-by-byte copy from `distance` back; source and destination may overlap. */
  function Copy(out: seq<byte>, length: nat, distance: nat): seq<byte>
    requires 1 <= distance <= |out|
    decreases length
  {
    if length == 0 then out else Copy(out + [out[|out| - distance]], length - 1, distance)
  }

  /** One command applied to the output so far; the size it is checked against is 32 bits wide. */
  function Apply(out: seq<byte>, c: Command): Option<seq<byte>> {
    match c
    case Literal(data) => Some(out + data)
    case Match(length, distance) =>
      if 1 <= distance <= |out| % TWO32 then Some(Copy(out, length, distance)) else None
  }

  function ApplyAll(out: seq<byte>, cs: seq<Command>): Option<seq<byte>>
    decreases |cs|
  {
    if cs == [] then Some(out)
    else
      match Apply(out, cs[0])
      case None => None
      case Some(next) => ApplyAll(next, cs[1..])
  }

  /** Decoding interleaved: commands are carried out as they are read, until one is bad. */
  function Decode(s: seq<byte>, out: seq<byte>): Verdict
    decreases |s|
  {
    if s == [] then Verdict(true, out)
    else
      match ParseCommand(s)
      case None => Verdict(false, out)
      case Some((c, k)) =>
        match Apply(out, c)
        case None => Verdict(false, out)
        case Some(next) => Decode(s[k..], next)
  }

  function ChunkSize(chunk: seq<byte>): nat
    requires |chunk| >= HEADER_SIZE
  {
    Le(chunk[12..16])
  }

  predicate GoodHeader(chunk: seq<byte>)
    requires |chunk| >= HEADER_SIZE
  {
    chunk[..8] == MAGIC && Le(chunk[8..12]) == VERSION
  }

  /** What `dzip_inflate` needs of its caller: the memory the header announces is there. */
  predicate Readable(chunk: seq<byte>) {
    |chunk| >= HEADER_SIZE && (GoodHeader(chunk) ==> ChunkSize(chunk) <= |chunk|)
  }

  function DecodeChunk(chunk: seq<byte>, out: seq<byte>): Verdict
    requires Readable(chunk)
  {
    if !GoodHeader(chunk) || ChunkSize(chunk) <= HEADER_SIZE then Verdict(false, out)
    else Decode(chunk[HEADER_SIZE..ChunkSize(chunk)], out)
  }

  // ---------------------------------------------------------------------------
  // Properties of the meaning

  /** r extends out so that every new byte repeats the one `distance` before it. */
  predicate IsCopy(out: seq<byte>, r: seq<byte>, length: nat, distance: nat)
    requires 1 <= distance <= |out|
  {
    |r| == |out| + length && r[..|out|] == out &&
    forall i :: |out| <= i < |r| ==> r[i] == r[i - distance]
  }

  /** The copying loop computes the one extension of that period, overlap included. */
  lemma {:induction false} CopyCharacterized(out: seq<byte>, r: seq<byte>, length: nat, distance: nat)
    requires 1 <= distance <= |out|
    ensures IsCopy(out, r, length, distance) <==> r == Copy(out, length, distance)
    decreases length
  {
    if length == 0 {
      assert IsCopy(out, r, 0, distance) ==> r[..|out|] == r;
    } else {
      var out' := out + [out[|out| - distance]];
      CopyCharacterized(out', r, length - 1, distance);
      if IsCopy(out, r, length, distance) {
        assert r[..|out'|] == r[..|out|] + [r[|out|]];
        assert r[|out| - distance] == r[..|out|][|out| - distance];
        assert IsCopy(out', r, length - 1, distance);
      }
      if IsCopy(out', r, length - 1, distance) {
        assert r[..|out|] == r[..|out'|][..|out|];
        assert r[|out|] == r[..|out'|][|out|];
        assert r[|out| - distance] == r[..|out'|][|out| - distance];
        assert IsCopy(out, r, length, distance);
      }
    }
  }

  lemma CopyExtends(out: seq<byte>, length: nat, distance: nat)
    requires 1 <= distance <= |out|
    ensures out <= Copy(out, length, distance)
    ensures |Copy(out, length, distance)| == |out| + length
  {
    CopyCharacterized(out, Copy(out, length, distance), length, distance);
  }

  /** Decoding only ever appends. */
  lemma {:induction false} DecodeAppends(s: seq<byte>, out: seq<byte>)
    ensures out <= Decode(s, out).out
    decreases |s|
  {
    if s != [] && ParseCommand(s).Some? {
      var (c, k) := ParseCommand(s).value;
      if c.Match? && 1 <= c.distance <= |out| % TWO32 {
        CopyExtends(out, c.length, c.distance);
      }
      if Apply(out, c).Some? { DecodeAppends(s[k..], Apply(out, c).value); }
    }
  }

  /** Decoding succeeds exactly when the bytes are commands whose meaning is defined. */
  lemma {:induction false} DecodeIsParseThenApply(s: seq<byte>, out: seq<byte>)
    ensures Decode(s, out).ok <==> Parse(s).Some? && ApplyAll(out, Parse(s).value).Some?
    ensures Decode(s, out).ok ==> ApplyAll(out, Parse(s).value) == Some(Decode(s, out).out)
    decreases |s|
  {
    if s != [] && ParseCommand(s).Some? {
      var (c, k) := ParseCommand(s).value;
      if Apply(out, c).Some? {
        DecodeIsParseThenApply(s[k..], Apply(out, c).value);
      }
      if Parse(s[k..]).Some? {
        assert ([c] + Parse(s[k..]).value)[1..] == Parse(s[k..]).value;
      }
    }
  }

  // ---------------------------------------------------------------------------
  // The writer's bytes parse back

  /** What the encoder may emit: non-zero arguments below 2^32. */
  predicate Emittable(c: Command) {
    match c
    case Literal(data) => 1 <= |data| < TWO32
    case Match(length, distance) => 1 <= length < TWO32 && 1 <= distance < TWO32
  }

  predicate AllEmittable(cs: seq<Command>) {
    forall i :: 0 <= i < |cs| ==> Emittable(cs[i])
  }

  lemma CommandByte(command: nat, extend: nat, low: nat)
    requires command < COMMAND_MAX && extend < 2 && low < COMPACT_MAX
    ensures var b := command + EXTEND_BIT * extend + META_MAX * low;
      b % COMMAND_MAX == command && b / EXTEND_BIT % 2 == extend && b / META_MAX == low
  {
  }

  lemma Recombine(arg: uint64)
    ensures (arg % COMPACT_MAX + COMPACT_MAX * (arg / COMPACT_MAX)) % TWO64 == arg
  {
    assert arg % COMPACT_MAX + COMPACT_MAX * (arg / COMPACT_MAX) == arg;
  }

  /** Every command number and argument survives `write_command` and the reading of it. */
  lemma ArgRoundTrip(command: nat, arg: uint64, rest: seq<byte>)
    requires command < COMMAND_MAX
    ensures ParseArg(EncodeArg(command, arg) + rest) == Some((command, arg, |EncodeArg(command, arg)|))
  {
    hide Vluint.Encode, Vluint.Decode;
    var s := EncodeArg(command, arg) + rest;
    var low, high := arg % COMPACT_MAX, arg / COMPACT_MAX;
    if arg < COMPACT_MAX {
      CommandByte(command, 0, arg);
      assert s[0] == command + META_MAX * arg;
    } else {
      CommandByte(command, 1, low);
      Recombine(arg);
      Vluint.RoundTrip(high, rest);
      assert s[0] == command + EXTEND_BIT + META_MAX * low;
      assert s[1..] == Vluint.Encode(high) + rest;
    }
  }

  lemma CommandRoundTrip(c: Command, rest: seq<byte>)
    requires Emittable(c)
    ensures ParseCommand(EncodeCommand(c) + rest) == Some((c, |EncodeCommand(c)|))
  {
    hide EncodeArg, ParseArg, Vluint.Encode, Vluint.Decode;
    var s := EncodeCommand(c) + rest;
    match c
    case Literal(data) =>
      var head := EncodeArg(CMD_LITERAL, |data|);
      ArgRoundTrip(CMD_LITERAL, |data|, data + rest);
      assert s == head + (data + rest);
      Associative(head, data, rest);
      assert s[|head|..|head| + |data|] == data;
    case Match(length, distance) =>
      var head := EncodeArg(CMD_MATCH, length);
      var tail := Vluint.Encode(distance);
      ArgRoundTrip(CMD_MATCH, length, tail + rest);
      Associative(head, tail, rest);
      assert s == head + (tail + rest);
      assert s[|head|..] == tail + rest;
      Vluint.RoundTrip(distance, rest);
  }

  lemma {:induction false} ParseInvertsEncode(cs: seq<Command>)
    requires AllEmittable(cs)
    ensures Parse(EncodeAll(cs)) == Some(cs)
  {
    hide Emittable, ParseCommand, EncodeCommand;
    if cs != [] {
      CommandRoundTrip(cs[0], EncodeAll(cs[1..]));
      ParseInvertsEncode(cs[1..]);
      assert EncodeAll(cs)[|EncodeCommand(cs[0])|..] == EncodeAll(cs[1..]);
      assert [cs[0]] + cs[1..] == cs;
    }
  }

  lemma {:induction false} EncodeAllConcat(a: seq<Command>, b: seq<Command>)
    ensures EncodeAll(a + b) == EncodeAll(a) + EncodeAll(b)
  {
    hide EncodeCommand;
    if a == [] {
      assert a + b == b;
    } else {
      EncodeAllConcat(a[1..], b);
      assert (a + b)[1..] == a[1..] + b;
      Associative(EncodeCommand(a[0]), EncodeAll(a[1..]), EncodeAll(b));
    }
  }

  lemma {:induction false} EncodeAllSnoc(cs: seq<Command>, c: Command)
    ensures EncodeAll(cs + [c]) == EncodeAll(cs) + EncodeCommand(c)
  {
    hide EncodeCommand;
    EncodeAllConcat(cs, [c]);
    assert [c][1..] == [];
  }

  lemma {:induction false} ApplyAllConcat(out: seq<byte>, a: seq<Command>, b: seq<Command>)
    ensures ApplyAll(out, a + b) ==
            if ApplyAll(out, a).None? then None else ApplyAll(ApplyAll(out, a).value, b)
    decreases |a|
  {
    hide Apply;
    if a == [] {
      assert a + b == b;
    } else {
      assert (a + b)[1..] == a[1..] + b;
      if Apply(out, a[0]).Some? { ApplyAllConcat(Apply(out, a[0]).value, a[1..], b); }
    }
  }

  // ---------------------------------------------------------------------------
  // When the 32-bit size lets a command through

  /** How many bytes a command adds to the output. */
  function Length(c: Command): nat {
    match c
    case Literal(data) => |data|
    case Match(length, _) => length
  }

  function TotalLength(cs: seq<Command>): nat {
    if cs == [] then 0 else Length(cs[0]) + TotalLength(cs[1..])
  }

  /** No distance exceeds what the decoder takes for the size of the output at that point. */
  predicate DistancesFit(total: nat, cs: seq<Command>) {
    forall i :: 0 <= i < |cs| && cs[i].Match? ==> cs[i].distance <= (total + TotalLength(cs[..i])) % TWO32
  }

  lemma DistancesFitFrom(total: nat, cs: seq<Command>)
    requires cs != []
    ensures DistancesFit(total, cs) <==>
            (cs[0].Match? ==> cs[0].distance <= total % TWO32) && DistancesFit(total + Length(cs[0]), cs[1..])
  {
    forall i | 1 <= i < |cs|
      ensures TotalLength(cs[..i]) == Length(cs[0]) + TotalLength(cs[1..][..i - 1])
    {
      assert cs[..i][1..] == cs[1..][..i - 1];
    }
    assert forall i :: 0 <= i < |cs| - 1 ==> cs[1..][i] == cs[i + 1];
    if DistancesFit(total + Length(cs[0]), cs[1..]) {
      forall i | 1 <= i < |cs| && cs[i].Match?
        ensures cs[i].distance <= (total + TotalLength(cs[..i])) % TWO32
      {
        assert cs[1..][i - 1].distance <= (total + Length(cs[0]) + TotalLength(cs[1..][..i - 1])) % TWO32;
      }
    }
  }

  /** Well-formed commands are carried out exactly when every distance passes the size check. */
  lemma {:induction false} AppliesIffDistancesFit(out: seq<byte>, cs: seq<Command>)
    requires AllEmittable(cs)
    ensures ApplyAll(out, cs).Some? <==> DistancesFit(|out|, cs)
    decreases |cs|
  {
    hide DistancesFit;
    if cs == [] {
      assert DistancesFit(|out|, cs) by { NothingToFit(|out|); }
    } else {
      DistancesFitFrom(|out|, cs);
      if Apply(out, cs[0]).Some? {
        if cs[0].Match? { CopyExtends(out, cs[0].length, cs[0].distance); }
        AppliesIffDistancesFit(Apply(out, cs[0]).value, cs[1..]);
      }
    }
  }

  lemma NothingToFit(total: nat)
    ensures DistancesFit(total, [])
  {
  }

  lemma HeaderRoundTrip(chunkSize: uint32, rest: seq<byte>)
    ensures GoodHeader(Header(chunkSize) + rest)
    ensures ChunkSize(Header(chunkSize) + rest) == chunkSize
  {
    var s := Header(chunkSize) + rest;
    assert s[..8] == MAGIC;
    assert s[8..12] == Le32Bytes(VERSION);
    assert s[12..16] == Le32Bytes(chunkSize);
    Le32RoundTrip(VERSION);
    Le32RoundTrip(chunkSize);
  }
}
