/**
 The streaming encoder (junked/dzip-working-immediate/deflate.c): pending literal and growing
 match are held back from call step to call step, and written when the match breaks.
 */
module StreamDeflate {
  import opened Bytes
  import opened StreamFormat

  const RECENT_SIZE := 6857
  const INDEX_SIZE := 8

  datatype State = State(
    bytesRead: nat,
    window: seq<byte>,
    recent: seq<nat>,
    literalBegin: nat,
    matchTo: nat,
    matchFrom: nat)

  const INITIAL_STATE := State(0, seq(WINDOW, i => 0), seq(RECENT_SIZE, i => 0), 0, 0, 0)

  /**
   What every byte step keeps: the pending span is [literalBegin, bytesRead), its literal part
   ends at matchTo, and it never outgrows the thirteen bits of a command argument.
   */
  ghost predicate Valid(s: State) {
    && |s.window| == WINDOW && |s.recent| == RECENT_SIZE
    && s.literalBegin <= s.matchTo <= s.bytesRead
    && s.matchFrom <= s.matchTo
    && s.bytesRead - s.literalBegin <= EXTEND_MASK
    && (forall i :: 0 <= i < RECENT_SIZE ==> s.recent[i] <= s.bytesRead)
  }

  // ---------------------------------------------------------------------------
  // What the encoder computes

  /**
   The comparison of an unsigned input byte with a `char` of the window: where `char` is signed,
   bytes from 128 on never compare equal.
   */
  predicate SameByte(signedChar: bool, input: byte, held: byte) {
    input == held && (signedChar ==> held < 0x80)
  }

  function Pending(s: State, end: nat): (data: seq<byte>)
    requires |s.window| == WINDOW && s.literalBegin <= end
    ensures |data| == end - s.literalBegin
  {
    seq(end - s.literalBegin, i requires 0 <= i => s.window[(s.literalBegin + i) % WINDOW])
  }

  /** The literal command for the pending bytes up to `end`, if there are any. */
  function PendingLiteral(s: State, end: nat): (cs: seq<Command>)
    requires Valid(s) && s.literalBegin <= end <= s.bytesRead
    ensures AllEmittable(cs)
  {
    if s.literalBegin < end then [Literal(Pending(s, end))] else []
  }

  function PendingMatch(s: State): (c: Command)
    requires Valid(s) && s.matchTo < s.bytesRead
    ensures Emittable(c)
  {
    Match(s.bytesRead - s.matchTo, (s.matchTo - s.matchFrom) % WINDOW)
  }

  /** The growing match ends here: the next byte differs, or a length is at its limit. */
  predicate Breaks(signedChar: bool, s: State, b: byte)
    requires Valid(s)
  {
    || !SameByte(signedChar, b, s.window[(s.matchFrom + (s.bytesRead - s.matchTo)) % WINDOW])
    || s.bytesRead - s.matchTo == EXTEND_MASK
    || s.bytesRead - s.literalBegin == EXTEND_MASK
  }

  /** What is written at a break: literal and match, or a full literal, or nothing yet. */
  function BreakCommands(s: State): (cs: seq<Command>)
    requires Valid(s)
    ensures AllEmittable(cs)
  {
    if s.bytesRead - s.matchTo > 4 then PendingLiteral(s, s.matchTo) + [PendingMatch(s)]
    else if s.bytesRead - s.literalBegin == EXTEND_MASK then PendingLiteral(s, s.bytesRead)
    else []
  }

  /** The state after a break, with a new match to try from `from`. */
  function BreakState(signedChar: bool, s: State, b: byte, from: nat): State
    requires Valid(s)
  {
    var flushed := s.bytesRead - s.matchTo > 4 || s.bytesRead - s.literalBegin == EXTEND_MASK;
    s.(literalBegin := if flushed then s.bytesRead else s.literalBegin,
       matchTo := if SameByte(signedChar, b, s.window[from % WINDOW]) then s.bytesRead else s.bytesRead + 1,
       matchFrom := from)
  }

  function Slot(future: seq<byte>): (i: nat)
    requires |future| == INDEX_SIZE
    ensures i < RECENT_SIZE
  {
    Le(future) % RECENT_SIZE
  }

  /** The byte enters the window. */
  function Stored(s: State, b: byte): State
    requires |s.window| == WINDOW
  {
    s.(window := s.window[s.bytesRead % WINDOW := b], bytesRead := s.bytesRead + 1)
  }

  function AddByteCommands(signedChar: bool, s: State, b: byte): (cs: seq<Command>)
    requires Valid(s)
    ensures AllEmittable(cs)
  {
    if Breaks(signedChar, s, b) then BreakCommands(s) else []
  }

  /** One byte step: `future` is the byte and the seven that follow it. */
  function AddByte(signedChar: bool, s: State, future: seq<byte>): (t: State)
    requires Valid(s) && |future| == INDEX_SIZE
    ensures Valid(t)
  {
    var b, slot := future[0], Slot(future);
    var broken := if Breaks(signedChar, s, b) then BreakState(signedChar, s, b, s.recent[slot]) else s;
    Stored(broken.(recent := s.recent[slot := s.bytesRead]), b)
  }

  function StoreAll(s: State, data: seq<byte>): (t: State)
    requires |s.window| == WINDOW
    ensures |t.window| == WINDOW && t.bytesRead == s.bytesRead + |data|
    ensures t == s.(window := t.window, bytesRead := t.bytesRead)
    decreases |data|
  {
    if data == [] then s else StoreAll(Stored(s, data[0]), data[1..])
  }

  /** Nothing is pending any more. */
  function Flushed(s: State): State {
    s.(literalBegin := s.bytesRead, matchTo := s.bytesRead)
  }

  /** `write_literal`: what is pending becomes a literal, and so do the given bytes. */
  function WriteLiteralState(s: State, data: seq<byte>): (t: State)
    requires Valid(s)
    ensures Valid(t)
  {
    Flushed(StoreAll(Flushed(s), data))
  }

  function WriteLiteralCommands(s: State, data: seq<byte>): (cs: seq<Command>)
    requires Valid(s) && |data| <= 2 * INDEX_SIZE
    ensures AllEmittable(cs)
  {
    var t := StoreAll(Flushed(s), data);
    PendingLiteral(s, s.bytesRead) + PendingLiteral(t, t.bytesRead)
  }

  /** The byte steps of one call: all positions that have eight bytes from there on. */
  function AddAll(signedChar: bool, s: State, input: seq<byte>): (t: State)
    requires Valid(s)
    ensures Valid(t)
    decreases |input|
  {
    if |input| <= INDEX_SIZE then s
    else AddAll(signedChar, AddByte(signedChar, s, input[..INDEX_SIZE]), input[1..])
  }

  function AddAllCommands(signedChar: bool, s: State, input: seq<byte>): (cs: seq<Command>)
    requires Valid(s)
    ensures AllEmittable(cs)
    decreases |input|
  {
    if |input| <= INDEX_SIZE then []
    else
      AddByteCommands(signedChar, s, input[0]) +
      AddAllCommands(signedChar, AddByte(signedChar, s, input[..INDEX_SIZE]), input[1..])
  }

  /** One call of `dzip_deflate`. */
  function DeflateState(signedChar: bool, s: State, input: seq<byte>): (t: State)
    requires Valid(s)
    ensures Valid(t)
  {
    if |input| <= 2 * INDEX_SIZE then WriteLiteralState(s, input)
    else WriteLiteralState(AddAll(signedChar, s, input), input[|input| - INDEX_SIZE..])
  }

  function DeflateCommands(signedChar: bool, s: State, input: seq<byte>): (cs: seq<Command>)
    requires Valid(s)
    ensures AllEmittable(cs)
  {
    if |input| <= 2 * INDEX_SIZE then WriteLiteralCommands(s, input)
    else
      AddAllCommands(signedChar, s, input) +
      WriteLiteralCommands(AddAll(signedChar, s, input), input[|input| - INDEX_SIZE..])
  }

  /** The magic is written by every call that finds nothing read before it. */
  function DeflateBytes(signedChar: bool, s: State, input: seq<byte>): seq<byte>
    requires Valid(s)
  {
    (if s.bytesRead == 0 then MAGIC else []) + EncodeAll(DeflateCommands(signedChar, s, input))
  }

  // ---------------------------------------------------------------------------
  // The code

  method WriteCommand(output: Buffer, command: nat, arg: uint16)
    requires command < COMMAND_MAX && arg <= EXTEND_MASK
    modifies output
    ensures output.bytes == old(output.bytes) + EncodeArg(command, arg)
  {
    var header: nat := command + META_MAX * (arg % COMPACT_MAX);
    if arg < COMPACT_MAX {
      output.Push(header);
    } else {
      output.Push(header + EXTEND_BIT);
      output.Push(arg / COMPACT_MAX);
    }
  }

  class Deflater {
    const signedChar: bool
    const window: array<byte>
    const recent: array<nat>
    var bytesRead: nat
    var literalBegin: nat
    var matchTo: nat
    var matchFrom: nat

    ghost function Now(): State
      reads this, window, recent
    {
      State(bytesRead, window[..], recent[..], literalBegin, matchTo, matchFrom)
    }

    /** `dzip_deflate_state_new`. */
    constructor (signedChar: bool)
      ensures fresh(window) && fresh(recent)
      ensures this.signedChar == signedChar && Now() == INITIAL_STATE
    {
      this.signedChar := signedChar;
      window := new byte[WINDOW](i => 0);
      recent := new nat[RECENT_SIZE](i => 0);
      bytesRead, literalBegin, matchTo, matchFrom := 0, 0, 0, 0;
    }

    /** `finalize_literal`: the pending bytes are read back out of the window. */
    method FinalizeLiteral(output: Buffer)
      requires Valid(Now())
      modifies this`literalBegin, output
      ensures literalBegin == matchTo
      ensures output.bytes == old(output.bytes) + EncodeAll(PendingLiteral(old(Now()), matchTo))
    {
      hide EncodeArg;
      var literalLength: uint16 := (matchTo - literalBegin) % TWO16;
      if literalLength == 0 { return; }
      ghost var s := Now();
      ghost var data := Pending(s, matchTo);
      WriteCommand(output, CMD_LITERAL, literalLength);
      ghost var head := output.bytes;
      assert data[..0] == [];
      while literalBegin < matchTo
        invariant s.literalBegin <= literalBegin <= matchTo
        invariant output.bytes == head + data[..literalBegin - s.literalBegin]
      {
        ghost var n := literalBegin - s.literalBegin;
        assert data[..n + 1] == data[..n] + [data[n]];
        output.Push(window[literalBegin % WINDOW]);
        literalBegin := literalBegin + 1;
      }
      assert data[..|data|] == data;
      assert [Literal(data)][1..] == [];
      Associative(old(output.bytes), EncodeArg(CMD_LITERAL, |data|), data);
    }

    /** The writing of a match, after the literal in front of it. */
    method FinalizeMatch(output: Buffer)
      requires Valid(Now()) && matchTo < bytesRead
      modifies this`literalBegin, output
      ensures literalBegin == bytesRead
      ensures output.bytes ==
                old(output.bytes) + EncodeAll(PendingLiteral(old(Now()), matchTo) + [PendingMatch(old(Now()))])
    {
      hide EncodeArg, EncodePoint, PendingLiteral;
      ghost var literal, c := PendingLiteral(Now(), matchTo), PendingMatch(Now());
      var matchLength: uint16 := (bytesRead - matchTo) % TWO16;
      var matchDistance: uint16 := (matchTo - matchFrom) % WINDOW;
      FinalizeLiteral(output);
      ghost var middle := output.bytes;
      WriteCommand(output, CMD_MATCH, matchLength);
      output.Append(EncodePoint(matchDistance));
      literalBegin := bytesRead;
      Associative(middle, EncodeArg(CMD_MATCH, matchLength), EncodePoint(matchDistance));
      EncodeAllConcat(literal, [c]);
      assert [c][1..] == [];
      Associative(old(output.bytes), EncodeAll(literal), EncodeCommand(c));
    }

    /** The body of the branch taken when the growing match ends. */
    method Break(output: Buffer, b: byte, slot: nat)
      requires Valid(Now()) && slot < RECENT_SIZE && Breaks(signedChar, Now(), b)
      modifies this`literalBegin, this`matchTo, this`matchFrom, output
      ensures Now() == BreakState(signedChar, old(Now()), b, recent[slot])
      ensures output.bytes == old(output.bytes) + EncodeAll(BreakCommands(old(Now())))
    {
      hide EncodeAll, Le, PendingLiteral, PendingMatch;
      EmptyEncoding();
      ghost var s := Now();
      var matchLength: uint16 := (bytesRead - matchTo) % TWO16;
      var literalLength: uint16 := (bytesRead - literalBegin) % TWO16;
      if 4 < matchLength {
        FinalizeMatch(output);
      } else if literalLength == EXTEND_MASK {
        matchTo := bytesRead;
        PendingSame(s, Now());
        FinalizeLiteral(output);
      }
      matchTo := bytesRead;
      matchFrom := recent[slot];
      if !SameByte(signedChar, b, window[matchFrom % WINDOW]) {
        matchTo := matchTo + 1;
      }
    }

    /** `add_state_byte`. */
    method AddStateByte(output: Buffer, future: seq<byte>)
      requires Valid(Now()) && |future| == INDEX_SIZE
      modifies this, window, recent, output
      ensures Now() == AddByte(signedChar, old(Now()), future)
      ensures output.bytes == old(output.bytes) + EncodeAll(AddByteCommands(signedChar, old(Now()), future[0]))
    {
      hide EncodeAll, Le, BreakCommands, BreakState, Stored;
      EmptyEncoding();
      ghost var s := Now();
      var b, slot := future[0], Le(future) % RECENT_SIZE;
      var matchLength: uint16 := (bytesRead - matchTo) % TWO16;
      var literalLength: uint16 := (bytesRead - literalBegin) % TWO16;
      if || !SameByte(signedChar, b, window[(matchFrom + matchLength) % WINDOW])
         || matchLength == EXTEND_MASK || literalLength == EXTEND_MASK {
        Break(output, b, slot);
      }
      ghost var broken := Now();
      recent[slot] := bytesRead;
      assert Now() == broken.(recent := s.recent[slot := s.bytesRead]);
      Store(b);
    }

    /** The byte enters the window and is counted. */
    method Store(b: byte)
      requires window.Length == WINDOW
      modifies this`bytesRead, window
      ensures Now() == Stored(old(Now()), b)
    {
      window[bytesRead % WINDOW] := b;
      bytesRead := bytesRead + 1;
    }

    /** `write_literal`. */
    method WriteLiteral(output: Buffer, data: seq<byte>)
      requires Valid(Now()) && |data| <= 2 * INDEX_SIZE
      modifies this, window, output
      ensures Now() == WriteLiteralState(old(Now()), data)
      ensures output.bytes == old(output.bytes) + EncodeAll(WriteLiteralCommands(old(Now()), data))
    {
      hide PendingLiteral, EncodeAll, Stored;
      ghost var s := Now();
      matchTo := bytesRead;
      PendingSame(s, Now());
      FinalizeLiteral(output);
      ghost var middle := output.bytes;
      ghost var f := Flushed(s);
      for i := 0 to |data|
        invariant output.bytes == middle
        invariant Now() == StoreAll(f, data[..i])
      {
        assert data[..i + 1] == data[..i] + [data[i]];
        StoreAllSnoc(f, data[..i], data[i]);
        Store(data[i]);
      }
      assert data[..|data|] == data;
      ghost var t := Now();
      assert t == StoreAll(f, data);
      matchTo := bytesRead;
      PendingSame(t, Now());
      FinalizeLiteral(output);
      assert output.bytes == middle + EncodeAll(PendingLiteral(t, t.bytesRead));
      EncodeAllConcat(PendingLiteral(s, s.bytesRead), PendingLiteral(t, t.bytesRead));
      Associative(old(output.bytes),
                  EncodeAll(PendingLiteral(s, s.bytesRead)), EncodeAll(PendingLiteral(t, t.bytesRead)));
    }

    /** `dzip_deflate`. */
    method Deflate(output: Buffer, input: seq<byte>)
      requires Valid(Now())
      modifies this, window, recent, output
      ensures Now() == DeflateState(signedChar, old(Now()), input)
      ensures output.bytes == old(output.bytes) + DeflateBytes(signedChar, old(Now()), input)
    {
      hide EncodeAll, AddByte, WriteLiteralState, WriteLiteralCommands, AddByteCommands;
      ghost var s := Now();
      ghost var magic := if s.bytesRead == 0 then MAGIC else [];
      if bytesRead == 0 {
        output.Append(MAGIC);
      }
      ghost var before := old(output.bytes) + magic;
      assert output.bytes == before;
      if |input| <= 2 * INDEX_SIZE {
        WriteLiteral(output, input);
        Associative(old(output.bytes), magic, EncodeAll(DeflateCommands(signedChar, s, input)));
        return;
      }
      var end := |input| - INDEX_SIZE;
      var begin := 0;
      ghost var cs: seq<Command> := [];
      assert input[0..] == input;
      EmptyEncoding();
      assert [] + AddAllCommands(signedChar, s, input) == AddAllCommands(signedChar, s, input);
      while begin < end
        invariant 0 <= begin <= end
        invariant Valid(Now()) && AllEmittable(cs)
        invariant AddAll(signedChar, Now(), input[begin..]) == AddAll(signedChar, s, input)
        invariant cs + AddAllCommands(signedChar, Now(), input[begin..]) == AddAllCommands(signedChar, s, input)
        invariant output.bytes == before + EncodeAll(cs)
      {
        ghost var now, rest := Now(), input[begin..];
        ghost var more := AddByteCommands(signedChar, now, rest[0]);
        assert rest[..INDEX_SIZE] == input[begin..begin + INDEX_SIZE] && rest[1..] == input[begin + 1..];
        AddStateByte(output, input[begin..begin + INDEX_SIZE]);
        EncodeAllConcat(cs, more);
        Associative(before, EncodeAll(cs), EncodeAll(more));
        Associative(cs, more, AddAllCommands(signedChar, Now(), rest[1..]));
        cs := cs + more;
        begin := begin + 1;
      }
      ghost var last := WriteLiteralCommands(Now(), input[end..]);
      assert cs + [] == cs;
      WriteLiteral(output, input[end..]);
      EncodeAllConcat(cs, last);
      Associative(before, EncodeAll(cs), EncodeAll(last));
      Associative(old(output.bytes), magic, EncodeAll(cs + last));
    }
  }

  // ---------------------------------------------------------------------------
  // Bookkeeping

  lemma EmptyEncoding()
    ensures EncodeAll([]) == []
  {
  }

  /** The pending literal does not depend on where the match was. */
  lemma PendingSame(s: State, t: State)
    requires Valid(s) && t == s.(matchTo := s.bytesRead)
    ensures Valid(t) && PendingLiteral(t, t.bytesRead) == PendingLiteral(s, s.bytesRead)
  {
  }

  lemma {:induction false} StoreAllSnoc(s: State, data: seq<byte>, b: byte)
    requires |s.window| == WINDOW
    ensures StoreAll(s, data + [b]) == Stored(StoreAll(s, data), b)
    decreases |data|
  {
    if data == [] {
      assert ([] + [b])[1..] == [];
    } else {
      StoreAllSnoc(Stored(s, data[0]), data[1..], b);
      assert (data + [b])[1..] == data[1..] + [b];
    }
  }
}
