/**
 That the streaming encoder takes the repeats it is offered (junked/dzip-working-immediate): what
 one byte step and one call do, over the bytes that have passed, and how far zeros shrink.
 */
module StreamMatching {
  import opened Bytes
  import opened StreamFormat
  import opened StreamRoundTrip
  import E = StreamDeflate

  /** The table entry of a position: its eight bytes as a number, modulo 6857. */
  function Entry(future: seq<byte>): nat
    requires |future| == 8
  {
    (future[0] as int + 0x100 * future[1] as int + 0x1_0000 * future[2] as int + 0x100_0000 * future[3] as int
     + 0x1_0000_0000 * future[4] as int + 0x100_0000_0000 * future[5] as int
     + 0x1_0000_0000_0000 * future[6] as int + 0x100_0000_0000_0000 * future[7] as int) % 6857
  }

  lemma EntryIsSlot(future: seq<byte>)
    requires |future| == 8
    ensures E.Slot(future) == Entry(future) < 6857
  {
    assert future[1..][1..] == future[2..] && future[2..][1..] == future[3..];
    assert future[3..][1..] == future[4..] && future[4..][1..] == future[5..];
    assert future[5..][1..] == future[6..] && future[6..][1..] == future[7..] && future[7..][1..] == [];
    assert Le(future[7..]) == future[7] as int + 0x100 * Le([]);
    assert Le(future[6..]) == future[6] as int + 0x100 * Le(future[7..]);
    assert Le(future[5..]) == future[5] as int + 0x100 * Le(future[6..]);
    assert Le(future[4..]) == future[4] as int + 0x100 * Le(future[5..]);
    assert Le(future[3..]) == future[3] as int + 0x100 * Le(future[4..]);
    assert Le(future[2..]) == future[2] as int + 0x100 * Le(future[3..]);
    assert Le(future[1..]) == future[1] as int + 0x100 * Le(future[2..]);
    assert Le(future) == future[0] as int + 0x100 * Le(future[1..]);
  }

  /** The input byte against a `char` of the window: signed ones from 128 on never compare equal. */
  predicate Equal(signedChar: bool, b: byte, held: byte) {
    b == held && (b < 128 || !signedChar)
  }

  /** The bytes from i to j as a literal, if there are any. */
  function Pending(h: seq<byte>, i: nat, j: nat): seq<Command>
    requires i <= j <= |h|
  {
    if i < j then [Literal(h[i..j])] else []
  }

  /**
   One byte step after the bytes h. While the byte goes on with the match, and neither span is full,
   nothing is written. Otherwise a match of five bytes or more is written, behind the literal before
   it; or a full literal; or nothing yet. The next match is tried from the position recorded for the
   eight bytes to come, from this byte on if that fits, and else from the next one. This position is
   recorded.
   */
  lemma StepTakesRepeats(signedChar: bool, s: E.State, h: seq<byte>, future: seq<byte>)
    requires Tracks(s, h) && |future| == 8
    ensures s.literalBegin <= s.matchTo <= |h| && s.matchFrom <= s.matchTo && |s.recent| == 6857
    ensures var t, cs := E.AddByte(signedChar, s, future), E.AddByteCommands(signedChar, s, future[0]);
      var b, i := future[0], Entry(future);
      var matched, pending := |h| - s.matchTo, |h| - s.literalBegin;
      var held := WindowOf(h)[(s.matchFrom + matched) % 65535];
      && t.recent == s.recent[i := |h|]
      && if Equal(signedChar, b, held) && matched < 8191 && pending < 8191 then
           cs == [] && t.matchTo == s.matchTo && t.matchFrom == s.matchFrom && t.literalBegin == s.literalBegin
         else
           && t.matchFrom == s.recent[i]
           && t.matchTo == (if Equal(signedChar, b, WindowOf(h)[s.recent[i] % 65535]) then |h| else |h| + 1)
           && t.literalBegin == (if matched > 4 || pending == 8191 then |h| else s.literalBegin)
           && cs == if matched > 4 then
                      Pending(h, s.literalBegin, s.matchTo) + [Match(matched, (s.matchTo - s.matchFrom) % 65535)]
                    else if pending == 8191 then [Literal(h[s.literalBegin..])] else []
  {
    hide WindowOf, E.AddByte, E.AddByteCommands, Entry, Equal;
    TracksFields(s, h);
    StepState(signedChar, s, h, future);
    StepWrites(signedChar, s, h, future[0]);
  }

  lemma StepState(signedChar: bool, s: E.State, h: seq<byte>, future: seq<byte>)
    requires Tracks(s, h) && |future| == 8
    ensures Entry(future) < 6857 && |s.recent| == 6857
    ensures var t, b, i := E.AddByte(signedChar, s, future), future[0], Entry(future);
      var matched, pending := |h| - s.matchTo, |h| - s.literalBegin;
      var held := WindowOf(h)[(s.matchFrom + matched) % 65535];
      && t.recent == s.recent[i := |h|]
      && if Equal(signedChar, b, held) && matched < 8191 && pending < 8191 then
           t.matchTo == s.matchTo && t.matchFrom == s.matchFrom && t.literalBegin == s.literalBegin
         else
           && t.matchFrom == s.recent[i]
           && t.matchTo == (if Equal(signedChar, b, WindowOf(h)[s.recent[i] % 65535]) then |h| else |h| + 1)
           && t.literalBegin == (if matched > 4 || pending == 8191 then |h| else s.literalBegin)
  {
    hide WindowOf, E.Slot, Entry, Repeats;
    EntryIsSlot(future);
  }

  lemma StepWrites(signedChar: bool, s: E.State, h: seq<byte>, b: byte)
    requires Tracks(s, h)
    ensures var matched, pending := |h| - s.matchTo, |h| - s.literalBegin;
      var held := WindowOf(h)[(s.matchFrom + matched) % 65535];
      E.AddByteCommands(signedChar, s, b)
      == if Equal(signedChar, b, held) && matched < 8191 && pending < 8191 then []
         else if matched > 4 then
           Pending(h, s.literalBegin, s.matchTo) + [Match(matched, (s.matchTo - s.matchFrom) % 65535)]
         else if pending == 8191 then [Literal(h[s.literalBegin..])] else []
  {
    hide WindowOf, Repeats, Pending, Equal, E.BreakCommands, E.Breaks;
    BreaksWhen(signedChar, s, h, b);
    BreakWrites(s, h);
  }

  lemma BreaksWhen(signedChar: bool, s: E.State, h: seq<byte>, b: byte)
    requires Tracks(s, h)
    ensures E.Breaks(signedChar, s, b) <==>
            !(Equal(signedChar, b, WindowOf(h)[(s.matchFrom + (|h| - s.matchTo)) % 65535])
              && |h| - s.matchTo < 8191 && |h| - s.literalBegin < 8191)
  {
    hide WindowOf, Repeats;
  }

  lemma BreakWrites(s: E.State, h: seq<byte>)
    requires Tracks(s, h)
    ensures var matched, pending := |h| - s.matchTo, |h| - s.literalBegin;
      E.BreakCommands(s)
      == if matched > 4 then
           Pending(h, s.literalBegin, s.matchTo) + [Match(matched, (s.matchTo - s.matchFrom) % 65535)]
         else if pending == 8191 then [Literal(h[s.literalBegin..])] else []
  {
    hide WindowOf, Repeats, Pending, E.PendingLiteral;
    PendingIs(s, h, s.matchTo);
    PendingIs(s, h, |h|);
    if |h| - s.literalBegin == 8191 { AllPending(h, s.literalBegin); }
  }

  lemma PendingIs(s: E.State, h: seq<byte>, end: nat)
    requires Tracks(s, h) && s.literalBegin <= end <= |h|
    ensures E.PendingLiteral(s, end) == Pending(h, s.literalBegin, end)
  {
    hide WindowOf, Repeats, E.Pending;
    PendingIntact(s, h, end);
  }

  lemma AllPending(h: seq<byte>, i: nat)
    requires i < |h|
    ensures Pending(h, i, |h|) == [Literal(h[i..])]
  {
    assert h[i..|h|] == h[i..];
  }

  /**
   One call, nothing being pending before it. Up to sixteen bytes are one literal; of more, the last
   eight are a literal behind what the byte steps write and leave pending.
   */
  lemma CallLaw(signedChar: bool, s: E.State, h: seq<byte>, input: seq<byte>)
    requires Rests(s, h)
    ensures E.DeflateState(signedChar, s, input).recent
         == if |input| <= 16 then s.recent else E.AddAll(signedChar, s, input).recent
    ensures |input| <= 16 ==> E.DeflateCommands(signedChar, s, input) == Pending(input, 0, |input|)
    ensures |input| > 16 ==>
              var t, passed := E.AddAll(signedChar, s, input), h + input[..|input| - 8];
              && Tracks(t, passed) && t.literalBegin <= |passed|
              && E.DeflateCommands(signedChar, s, input)
                 == E.AddAllCommands(signedChar, s, input)
                    + (Pending(passed, t.literalBegin, |passed|) + [Literal(input[|input| - 8..])])
  {
    hide Tracks, E.AddAll, E.AddAllCommands, E.WriteLiteralCommands;
    TracksFields(s, h);
    if |input| <= 16 {
      LiteralLaw(s, h, input);
      assert Pending(h, |h|, |h|) == [] && [] + Pending(input, 0, |input|) == Pending(input, 0, |input|);
    } else {
      var t, passed := E.AddAll(signedChar, s, input), h + input[..|input| - 8];
      AllByteSteps(signedChar, s, h, input);
      TracksFields(t, passed);
      LiteralLaw(t, passed, input[|input| - 8..]);
      assert input[|input| - 8..][0..8] == input[|input| - 8..];
    }
  }

  /** `write_literal`: what is pending, then the given bytes, each as one literal if there are any. */
  lemma LiteralLaw(s: E.State, h: seq<byte>, data: seq<byte>)
    requires Tracks(s, h) && |data| <= 16
    ensures s.literalBegin <= |h|
    ensures E.WriteLiteralCommands(s, data) == Pending(h, s.literalBegin, |h|) + Pending(data, 0, |data|)
  {
    hide WindowOf, Repeats, E.PendingLiteral, E.StoreAll;
    TracksFields(s, h);
    PendingIs(s, h, |h|);
    StoreAllTracks(E.Flushed(s), h, data);
    var t := E.StoreAll(E.Flushed(s), data);
    var all := h + data;
    var v := t.(matchTo := t.bytesRead);
    PendingSameCommands(t);
    NoRepeats(v, all);
    PendingIs(v, all, |all|);
    assert all[|h|..|all|] == data[0..|data|];
  }

  lemma NoRepeats(v: E.State, all: seq<byte>)
    requires E.Valid(v) && v.bytesRead == |all| == v.matchTo && v.window == WindowOf(all)
    ensures Tracks(v, all)
  {
  }

  // ---------------------------------------------------------------------------
  // Zeros

  function Zeros(n: nat): seq<byte> {
    seq(n, i => 0)
  }

  lemma {:induction false} ZeroWindow(n: nat)
    ensures WindowOf(Zeros(n)) == seq(65535, i => 0)
    decreases n
  {
    if n > 0 {
      assert Zeros(n)[..n - 1] == Zeros(n - 1);
      ZeroWindow(n - 1);
    }
  }

  /** After n zeros: everything that is pending is a match. */
  ghost predicate InZeros(s: E.State, n: nat, span: nat) {
    Tracks(s, Zeros(n)) && span <= n && s.literalBegin == s.matchTo == n - span
  }

  lemma ZeroStep(signedChar: bool, s: E.State, n: nat, span: nat, future: seq<byte>)
    requires InZeros(s, n, span) && |future| == 8 && future[0] == 0
    ensures span <= 8191
    ensures var t, cs := E.AddByte(signedChar, s, future), E.AddByteCommands(signedChar, s, 0);
      if span < 8191 then
        InZeros(t, n + 1, span + 1) && cs == [] && t.matchFrom == s.matchFrom
      else
        InZeros(t, n + 1, 1) && |cs| == 1 && cs[0].Match? && cs[0].length == 8191 && cs[0].distance < 65535
  {
    hide E.AddByte, E.AddByteCommands, WindowOf, Entry;
    var h := Zeros(n);
    SpanBound(s, h);
    StepTakesRepeats(signedChar, s, h, future);
    ZeroWindow(n);
    ByteStep(signedChar, s, h, future);
    assert h + [0] == Zeros(n + 1);
    assert Pending(h, s.literalBegin, s.matchTo) == [];
    var d := (s.matchTo - s.matchFrom) % 65535;
    assert [] + [Match(span, d)] == [Match(span, d)];
  }

  lemma SpanBound(s: E.State, h: seq<byte>)
    requires Tracks(s, h)
    ensures |h| - s.literalBegin <= 8191 && s.matchFrom <= s.matchTo
  {
  }

  /** How many full matches are written while `more` zeros follow a span. */
  function Matches(span: nat, more: nat): nat {
    if span + more == 0 then 0 else (span + more - 1) / 8191
  }

  lemma {:induction false} ZeroRun(signedChar: bool, s: E.State, n: nat, span: nat, more: nat)
    requires InZeros(s, n, span)
    ensures var input := Zeros(more + 8);
      && InZeros(E.AddAll(signedChar, s, input), n + more, span + more - 8191 * Matches(span, more))
      && |EncodeAll(E.AddAllCommands(signedChar, s, input))| == 4 * Matches(span, more)
    decreases more
  {
    hide E.Valid, E.AddByte, E.AddByteCommands, E.AddAll, E.AddAllCommands, EncodeAll, InZeros, Matches, WindowOf;
    var input := Zeros(more + 8);
    SpanOfZeros(s, n, span);
    if more == 0 {
      NoMatches(span);
      NoSteps(signedChar, s, input);
    } else {
      FirstOfAll(signedChar, s, input);
      var future := input[..8];
      assert input[1..] == Zeros(more - 1 + 8) && future[0] == 0;
      ZeroStep(signedChar, s, n, span, future);
      var t, cs := E.AddByte(signedChar, s, future), E.AddByteCommands(signedChar, s, 0);
      var next := if span < 8191 then span + 1 else 1;
      ZeroRun(signedChar, t, n + 1, next, more - 1);
      OneMatch(span, more);
      var rest := E.AddAllCommands(signedChar, t, input[1..]);
      EncodeAllConcat(cs, rest);
      if span == 8191 { FullMatchSize(cs); } else { NothingSize(cs); }
    }
  }

  lemma FirstOfAll(signedChar: bool, s: E.State, input: seq<byte>)
    requires E.Valid(s) && |input| > 8
    ensures var t := E.AddByte(signedChar, s, input[..8]);
      && E.Valid(t) && E.AddAll(signedChar, s, input) == E.AddAll(signedChar, t, input[1..])
      && AllEmittable(E.AddByteCommands(signedChar, s, input[0]))
      && AllEmittable(E.AddAllCommands(signedChar, t, input[1..]))
      && E.AddAllCommands(signedChar, s, input)
         == E.AddByteCommands(signedChar, s, input[0]) + E.AddAllCommands(signedChar, t, input[1..])
  {
    hide E.AddByte, E.AddByteCommands;
  }

  lemma NoSteps(signedChar: bool, s: E.State, input: seq<byte>)
    requires E.Valid(s) && |input| == 8
    ensures E.AddAll(signedChar, s, input) == s && E.AddAllCommands(signedChar, s, input) == []
    ensures EncodeAll([]) == []
  {
  }

  lemma NoMatches(span: nat)
    requires span <= 8191
    ensures Matches(span, 0) == 0
  {
  }

  lemma OneMatch(span: nat, more: nat)
    requires span <= 8191 && more > 0
    ensures if span < 8191 then Matches(span + 1, more - 1) == Matches(span, more)
            else Matches(span, more) == 1 + Matches(1, more - 1)
  {
  }

  lemma SpanOfZeros(s: E.State, n: nat, span: nat)
    requires InZeros(s, n, span)
    ensures span <= 8191 && E.Valid(s)
  {
  }

  lemma FullMatchSize(cs: seq<Command>)
    requires |cs| == 1 && cs[0].Match? && cs[0].length == 8191 && cs[0].distance < 65535
    ensures AllEmittable(cs) && |EncodeAll(cs)| == 4
  {
    assert cs[1..] == [];
  }

  lemma NothingSize(cs: seq<Command>)
    requires cs == []
    ensures EncodeAll(cs) == []
  {
  }

  lemma StartInZeros()
    ensures InZeros(E.INITIAL_STATE, 0, 0)
  {
    assert Zeros(0) == [];
  }

  /**
   Zeros on a fresh state: the magic, four bytes for every 8191 zeros but the last, and two
   literals, of what is left and of the last eight.
   */
  lemma ZerosShrink(signedChar: bool, n: nat)
    requires n > 16
    ensures |E.DeflateBytes(signedChar, E.INITIAL_STATE, Zeros(n))|
         <= 8 + 4 * (n / 8191) + (2 + 8191) + (1 + 8)
  {
    hide E.AddAll, E.AddAllCommands, E.DeflateCommands, EncodeCommand, InZeros;
    var s, input := E.INITIAL_STATE, Zeros(n);
    var more := n - 8;
    StartInZeros();
    assert E.Valid(s);
    ZeroRun(signedChar, s, 0, 0, more);
    assert Zeros(more + 8) == input;
    InitialRests();
    CallLaw(signedChar, s, [], input);
    var t, cs := E.AddAll(signedChar, s, input), E.AddAllCommands(signedChar, s, input);
    var passed := [] + input[..more];
    LastLiterals(t, passed, input[more..], cs);
    assert Matches(0, more) <= n / 8191;
  }

  lemma LastLiterals(t: E.State, passed: seq<byte>, last: seq<byte>, cs: seq<Command>)
    requires Tracks(t, passed) && t.literalBegin <= |passed| && |last| == 8 && AllEmittable(cs)
    ensures var ends := Pending(passed, t.literalBegin, |passed|) + [Literal(last)];
      AllEmittable(cs + ends) && |EncodeAll(cs + ends)| <= |EncodeAll(cs)| + 8193 + 9
  {
    SpanBound(t, passed);
    var p, q := Pending(passed, t.literalBegin, |passed|), [Literal(last)];
    EncodeAllConcat(p, q);
    EncodeAllConcat(cs, p + q);
    assert q[1..] == [] && (p != [] ==> p[1..] == []);
  }

  /** Twenty zeros and nine ones as a first call, in full: a match on unwritten zeros, two literals. */
  lemma TwentyZerosNineOnes(signedChar: bool)
    ensures E.DeflateBytes(signedChar, E.INITIAL_STATE, Zeros(20) + seq(9, i => 1))
         == [100, 101, 101, 122, 119, 104, 97, 116] + [0xA1, 0, 0] + [8, 1] + [64, 1, 1, 1, 1, 1, 1, 1, 1]
  {
    hide E.AddAll, E.AddAllCommands, E.DeflateCommands, EncodeCommand, InZeros, Tracks, WindowOf;
    var input: seq<byte> := Zeros(20) + seq(9, i => 1);
    var s := E.INITIAL_STATE;
    assert E.Valid(s);
    StartInZeros();
    InitialRests();
    CallLaw(signedChar, s, [], input);
    ZerosThenOther(signedChar, s, 0, 20, input);
    var cs := E.AddAllCommands(signedChar, s, input);
    var t, passed := E.AddAll(signedChar, s, input), [] + input[..21];
    assert cs == [Match(20, 0)] && t.literalBegin == 20;
    assert passed[20..21] == [1] && input[21..] == seq(8, i => 1);
    var last: seq<byte> := seq(8, i => 1);
    var all := [Match(20, 0), Literal([1]), Literal(last)];
    assert cs + ([Literal([1])] + [Literal(last)]) == all;
    Spelled(all, last);
  }

  lemma Spelled(all: seq<Command>, last: seq<byte>)
    requires last == seq(8, i => 1) && all == [Match(20, 0), Literal([1]), Literal(last)]
    ensures AllEmittable(all)
    ensures EncodeAll(all) == [0xA1, 0, 0] + [8, 1] + [64, 1, 1, 1, 1, 1, 1, 1, 1]
  {
    assert last == [1, 1, 1, 1, 1, 1, 1, 1];
    var a, b, c := Match(20, 0), Literal([1]), Literal(last);
    assert EncodeCommand(a) == [0xA1, 0, 0];
    assert EncodeCommand(b) == [8, 1];
    assert EncodeCommand(c) == [64] + last;
    assert AllEmittable([a]) && AllEmittable([b]) && AllEmittable([c]);
    OneCommand(a);
    OneCommand(b);
    OneCommand(c);
    assert [a] + ([b] + [c]) == all;
    EncodeAllConcat([b], [c]);
    EncodeAllConcat([a], [b] + [c]);
  }

  lemma OneCommand(c: Command)
    requires Emittable(c)
    ensures AllEmittable([c]) && EncodeAll([c]) == EncodeCommand(c)
  {
    assert [c][1..] == [];
  }

  /** From a state in zeros: zeros to come, then one other byte that ends the byte steps. */
  lemma {:induction false} ZerosThenOther(signedChar: bool, s: E.State, n: nat, more: nat, input: seq<byte>)
    requires InZeros(s, n, n) && n + more == 20 && s.matchFrom == 0
    requires |input| == more + 9 && (forall i :: 0 <= i < more ==> input[i] == 0) && input[more] == 1
    ensures E.AddAllCommands(signedChar, s, input) == [Match(20, 0)]
    ensures E.AddAll(signedChar, s, input).literalBegin == 20
    decreases more
  {
    hide E.AddByte, E.AddByteCommands, InZeros;
    assert E.Valid(s) by { SpanOfZeros(s, n, n); }
    var t := E.AddByte(signedChar, s, input[..8]);
    if more > 0 {
      ZeroStep(signedChar, s, n, n, input[..8]);
      ZerosThenOther(signedChar, t, n + 1, more - 1, input[1..]);
      assert [] + [Match(20, 0)] == [Match(20, 0)];
    } else {
      OtherStep(signedChar, s, input[..8]);
      assert |input[1..]| == 8;
      assert [Match(20, 0)] + [] == [Match(20, 0)];
    }
  }

  lemma OtherStep(signedChar: bool, s: E.State, future: seq<byte>)
    requires InZeros(s, 20, 20) && s.matchFrom == 0 && |future| == 8 && future[0] == 1
    ensures E.AddByteCommands(signedChar, s, 1) == [Match(20, 0)]
    ensures E.AddByte(signedChar, s, future).literalBegin == 20
  {
    hide E.AddByte, E.AddByteCommands, WindowOf, Entry;
    StepTakesRepeats(signedChar, s, Zeros(20), future);
    ZeroWindow(20);
    assert Pending(Zeros(20), 0, 0) == [] && [] + [Match(20, 0)] == [Match(20, 0)];
  }
}
