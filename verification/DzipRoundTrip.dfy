/**
 What the chunk encoder writes, the chunk decoder turns back into the input: for every input,
 every content of the `recent` table and every prior output. And how large it can get.
 */
module DzipRoundTrip {
  import opened Bytes
  import opened DzipFormat
  import opened DzipDeflate
  import Vluint

  // ---------------------------------------------------------------------------
  // Matches

  lemma {:induction false} MatchLengthRepeats(window: seq<byte>, at: nat, distance: nat)
    requires distance <= at <= |window|
    ensures var n := MatchLength(window, at, distance);
      && (forall i :: at <= i < at + n ==> window[i] == window[i - distance])
      && (at + n < |window| ==> window[at + n] != window[at + n - distance])
    decreases |window| - at
  {
    if at < |window| && window[at] == window[at - distance] {
      MatchLengthRepeats(window, at + 1, distance);
    }
  }

  /** Copying `length` bytes from `distance` back continues a window that repeats that way. */
  lemma CopyContinues(prior: seq<byte>, window: seq<byte>, at: nat, length: nat, distance: nat)
    requires 1 <= distance <= at && at + length <= |window|
    requires forall i :: at <= i < at + length ==> window[i] == window[i - distance]
    ensures Copy(prior + window[..at], length, distance) == prior + window[..at + length]
  {
    var out, r := prior + window[..at], prior + window[..at + length];
    assert r[..|out|] == out;
    forall i | |out| <= i < |r| ensures r[i] == r[i - distance] {
      assert window[i - |prior|] == window[i - |prior| - distance];
    }
    CopyCharacterized(out, r, length, distance);
  }

  // ---------------------------------------------------------------------------
  // The encoder's invariant

  /** Adding n bytes to an output of `total` does not step over a multiple of 2^32. */
  predicate NoCrossing(total: nat, n: nat) {
    total % TWO32 + n <= TWO32
  }

  /**
   The commands written so far are readable back, and decoding them after `prior` either gives
   exactly the window up to `literalBegin`, or is refused because the output stepped over a
   multiple of 2^32, where the decoder's 32-bit size starts again from zero.
   */
  predicate Faithful(prior: seq<byte>, window: seq<byte>, p: Progress) {
    && p.literalBegin <= |window|
    && AllEmittable(p.commands)
    && var out := ApplyAll(prior, p.commands);
       && (out.Some? ==> out.value == prior + window[..p.literalBegin])
       && (NoCrossing(|prior|, |window|) ==> out.Some?)
  }

  lemma LiteralRunFaithful(prior: seq<byte>, window: seq<byte>, p: Progress, end: nat)
    requires InLoop(window, p) && Faithful(prior, window, p) && p.literalBegin <= end <= |window|
    ensures Faithful(prior, window,
                     Progress(p.at, end, p.recent, p.commands + LiteralRun(window, p.literalBegin, end)))
  {
    var run := LiteralRun(window, p.literalBegin, end);
    ApplyAllConcat(prior, p.commands, run);
    if run == [] {
      assert p.commands + run == p.commands;
    } else {
      assert run[1..] == [];
      assert window[..end] == window[..p.literalBegin] + window[p.literalBegin..end];
      Associative(prior, window[..p.literalBegin], window[p.literalBegin..end]);
    }
  }

  lemma MatchFaithful(prior: seq<byte>, window: seq<byte>, p: Progress, length: nat, distance: nat)
    requires InLoop(window, p) && Faithful(prior, window, p) && p.literalBegin == p.at
    requires 1 <= distance <= p.at && 1 <= length && p.at + length <= |window|
    requires forall i :: p.at <= i < p.at + length ==> window[i] == window[i - distance]
    ensures Faithful(prior, window,
                     Progress(p.at + length, p.at + length, p.recent, p.commands + [Match(length, distance)]))
  {
    var c := Match(length, distance);
    ApplyAllConcat(prior, p.commands, [c]);
    assert [c][1..] == [];
    CopyContinues(prior, window, p.at, length, distance);
    if NoCrossing(|prior|, |window|) { SizeBeforeCrossing(|prior|, |window|, p.at); }
  }

  /** Until the multiple is reached, the 32-bit size has grown by all the bytes added. */
  lemma SizeBeforeCrossing(total: nat, n: nat, added: nat)
    requires NoCrossing(total, n) && added < n
    ensures (total + added) % TWO32 == total % TWO32 + added
  {
  }

  lemma StepFaithful(prior: seq<byte>, window: seq<byte>, p: Progress)
    requires InLoop(window, p) && p.at + INDEX_SIZE < |window|
    requires Faithful(prior, window, p)
    ensures Faithful(prior, window, Step(window, p))
  {
    hide ApplyAll, LiteralRun, NoCrossing;
    var previous := p.recent[Slot(window, p.at)];
    var length := Candidate(window, p.at, previous);
    if length >= MIN_MATCH {
      var run := LiteralRun(window, p.literalBegin, p.at);
      LiteralRunFaithful(prior, window, p, p.at);
      MatchLengthRepeats(window, p.at, p.at - previous);
      MatchFaithful(prior, window, Progress(p.at, p.at, p.recent, p.commands + run), length, p.at - previous);
      Associative(p.commands, run, [Match(length, p.at - previous)]);
    } else {
      assert p.commands + [] == p.commands;
    }
  }

  lemma {:induction false} RunFaithful(prior: seq<byte>, window: seq<byte>, p: Progress)
    requires InLoop(window, p) && Faithful(prior, window, p)
    ensures Faithful(prior, window, Run(window, p))
    decreases |window| - p.at
  {
    hide Step, Faithful;
    if p.at + INDEX_SIZE < |window| {
      StepFaithful(prior, window, p);
      RunFaithful(prior, window, Step(window, p));
    }
  }

  /**
   After any prior output the commands of a chunk rebuild the window exactly when their distances
   pass the decoder's size check, and are refused otherwise. A chunk that does not step over a
   multiple of 2^32 always passes.
   */
  lemma ChunkCommandsFaithful(prior: seq<byte>, window: seq<byte>, recent: seq<uint32>)
    requires |recent| == RECENT_SIZE && |window| < TWO32
    ensures var cs := ChunkCommands(window, recent);
      && AllEmittable(cs)
      && ApplyAll(prior, cs) == (if DistancesFit(|prior|, cs) then Some(prior + window) else None)
      && (NoCrossing(|prior|, |window|) ==> DistancesFit(|prior|, cs))
  {
    assert prior + window[..0] == prior;
    RunFaithful(prior, window, Start(recent));
    var p := Run(window, Start(recent));
    LiteralRunFaithful(prior, window, p, |window|);
    assert window[..|window|] == window;
    AppliesIffDistancesFit(prior, ChunkCommands(window, recent));
  }

  /** Decoded on its own, a chunk needs nothing but itself: no match reaches before its start. */
  lemma MatchesStayInChunk(window: seq<byte>, recent: seq<uint32>, i: nat)
    requires |recent| == RECENT_SIZE && |window| < TWO32
    requires i < |ChunkCommands(window, recent)| && ChunkCommands(window, recent)[i].Match?
    ensures var cs := ChunkCommands(window, recent);
      && ApplyAll([], cs[..i]).Some?
      && ApplyAll([], cs[..i]).value <= window
      && 1 <= cs[i].distance <= |ApplyAll([], cs[..i]).value|
  {
    var cs := ChunkCommands(window, recent);
    hide ChunkCommands, DistancesFit, Apply;
    ChunkCommandsFaithful([], window, recent);
    assert [] + window == window;
    assert cs == cs[..i] + cs[i..];
    ApplyAllConcat([], cs[..i], cs[i..]);
    ApplyAllAppends(ApplyAll([], cs[..i]).value, cs[i..]);
    FirstDistance(ApplyAll([], cs[..i]).value, cs[i..]);
  }

  lemma FirstDistance(out: seq<byte>, cs: seq<Command>)
    requires cs != [] && cs[0].Match? && ApplyAll(out, cs).Some?
    ensures 1 <= cs[0].distance <= |out|
  {
  }

  lemma {:induction false} ApplyAllAppends(out: seq<byte>, cs: seq<Command>)
    requires ApplyAll(out, cs).Some?
    ensures out <= ApplyAll(out, cs).value
    decreases |cs|
  {
    if cs != [] {
      if cs[0].Match? { CopyExtends(out, cs[0].length, cs[0].distance); }
      ApplyAllAppends(Apply(out, cs[0]).value, cs[1..]);
    }
  }

  // ---------------------------------------------------------------------------
  // Size

  /** An argument costs one byte, one more from 32 on, one more from 4096 on, and so forth. */
  lemma ArgCost(command: nat, arg: nat)
    requires command < COMMAND_MAX
    requires 1 <= arg < 0x400_0000
    ensures |EncodeArg(command, arg)| <= 1 + arg / 32
    ensures |EncodeArg(command, arg)| <= 4
    ensures arg < 32 ==> |EncodeArg(command, arg)| == 1
  {
    if arg >= 32 {
      var high := arg / 32;
      Vluint.EncodeLength(high, 1);
      Vluint.EncodeLength(high, 2);
      Vluint.EncodeLength(high, 3);
      Vluint.SmallPowers();
    }
  }

  /** A match of five bytes or more, within three-byte distances, costs less than it covers. */
  lemma MatchCost(length: nat, distance: nat)
    requires MIN_MATCH <= length < 0x400_0000 && distance < 0x20_0000
    ensures |EncodeCommand(Match(length, distance))| <= length - 1
  {
    ArgCost(CMD_MATCH, length);
    Vluint.EncodeLength(distance, 3);
    Vluint.SmallPowers();
  }

  predicate Compact(p: Progress) {
    |EncodeAll(p.commands)| <= p.literalBegin + p.literalBegin / 32
  }

  lemma LiteralRunCost(window: seq<byte>, begin: nat, end: nat)
    requires begin <= end <= |window| < 0x20_0000
    ensures |EncodeAll(LiteralRun(window, begin, end))| <= (end - begin) + 1 + (end - begin) / 32
  {
    if begin < end {
      var c := Literal(window[begin..end]);
      ArgCost(CMD_LITERAL, end - begin);
      assert [c][1..] == [];
    }
  }

  lemma StepCompact(window: seq<byte>, p: Progress)
    requires InLoop(window, p) && p.at + INDEX_SIZE < |window| < 0x20_0000
    requires Compact(p)
    ensures Compact(Step(window, p))
  {
    hide EncodeAll, EncodeCommand;
    var previous := p.recent[Slot(window, p.at)];
    var length := Candidate(window, p.at, previous);
    EncodeAllConcat(p.commands, Emitted(window, p));
    if length >= MIN_MATCH {
      EncodeAllSnoc(LiteralRun(window, p.literalBegin, p.at), Match(length, p.at - previous));
      LiteralRunCost(window, p.literalBegin, p.at);
      MatchCost(length, p.at - previous);
    } else {
      EmptyEncoding();
    }
  }

  lemma {:induction false} RunCompact(window: seq<byte>, p: Progress)
    requires InLoop(window, p) && Compact(p) && |window| < 0x20_0000
    ensures Compact(Run(window, p))
    decreases |window| - p.at
  {
    hide Step, Compact;
    if p.at + INDEX_SIZE < |window| {
      StepCompact(window, p);
      RunCompact(window, Step(window, p));
    }
  }

  /** The expansion bound for one chunk: at most one byte in 32, and seventeen. */
  lemma ChunkBound(window: seq<byte>, recent: seq<uint32>)
    requires |recent| == RECENT_SIZE && |window| <= 2_000_000
    ensures |ChunkBytes(window, recent)| <= |window| + |window| / 32 + 17
  {
    hide EncodeAll, LiteralRun;
    var p := Run(window, Start(recent));
    EmptyEncoding();
    RunCompact(window, Start(recent));
    LiteralRunCost(window, p.literalBegin, |window|);
    EncodeAllConcat(p.commands, LiteralRun(window, p.literalBegin, |window|));
  }

  function Max(a: nat, b: nat): nat { if a < b then b else a }

  lemma MaxBound(a: nat, b: nat)
    ensures Max(a, b) >= a
  {
  }

  /** The expansion bound for `dzip_deflate`, however many chunks it makes. */
  lemma {:induction false} DeflateBound(input: seq<byte>, recent: seq<uint32>)
    requires |recent| == RECENT_SIZE
    ensures |DeflateBytes(input, recent)|
         <= |input| + |input| / 32 + 17 * Max(1, |input| / 1_000_000)
    decreases |input|
  {
    hide ChunkBytes, ChunkRecent, Max;
    if input != [] {
      var k := FirstCut(input);
      assert k == |input| ==> DeflateBytes(input[k..], ChunkRecent(input[..k], recent)) == [];
      assert Max(1, |input| / MAX_CHUNK) >= 1 by { MaxBound(1, |input| / MAX_CHUNK); }
      ChunkBound(input[..k], recent);
      DeflateBound(input[k..], ChunkRecent(input[..k], recent));
      BoundsAdd(|input|, k);
    }
  }

  lemma BoundsAdd(n: nat, k: nat)
    requires n > 2 * MAX_CHUNK ==> k == MAX_CHUNK
    requires n <= 2 * MAX_CHUNK ==> k == n
    ensures k / 32 + (n - k) / 32 <= n / 32
    ensures k < n ==> 1 + Max(1, (n - k) / MAX_CHUNK) <= Max(1, n / MAX_CHUNK)
  {
  }

  // ---------------------------------------------------------------------------
  // Chunks decode

  /**
   The bytes of one chunk, whatever follows them, are a well-formed chunk. It decodes to its
   window exactly when its distances pass the size check, and is refused otherwise.
   */
  lemma ChunkRoundTrip(prior: seq<byte>, window: seq<byte>, recent: seq<uint32>, rest: seq<byte>)
    requires |recent| == RECENT_SIZE
    requires 1 <= |window| <= 2 * MAX_CHUNK
    ensures var bytes := ChunkBytes(window, recent);
      && Readable(bytes + rest) && GoodHeader(bytes + rest)
      && ChunkSize(bytes + rest) == |bytes| > HEADER_SIZE
      && var v, fits := DecodeChunk(bytes + rest, prior), DistancesFit(|prior|, ChunkCommands(window, recent));
         && v.ok == fits
         && (fits ==> v.out == prior + window)
         && (NoCrossing(|prior|, |window|) ==> fits)
  {
    hide DistancesFit, NoCrossing, ChunkCommands, Header, EncodeAll, Decode, Parse, GoodHeader, ChunkSize;
    var cs := ChunkCommands(window, recent);
    var body := EncodeAll(cs);
    var bytes := ChunkBytes(window, recent);
    ChunkBound(window, recent);
    HeaderRoundTrip(|bytes|, body + rest);
    Associative(Header(|bytes|), body, rest);
    assert (bytes + rest)[HEADER_SIZE..|bytes|] == body;
    ChunkCommandsFaithful(prior, window, recent);
    ParseInvertsEncode(cs);
    DecodeIsParseThenApply(body, prior);
    assert prior + window != prior;
    DecodeEmpty(prior);
  }

  lemma DecodeEmpty(out: seq<byte>)
    ensures Decode([], out) == Verdict(true, out)
  {
  }

  /** Thirteen zeros encoded with a fresh table: eight literals and a match eight back. */
  lemma ThirteenZeros()
    ensures var window: seq<byte> := seq(13, i => 0);
      ChunkCommands(window, seq(RECENT_SIZE, i => 0)) == [Literal(window[0..8]), Match(5, 8)]
  {
    var window: seq<byte> := seq(13, i => 0);
    var recent: seq<uint32> := seq(RECENT_SIZE, i => 0);
    var p := Start(recent);
    assert MatchLength(window, 13, 8) == 0;
    assert MatchLength(window, 12, 8) == 1;
    assert MatchLength(window, 11, 8) == 2;
    assert MatchLength(window, 10, 8) == 3;
    assert MatchLength(window, 9, 8) == 4;
    var literal, m := Literal(window[0..8]), Match(5, 8);
    assert Emitted(window, p) == [literal, m];
    assert p.commands + [literal, m] == [literal, m];
    assert Step(window, p) == Run(window, p);
  }

  /**
   The size check does refuse what the encoder writes. The thirteen zeros are refused exactly when
   the eight literals reach or step over a multiple of 2^32.
   */
  lemma SizeLimitIsReal(prior: seq<byte>)
    ensures var window := seq(13, i => 0);
      Decode(EncodeAll(ChunkCommands(window, seq(RECENT_SIZE, i => 0))), prior).ok
      <==> (|prior| + 8) % TWO32 >= 8
  {
    hide ChunkCommands, EncodeAll, Decode, Parse, Apply;
    var window: seq<byte> := seq(13, i => 0);
    var cs := ChunkCommands(window, seq(RECENT_SIZE, i => 0));
    ThirteenZeros();
    ParseInvertsEncode(cs);
    DecodeIsParseThenApply(EncodeAll(cs), prior);
    AppliesIffDistancesFit(prior, cs);
    assert cs[..1] == [cs[0]] && TotalLength(cs[..1][1..]) == 0;
  }
}
