/**
 The chunk encoder (src/dzip/deflate/deflate.c): first what it computes, as a function of the
 input and of the table of recent positions, then the stateful code proved against it.
 */
module DzipDeflate {
  import opened Bytes
  import opened DzipFormat
  import Vluint

  const RECENT_SIZE := 16963
  const INDEX_SIZE := 4
  const WINDOW_START := 8
  const MIN_MATCH := 5
  const MAX_CHUNK := 1_000_000

  // ---------------------------------------------------------------------------
  // What the encoder computes

  /** How far the bytes from `at` on repeat those `distance` earlier. */
  function MatchLength(window: seq<byte>, at: nat, distance: nat): (n: nat)
    requires distance <= at <= |window|
    ensures at + n <= |window|
    decreases |window| - at
  {
    if at < |window| && window[at] == window[at - distance]
    then 1 + MatchLength(window, at + 1, distance)
    else 0
  }

  /** The encoder between two rounds of its loop; `commands` is what it has written so far. */
  datatype Progress = Progress(at: nat, literalBegin: nat, recent: seq<uint32>, commands: seq<Command>)

  predicate InLoop(window: seq<byte>, p: Progress) {
    && |p.recent| == RECENT_SIZE
    && WINDOW_START <= p.at
    && p.literalBegin <= p.at
    && p.literalBegin <= |window| < TWO32
  }

  function Slot(window: seq<byte>, at: nat): (i: nat)
    requires at + INDEX_SIZE <= |window|
    ensures i < RECENT_SIZE
  {
    Le(window[at..at + INDEX_SIZE]) % RECENT_SIZE
  }

  function LiteralRun(window: seq<byte>, begin: nat, end: nat): seq<Command>
    requires end <= |window|
  {
    if begin < end then [Literal(window[begin..end])] else []
  }

  /** The candidate at a position: the repeat length measured, 0 when the table offers none. */
  function Candidate(window: seq<byte>, at: nat, previous: uint32): (n: nat)
    requires at <= |window|
    ensures at + n <= |window|
    ensures n > 0 ==> previous < at
  {
    if previous >= at then 0 else MatchLength(window, at, at - previous)
  }

  /** What one round writes. */
  function Emitted(window: seq<byte>, p: Progress): seq<Command>
    requires InLoop(window, p) && p.at + INDEX_SIZE < |window|
  {
    var previous := p.recent[Slot(window, p.at)];
    var length := Candidate(window, p.at, previous);
    if length >= MIN_MATCH then
      LiteralRun(window, p.literalBegin, p.at) + [Match(length, p.at - previous)]
    else []
  }

  function Step(window: seq<byte>, p: Progress): (q: Progress)
    requires InLoop(window, p) && p.at + INDEX_SIZE < |window|
    ensures InLoop(window, q) && p.at < q.at
  {
    var i := Slot(window, p.at);
    var length := Candidate(window, p.at, p.recent[i]);
    var recent := p.recent[i := p.at];
    var commands := p.commands + Emitted(window, p);
    if length >= MIN_MATCH then
      Progress(p.at + length, p.at + length, recent, commands)
    else
      Progress(p.at + 1, p.literalBegin, recent, commands)
  }

  function Run(window: seq<byte>, p: Progress): (q: Progress)
    requires InLoop(window, p)
    ensures InLoop(window, q)
    decreases |window| - p.at
  {
    if p.at + INDEX_SIZE < |window| then Run(window, Step(window, p)) else p
  }

  function Start(recent: seq<uint32>): Progress {
    Progress(WINDOW_START, 0, recent, [])
  }

  function ChunkCommands(window: seq<byte>, recent: seq<uint32>): seq<Command>
    requires |recent| == RECENT_SIZE && |window| < TWO32
  {
    var p := Run(window, Start(recent));
    p.commands + LiteralRun(window, p.literalBegin, |window|)
  }

  function ChunkRecent(window: seq<byte>, recent: seq<uint32>): (r: seq<uint32>)
    requires |recent| == RECENT_SIZE && |window| < TWO32
    ensures |r| == RECENT_SIZE
  {
    Run(window, Start(recent)).recent
  }

  /** One chunk: the 32-bit size in its header is truncated as the C assignment truncates it. */
  function ChunkBytes(window: seq<byte>, recent: seq<uint32>): seq<byte>
    requires |recent| == RECENT_SIZE && |window| < TWO32
  {
    var body := EncodeAll(ChunkCommands(window, recent));
    Header((HEADER_SIZE + |body|) % TWO32) + body
  }

  /** Where `dzip_deflate` cuts its first chunk. */
  function FirstCut(input: seq<byte>): (k: nat)
    requires input != []
    ensures 1 <= k <= |input| && k <= 2 * MAX_CHUNK
  {
    if |input| > 2 * MAX_CHUNK then MAX_CHUNK else |input|
  }

  function DeflateBytes(input: seq<byte>, recent: seq<uint32>): seq<byte>
    requires |recent| == RECENT_SIZE
    decreases |input|
  {
    if input == [] then []
    else
      var k := FirstCut(input);
      ChunkBytes(input[..k], recent) + DeflateBytes(input[k..], ChunkRecent(input[..k], recent))
  }

  /**
   What a chunk leaves of the output before it. The C code keeps the output's size in 32 bits and
   resizes the output from there, so that beyond 2^32 bytes it cuts off what it had written.
   */
  function Kept(out: seq<byte>): seq<byte> {
    out[..|out| % TWO32]
  }

  /** The whole output buffer after `dzip_deflate`. */
  function DeflateInto(out: seq<byte>, input: seq<byte>, recent: seq<uint32>): seq<byte>
    requires |recent| == RECENT_SIZE
    decreases |input|
  {
    if input == [] then out
    else
      var k := FirstCut(input);
      DeflateInto(Kept(out) + ChunkBytes(input[..k], recent), input[k..], ChunkRecent(input[..k], recent))
  }

  function DeflateRecent(input: seq<byte>, recent: seq<uint32>): (r: seq<uint32>)
    requires |recent| == RECENT_SIZE
    ensures |r| == RECENT_SIZE
    decreases |input|
  {
    if input == [] then recent
    else
      var k := FirstCut(input);
      DeflateRecent(input[k..], ChunkRecent(input[..k], recent))
  }

  // ---------------------------------------------------------------------------
  // The code

  /** `write_command`. */
  method WriteCommand(output: Buffer, command: nat, arg: uint32)
    requires command < COMMAND_MAX && arg > 0
    modifies output
    ensures output.bytes == old(output.bytes) + EncodeArg(command, arg)
  {
    hide Vluint.Encode;
    var low: nat := arg % COMPACT_MAX;
    var header: nat := command + META_MAX * low;
    if arg < COMPACT_MAX {
      output.Push(header);
    } else {
      output.Push(header + EXTEND_BIT);
      Vluint.Write(output, arg / COMPACT_MAX);
      Associative(old(output.bytes), [header + EXTEND_BIT], Vluint.Encode(arg / COMPACT_MAX));
    }
  }

  /** `check_match`: the longest run for which every byte equals the one `distance` before it. */
  method CheckMatch(window: seq<byte>, at: nat, distance: nat) returns (length: nat)
    requires 1 <= distance <= at <= |window|
    ensures length == MatchLength(window, at, distance)
  {
    var i := at;
    while i != |window|
      invariant at <= i <= |window|
      invariant MatchLength(window, at, distance) == i - at + MatchLength(window, i, distance)
      decreases |window| - i
    {
      if window[i] != window[i - distance] { break; }
      i := i + 1;
    }
    length := i - at;
  }

  class DeflateState {
    var windowProgress: uint32
    var literalBegin: uint32
    var matchDistance: uint32
    var matchLength: uint32
    const recent: array<uint32>

    ghost predicate Valid()
      reads this
    {
      recent.Length == RECENT_SIZE
    }

    /** `dzip_deflate_state_new`: everything zero. */
    constructor ()
      ensures Valid() && fresh(recent)
      ensures recent[..] == seq(RECENT_SIZE, i => 0)
    {
      windowProgress, literalBegin, matchDistance, matchLength := 0, 0, 0, 0;
      recent := new uint32[RECENT_SIZE](i => 0);
    }

    method WriteLiteral(output: Buffer, window: seq<byte>)
      requires literalBegin <= windowProgress <= |window|
      modifies this`literalBegin, output
      ensures literalBegin == windowProgress
      ensures output.bytes ==
              old(output.bytes) + EncodeAll(LiteralRun(window, old(literalBegin), windowProgress))
    {
      if literalBegin < windowProgress {
        var length := windowProgress - literalBegin;
        ghost var c := Literal(window[literalBegin..windowProgress]);
        WriteCommand(output, CMD_LITERAL, length);
        output.Append(window[literalBegin..literalBegin + length]);
        literalBegin := windowProgress;
        assert EncodeAll([c]) == EncodeCommand(c) + EncodeAll([]);
      }
    }

    method WriteMatch(output: Buffer)
      requires matchLength > 0 && windowProgress + matchLength < TWO32
      modifies this`windowProgress, this`literalBegin, output
      ensures windowProgress == old(windowProgress) + matchLength == literalBegin
      ensures output.bytes == old(output.bytes) + EncodeCommand(Match(matchLength, matchDistance))
    {
      WriteCommand(output, CMD_MATCH, matchLength);
      Vluint.Write(output, matchDistance);
      Associative(old(output.bytes), EncodeArg(CMD_MATCH, matchLength), Vluint.Encode(matchDistance));
      windowProgress := windowProgress + matchLength;
      literalBegin := windowProgress;
    }

    /** `setup_match`: look the position up, replace it, and measure the candidate. */
    method SetupMatch(window: seq<byte>)
      requires Valid() && windowProgress + INDEX_SIZE <= |window| < TWO32
      modifies this`matchDistance, this`matchLength, recent
      ensures var i := Slot(window, windowProgress);
        var previous := old(recent[..])[i];
        && recent[..] == old(recent[..])[i := windowProgress]
        && matchLength == Candidate(window, windowProgress, previous)
        && (matchLength > 0 ==> matchDistance == windowProgress - previous)
    {
      var i := Le(window[windowProgress..windowProgress + INDEX_SIZE]) % RECENT_SIZE;
      if recent[i] >= windowProgress {
        recent[i] := windowProgress;
        matchLength := 0;
        return;
      }
      matchDistance := windowProgress - recent[i];
      var length := CheckMatch(window, windowProgress, matchDistance);
      matchLength := length;
      recent[i] := windowProgress;
    }

    /** The state as a value, given what has been written. */
    ghost function At(commands: seq<Command>): Progress
      reads this, recent
    {
      Progress(windowProgress, literalBegin, recent[..], commands)
    }

    /** One round of the loop in `dzip_deflate_chunk`. */
    method Round(output: Buffer, window: seq<byte>, ghost commands: seq<Command>)
      requires InLoop(window, At(commands)) && windowProgress + INDEX_SIZE < |window|
      modifies this, recent, output
      ensures At(commands + Emitted(window, old(At(commands)))) == Step(window, old(At(commands)))
      ensures output.bytes == old(output.bytes) + EncodeAll(Emitted(window, old(At(commands))))
    {
      hide EncodeCommand;
      SetupMatch(window);
      if 4 < matchLength {
        ghost var run := LiteralRun(window, literalBegin, windowProgress);
        ghost var c := Match(matchLength, matchDistance);
        WriteLiteral(output, window);
        WriteMatch(output);
        EncodeAllSnoc(run, c);
        Associative(old(output.bytes), EncodeAll(run), EncodeCommand(c));
      } else {
        windowProgress := windowProgress + 1;
      }
    }

    /** The loop of `dzip_deflate_chunk` and the last literal. */
    method DeflateWindow(output: Buffer, window: seq<byte>)
      requires Valid() && |window| < TWO32
      modifies this, recent, output
      ensures output.bytes == old(output.bytes) + EncodeAll(ChunkCommands(window, old(recent[..])))
      ensures recent[..] == ChunkRecent(window, old(recent[..]))
    {
      hide EncodeAll, EncodeCommand, Step, Emitted, LiteralRun;
      windowProgress := WINDOW_START;
      literalBegin := 0;
      ghost var start := Start(recent[..]);
      ghost var commands: seq<Command> := [];
      ghost var before := output.bytes;
      assert EncodeAll([]) == [] by { EmptyEncoding(); }

      var windowSize: uint32 := |window|;
      if windowSize > INDEX_SIZE {
        var max := windowSize - INDEX_SIZE;
        while windowProgress < max
          invariant InLoop(window, At(commands))
          invariant Run(window, At(commands)) == Run(window, start)
          invariant output.bytes == before + EncodeAll(commands)
          decreases max - windowProgress
        {
          ghost var more := Emitted(window, At(commands));
          EncodeAllConcat(commands, more);
          Associative(before, EncodeAll(commands), EncodeAll(more));
          Round(output, window, commands);
          commands := commands + more;
        }
      }

      ghost var last := LiteralRun(window, literalBegin, |window|);
      windowProgress := windowSize;
      WriteLiteral(output, window);
      EncodeAllConcat(commands, last);
      Associative(before, EncodeAll(commands), EncodeAll(last));
    }

    /** `dzip_deflate_chunk`: the header is filled in last, over sixteen uninitialized bytes. */
    method DeflateChunk(output: Buffer, input: seq<byte>)
      requires Valid() && |input| < TWO32
      modifies this, recent, output
      ensures output.bytes == Kept(old(output.bytes)) + ChunkBytes(input, old(recent[..]))
      ensures recent[..] == ChunkRecent(input, old(recent[..]))
    {
      hide EncodeAll, ChunkCommands, ChunkRecent, Header;
      var outputStart: uint32 := |output.bytes| % TWO32;
      output.Resize(outputStart + HEADER_SIZE);
      assert output.bytes[..outputStart] == Kept(old(output.bytes));
      ghost var body := EncodeAll(ChunkCommands(input, recent[..]));
      DeflateWindow(output, input);
      FillHeader(output, outputStart, body);
    }

    /** `dzip_deflate`. */
    method Deflate(output: Buffer, input: seq<byte>)
      requires Valid()
      modifies this, recent, output
      ensures output.bytes == DeflateInto(old(output.bytes), input, old(recent[..]))
      ensures recent[..] == DeflateRecent(input, old(recent[..]))
    {
      hide Kept, ChunkBytes, ChunkRecent;
      var begin := 0;
      assert input[0..] == input;
      while begin < |input|
        invariant 0 <= begin <= |input|
        invariant DeflateInto(output.bytes, input[begin..], recent[..])
               == DeflateInto(old(output.bytes), input, old(recent[..]))
        invariant DeflateRecent(input[begin..], recent[..]) == DeflateRecent(input, old(recent[..]))
      {
        ghost var rest := input[begin..];
        var restSize := |input| - begin;
        var end := if restSize > 2 * MAX_CHUNK then begin + MAX_CHUNK else |input|;
        assert input[begin..end] == rest[..FirstCut(rest)];
        assert input[end..] == rest[FirstCut(rest)..];
        DeflateChunk(output, input[begin..end]);
        begin := end;
      }
    }
  }

  /** The header is assigned over the bytes from `start`; the size is what follows `start`. */
  method FillHeader(output: Buffer, start: nat, ghost body: seq<byte>)
    requires start + HEADER_SIZE + |body| == |output.bytes|
    requires output.bytes[start + HEADER_SIZE..] == body
    modifies output
    ensures output.bytes == old(output.bytes)[..start] + (Header((HEADER_SIZE + |body|) % TWO32) + body)
  {
    hide Header;
    var header := Header((|output.bytes| - start) % TWO32);
    output.bytes := output.bytes[..start] + header + output.bytes[start + HEADER_SIZE..];
    Associative(old(output.bytes)[..start], header, body);
  }

  lemma EmptyEncoding()
    ensures EncodeAll([]) == []
  {
  }
}
