/**
 The streaming law: any sequence of inputs given to successive encoder calls, and any cut of
 the bytes they make given to successive decoder calls, restores the inputs. The bridge is the
 history: the bytes that have passed so far, which both circular windows are a function of.
 */
module StreamRoundTrip {
  import opened Bytes
  import opened StreamFormat
  import E = StreamDeflate
  import D = StreamInflate

  // ---------------------------------------------------------------------------
  // The encoder against the history

  /** The byte at q is the one the decoder will find when it gets to that stream position. */
  ghost predicate RepeatsAt(h: seq<byte>, q: nat, matchTo: nat, matchFrom: nat)
    requires matchTo <= q < |h|
  {
    h[q] == WindowOf(h[..q])[(matchFrom + (q - matchTo)) % WINDOW]
  }

  /** Each byte of the growing match is. */
  ghost predicate Repeats(h: seq<byte>, matchTo: nat, matchFrom: nat) {
    forall q :: matchTo <= q < |h| ==> RepeatsAt(h, q, matchTo, matchFrom)
  }

  /** The encoder after the bytes h: its window is their window, its pending match is sound. */
  ghost predicate Tracks(s: E.State, h: seq<byte>) {
    && E.Valid(s)
    && s.bytesRead == |h|
    && s.window == WindowOf(h)
    && Repeats(h, s.matchTo, s.matchFrom)
  }

  /** Pending literal bytes are still intact in the window. */
  lemma PendingIntact(s: E.State, h: seq<byte>, end: nat)
    requires Tracks(s, h) && s.literalBegin <= end <= |h|
    ensures E.Pending(s, end) == h[s.literalBegin..end]
  {
    var data := E.Pending(s, end);
    forall i | 0 <= i < |data| ensures data[i] == h[s.literalBegin + i] {
      WindowKeeps(h, s.literalBegin + i);
    }
  }

  lemma PendingLiteralRestores(s: E.State, h: seq<byte>, end: nat)
    requires Tracks(s, h) && s.literalBegin <= end <= |h|
    ensures ApplyAll(h[..s.literalBegin], E.PendingLiteral(s, end)) == h[..end]
  {
    PendingIntact(s, h, end);
    var cs := E.PendingLiteral(s, end);
    if cs != [] {
      assert cs[1..] == [];
      assert h[..s.literalBegin] + h[s.literalBegin..end] == h[..end];
    }
  }

  /** The decoder's slot for a distance taken modulo the window is the encoder's slot. */
  lemma SameSlot(q: nat, matchTo: nat, matchFrom: nat)
    requires matchFrom <= matchTo <= q
    ensures (WINDOW + q - (matchTo - matchFrom) % WINDOW) % WINDOW == (matchFrom + (q - matchTo)) % WINDOW
  {
    var x := matchTo - matchFrom;
    var a := matchFrom + (q - matchTo);
    assert x == WINDOW * (x / WINDOW) + x % WINDOW;
    assert WINDOW + q - x % WINDOW == a + WINDOW * (1 + x / WINDOW);
    AddMultiple(a, 1 + x / WINDOW);
  }

  lemma AddMultiple(a: nat, k: nat)
    ensures (a + WINDOW * k) % WINDOW == a % WINDOW
  {
    assert a + WINDOW * k == WINDOW * (a / WINDOW + k) + a % WINDOW;
  }

  lemma {:induction false} MatchRestores(h: seq<byte>, matchTo: nat, matchFrom: nat, q: nat, n: nat)
    requires matchFrom <= matchTo <= q && q + n <= |h| && Repeats(h, matchTo, matchFrom)
    ensures Extend(h[..q], n, (matchTo - matchFrom) % WINDOW) == h[..q + n]
    decreases n
  {
    hide WindowOf;
    if n > 0 {
      SameSlot(q, matchTo, matchFrom);
      assert RepeatsAt(h, q, matchTo, matchFrom);
      assert h[..q + 1] == h[..q] + [h[q]];
      MatchRestores(h, matchTo, matchFrom, q + 1, n - 1);
    }
  }

  /** What is written at a break stands for exactly the bytes that stop being pending. */
  lemma BreakRestores(s: E.State, h: seq<byte>)
    requires Tracks(s, h)
    ensures var flushed := s.bytesRead - s.matchTo > 4 || s.bytesRead - s.literalBegin == EXTEND_MASK;
      ApplyAll(h[..s.literalBegin], E.BreakCommands(s)) == h[..if flushed then |h| else s.literalBegin]
  {
    hide WindowOf, Extend, E.PendingLiteral;
    if s.bytesRead - s.matchTo > 4 {
      var m := E.PendingMatch(s);
      PendingLiteralRestores(s, h, s.matchTo);
      MatchRestores(h, s.matchTo, s.matchFrom, s.matchTo, |h| - s.matchTo);
      ApplyAllConcat(h[..s.literalBegin], E.PendingLiteral(s, s.matchTo), [m]);
      assert [m][1..] == [];
    } else if s.bytesRead - s.literalBegin == EXTEND_MASK {
      PendingLiteralRestores(s, h, |h|);
    }
  }

  /** A byte that repeats like the ones before it keeps the match sound. */
  lemma RepeatsSnoc(h: seq<byte>, b: byte, matchTo: nat, matchFrom: nat)
    requires Repeats(h, matchTo, matchFrom)
    requires matchTo <= |h| ==> b == WindowOf(h)[(matchFrom + (|h| - matchTo)) % WINDOW]
    ensures Repeats(h + [b], matchTo, matchFrom)
  {
    hide RepeatsAt, WindowOf;
    forall q | matchTo <= q < |h + [b]| ensures RepeatsAt(h + [b], q, matchTo, matchFrom) {
      SamePosition(h, b, q, matchTo, matchFrom);
    }
  }

  lemma SamePosition(h: seq<byte>, b: byte, q: nat, matchTo: nat, matchFrom: nat)
    requires matchTo <= q <= |h|
    ensures RepeatsAt(h + [b], q, matchTo, matchFrom) <==>
            if q == |h| then b == WindowOf(h)[(matchFrom + (q - matchTo)) % WINDOW]
            else RepeatsAt(h, q, matchTo, matchFrom)
  {
    hide WindowOf;
    assert (h + [b])[..q] == h[..q];
    assert h[..|h|] == h;
  }

  lemma NothingRepeats(h: seq<byte>, matchTo: nat, matchFrom: nat)
    requires matchTo >= |h|
    ensures Repeats(h, matchTo, matchFrom)
  {
  }

  /** Every byte step keeps the pending match sound, also where it starts a new one. */
  lemma StepRepeats(signedChar: bool, s: E.State, h: seq<byte>, future: seq<byte>)
    requires Tracks(s, h) && |future| == E.INDEX_SIZE
    ensures var t := E.AddByte(signedChar, s, future); Repeats(h + [future[0]], t.matchTo, t.matchFrom)
  {
    hide WindowOf, Repeats, E.Slot;
    var t, b := E.AddByte(signedChar, s, future), future[0];
    if E.Breaks(signedChar, s, b) {
      NothingRepeats(h, t.matchTo, t.matchFrom);
    }
    RepeatsSnoc(h, b, t.matchTo, t.matchFrom);
  }

  /** The invariant of every byte step, and what the step's commands account for. */
  lemma ByteStep(signedChar: bool, s: E.State, h: seq<byte>, future: seq<byte>)
    requires Tracks(s, h) && |future| == E.INDEX_SIZE
    ensures var t, b := E.AddByte(signedChar, s, future), future[0];
      && Tracks(t, h + [b])
      && ApplyAll(h[..s.literalBegin], E.AddByteCommands(signedChar, s, b)) == (h + [b])[..t.literalBegin]
  {
    hide WindowOf, Repeats, ApplyAll, E.BreakCommands, E.Breaks, E.Slot;
    var t, b := E.AddByte(signedChar, s, future), future[0];
    WindowOfSnoc(h, b);
    StepRepeats(signedChar, s, h, future);
    assert (h + [b])[..t.literalBegin] == h[..t.literalBegin];
    if E.Breaks(signedChar, s, b) {
      BreakRestores(s, h);
    } else {
      ApplyNothing(h[..s.literalBegin]);
    }
  }

  lemma ApplyNothing(h: seq<byte>)
    ensures ApplyAll(h, []) == h
  {
  }

  lemma {:induction false} AllByteSteps(signedChar: bool, s: E.State, h: seq<byte>, input: seq<byte>)
    requires Tracks(s, h) && |input| >= E.INDEX_SIZE
    ensures var t, end := E.AddAll(signedChar, s, input), |input| - E.INDEX_SIZE;
      && Tracks(t, h + input[..end])
      && ApplyAll(h[..s.literalBegin], E.AddAllCommands(signedChar, s, input)) == (h + input[..end])[..t.literalBegin]
    decreases |input|
  {
    hide Tracks, E.AddByte, E.AddByteCommands, ApplyAll;
    TracksFields(s, h);
    if |input| == E.INDEX_SIZE {
      assert h + input[..0] == h;
      ApplyNothing(h[..s.literalBegin]);
    } else {
      var b, first := input[0], E.AddByteCommands(signedChar, s, input[0]);
      var t := E.AddByte(signedChar, s, input[..E.INDEX_SIZE]);
      ByteStep(signedChar, s, h, input[..E.INDEX_SIZE]);
      AllByteSteps(signedChar, t, h + [b], input[1..]);
      var end := |input| - E.INDEX_SIZE;
      assert (h + [b]) + input[1..][..end - 1] == h + input[..end];
      ApplyAllConcat(h[..s.literalBegin], first, E.AddAllCommands(signedChar, t, input[1..]));
    }
  }

  lemma {:induction false} StoreAllTracks(s: E.State, h: seq<byte>, data: seq<byte>)
    requires |s.window| == WINDOW && s.bytesRead == |h| && s.window == WindowOf(h)
    ensures E.StoreAll(s, data).window == WindowOf(h + data)
    decreases |data|
  {
    hide WindowOf;
    if data == [] {
      assert h + data == h;
    } else {
      WindowOfSnoc(h, data[0]);
      StoreAllTracks(E.Stored(s, data[0]), h + [data[0]], data[1..]);
      assert (h + [data[0]]) + data[1..] == h + data;
    }
  }

  /** `write_literal` accounts for everything pending and for the bytes it is given. */
  lemma LiteralStep(s: E.State, h: seq<byte>, data: seq<byte>)
    requires Tracks(s, h) && |data| <= 2 * E.INDEX_SIZE
    ensures var t := E.WriteLiteralState(s, data);
      && Tracks(t, h + data) && t.literalBegin == |h + data|
      && ApplyAll(h[..s.literalBegin], E.WriteLiteralCommands(s, data)) == h + data
  {
    hide WindowOf, ApplyAll, E.PendingLiteral;
    PendingLiteralRestores(s, h, |h|);
    assert h[..|h|] == h;
    StoreAllTracks(E.Flushed(s), h, data);
    var u := E.StoreAll(E.Flushed(s), data);
    var v := u.(matchTo := u.bytesRead);
    assert Tracks(v, h + data);
    PendingLiteralRestores(v, h + data, |h + data|);
    PendingSameCommands(u);
    assert (h + data)[..|h|] == h && (h + data)[..|h + data|] == h + data;
    ApplyAllConcat(h[..s.literalBegin], E.PendingLiteral(s, |h|), E.PendingLiteral(u, u.bytesRead));
  }

  lemma PendingSameCommands(u: E.State)
    requires E.Valid(u)
    ensures var v := u.(matchTo := u.bytesRead);
      E.Valid(v) && E.PendingLiteral(v, u.bytesRead) == E.PendingLiteral(u, u.bytesRead)
  {
  }

  /** Between calls nothing is pending. */
  ghost predicate Rests(s: E.State, h: seq<byte>) {
    Tracks(s, h) && s.literalBegin == |h|
  }

  /** One call extends the history by its input, and its commands mean exactly that. */
  lemma CallMeansInput(signedChar: bool, s: E.State, h: seq<byte>, input: seq<byte>)
    requires Rests(s, h)
    ensures Rests(E.DeflateState(signedChar, s, input), h + input)
    ensures ApplyAll(h, E.DeflateCommands(signedChar, s, input)) == h + input
  {
    hide Tracks, E.AddAll, E.AddAllCommands, E.WriteLiteralState, E.WriteLiteralCommands, ApplyAll;
    TracksFields(s, h);
    assert s.literalBegin == |h| && h[..|h|] == h;
    if |input| <= 2 * E.INDEX_SIZE {
      LiteralStep(s, h, input);
    } else {
      var end := |input| - E.INDEX_SIZE;
      var t := E.AddAll(signedChar, s, input);
      AllByteSteps(signedChar, s, h, input);
      LiteralStep(t, h + input[..end], input[end..]);
      assert (h + input[..end]) + input[end..] == h + input;
      ApplyAllConcat(h, E.AddAllCommands(signedChar, s, input), E.WriteLiteralCommands(t, input[end..]));
    }
  }

  // ---------------------------------------------------------------------------
  // The decoder against the history

  /** The decoder about to read a command, after writing the bytes h. */
  ghost predicate AtCommand(d: D.State, h: seq<byte>) {
    && D.Valid(d)
    && d.job == D.ReadCommand
    && d.bytesWritten == |h|
    && d.window == WindowOf(h)
  }

  /** The decoder inside a command with `count` more bytes of argument `arg1` to go. */
  ghost predicate Inside(d: D.State, h: seq<byte>, job: D.Job, arg: nat) {
    && D.Valid(d)
    && d.job == job && d.arg1 == arg && d.commandBytes == 0
    && d.bytesWritten == |h|
    && d.window == WindowOf(h)
  }

  lemma CommandByte(command: nat, extend: nat, low: nat)
    requires command < COMMAND_MAX && extend < 2 && low < COMPACT_MAX
    ensures var b := command + EXTEND_BIT * extend + META_MAX * low;
      b % COMMAND_MAX == command && b / EXTEND_BIT % 2 == extend && b / META_MAX == low
  {
  }

  lemma FeedOne(d: D.State, b: byte)
    requires D.Valid(d)
    ensures D.Feed(d, [b]) == match D.Next(d, b)
                              case None => D.Failed([])
                              case Some((t, out)) => D.Ready(out, t)
  {
    hide D.Next;
    assert [b][1..] == [];
    if D.Next(d, b).Some? {
      var out := D.Next(d, b).value.1;
      assert out + [] == out;
    }
  }

  function JobOf(command: nat): D.Job {
    if command == CMD_LITERAL then D.ReadLiteral else D.ReadMatchPoint
  }

  /** The second byte of an extended argument selects the command's job. */
  lemma FeedHigh(u: D.State, h: seq<byte>, command: nat, arg: nat) returns (t: D.State)
    requires Inside(u.(commandBytes := 0), h, D.ExtendArg1, arg % COMPACT_MAX)
    requires u.command == command < 2 && COMPACT_MAX <= arg <= EXTEND_MASK
    ensures Inside(t, h, JobOf(command), arg)
    ensures D.Feed(u, [arg / COMPACT_MAX]) == D.Ready([], t)
  {
    hide WindowOf, D.Feed;
    var high := arg / COMPACT_MAX;
    FeedOne(u, high);
    t := D.Next(u, high).value.0;
    assert arg % COMPACT_MAX + COMPACT_MAX * high == arg;
  }

  lemma FeedArg(d: D.State, h: seq<byte>, command: nat, arg: nat) returns (t: D.State)
    requires AtCommand(d, h) && command < 2 && 1 <= arg <= EXTEND_MASK
    ensures Inside(t, h, JobOf(command), arg)
    ensures D.Feed(d, EncodeArg(command, arg)) == D.Ready([], t)
  {
    hide WindowOf, D.Feed, D.CopyState;
    var low := arg % COMPACT_MAX;
    if arg < COMPACT_MAX {
      var b := command + META_MAX * arg;
      CommandByte(command, 0, arg);
      FeedOne(d, b);
      t := D.Next(d, b).value.0;
    } else {
      var b := command + EXTEND_BIT + META_MAX * low;
      CommandByte(command, 1, low);
      FeedOne(d, b);
      var u := D.Next(d, b).value.0;
      hide D.Next;
      t := FeedHigh(u, h, command, arg);
      assert [b] + [arg / COMPACT_MAX] == [b, arg / COMPACT_MAX];
      D.Resumable(d, [b], [arg / COMPACT_MAX]);
    }
  }

  lemma {:induction false} FeedLiteral(d: D.State, h: seq<byte>, data: seq<byte>) returns (t: D.State)
    requires D.Valid(d) && d.job == D.ReadLiteral && d.bytesWritten == |h| && d.window == WindowOf(h)
    requires data != [] && d.commandBytes + |data| == d.arg1
    ensures AtCommand(t, h + data) && D.Feed(d, data) == D.Ready(data, t)
    decreases |data|
  {
    hide WindowOf, D.Feed;
    var b := data[0];
    FeedOne(d, b);
    WindowOfSnoc(h, b);
    var u := D.Next(d, b).value.0;
    if |data| == 1 {
      t := u;
      assert data == [b];
    } else {
      t := FeedLiteral(u, h + [b], data[1..]);
      assert [b] + data[1..] == data;
      D.Resumable(d, [b], data[1..]);
      assert (h + [b]) + data[1..] == h + data;
    }
  }

  lemma {:induction false} CopyIsExtend(d: D.State, h: seq<byte>, count: nat)
    requires |d.window| == WINDOW && d.bytesWritten == |h| && d.window == WindowOf(h)
    requires Le(d.point) < WINDOW
    ensures var (t, out) := D.CopyState(d, count);
      && t.window == WindowOf(Extend(h, count, Le(d.point)))
      && h + out == Extend(h, count, Le(d.point))
    decreases count
  {
    hide WindowOf, Le;
    if count > 0 {
      var b := D.CopyByte(d);
      assert b == Source(h, Le(d.point));
      WindowOfSnoc(h, b);
      CopyIsExtend(D.Written(d, b), h + [b], count - 1);
      var out := D.CopyState(D.Written(d, b), count - 1).1;
      Associative(h, [b], out);
    }
  }

  lemma PointRoundTrip(n: nat)
    requires n < TWO16
    ensures Le(EncodePoint(n)) == n
  {
    var s := EncodePoint(n);
    assert s[1..] == [n / 0x100];
    assert Le(s[1..]) == n / 0x100 + 0x100 * Le(s[1..][1..]);
  }

  lemma FeedPoint(d: D.State, h: seq<byte>, length: nat, distance: nat) returns (t: D.State)
    requires Inside(d, h, D.ReadMatchPoint, length) && 1 <= length && distance < WINDOW
    ensures AtCommand(t, Extend(h, length, distance))
    ensures D.Feed(d, EncodePoint(distance)) == D.Ready(Extend(h, length, distance)[|h|..], t)
  {
    hide WindowOf, Le, Extend, D.CopyState, D.Feed;
    var p := EncodePoint(distance);
    PointRoundTrip(distance);
    FeedOne(d, p[0]);
    var u := D.Next(d, p[0]).value.0;
    assert u.point[1 := p[1]] == p;
    var v := u.(point := p, commandBytes := 0, job := D.ReadMatchContents);
    CopyIsExtend(v, h, length);
    FeedOne(u, p[1]);
    t := D.Next(u, p[1]).value.0;
    assert [p[0]] + [p[1]] == p;
    D.Resumable(d, [p[0]], [p[1]]);
    var out := D.CopyState(v, length).1;
    assert [] + out == out;
    assert (h + out)[|h|..] == out;
  }

  /** Fed the bytes of a command, the decoder carries it out and is ready for the next. */
  lemma FeedCommand(d: D.State, h: seq<byte>, c: Command) returns (t: D.State)
    requires AtCommand(d, h) && Emittable(c)
    ensures AtCommand(t, Apply(h, c))
    ensures D.Feed(d, EncodeCommand(c)) == D.Ready(Apply(h, c)[|h|..], t)
  {
    hide WindowOf, EncodeArg, EncodePoint, Extend, D.Feed;
    match c {
      case Literal(data) =>
        var u := FeedArg(d, h, CMD_LITERAL, |data|);
        t := FeedLiteral(u, h, data);
        D.Resumable(d, EncodeArg(CMD_LITERAL, |data|), data);
        assert [] + data == data == (h + data)[|h|..];
      case Match(length, distance) =>
        var u := FeedArg(d, h, CMD_MATCH, length);
        t := FeedPoint(u, h, length, distance);
        D.Resumable(d, EncodeArg(CMD_MATCH, length), EncodePoint(distance));
        var out := Extend(h, length, distance)[|h|..];
        assert [] + out == out;
    }
  }

  lemma FeedNothing(d: D.State)
    requires D.Valid(d)
    ensures D.Feed(d, []) == D.Ready([], d)
  {
  }

  lemma {:induction false} FeedCommands(d: D.State, h: seq<byte>, cs: seq<Command>) returns (t: D.State)
    requires AtCommand(d, h) && AllEmittable(cs)
    ensures AtCommand(t, ApplyAll(h, cs))
    ensures D.Feed(d, EncodeAll(cs)) == D.Ready(ApplyAll(h, cs)[|h|..], t)
    decreases |cs|
  {
    hide AtCommand, EncodeCommand, Apply, D.Feed;
    assert D.Valid(d) by { AtCommandValid(d, h); }
    if cs == [] {
      t := d;
      FeedNothing(d);
      assert h[|h|..] == [];
    } else {
      var g := Apply(h, cs[0]);
      var u := FeedCommand(d, h, cs[0]);
      t := FeedCommands(u, g, cs[1..]);
      D.Resumable(d, EncodeCommand(cs[0]), EncodeAll(cs[1..]));
      var all := ApplyAll(h, cs);
      assert h <= g <= all by { ApplyGrows(h, cs[0]); }
      assert g[|h|..] + all[|g|..] == all[|h|..];
    }
  }

  lemma AtCommandValid(d: D.State, h: seq<byte>)
    requires AtCommand(d, h)
    ensures D.Valid(d)
  {
  }

  lemma ApplyGrows(h: seq<byte>, c: Command)
    requires Emittable(c)
    ensures h <= Apply(h, c)
  {
  }

  /** The magic is accepted byte by byte. */
  lemma {:induction false} FeedMagic(d: D.State, i: nat) returns (t: D.State)
    requires D.Valid(d) && i <= 7 && d.job == D.ReadHeader && d.bytesRead == i && d.magic[..i] == MAGIC[..i]
    requires d.bytesWritten == 0 && d.window == WindowOf([])
    ensures AtCommand(t, []) && D.Feed(d, MAGIC[i..]) == D.Ready([], t)
    decreases 8 - i
  {
    hide WindowOf, D.Feed;
    var b := MAGIC[i];
    FeedOne(d, b);
    var m := d.magic[i := b];
    assert m[..i + 1] == MAGIC[..i] + [b] == MAGIC[..i + 1];
    if i == 7 {
      assert m == MAGIC;
      t := D.Next(d, b).value.0;
      assert MAGIC[7..] == [b];
    } else {
      var u := D.Next(d, b).value.0;
      t := FeedMagic(u, i + 1);
      assert [b] + MAGIC[i + 1..] == MAGIC[i..];
      D.Resumable(d, [b], MAGIC[i + 1..]);
    }
  }

  lemma FeedWholeMagic() returns (t: D.State)
    ensures AtCommand(t, []) && D.Feed(D.INITIAL_STATE, MAGIC) == D.Ready([], t)
  {
    assert MAGIC[0..] == MAGIC;
    t := FeedMagic(D.INITIAL_STATE, 0);
  }

  // ---------------------------------------------------------------------------
  // Whole runs

  /** The output of successive encoder calls on one state. */
  function DeflateCalls(signedChar: bool, s: E.State, inputs: seq<seq<byte>>): seq<byte>
    requires E.Valid(s)
    decreases |inputs|
  {
    if inputs == [] then []
    else
      E.DeflateBytes(signedChar, s, inputs[0]) +
      DeflateCalls(signedChar, E.DeflateState(signedChar, s, inputs[0]), inputs[1..])
  }

  /** Successive decoder calls on one state, stopping at the first failure. */
  function FeedCalls(d: D.State, pieces: seq<seq<byte>>): D.Outcome
    requires D.Valid(d) && forall i :: 0 <= i < |pieces| ==> pieces[i] != []
    decreases |pieces|
  {
    if pieces == [] then D.Ready([], d)
    else
      var first := D.Feed(d, pieces[0]);
      if first.Failed? then first else D.Emit(first.out, FeedCalls(first.state, pieces[1..]))
  }

  /** However the bytes are cut, the decoder ends in the same state with the same output. */
  lemma {:induction false} CutsDoNotMatter(d: D.State, pieces: seq<seq<byte>>)
    requires D.Valid(d) && forall i :: 0 <= i < |pieces| ==> pieces[i] != []
    ensures FeedCalls(d, pieces) == D.Feed(d, Concat(pieces))
    decreases |pieces|
  {
    if pieces != [] {
      hide D.Feed, D.Emit;
      var first := D.Feed(d, pieces[0]);
      D.Resumable(d, pieces[0], Concat(pieces[1..]));
      if first.Ready? { CutsDoNotMatter(first.state, pieces[1..]); }
    }
  }

  /** After the first byte the magic is not written again: calls continue one command stream. */
  lemma {:induction false} LaterCalls(signedChar: bool, s: E.State, h: seq<byte>, d: D.State, inputs: seq<seq<byte>>)
    returns (t: D.State)
    requires Rests(s, h) && h != [] && AtCommand(d, h)
    ensures AtCommand(t, h + Concat(inputs))
    ensures D.Feed(d, DeflateCalls(signedChar, s, inputs)) == D.Ready(Concat(inputs), t)
    decreases |inputs|
  {
    hide Tracks, AtCommand, E.DeflateState, E.DeflateCommands, ApplyAll;
    TracksFields(s, h);
    if inputs == [] {
      t := d;
      assert h + [] == h;
      assert D.Valid(d) by { AtCommandValid(d, h); }
    } else {
      var u := OneCall(signedChar, s, h, d, inputs[0]);
      var s' := E.DeflateState(signedChar, s, inputs[0]);
      CallMeansInput(signedChar, s, h, inputs[0]);
      t := LaterCalls(signedChar, s', h + inputs[0], u, inputs[1..]);
      assert D.Valid(d) by { AtCommandValid(d, h); }
      hide D.Feed, E.DeflateBytes;
      D.Resumable(d, E.DeflateBytes(signedChar, s, inputs[0]), DeflateCalls(signedChar, s', inputs[1..]));
      Associative(h, inputs[0], Concat(inputs[1..]));
    }
  }

  lemma TracksFields(s: E.State, h: seq<byte>)
    requires Tracks(s, h)
    ensures E.Valid(s) && s.bytesRead == |h|
  {
  }

  lemma OneCall(signedChar: bool, s: E.State, h: seq<byte>, d: D.State, input: seq<byte>) returns (t: D.State)
    requires Rests(s, h) && h != [] && AtCommand(d, h)
    ensures AtCommand(t, h + input)
    ensures D.Feed(d, E.DeflateBytes(signedChar, s, input)) == D.Ready(input, t)
  {
    hide Tracks, AtCommand, E.DeflateState, E.DeflateCommands, ApplyAll, D.Feed;
    TracksFields(s, h);
    var cs := E.DeflateCommands(signedChar, s, input);
    CallMeansInput(signedChar, s, h, input);
    t := FeedCommands(d, h, cs);
    assert (h + input)[|h|..] == input;
    assert [] + EncodeAll(cs) == EncodeAll(cs);
  }

  lemma InitialRests()
    ensures Rests(E.INITIAL_STATE, [])
  {
  }

  lemma FirstCall(signedChar: bool, input: seq<byte>) returns (t: D.State)
    ensures AtCommand(t, input)
    ensures D.Feed(D.INITIAL_STATE, E.DeflateBytes(signedChar, E.INITIAL_STATE, input)) == D.Ready(input, t)
  {
    hide AtCommand, Tracks, E.DeflateState, E.DeflateCommands, ApplyAll, D.Feed;
    InitialRests();
    var cs := E.DeflateCommands(signedChar, E.INITIAL_STATE, input);
    CallMeansInput(signedChar, E.INITIAL_STATE, [], input);
    var u := FeedWholeMagic();
    assert D.Valid(u) by { AtCommandValid(u, []); }
    t := FeedCommands(u, [], cs);
    assert [] + input == input == input[0..];
    D.Resumable(D.INITIAL_STATE, MAGIC, EncodeAll(cs));
  }

  /**
   The streaming round trip. It asks of the first input only that it is not empty (or that it is
   the only one); later inputs may be empty. No input and no piece is bounded.
   */
  lemma StreamingRoundTrip(signedChar: bool, inputs: seq<seq<byte>>, pieces: seq<seq<byte>>)
    requires |inputs| <= 1 || inputs[0] != []
    requires forall i :: 0 <= i < |pieces| ==> pieces[i] != []
    requires Concat(pieces) == DeflateCalls(signedChar, E.INITIAL_STATE, inputs)
    ensures var o := FeedCalls(D.INITIAL_STATE, pieces);
      o.Ready? && o.out == Concat(inputs)
  {
    hide AtCommand, E.DeflateState, E.DeflateBytes;
    CutsDoNotMatter(D.INITIAL_STATE, pieces);
    if inputs != [] {
      var h := inputs[0];
      var first := E.DeflateBytes(signedChar, E.INITIAL_STATE, h);
      var s := E.DeflateState(signedChar, E.INITIAL_STATE, h);
      var d := FirstCall(signedChar, h);
      var rest := DeflateCalls(signedChar, s, inputs[1..]);
      hide D.Feed;
      if |inputs| == 1 {
        assert inputs[1..] == [];
        assert first + [] == first && h + [] == h;
      } else {
        InitialRests();
        CallMeansInput(signedChar, E.INITIAL_STATE, [], h);
        assert [] + h == h;
        var t := LaterCalls(signedChar, s, h, d, inputs[1..]);
        D.Resumable(D.INITIAL_STATE, first, rest);
      }
    }
  }

  // ---------------------------------------------------------------------------
  // The condition is needed

  /** The argument the first two bytes of the magic carry when they are read as a command. */
  const MAGIC_ARG := 3244

  /** What the literal that a second magic announces takes from the bytes behind those two. */
  function CopiedOut(s: seq<byte>): (r: seq<byte>)
    ensures r <= s
  {
    if |s| < MAGIC_ARG then s else s[..MAGIC_ARG - 1]
  }

  /** A second magic is read as a long literal: the decoder then outputs what it should read. */
  lemma SecondMagicIsLiteral(d: D.State, rest: seq<byte>)
    requires AtCommand(d, [])
    ensures CopiedOut(MAGIC[2..] + rest) <= D.Feed(d, MAGIC + rest).out
  {
    hide WindowOf, D.Feed;
    var s := MAGIC[2..] + rest;
    var copied := CopiedOut(s);
    assert EncodeArg(CMD_LITERAL, MAGIC_ARG) == MAGIC[..2];
    var t := FeedArg(d, [], CMD_LITERAL, MAGIC_ARG);
    FeedShortLiteral(t, copied);
    assert s == copied + s[|copied|..];
    D.Resumable(t, copied, s[|copied|..]);
    assert MAGIC + rest == MAGIC[..2] + s;
    D.Resumable(d, MAGIC[..2], s);
  }

  lemma {:induction false} FeedShortLiteral(d: D.State, data: seq<byte>)
    requires D.Valid(d) && d.job == D.ReadLiteral && d.commandBytes + |data| < d.arg1
    ensures D.Feed(d, data).Ready? && D.Feed(d, data).out == data
    decreases |data|
  {
    if data != [] {
      FeedShortLiteral(D.Next(d, data[0]).value.0, data[1..]);
    }
  }

  /** An empty first call writes the magic and leaves the state as it was, to write it again. */
  lemma EmptyFirstCall(signedChar: bool, inputs: seq<seq<byte>>) returns (rest: seq<byte>)
    requires |inputs| >= 2 && inputs[0] == []
    ensures DeflateCalls(signedChar, E.INITIAL_STATE, inputs) == MAGIC + (MAGIC + rest)
    ensures EncodeAll(E.DeflateCommands(signedChar, E.INITIAL_STATE, inputs[1])) <= rest
  {
    var s := E.INITIAL_STATE;
    assert E.DeflateState(signedChar, s, []) == s;
    assert E.DeflateBytes(signedChar, s, []) == MAGIC;
    var second := EncodeAll(E.DeflateCommands(signedChar, s, inputs[1]));
    var later := DeflateCalls(signedChar, E.DeflateState(signedChar, s, inputs[1]), inputs[1..][1..]);
    rest := second + later;
    Associative(MAGIC, second, later);
    assert E.DeflateBytes(signedChar, s, inputs[1..][0]) == MAGIC + second;
  }

  lemma FeedTwoMagics(rest: seq<byte>)
    ensures CopiedOut(MAGIC[2..] + rest) <= D.Feed(D.INITIAL_STATE, MAGIC + (MAGIC + rest)).out
  {
    hide D.Feed, AtCommand, CopiedOut;
    var d := FeedWholeMagic();
    assert D.Valid(d) by { AtCommandValid(d, []); }
    SecondMagicIsLiteral(d, rest);
    D.Resumable(D.INITIAL_STATE, MAGIC, MAGIC + rest);
    var o := D.Feed(d, MAGIC + rest);
    assert [] + o.out == o.out;
  }

  lemma AfterTwoMagics(rest: seq<byte>)
    ensures var s := MAGIC + (MAGIC + rest);
      MAGIC + MAGIC <= s && s[10..] == MAGIC[2..] + rest && MAGIC[2..] <= CopiedOut(s[10..])
  {
  }

  /**
   Whatever follows an empty first call, and however it is cut: the decoder outputs six bytes of
   magic and then up to 3237 encoded bytes as they are.
   */
  lemma EmptyFirstCallBreaks(signedChar: bool, inputs: seq<seq<byte>>, pieces: seq<seq<byte>>)
    requires |inputs| >= 2 && inputs[0] == []
    requires forall i :: 0 <= i < |pieces| ==> pieces[i] != []
    requires Concat(pieces) == DeflateCalls(signedChar, E.INITIAL_STATE, inputs)
    ensures MAGIC + MAGIC <= Concat(pieces)
    ensures MAGIC[2..] <= CopiedOut(Concat(pieces)[10..]) <= FeedCalls(D.INITIAL_STATE, pieces).out
  {
    hide D.Feed, FeedCalls, CopiedOut, DeflateCalls;
    CutsDoNotMatter(D.INITIAL_STATE, pieces);
    var rest := EmptyFirstCall(signedChar, inputs);
    AfterTwoMagics(rest);
    FeedTwoMagics(rest);
  }

  /**
   When the streaming law holds: for any inputs that do not themselves begin with the last six
   bytes of the magic, and any cut, exactly when the first call is the only one or is not empty.
   */
  lemma StreamingRoundTripExactly(signedChar: bool, inputs: seq<seq<byte>>, pieces: seq<seq<byte>>)
    requires forall i :: 0 <= i < |pieces| ==> pieces[i] != []
    requires Concat(pieces) == DeflateCalls(signedChar, E.INITIAL_STATE, inputs)
    requires !(MAGIC[2..] <= Concat(inputs))
    ensures var o := FeedCalls(D.INITIAL_STATE, pieces);
      (o.Ready? && o.out == Concat(inputs)) <==> (|inputs| <= 1 || inputs[0] != [])
  {
    hide FeedCalls, DeflateCalls;
    if |inputs| <= 1 || inputs[0] != [] {
      StreamingRoundTrip(signedChar, inputs, pieces);
    } else {
      EmptyFirstCallBreaks(signedChar, inputs, pieces);
    }
  }

  /** An empty call and then a short one break the law for every input, that prefix included. */
  lemma EmptyThenShortBreaks(signedChar: bool, input: seq<byte>, pieces: seq<seq<byte>>)
    requires |input| <= 2 * E.INDEX_SIZE
    requires forall i :: 0 <= i < |pieces| ==> pieces[i] != []
    requires Concat(pieces) == DeflateCalls(signedChar, E.INITIAL_STATE, [[], input])
    ensures FeedCalls(D.INITIAL_STATE, pieces).out != Concat([[], input])
  {
    hide FeedCalls, DeflateCalls;
    EmptyFirstCallBreaks(signedChar, [[], input], pieces);
    var rest := EmptyFirstCall(signedChar, [[], input]);
    ShortCallSize(signedChar, input);
    assert [[], input][1..] == [input] && [input][1..] == [];
    assert Concat([input]) == input + [];
    assert Concat([[], input]) == [] + Concat([input]) == input;
    assert |Concat(pieces)[10..]| == 6 + |rest| > |input|;
  }

  lemma ShortCallSize(signedChar: bool, input: seq<byte>)
    requires |input| <= 2 * E.INDEX_SIZE
    ensures |input| <= |EncodeAll(E.DeflateCommands(signedChar, E.INITIAL_STATE, input))|
  {
    var s := E.INITIAL_STATE;
    var t := E.StoreAll(E.Flushed(s), input);
    var cs := E.DeflateCommands(signedChar, s, input);
    assert cs == E.PendingLiteral(t, t.bytesRead);
    if cs != [] {
      assert cs[1..] == [];
    }
  }
}
