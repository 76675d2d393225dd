/**
 The resumable decoder (junked/dzip-working-immediate/inflate.c): a state machine fed one byte
 at a time, first as a step function, then as the code that runs over an input range.
 */
module StreamInflate {
  import opened Bytes
  import opened StreamFormat

  datatype Job =
    | ReadHeader | ReadCommand | ExtendArg1 | SelectJob
    | ReadLiteral | ReadMatchPoint | ReadMatchContents

  datatype State = State(
    job: Job,
    command: nat,
    arg1: uint16,
    point: seq<byte>,
    commandBytes: nat,
    bytesRead: nat,
    bytesWritten: nat,
    window: seq<byte>,
    magic: seq<byte>)

  const INITIAL_STATE := State(ReadHeader, 0, 0, [0, 0], 0, 0, 0, seq(WINDOW, i => 0), seq(8, i => 0))

  /** The states a call can leave behind: the two jobs that read no byte are never saved. */
  ghost predicate Valid(s: State) {
    && |s.window| == WINDOW && |s.magic| == 8 && |s.point| == 2
    && s.arg1 <= EXTEND_MASK
    && s.job != SelectJob && s.job != ReadMatchContents
    && (s.job == ReadHeader ==> s.bytesRead <= 7)
    && (s.job == ExtendArg1 ==> s.arg1 < COMPACT_MAX)
    && (s.job == ReadLiteral ==> s.commandBytes < s.arg1)
    && (s.job == ReadMatchPoint ==> s.commandBytes < 2 && 1 <= s.arg1)
  }

  /** The byte a match copies next. */
  function CopyByte(s: State): byte
    requires |s.window| == WINDOW && Le(s.point) < WINDOW
  {
    s.window[(WINDOW + s.bytesWritten - Le(s.point)) % WINDOW]
  }

  /** A byte written: into the window, and counted. */
  function Written(s: State, b: byte): State
    requires |s.window| == WINDOW
  {
    s.(window := s.window[s.bytesWritten % WINDOW := b],
       bytesWritten := s.bytesWritten + 1, commandBytes := s.commandBytes + 1)
  }

  /** What the copying loop does to the state and the output in `count` rounds. */
  function CopyState(s: State, count: nat): (r: (State, seq<byte>))
    requires |s.window| == WINDOW && Le(s.point) < WINDOW
    ensures |r.0.window| == WINDOW
    ensures r.0 == s.(window := r.0.window, bytesWritten := s.bytesWritten + count,
                      commandBytes := s.commandBytes + count)
    decreases count
  {
    if count == 0 then (s, [])
    else
      var b := CopyByte(s);
      var (t, out) := CopyState(Written(s, b), count - 1);
      (t, [b] + out)
  }

  /** Prefixing what was output before one round of the loop. */
  lemma CopyRound(s: State, count: nat, out: seq<byte>)
    requires |s.window| == WINDOW && Le(s.point) < WINDOW && count > 0
    ensures var r, q := CopyState(s, count), CopyState(Written(s, CopyByte(s)), count - 1);
      r.0 == q.0 && out + r.1 == (out + [CopyByte(s)]) + q.1
  {
    var q := CopyState(Written(s, CopyByte(s)), count - 1);
    hide Written, CopyByte, Le;
    Associative(out, [CopyByte(s)], q.1);
  }

  lemma CopyNothing(s: State)
    requires |s.window| == WINDOW && Le(s.point) < WINDOW
    ensures CopyState(s, 0) == (s, [])
  {
  }

  function Select(s: State): Option<State> {
    if s.arg1 == 0 then None
    else if s.command == CMD_LITERAL then Some(s.(commandBytes := 0, job := ReadLiteral))
    else if s.command == CMD_MATCH then Some(s.(commandBytes := 0, job := ReadMatchPoint))
    else None
  }

  /** Everything one input byte causes, up to reading the next; None is a failing return. */
  function Perform(s: State, b: byte): (r: Option<(State, seq<byte>)>)
    requires Valid(s)
    ensures r.Some? ==> Valid(r.value.0.(bytesRead := s.bytesRead + 1)) && r.value.0.bytesRead == s.bytesRead
  {
    match s.job
    case ReadHeader =>
      var t := s.(magic := s.magic[s.bytesRead := b]);
      if s.bytesRead < 7 then Some((t, []))
      else if t.magic == MAGIC then Some((t.(job := ReadCommand), []))
      else None
    case ReadCommand =>
      var t := s.(command := b % COMMAND_MAX, arg1 := b / META_MAX);
      if b / EXTEND_BIT % 2 == 1 then Some((t.(job := ExtendArg1), []))
      else if Select(t).Some? then Some((Select(t).value, []))
      else None
    case ExtendArg1 =>
      var t := s.(arg1 := s.arg1 + COMPACT_MAX * b);
      if Select(t).Some? then Some((Select(t).value, [])) else None
    case ReadLiteral =>
      var t := Written(s, b);
      Some((t.(job := if t.commandBytes == t.arg1 then ReadCommand else ReadLiteral), [b]))
    case ReadMatchPoint =>
      var t := s.(point := s.point[s.commandBytes := b], commandBytes := s.commandBytes + 1);
      if t.commandBytes < 2 then Some((t, []))
      else if Le(t.point) >= WINDOW then None
      else
        var (u, out) := CopyState(t.(commandBytes := 0, job := ReadMatchContents), t.arg1);
        Some((u.(job := ReadCommand), out))
  }

  function Next(s: State, b: byte): (r: Option<(State, seq<byte>)>)
    requires Valid(s)
    ensures r.Some? ==> Valid(r.value.0)
  {
    match Perform(s, b)
    case None => None
    case Some((t, out)) => Some((t.(bytesRead := s.bytesRead + 1), out))
  }

  /** Failed, or ready for more; either way with the bytes appended to the output. */
  datatype Outcome = Failed(out: seq<byte>) | Ready(out: seq<byte>, state: State)

  function Emit(out: seq<byte>, o: Outcome): Outcome {
    match o
    case Failed(more) => Failed(out + more)
    case Ready(more, s) => Ready(out + more, s)
  }

  function Feed(s: State, input: seq<byte>): (o: Outcome)
    requires Valid(s)
    ensures o.Ready? ==> Valid(o.state)
    decreases |input|
  {
    if input == [] then Ready([], s)
    else
      match Next(s, input[0])
      case None => Failed([])
      case Some((t, out)) => Emit(out, Feed(t, input[1..]))
  }

  /** One call on a ++ b is one call on a and, if that succeeds, one on b from the state it left. */
  lemma {:induction false} Resumable(s: State, a: seq<byte>, b: seq<byte>)
    requires Valid(s)
    ensures Feed(s, a + b) ==
            var first := Feed(s, a);
            if first.Failed? then first else Emit(first.out, Feed(first.state, b))
    decreases |a|
  {
    hide Next;
    if a == [] {
      assert a + b == b;
      assert forall x: seq<byte> {:trigger [] + x} :: [] + x == x;
    } else if Next(s, a[0]).Some? {
      var (t, out) := Next(s, a[0]).value;
      assert (a + b)[1..] == a[1..] + b;
      Resumable(t, a[1..], b);
      var first := Feed(t, a[1..]);
      if first.Ready? {
        Associative(out, first.out, Feed(first.state, b).out);
      }
    }
  }

  class InflateState {
    const window: array<byte>
    var job: Job
    var command: nat
    var arg1: uint16
    var point: seq<byte>
    var commandBytes: nat
    var bytesRead: nat
    var bytesWritten: nat
    var magic: seq<byte>

    ghost predicate Sized()
      reads this
    {
      window.Length == WINDOW && |magic| == 8 && |point| == 2
    }

    /** The fields as a value, with the job the control is at. */
    ghost function Now(at: Job): State
      reads this, window
    {
      State(at, command, arg1, point, commandBytes, bytesRead, bytesWritten, window[..], magic)
    }

    /** `dzip_inflate_state_new`. */
    constructor ()
      ensures fresh(window) && Now(job) == INITIAL_STATE
    {
      window := new byte[WINDOW](i => 0);
      job, command, arg1, point := ReadHeader, 0, 0, [0, 0];
      commandBytes, bytesRead, bytesWritten, magic := 0, 0, 0, seq(8, i => 0);
    }

    /** `dzip_inflate`: the jobs run over the range; where it ends is kept in `job`. */
    method Inflate(output: Buffer, input: seq<byte>) returns (ok: bool)
      requires Valid(Now(job)) && input != []
      modifies this, window, output
      ensures var o := Feed(old(Now(job)), input);
        && ok == o.Ready?
        && output.bytes == old(output.bytes) + o.out
        && (ok ==> Now(job) == o.state)
    {
      hide Next, Emit;
      var begin, next := 0, job;
      ghost var before, out := old(output.bytes), [];
      assert input[0..] == input;
      EmitNothing(Feed(Now(next), input));
      while true
        invariant 0 <= begin < |input|
        invariant Valid(Now(next)) && job == old(job)
        invariant output.bytes == before + out
        invariant Feed(old(Now(job)), input) == Emit(out, Feed(Now(next), input[begin..]))
        decreases |input| - begin
      {
        ghost var s, rest := Now(next), input[begin..];
        assert rest[0] == input[begin] && rest[1..] == input[begin + 1..];
        UnfoldFeed(s, rest);
        ok, next := RunJob(next, input[begin], output);
        if !ok {
          EmitOut(out, Failed([]));
          assert out + [] == out;
          return false;
        }
        ghost var more := Perform(s, rest[0]).value.1;
        // goto_next
        begin := begin + 1;
        bytesRead := bytesRead + 1;
        assert Now(next) == Next(s, rest[0]).value.0;
        EmitTwice(out, more, Feed(Now(next), input[begin..]));
        Associative(before, out, more);
        out := out + more;
        if begin == |input| {
          job := next;
          EmitOut(out, Ready([], Now(job)));
          assert out + [] == out;
          return true;
        }
      }
    }

    /** One job and the jobs it goes to without a new byte. */
    method RunJob(at: Job, b: byte, output: Buffer) returns (ok: bool, next: Job)
      requires Valid(Now(at))
      modifies this`command, this`arg1, this`point, this`commandBytes, this`bytesWritten, this`magic, window, output
      ensures var r := Perform(old(Now(at)), b);
        && ok == r.Some?
        && (ok ==> Now(next) == r.value.0 && output.bytes == old(output.bytes) + r.value.1)
        && (!ok ==> output.bytes == old(output.bytes))
    {
      assert at.ReadHeader? || at.ReadCommand? || at.ExtendArg1? || at.ReadLiteral? || at.ReadMatchPoint?;
      hide Perform, Valid;
      next := at;
      match at {
        case ReadHeader => ok, next := RunHeader(b);
        case ReadCommand => ok, next := RunCommand(b);
        case ExtendArg1 => ok, next := RunExtend(b);
        case ReadLiteral => ok, next := RunLiteral(b, output);
        case ReadMatchPoint => ok, next := RunMatchPoint(b, output);
      }
      assert output.bytes + [] == output.bytes;
    }

    /** `INFLATE_READ_HEADER`. */
    method RunHeader(b: byte) returns (ok: bool, next: Job)
      requires Valid(Now(ReadHeader))
      modifies this`magic
      ensures var r := Perform(old(Now(ReadHeader)), b);
        ok == r.Some? && (ok ==> r.value == (Now(next), []))
    {
      if bytesRead > 7 { return false, ReadHeader; }
      magic := magic[bytesRead := b];
      if bytesRead == 7 {
        if magic != MAGIC { return false, ReadHeader; }
        return true, ReadCommand;
      }
      return true, ReadHeader;
    }

    /** `INFLATE_READ_CMD`. */
    method RunCommand(b: byte) returns (ok: bool, next: Job)
      requires Valid(Now(ReadCommand))
      modifies this`command, this`arg1, this`commandBytes
      ensures var r := Perform(old(Now(ReadCommand)), b);
        ok == r.Some? && (ok ==> r.value == (Now(next), []))
    {
      command := b % COMMAND_MAX;
      arg1 := b / META_MAX % COMPACT_MAX;
      if b / EXTEND_BIT % 2 == 1 { return true, ExtendArg1; }
      ok, next := RunSelect();
    }

    /** `INFLATE_EXTEND_ARG1`. */
    method RunExtend(b: byte) returns (ok: bool, next: Job)
      requires Valid(Now(ExtendArg1))
      modifies this`arg1, this`commandBytes
      ensures var r := Perform(old(Now(ExtendArg1)), b);
        ok == r.Some? && (ok ==> r.value == (Now(next), []))
    {
      hide Written, CopyState;
      assert arg1 + COMPACT_MAX * b < TWO16;
      arg1 := (arg1 + COMPACT_MAX * b) % TWO16;
      ok, next := RunSelect();
    }

    /** `INFLATE_READ_LITERAL`. */
    method RunLiteral(b: byte, output: Buffer) returns (ok: bool, next: Job)
      requires Valid(Now(ReadLiteral))
      modifies this`commandBytes, this`bytesWritten, window, output
      ensures Perform(old(Now(ReadLiteral)), b) == Some((Now(next), [b]))
      ensures ok && output.bytes == old(output.bytes) + [b]
    {
      WriteByte(b, output);
      return true, if commandBytes == arg1 then ReadCommand else ReadLiteral;
    }

    /** `INFLATE_READ_MATCH_POINT`. */
    method RunMatchPoint(b: byte, output: Buffer) returns (ok: bool, next: Job)
      requires Valid(Now(ReadMatchPoint))
      modifies this`commandBytes, this`bytesWritten, this`point, window, output
      ensures var r := Perform(old(Now(ReadMatchPoint)), b);
        && ok == r.Some?
        && (ok ==> Now(next) == r.value.0 && output.bytes == old(output.bytes) + r.value.1)
        && (!ok ==> output.bytes == old(output.bytes))
    {
      hide Le, CopyState;
      next := ReadMatchPoint;
      if commandBytes >= 2 { return false, next; }
      point := point[commandBytes := b];
      commandBytes := commandBytes + 1;
      if commandBytes < 2 { return true, next; }
      commandBytes := 0;
      if Le(point) >= WINDOW { return false, next; }
      CopyContents(output);
      return true, ReadCommand;
    }

    /** `INFLATE_SELECT_JOB`. */
    method RunSelect() returns (ok: bool, next: Job)
      modifies this`commandBytes
      ensures var r := Select(old(Now(SelectJob)));
        ok == r.Some? && (ok ==> Now(next) == r.value)
    {
      commandBytes := 0;
      if arg1 == 0 { return false, SelectJob; }
      if command == CMD_LITERAL { return true, ReadLiteral; }
      if command == CMD_MATCH { return true, ReadMatchPoint; }
      return false, SelectJob;
    }

    /** `INFLATE_READ_MATCH_CONTENTS`: copy inside the window until the length is reached. */
    method CopyContents(output: Buffer)
      requires Sized() && Le(point) < WINDOW && commandBytes == 0 < arg1
      modifies this`commandBytes, this`bytesWritten, window, output
      ensures var r := CopyState(old(Now(ReadMatchContents)), arg1);
        Now(ReadMatchContents) == r.0 && output.bytes == old(output.bytes) + r.1
    {
      hide Le, CopyState, Written;
      ghost var start := Now(ReadMatchContents);
      ghost var before, out := output.bytes, [];
      assert [] + CopyState(start, arg1).1 == CopyState(start, arg1).1;
      while commandBytes != arg1
        invariant Sized() && point == start.point && arg1 == start.arg1
        invariant commandBytes <= arg1
        invariant output.bytes == before + out
        invariant var r := CopyState(Now(ReadMatchContents), arg1 - commandBytes);
          CopyState(start, arg1) == (r.0, out + r.1)
        decreases arg1 - commandBytes
      {
        CopyRound(Now(ReadMatchContents), arg1 - commandBytes, out);
        var distance := Le(point);
        var copy := window[(WINDOW + bytesWritten - distance % WINDOW) % WINDOW];
        WriteByte(copy, output);
        Associative(before, out, [copy]);
        out := out + [copy];
      }
      CopyNothing(Now(ReadMatchContents));
      assert out + [] == out;
    }

    /** The byte goes into the window and the output. */
    method WriteByte(b: byte, output: Buffer)
      requires Sized()
      modifies this`commandBytes, this`bytesWritten, window, output
      ensures forall at :: Now(at) == Written(old(Now(at)), b)
      ensures commandBytes == old(commandBytes) + 1
      ensures output.bytes == old(output.bytes) + [b]
    {
      window[bytesWritten % WINDOW] := b;
      output.Push(b);
      bytesWritten := bytesWritten + 1;
      commandBytes := commandBytes + 1;
    }
  }

  // ---------------------------------------------------------------------------
  // Bookkeeping of outcomes

  lemma EmitNothing(o: Outcome)
    ensures Emit([], o) == o
  {
    assert [] + o.out == o.out;
  }

  lemma EmitOut(out: seq<byte>, o: Outcome)
    ensures Emit(out, o).out == out + o.out && Emit(out, o).Ready? == o.Ready?
    ensures o.Ready? ==> Emit(out, o).state == o.state
  {
  }

  lemma EmitTwice(a: seq<byte>, b: seq<byte>, o: Outcome)
    ensures Emit(a, Emit(b, o)) == Emit(a + b, o)
  {
    Associative(a, b, o.out);
  }

  lemma UnfoldFeed(s: State, input: seq<byte>)
    requires Valid(s) && input != []
    ensures match Perform(s, input[0])
      case None => Feed(s, input) == Failed([])
      case Some((t, out)) =>
        var n := t.(bytesRead := s.bytesRead + 1);
        Valid(n) && Next(s, input[0]) == Some((n, out)) && Feed(s, input) == Emit(out, Feed(n, input[1..]))
  {
    hide Perform;
  }
}
