/**
 Writing through a buffer with deferred flushes (src/chain-io/write.c). What the sink has taken
 and what still waits must together be what was pushed.
 */
module ChainWrite {
  import opened Bytes
  import ChainRead

  const FLUSH_PENDING := 1_000_000

  /** One call of the sink's update function: how much of the input it takes, and its status. */
  datatype Reply = Reply(take: nat, status: ChainRead.Status)

  /**
   The handle, and beside it `replies`, how the sink will answer (complete without taking
   anything once they are used up), and `accepted`, all it has taken so far.
   */
  datatype Writer = Writer(
    buffer: seq<byte>,
    written: nat,
    isError: bool,
    flushSize: nat,
    replies: seq<Reply>,
    accepted: seq<byte>)

  // ---------------------------------------------------------------------------
  // What the operations compute

  function Min(a: nat, b: nat): nat { if a < b then a else b }

  /** The sink is called once with `input`; the number is how much it takes. */
  function Sink(s: Writer, input: seq<byte>): (r: (Writer, nat, ChainRead.Status))
    ensures r.1 <= |input|
  {
    if s.replies == [] then (s, 0, ChainRead.Complete)
    else
      var n := Min(s.replies[0].take, |input|);
      (s.(accepted := s.accepted + input[..n], replies := s.replies[1..]), n, s.replies[0].status)
  }

  /** The sink is called until it completes or fails. */
  function FlushLoop(s: Writer, input: seq<byte>): (r: (Writer, seq<byte>, bool))
    ensures r.0.buffer == s.buffer && r.0.written == s.written && |r.1| <= |input|
    decreases |s.replies|
  {
    var (t, n, status) := Sink(s, input);
    match status
    case Incomplete => FlushLoop(t, input[n..])
    case Complete => (t, input[n..], true)
    case Error => (t.(isError := true), input[n..], false)
  }

  /** `chain_write_flush_input`: the new state, the input left, and the result. */
  function FlushInput(s: Writer, input: seq<byte>): (r: (Writer, seq<byte>, bool))
    ensures r.0.buffer == s.buffer && r.0.written == s.written && |r.1| <= |input|
  {
    if s.isError then (s, input, false) else FlushLoop(s, input)
  }

  /** `chain_flush`: on failure `written` stays, although the sink may have taken bytes. */
  function Flush(s: Writer): (r: (Writer, bool))
    requires s.written <= |s.buffer|
    ensures r.0.written <= |r.0.buffer|
  {
    var (t, rest, ok) := FlushInput(s, s.buffer[s.written..]);
    if ok then (t.(written := |s.buffer| - |rest|), true) else (t, false)
  }

  function PushFinal(s: Writer): (r: (Writer, bool))
    requires s.written <= |s.buffer|
    ensures r.0.written <= |r.0.buffer|
  {
    if |s.buffer| - s.written < FLUSH_PENDING then (s, true) else Flush(s)
  }

  function Compact(s: Writer): (t: Writer)
    requires s.written <= |s.buffer|
    ensures t.written <= |t.buffer|
  {
    if s.written > 0 && (s.written > |s.buffer| / 2 || |s.buffer| > ChainRead.LARGE) then
      s.(buffer := s.buffer[s.written..], written := 0)
    else s
  }

  /** `chain_push`: a large input goes straight to the sink when nothing waits. */
  function Push(s: Writer, input: seq<byte>): (r: (Writer, bool))
    requires s.written <= |s.buffer|
    ensures r.0.written <= |r.0.buffer|
  {
    if input == [] then (s, true)
    else
      var t := Compact(s);
      if |t.buffer| == t.written && |input| > t.flushSize then
        var (u, rest, ok) := FlushInput(t, input);
        (if ok then u.(buffer := u.buffer + rest) else u, ok)
      else
        PushFinal(t.(buffer := t.buffer + input))
  }

  // ---------------------------------------------------------------------------
  // The code

  class Chain {
    var buffer: seq<byte>
    var written: nat
    var isError: bool
    var flushSize: nat
    var replies: seq<Reply>
    ghost var accepted: seq<byte>

    ghost function Now(): Writer
      reads this
    {
      Writer(buffer, written, isError, flushSize, replies, accepted)
    }

    /** `chain_write_new`, with the interface filled in. */
    constructor (flushSize: nat, replies: seq<Reply>)
      ensures Now() == Writer([], 0, false, flushSize, replies, [])
    {
      this.flushSize, this.replies := flushSize, replies;
      buffer, written, isError, accepted := [], 0, false, [];
    }

    /** The update function stored in the interface. */
    method CallUpdate(input: seq<byte>) returns (n: nat, status: ChainRead.Status)
      modifies this
      ensures (Now(), n, status) == Sink(old(Now()), input)
    {
      if replies == [] { return 0, ChainRead.Complete; }
      n, status := Min(replies[0].take, |input|), replies[0].status;
      replies := replies[1..];
      accepted := accepted + input[..n];
    }

    /** `chain_write_flush_input`. */
    method RunFlushInput(input: seq<byte>) returns (ok: bool, rest: seq<byte>)
      modifies this
      ensures (Now(), rest, ok) == FlushInput(old(Now()), input)
    {
      hide Sink;
      rest := input;
      if isError { return false, rest; }
      while true
        invariant FlushLoop(Now(), rest) == FlushLoop(old(Now()), input)
        decreases |replies|
      {
        ghost var before := Now();
        var n, status := CallUpdate(rest);
        assert n <= |rest| && (status.Complete? || |replies| < |before.replies|) by { SinkUsesReply(before, rest); }
        rest := rest[n..];
        if status.Incomplete? {
        } else if status.Complete? {
          return true, rest;
        } else {
          isError := true;
          return false, rest;
        }
      }
    }

    /** `chain_flush`. */
    method RunFlush() returns (ok: bool)
      requires written <= |buffer|
      modifies this
      ensures (Now(), ok) == Flush(old(Now())) && written <= |buffer|
    {
      hide FlushLoop;
      FlushInputKeeps(Now(), buffer[written..]);
      var rest;
      ok, rest := RunFlushInput(buffer[written..]);
      if ok { written := |buffer| - |rest|; }
    }

    /** `chain_push_final`. */
    method RunPushFinal() returns (ok: bool)
      requires written <= |buffer|
      modifies this
      ensures (Now(), ok) == PushFinal(old(Now())) && written <= |buffer|
    {
      hide Flush;
      if |buffer| - written < FLUSH_PENDING { return true; }
      ok := RunFlush();
    }

    /** `chain_push`. */
    method RunPush(input: seq<byte>) returns (ok: bool)
      requires written <= |buffer|
      modifies this
      ensures (Now(), ok) == Push(old(Now()), input) && written <= |buffer|
    {
      hide PushFinal, FlushLoop;
      if input == [] { return true; }
      if written > 0 {
        var bufferSize := |buffer|;
        if written > bufferSize / 2 || bufferSize > ChainRead.LARGE {
          buffer := buffer[written..];
          written := 0;
        }
      }
      if |buffer| == written && |input| > flushSize {
        var rest;
        FlushInputKeeps(Now(), input);
        ok, rest := RunFlushInput(input);
        if ok { buffer := buffer + rest; }
      } else {
        buffer := buffer + input;
        ok := RunPushFinal();
      }
    }
  }

  lemma SinkUsesReply(s: Writer, input: seq<byte>)
    ensures var (t, n, status) := Sink(s, input);
      n <= |input| && (status.Complete? || |t.replies| < |s.replies|)
  {
  }

  // ---------------------------------------------------------------------------
  // Conservation

  /** A flush moves a prefix of its input to the sink and reports the rest. */
  lemma {:induction false} FlushLoopKeeps(s: Writer, input: seq<byte>)
    ensures var (t, rest, ok) := FlushLoop(s, input);
      && t.accepted + rest == s.accepted + input
      && s.accepted <= t.accepted
      && |rest| <= |input|
      && t == s.(accepted := t.accepted, replies := t.replies, isError := s.isError || !ok)
    decreases |s.replies|
  {
    var (t, n, status) := Sink(s, input);
    if s.replies != [] {
      assert input[..n] + input[n..] == input;
      Associative(s.accepted, input[..n], input[n..]);
      if status.Incomplete? { FlushLoopKeeps(t, input[n..]); }
    }
  }

  lemma FlushInputKeeps(s: Writer, input: seq<byte>)
    ensures var (t, rest, ok) := FlushInput(s, input);
      && t.accepted + rest == s.accepted + input
      && s.accepted <= t.accepted
      && |rest| <= |input|
      && t == s.(accepted := t.accepted, replies := t.replies, isError := !ok)
  {
    FlushLoopKeeps(s, input);
  }

  /**
   What the writer owes: everything pushed is either taken by the sink or waiting, in order; once
   an error is flagged, what the sink took is still a prefix of what was pushed.
   */
  ghost predicate Conserves(s: Writer, pushed: seq<byte>) {
    && s.written <= |s.buffer|
    && s.accepted <= pushed
    && (!s.isError ==> s.accepted + s.buffer[s.written..] == pushed)
  }

  lemma FlushConserves(s: Writer, pushed: seq<byte>)
    requires Conserves(s, pushed)
    ensures Conserves(Flush(s).0, pushed)
    ensures s.isError ==> !Flush(s).1
  {
    hide FlushLoop;
    var input := s.buffer[s.written..];
    FlushInputKeeps(s, input);
    var (t, rest, ok) := FlushInput(s, input);
    if ok {
      RestIsSuffix(s.accepted, t.accepted, input, rest);
      assert s.buffer[|s.buffer| - |rest|..] == rest;
    }
    assert t.accepted <= t.accepted + rest;
  }

  lemma RestIsSuffix(a: seq<byte>, b: seq<byte>, input: seq<byte>, rest: seq<byte>)
    requires b + rest == a + input && |rest| <= |input|
    ensures rest == input[|input| - |rest|..]
  {
    assert rest == (b + rest)[|b|..];
    assert input[|input| - |rest|..] == (a + input)[|a| + |input| - |rest|..];
  }

  lemma CompactConserves(s: Writer, pushed: seq<byte>)
    requires Conserves(s, pushed)
    ensures Conserves(Compact(s), pushed)
  {
  }

  lemma AppendConserves(s: Writer, pushed: seq<byte>, input: seq<byte>)
    requires Conserves(s, pushed)
    ensures Conserves(s.(buffer := s.buffer + input), pushed + input)
  {
    assert (s.buffer + input)[s.written..] == s.buffer[s.written..] + input;
    Associative(s.accepted, s.buffer[s.written..], input);
  }

  lemma PushFinalConserves(s: Writer, pushed: seq<byte>)
    requires Conserves(s, pushed)
    ensures Conserves(PushFinal(s).0, pushed)
  {
    hide Flush;
    FlushConserves(s, pushed);
  }

  /** The direct path: nothing waits, so the sink may be given the input itself. */
  lemma DirectConserves(t: Writer, pushed: seq<byte>, input: seq<byte>)
    requires Conserves(t, pushed) && |t.buffer| == t.written
    ensures var (u, rest, ok) := FlushInput(t, input);
      Conserves(if ok then u.(buffer := u.buffer + rest) else u, pushed + input)
  {
    hide FlushLoop;
    FlushInputKeeps(t, input);
    var (u, rest, ok) := FlushInput(t, input);
    assert t.accepted <= pushed + input;
    if !t.isError {
      assert t.buffer[t.written..] == [];
      assert t.accepted == pushed;
      assert u.accepted <= u.accepted + rest;
      assert (u.buffer + rest)[u.written..] == rest;
    }
  }

  lemma PushConserves(s: Writer, pushed: seq<byte>, input: seq<byte>)
    requires Conserves(s, pushed)
    ensures Conserves(Push(s, input).0, pushed + input)
  {
    hide PushFinal, FlushLoop, Conserves;
    assert s.written <= |s.buffer| by { Bounds(s, pushed); }
    if input == [] {
      assert pushed + input == pushed;
    } else {
      var t := Compact(s);
      CompactConserves(s, pushed);
      if |t.buffer| == t.written && |input| > t.flushSize {
        DirectConserves(t, pushed, input);
      } else {
        AppendConserves(t, pushed, input);
        PushFinalConserves(t.(buffer := t.buffer + input), pushed + input);
      }
    }
  }

  lemma Bounds(s: Writer, pushed: seq<byte>)
    requires Conserves(s, pushed)
    ensures s.written <= |s.buffer|
  {
  }

  // ---------------------------------------------------------------------------
  // Whole runs

  /** `DoStartFinal` writes into the buffer itself, between `chain_push_start` and `chain_push_final`. */
  datatype Operation = DoPush(input: seq<byte>) | DoStartFinal(input: seq<byte>) | DoFlush

  function Do(s: Writer, op: Operation): (t: Writer)
    requires s.written <= |s.buffer|
    ensures t.written <= |t.buffer|
  {
    match op
    case DoPush(input) => Push(s, input).0
    case DoStartFinal(input) => PushFinal(s.(buffer := s.buffer + input)).0
    case DoFlush => Flush(s).0
  }

  function Pushed(op: Operation): seq<byte> {
    if op.DoFlush? then [] else op.input
  }

  lemma DoConserves(s: Writer, pushed: seq<byte>, op: Operation)
    requires Conserves(s, pushed)
    ensures Conserves(Do(s, op), pushed + Pushed(op))
  {
    hide Push, PushFinal, Flush;
    match op
    case DoPush(input) => PushConserves(s, pushed, input);
    case DoStartFinal(input) =>
      AppendConserves(s, pushed, input);
      PushFinalConserves(s.(buffer := s.buffer + input), pushed + input);
    case DoFlush =>
      FlushConserves(s, pushed);
      assert pushed + [] == pushed;
  }

  function Run(s: Writer, ops: seq<Operation>): Writer
    requires s.written <= |s.buffer|
    decreases |ops|
  {
    if ops == [] then s else Run(Do(s, ops[0]), ops[1..])
  }

  function AllPushed(ops: seq<Operation>): seq<byte> {
    if ops == [] then [] else Pushed(ops[0]) + AllPushed(ops[1..])
  }

  lemma {:induction false} RunConserves(s: Writer, pushed: seq<byte>, ops: seq<Operation>)
    requires Conserves(s, pushed)
    ensures Conserves(Run(s, ops), pushed + AllPushed(ops))
    decreases |ops|
  {
    hide Do, Pushed;
    if ops == [] {
      assert pushed + [] == pushed;
    } else {
      DoConserves(s, pushed, ops[0]);
      RunConserves(Do(s, ops[0]), pushed + Pushed(ops[0]), ops[1..]);
      Associative(pushed, Pushed(ops[0]), AllPushed(ops[1..]));
    }
  }

  /**
   Push conservation over whole runs, for any sink: while no error is flagged, the bytes the sink
   took followed by those waiting are the concatenation of everything pushed; after an error,
   what it took is still a prefix of that.
   */
  lemma PushConservation(flushSize: nat, replies: seq<Reply>, ops: seq<Operation>)
    ensures var s := Run(Writer([], 0, false, flushSize, replies, []), ops);
      && s.written <= |s.buffer|
      && s.accepted <= AllPushed(ops)
      && (!s.isError ==> s.accepted + s.buffer[s.written..] == AllPushed(ops))
  {
    hide Run;
    RunConserves(Writer([], 0, false, flushSize, replies, []), [], ops);
    assert [] + AllPushed(ops) == AllPushed(ops);
  }

  /** An error is never forgotten, and from then on the sink is given nothing more. */
  lemma {:induction false} ErrorIsFinal(s: Writer, ops: seq<Operation>)
    requires s.written <= |s.buffer| && s.isError
    ensures var t := Run(s, ops); t.isError && t.accepted == s.accepted
    decreases |ops|
  {
    hide FlushLoop;
    if ops != [] { ErrorIsFinal(Do(s, ops[0]), ops[1..]); }
  }

  // ---------------------------------------------------------------------------
  // Delivery

  /** What has been pushed and not yet taken off the buffer. */
  function Waiting(s: Writer): seq<byte>
    requires s.written <= |s.buffer|
  {
    s.buffer[s.written..]
  }

  /** How many answers one delivery uses: those up to the first that is not incomplete. */
  function Used(replies: seq<Reply>): (k: nat)
    ensures k <= |replies|
    ensures forall i :: 0 <= i < k - 1 ==> replies[i].status.Incomplete?
    ensures k < |replies| ==> k > 0 && !replies[k - 1].status.Incomplete?
  {
    if replies == [] then 0
    else if !replies[0].status.Incomplete? then 1
    else
      assert forall i :: 1 <= i < |replies| ==> replies[i] == replies[1..][i - 1];
      1 + Used(replies[1..])
  }

  function Takes(replies: seq<Reply>): nat {
    if replies == [] then 0 else replies[0].take + Takes(replies[1..])
  }

  /** Some answer of the delivery is an error; it can only be the last one used. */
  predicate Fails(replies: seq<Reply>) {
    exists i :: 0 <= i < Used(replies) && replies[i].status.Error?
  }

  /** How many of n offered bytes the sink takes: all its answers ask for, or all there are. */
  function Delivered(replies: seq<Reply>, n: nat): (d: nat)
    ensures d <= n
  {
    if Takes(replies[..Used(replies)]) < n then Takes(replies[..Used(replies)]) else n
  }

  /** What a delivery of `input` does to the sink's side and the error flag. */
  ghost predicate Delivers(s: Writer, input: seq<byte>, t: Writer, ok: bool) {
    if s.isError then !ok && t.isError && t.replies == s.replies && t.accepted == s.accepted
    else
      && ok == !Fails(s.replies) && t.isError == !ok
      && t.replies == s.replies[Used(s.replies)..]
      && t.accepted == s.accepted + input[..Delivered(s.replies, |input|)]
  }

  lemma UsedStep(replies: seq<Reply>)
    requires replies != [] && replies[0].status.Incomplete?
    ensures Used(replies) == 1 + Used(replies[1..])
    ensures Takes(replies[..Used(replies)]) == replies[0].take + Takes(replies[1..][..Used(replies[1..])])
    ensures Fails(replies) == Fails(replies[1..])
  {
    var k := Used(replies[1..]);
    assert replies[..k + 1][1..] == replies[1..][..k];
    if Fails(replies[1..]) {
      var i :| 0 <= i < k && replies[1..][i].status.Error?;
      assert replies[i + 1].status.Error?;
    }
    if Fails(replies) {
      var i :| 0 <= i < k + 1 && replies[i].status.Error?;
      assert replies[1..][i - 1].status.Error?;
    }
  }

  lemma UsedOnce(replies: seq<Reply>)
    requires replies != [] && !replies[0].status.Incomplete?
    ensures Used(replies) == 1 && Takes(replies[..1]) == replies[0].take
    ensures Fails(replies) == replies[0].status.Error?
  {
    assert replies[..1][1..] == [];
  }

  /** The loop over the sink hands on exactly what the answers used ask for. */
  lemma {:induction false} LoopDelivers(s: Writer, input: seq<byte>)
    requires !s.isError
    ensures var (t, rest, ok) := FlushLoop(s, input);
      Delivers(s, input, t, ok) && rest == input[Delivered(s.replies, |input|)..]
    decreases |s.replies|
  {
    hide Used, Takes, Fails;
    if s.replies == [] {
      NoReplies();
      assert s.accepted + input[..0] == s.accepted;
    } else if s.replies[0].status.Incomplete? {
      hide Delivered, Delivers;
      var n := Min(s.replies[0].take, |input|);
      var t := Sink(s, input).0;
      LoopDelivers(t, input[n..]);
      DeliversMore(s, input, FlushLoop(t, input[n..]).0, FlushLoop(t, input[n..]).2);
    } else {
      UsedOnce(s.replies);
    }
  }

  /** An incomplete answer, and a delivery of what it left. */
  lemma DeliversMore(s: Writer, input: seq<byte>, u: Writer, ok: bool)
    requires !s.isError && s.replies != [] && s.replies[0].status.Incomplete?
    requires Delivers(Sink(s, input).0, input[Min(s.replies[0].take, |input|)..], u, ok)
    ensures Delivers(s, input, u, ok)
    ensures var n := Min(s.replies[0].take, |input|);
      input[n..][Delivered(s.replies[1..], |input| - n)..] == input[Delivered(s.replies, |input|)..]
  {
    hide Used, Takes, Fails;
    var n := Min(s.replies[0].take, |input|);
    UsedStep(s.replies);
    var d := Delivered(s.replies[1..], |input| - n);
    assert Delivered(s.replies, |input|) == n + d;
    assert input[..n] + input[n..][..d] == input[..n + d] && input[n..][d..] == input[n + d..];
    Associative(s.accepted, input[..n], input[n..][..d]);
  }

  lemma NoReplies()
    ensures Used([]) == 0 && Takes([]) == 0 && !Fails([]) && Takes([][..0]) == 0
  {
  }

  lemma InputDelivers(s: Writer, input: seq<byte>)
    ensures var (t, rest, ok) := FlushInput(s, input);
      && Delivers(s, input, t, ok)
      && (!s.isError ==> rest == input[Delivered(s.replies, |input|)..])
      && t.buffer == s.buffer && t.written == s.written && t.flushSize == s.flushSize
  {
    hide FlushLoop, Delivers;
    if !s.isError { LoopDelivers(s, input); }
    assert s.isError ==> Delivers(s, input, s, false) by { NothingDelivered(s, input); }
    FlushInputKeeps(s, input);
  }

  lemma NothingDelivered(s: Writer, input: seq<byte>)
    ensures s.isError ==> Delivers(s, input, s, false)
  {
  }

  /**
   A flush offers the sink all that waits, until the first answer that is not incomplete; what the
   sink takes no longer waits, unless it reported an error.
   */
  lemma FlushDelivers(s: Writer)
    requires s.written <= |s.buffer|
    ensures var (t, ok) := Flush(s);
      && Delivers(s, Waiting(s), t, ok) && t.buffer == s.buffer
      && t.written == if ok then s.written + Delivered(s.replies, |Waiting(s)|) else s.written
  {
    hide FlushLoop, FlushInput, Delivered, Fails;
    InputDelivers(s, Waiting(s));
  }

  /** In particular, a sink that takes all it is offered leaves nothing waiting. */
  lemma WillingSinkTakesAll(s: Writer)
    requires s.written <= |s.buffer| && !s.isError
    requires s.replies != [] && s.replies[0].status.Complete? && s.replies[0].take >= |Waiting(s)|
    ensures var (t, ok) := Flush(s);
      ok && t.written == |t.buffer| && t.accepted == s.accepted + Waiting(s)
  {
    hide Flush, Used, Takes, Fails;
    FlushDelivers(s);
    UsedOnce(s.replies);
    assert Waiting(s)[..|Waiting(s)|] == Waiting(s);
  }

  /**
   A push. With bytes waiting, or with an input no larger than the flush size, the input joins
   what waits, and at a million bytes all of it is offered. Otherwise the input itself is offered;
   what is left of it then waits, and nothing of it after an error.
   */
  lemma PushDelivers(s: Writer, input: seq<byte>)
    requires s.written <= |s.buffer| && input != []
    ensures var (t, ok) := Push(s, input);
      var all := Waiting(s) + input;
      if Waiting(s) != [] || |input| <= s.flushSize then
        if |all| < 1_000_000 then
          ok && Waiting(t) == all && t.replies == s.replies && t.accepted == s.accepted && t.isError == s.isError
        else
          && Delivers(s, all, t, ok)
          && Waiting(t) == if ok then all[Delivered(s.replies, |all|)..] else all
      else
        && Delivers(s, input, t, ok)
        && Waiting(t) == if ok then input[Delivered(s.replies, |input|)..] else []
  {
    hide Push, FlushInput, Flush, Delivers, Delivered, Waiting;
    WaitingOf(s);
    if Waiting(s) != [] || |input| <= s.flushSize {
      PushJoins(s, input);
    } else {
      PushOffersInput(s, input);
    }
  }

  lemma WaitingOf(s: Writer)
    requires s.written <= |s.buffer|
    ensures Waiting(Compact(s)) == Waiting(s) && (Waiting(s) == [] <==> |Compact(s).buffer| == Compact(s).written)
  {
  }

  lemma PushJoins(s: Writer, input: seq<byte>)
    requires s.written <= |s.buffer| && input != [] && (Waiting(s) != [] || |input| <= s.flushSize)
    ensures var (t, ok) := Push(s, input);
      var all := Waiting(s) + input;
      if |all| < 1_000_000 then
        ok && Waiting(t) == all && t.replies == s.replies && t.accepted == s.accepted && t.isError == s.isError
      else
        && Delivers(s, all, t, ok)
        && Waiting(t) == if ok then all[Delivered(s.replies, |all|)..] else all
  {
    hide FlushInput, Flush, Delivers, Delivered, PushFinal;
    WaitingOf(s);
    var t := Compact(s);
    var u := t.(buffer := t.buffer + input);
    assert Waiting(u) == Waiting(s) + input;
    PushFinalDelivers(u);
    var (v, ok) := PushFinal(u);
    if |Waiting(u)| >= 1_000_000 { DeliversSame(u, v, Waiting(u), s, v, ok); }
  }

  lemma PushOffersInput(s: Writer, input: seq<byte>)
    requires s.written <= |s.buffer| && input != [] && Waiting(s) == [] && |input| > s.flushSize
    ensures var (t, ok) := Push(s, input);
      && Delivers(s, input, t, ok)
      && Waiting(t) == if ok then input[Delivered(s.replies, |input|)..] else []
  {
    hide FlushInput, Delivers, Delivered, PushFinal;
    WaitingOf(s);
    var t := Compact(s);
    InputDelivers(t, input);
    var (u, rest, ok) := FlushInput(t, input);
    DeliversSame(t, u, input, s, Push(s, input).0, ok);
  }

  /** Bytes written into the buffer itself are offered from a million waiting bytes on. */
  lemma PushFinalDelivers(s: Writer)
    requires s.written <= |s.buffer|
    ensures var (t, ok) := PushFinal(s);
      if |Waiting(s)| < 1_000_000 then ok && t == s
      else Delivers(s, Waiting(s), t, ok)
           && Waiting(t) == if ok then Waiting(s)[Delivered(s.replies, |Waiting(s)|)..] else Waiting(s)
  {
    hide Flush, Delivers, Delivered;
    FlushDelivers(s);
  }

  /** A delivery does not depend on the buffer. */
  lemma DeliversSame(s: Writer, t: Writer, input: seq<byte>, s': Writer, t': Writer, ok: bool)
    requires Delivers(s, input, t, ok)
    requires s'.isError == s.isError && s'.replies == s.replies && s'.accepted == s.accepted
    requires t'.isError == t.isError && t'.replies == t.replies && t'.accepted == t.accepted
    ensures Delivers(s', input, t', ok)
    ensures ok ==> !s.isError
  {
  }

  /** The buffer is compacted before it holds more written bytes than others, or very many. */
  lemma PushCompacts(s: Writer, input: seq<byte>)
    requires s.written <= |s.buffer| && input != []
    requires Waiting(s) != [] || |input| <= s.flushSize
    requires |Waiting(s)| + |input| < 1_000_000
    ensures var t := Push(s, input).0;
      if s.written <= |s.buffer| / 2 && |s.buffer| <= 10_000_000
      then t.buffer == s.buffer + input && t.written == s.written
      else t.buffer == Waiting(s) + input && t.written == 0
  {
    hide FlushInput, Flush;
  }
}
