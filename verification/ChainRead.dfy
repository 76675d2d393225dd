/**
 Reading through a lazily compacted buffer (src/chain-io/read.c). What a consumer sees must be
 the source's bytes, in order, from the first one it has not released.
 */
module ChainRead {
  import opened Bytes

  datatype Status = Error | Incomplete | Complete

  /** One call of the source's update function: the bytes it appends and the status it returns. */
  datatype Answer = Answer(bytes: seq<byte>, status: Status)

  const LARGE := 10_000_000

  /**
   The handle, and beside it what the model keeps of the world: `answers`, how the source will
   answer (complete once they are used up), and `produced`, all it has appended so far.
   */
  datatype State = State(
    buffer: seq<byte>,
    released: nat,
    isError: bool,
    isComplete: bool,
    freshRead: bool,
    answers: seq<Answer>,
    produced: seq<byte>)

  // ---------------------------------------------------------------------------
  // What the operations compute

  /** The first unreleased byte's offset in the stream; it may not have been produced yet. */
  function Offset(s: State): nat
    requires |s.buffer| <= |s.produced|
  {
    |s.produced| - |s.buffer| + s.released
  }

  /** The buffer is the end of what was produced. */
  ghost predicate Valid(s: State) {
    |s.buffer| <= |s.produced| && s.buffer == s.produced[|s.produced| - |s.buffer|..]
  }

  /** Released bytes leave the buffer when all of it, or more than half, or a very large one is due. */
  function ApplyRelease(s: State): State {
    if s.released == 0 then s
    else if s.released >= |s.buffer| then s.(buffer := [], released := s.released - |s.buffer|)
    else if s.released > |s.buffer| / 2 || |s.buffer| > LARGE then
      s.(buffer := s.buffer[s.released..], released := 0)
    else s
  }

  function Release(s: State, size: nat): State {
    s.(released := s.released + size, freshRead := s.freshRead || size > 0)
  }

  /** The source is called once. */
  function Update(s: State): (State, Status) {
    if s.answers == [] then (s, Complete)
    else
      var a := s.answers[0];
      (s.(buffer := s.buffer + a.bytes, produced := s.produced + a.bytes, answers := s.answers[1..]), a.status)
  }

  /** The source is called until it ends, fails or fills the buffer beyond `maxSize`. */
  function Fill(s: State, maxSize: nat): (State, Status)
    decreases |s.answers|
  {
    var (t, status) := Update(s);
    if status != Incomplete || maxSize < |t.buffer| then (t, status) else Fill(t, maxSize)
  }

  function Start(s: State, targetSize: nat): nat {
    if |s.buffer| < targetSize then targetSize else |s.buffer| + targetSize
  }

  /** Enough is cached and something was released since the last read. */
  predicate Cached(s: State, targetSize: nat) {
    s.freshRead && targetSize + s.released <= |s.buffer|
  }

  function View(s: State): seq<byte> {
    if s.released <= |s.buffer| then s.buffer[s.released..] else []
  }

  /** `chain_pull`: the new state, and the view if the call returns true. */
  function Pull(s: State, targetSize: nat): (State, Option<seq<byte>>) {
    var t := ApplyRelease(s);
    if t.isComplete then (t, None)
    else
      var u := t.(freshRead := false);
      if Cached(t, targetSize) then (u, Some(View(u)))
      else
        var (v, status) := Fill(u, Start(u, targetSize));
        match status
        case Error => (v.(isError := true), None)
        case Incomplete => (v, Some(View(v)))
        case Complete => (v.(isComplete := true), Some(View(v)))
  }

  // ---------------------------------------------------------------------------
  // The code

  class Chain {
    var buffer: seq<byte>
    var released: nat
    var isError: bool
    var isComplete: bool
    var freshRead: bool
    var answers: seq<Answer>
    ghost var produced: seq<byte>

    ghost function Now(): State
      reads this
    {
      State(buffer, released, isError, isComplete, freshRead, answers, produced)
    }

    /** `chain_read_new`. */
    constructor (answers: seq<Answer>)
      ensures Now() == State([], 0, false, false, false, answers, [])
    {
      this.answers := answers;
      buffer, released, isError, isComplete, freshRead, produced := [], 0, false, false, false, [];
    }

    /** `chain_read_apply_release`. */
    method RunApplyRelease()
      modifies this
      ensures Now() == ApplyRelease(old(Now()))
    {
      if released == 0 { return; }
      var bufferSize := |buffer|;
      if released >= bufferSize {
        buffer := [];
        released := released - bufferSize;
      } else if released > bufferSize / 2 || bufferSize > LARGE {
        buffer := buffer[released..];
        released := 0;
      }
    }

    /** The update function stored in the interface. */
    method CallUpdate() returns (status: Status)
      modifies this
      ensures (Now(), status) == Update(old(Now()))
    {
      if answers == [] { return Complete; }
      var a := answers[0];
      answers := answers[1..];
      buffer := buffer + a.bytes;
      produced := produced + a.bytes;
      return a.status;
    }

    /** The loop of `chain_pull`. */
    method RunFill(maxSize: nat) returns (status: Status)
      modifies this
      ensures (Now(), status) == Fill(old(Now()), maxSize)
    {
      hide Update;
      UpdateUsesAnswer(Now());
      status := CallUpdate();
      while status == Incomplete && !(maxSize < |buffer|)
        invariant Fill(old(Now()), maxSize) ==
                  if status == Incomplete && !(maxSize < |buffer|) then Fill(Now(), maxSize) else (Now(), status)
        decreases |answers|, if status == Incomplete then 1 else 0
      {
        UpdateUsesAnswer(Now());
        status := CallUpdate();
      }
    }

    /** `chain_pull`. */
    method RunPull(targetSize: nat) returns (ok: bool, contents: seq<byte>)
      modifies this
      ensures var (s, view) := Pull(old(Now()), targetSize);
        Now() == s && ok == view.Some? && (ok ==> contents == view.value)
    {
      hide Fill, ApplyRelease;
      contents := [];
      RunApplyRelease();
      if isComplete { return false, contents; }
      var cached := freshRead && targetSize + released <= |buffer|;
      if freshRead { freshRead := false; }
      if !cached {
        var startSize := |buffer|;
        var maxSize := if startSize < targetSize then targetSize else startSize + targetSize;
        var status := RunFill(maxSize);
        if status == Error {
          isError := true;
          return false, contents;
        }
        if status == Complete { isComplete := true; }
      }
      return true, if released <= |buffer| then buffer[released..] else [];
    }

    /** `chain_release`. */
    method RunRelease(size: nat)
      modifies this
      ensures Now() == Release(old(Now()), size)
    {
      released := released + size;
      if size > 0 { freshRead := true; }
    }
  }

  lemma UpdateUsesAnswer(s: State)
    ensures var (t, status) := Update(s);
      |t.answers| <= |s.answers| && (status == Complete || |t.answers| < |s.answers|)
  {
  }

  // ---------------------------------------------------------------------------
  // Each operation keeps the stream

  lemma ApplyReleaseKeeps(s: State)
    requires Valid(s)
    ensures var t := ApplyRelease(s);
      Valid(t) && t.produced == s.produced && Offset(t) == Offset(s)
  {
    var t := ApplyRelease(s);
    if s.released > 0 && s.released < |s.buffer| && t.released == 0 {
      assert s.buffer[s.released..] == s.produced[|s.produced| - |s.buffer| + s.released..];
    }
  }

  lemma {:induction false} FillKeeps(s: State, maxSize: nat)
    requires Valid(s)
    ensures var t := Fill(s, maxSize).0;
      Valid(t) && s.produced <= t.produced && Offset(t) == Offset(s)
    decreases |s.answers|
  {
    var (t, status) := Update(s);
    if s.answers != [] {
      var more := s.answers[0].bytes;
      assert (s.produced + more)[|s.produced| - |s.buffer|..] == s.buffer + more;
      if status == Incomplete && !(maxSize < |t.buffer|) { FillKeeps(t, maxSize); }
    }
  }

  /** From the first unreleased byte on: empty while that byte has not been produced. */
  function Unreleased(s: State): seq<byte>
    requires |s.buffer| <= |s.produced|
  {
    if Offset(s) <= |s.produced| then s.produced[Offset(s)..] else []
  }

  lemma ViewIsUnreleased(s: State)
    requires Valid(s)
    ensures View(s) == Unreleased(s)
  {
  }

  /** The flags and the source's plans do not matter for the stream. */
  lemma FlagsDoNotMatter(s: State, t: State)
    requires Valid(s)
    requires t.buffer == s.buffer && t.produced == s.produced && t.released == s.released
    ensures Valid(t) && Offset(t) == Offset(s) && View(t) == View(s) == Unreleased(s) == Unreleased(t)
  {
    ViewIsUnreleased(s);
  }

  /** Every successful pull shows exactly the unreleased end of the stream. */
  lemma PullShowsStream(s: State, targetSize: nat)
    requires Valid(s)
    ensures var (t, view) := Pull(s, targetSize);
      && Valid(t) && s.produced <= t.produced && Offset(t) == Offset(s)
      && (view.Some? ==> view.value == Unreleased(t))
  {
    ApplyReleaseKeeps(s);
    var r := ApplyRelease(s);
    var u := r.(freshRead := false);
    FlagsDoNotMatter(r, u);
    var v := Fill(u, Start(u, targetSize)).0;
    FillKeeps(u, Start(u, targetSize));
    FlagsDoNotMatter(v, v.(isError := true));
    FlagsDoNotMatter(v, v.(isComplete := true));
    hide Fill, ApplyRelease, View, Unreleased, Valid, Start, Cached;
  }

  // ---------------------------------------------------------------------------
  // Whole runs

  datatype Operation = DoPull(targetSize: nat) | DoRelease(size: nat)

  function Do(s: State, op: Operation): State {
    match op
    case DoPull(targetSize) => Pull(s, targetSize).0
    case DoRelease(size) => Release(s, size)
  }

  function Run(s: State, ops: seq<Operation>): State
    decreases |ops|
  {
    if ops == [] then s else Run(Do(s, ops[0]), ops[1..])
  }

  function TotalReleased(ops: seq<Operation>): nat {
    if ops == [] then 0
    else (if ops[0].DoRelease? then ops[0].size else 0) + TotalReleased(ops[1..])
  }

  lemma {:induction false} RunKeeps(s: State, ops: seq<Operation>)
    requires Valid(s)
    ensures var t := Run(s, ops);
      Valid(t) && s.produced <= t.produced && Offset(t) == Offset(s) + TotalReleased(ops)
    decreases |ops|
  {
    hide Pull;
    if ops != [] {
      if ops[0].DoPull? { PullShowsStream(s, ops[0].targetSize); }
      RunKeeps(Do(s, ops[0]), ops[1..]);
    }
  }

  /**
   After any interleaving of pulls and releases, over-releases included, a successful pull shows
   the produced bytes from the total released on, and nothing while that many have not come yet.
   */
  lemma PullAfterAnyRun(answers: seq<Answer>, ops: seq<Operation>, targetSize: nat)
    ensures var s := Run(State([], 0, false, false, false, answers, []), ops);
      var (t, view) := Pull(s, targetSize);
      var n := TotalReleased(ops);
      view.Some? ==> view.value == if n <= |t.produced| then t.produced[n..] else []
  {
    hide Run, Pull;
    var start := State([], 0, false, false, false, answers, []);
    RunKeeps(start, ops);
    PullShowsStream(Run(start, ops), targetSize);
  }

  /** What a consumer takes: after each successful pull, the first `take` bytes of the view. */
  datatype Visit = Visit(targetSize: nat, take: nat)

  function Taken(view: Option<seq<byte>>, take: nat): seq<byte> {
    if view.None? then [] else if take <= |view.value| then view.value[..take] else view.value
  }

  function Consume(s: State, visits: seq<Visit>): (State, seq<byte>)
    decreases |visits|
  {
    if visits == [] then (s, [])
    else
      var (t, view) := Pull(s, visits[0].targetSize);
      var taken := Taken(view, visits[0].take);
      var (u, rest) := Consume(Release(t, |taken|), visits[1..]);
      (u, taken + rest)
  }

  /** A consumer that releases what it takes sees every byte once, in order, whatever it takes. */
  lemma {:induction false} NothingLostOrRepeated(s: State, visits: seq<Visit>)
    requires Valid(s) && Offset(s) <= |s.produced|
    ensures var (t, taken) := Consume(s, visits);
      && Valid(t) && Offset(t) == Offset(s) + |taken| <= |t.produced|
      && taken == t.produced[Offset(s)..Offset(t)]
      && s.produced <= t.produced
    decreases |visits|
  {
    hide Pull;
    if visits != [] {
      var (t, view) := Pull(s, visits[0].targetSize);
      PullShowsStream(s, visits[0].targetSize);
      var taken := Taken(view, visits[0].take);
      var u := Release(t, |taken|);
      TakenIsNext(s, t, view, visits[0].take);
      hide Taken, Release, Valid;
      NothingLostOrRepeated(u, visits[1..]);
      var v := Consume(u, visits[1..]).0;
      Slices(t.produced, v.produced, Offset(s), Offset(u), Offset(v));
    }
  }

  lemma TakenIsNext(s: State, t: State, view: Option<seq<byte>>, take: nat)
    requires Valid(s) && Valid(t) && Offset(s) == Offset(t) <= |t.produced|
    requires view.Some? ==> view.value == Unreleased(t)
    ensures var taken := Taken(view, take);
      var u := Release(t, |taken|);
      && Valid(u) && u.produced == t.produced && Offset(u) == Offset(s) + |taken| <= |u.produced|
      && taken == t.produced[Offset(s)..Offset(u)]
  {
    var taken := Taken(view, take);
    var u := Release(t, |taken|);
    var o := Offset(t);
    assert Valid(u);
    assert Offset(u) == o + |taken|;
    hide Valid;
    if view.Some? {
      assert taken == t.produced[o..][..|taken|];
    }
  }

  lemma Slices(p: seq<byte>, q: seq<byte>, i: nat, j: nat, k: nat)
    requires p <= q && i <= j <= |p| && j <= k <= |q|
    ensures p[i..j] + q[j..k] == q[i..k]
  {
    assert p == q[..|p|];
  }

  /**
   The end of the source is reported once: after the pull that met it, every pull fails, whatever
   is still unreleased. A consumer has to take everything from that last view.
   */
  lemma {:induction false} CompletionIsFinal(s: State, ops: seq<Operation>, targetSize: nat)
    requires s.isComplete
    ensures Pull(Run(s, ops), targetSize).1.None?
    decreases |ops|
  {
    if ops != [] { CompletionIsFinal(Do(s, ops[0]), ops[1..], targetSize); }
  }

  // ---------------------------------------------------------------------------
  // Reading on

  /** All bytes the source brings with these answers. */
  function Brought(answers: seq<Answer>): seq<byte> {
    if answers == [] then [] else answers[0].bytes + Brought(answers[1..])
  }

  /** After these answers the source is asked no more: it ended, failed or filled the buffer. */
  predicate Enough(answers: seq<Answer>, size: nat, maxSize: nat) {
    answers != [] &&
    (!answers[|answers| - 1].status.Incomplete? || maxSize < size + |Brought(answers)|)
  }

  /** How many answers a read uses: the fewest that are enough, or all of them. */
  ghost predicate ReadsOn(answers: seq<Answer>, size: nat, maxSize: nat, k: nat) {
    && k <= |answers|
    && (forall i :: 0 <= i < k ==> !Enough(answers[..i], size, maxSize))
    && (k < |answers| ==> Enough(answers[..k], size, maxSize))
  }

  /** The status a read ends with; a source that has no answers left is complete. */
  function Ended(answers: seq<Answer>, size: nat, maxSize: nat, k: nat): Status
    requires k <= |answers|
  {
    if Enough(answers[..k], size, maxSize) then answers[k - 1].status else Complete
  }

  lemma EnoughLater(answers: seq<Answer>, size: nat, maxSize: nat, i: nat)
    requires 0 < i < |answers| && !Enough(answers[..1], size, maxSize)
    ensures Enough(answers[..i + 1], size, maxSize)
       <==> Enough(answers[1..][..i], size + |answers[0].bytes|, maxSize)
    ensures Brought(answers[..i + 1]) == answers[0].bytes + Brought(answers[1..][..i])
  {
    assert answers[..i + 1][1..] == answers[1..][..i];
  }

  lemma OneAnswer(answers: seq<Answer>, size: nat, maxSize: nat)
    requires answers != []
    ensures Brought(answers[..1]) == answers[0].bytes
    ensures Enough(answers[..1], size, maxSize)
       <==> !answers[0].status.Incomplete? || maxSize < size + |answers[0].bytes|
    ensures !Enough([], size, maxSize)
  {
    assert answers[..1][1..] == [];
    assert answers[0].bytes + [] == answers[0].bytes;
  }

  /** The loop asks the source until it is enough, and keeps all it brings. */
  lemma {:induction false} FillReadsOn(s: State, maxSize: nat) returns (k: nat)
    ensures ReadsOn(s.answers, |s.buffer|, maxSize, k)
    ensures var (t, status) := Fill(s, maxSize);
      && status == Ended(s.answers, |s.buffer|, maxSize, k)
      && t == s.(buffer := s.buffer + Brought(s.answers[..k]), answers := s.answers[k..],
                 produced := s.produced + Brought(s.answers[..k]))
    decreases |s.answers|
  {
    if s.answers == [] {
      k := 0;
      assert s.buffer + [] == s.buffer && s.produced + [] == s.produced;
    } else {
      var a, size := s.answers, |s.buffer|;
      OneAnswer(a, size, maxSize);
      var t := Update(s).0;
      if Enough(a[..1], size, maxSize) {
        k := 1;
        assert a[..0] == [];
      } else {
        var n := FillReadsOn(t, maxSize);
        k := n + 1;
        LaterReads(a, size, maxSize, n);
        Associative(s.buffer, a[0].bytes, Brought(a[1..][..n]));
        Associative(s.produced, a[0].bytes, Brought(a[1..][..n]));
      }
    }
  }

  lemma LaterReads(a: seq<Answer>, size: nat, maxSize: nat, n: nat)
    requires a != [] && !Enough(a[..1], size, maxSize)
    requires ReadsOn(a[1..], size + |a[0].bytes|, maxSize, n)
    ensures ReadsOn(a, size, maxSize, n + 1)
    ensures Ended(a, size, maxSize, n + 1) == Ended(a[1..], size + |a[0].bytes|, maxSize, n)
    ensures Brought(a[..n + 1]) == a[0].bytes + Brought(a[1..][..n])
  {
    var b, later := a[1..], size + |a[0].bytes|;
    OneAnswer(a, size, maxSize);
    assert a[..0] == [] && b[..0] == [];
    forall i | 0 <= i < n + 1 ensures !Enough(a[..i], size, maxSize) {
      if i >= 2 { EnoughLater(a, size, maxSize, i - 1); }
    }
    if n > 0 { EnoughLater(a, size, maxSize, n); }
    hide Enough, Brought;
  }

  /** The buffer when a pull begins to read: nothing released is kept for long. */
  lemma ReleaseDropsMost(s: State)
    ensures var t := ApplyRelease(s);
      && (t.buffer == [] || t.released <= |t.buffer| / 2)
      && (t.released > 0 ==> |t.buffer| <= 10_000_000)
      && (s.released <= |s.buffer| / 2 && |s.buffer| <= 10_000_000 && s.buffer != [] ==> t == s)
  {
  }

  /**
   A pull. It fails at once when the end was already met. It shows what is cached only after a
   release, and only if the wanted size is there; otherwise it asks the source until that ended,
   failed, or brought the buffer beyond the wanted size or grew it by more than that.
   */
  lemma PullReadsOn(s: State, targetSize: nat) returns (k: nat)
    ensures var start := ApplyRelease(s);
      var (t, view) := Pull(s, targetSize);
      if s.isComplete then view == None && t == start && k == 0
      else if s.freshRead && targetSize + start.released <= |start.buffer| then
        view.Some? && t == start.(freshRead := false) && k == 0
      else
        var size := |start.buffer|;
        var maxSize := if size < targetSize then targetSize else size + targetSize;
        && k <= |s.answers| && ReadsOn(s.answers, size, maxSize, k)
        && var status := Ended(s.answers, size, maxSize, k);
        && t.answers == s.answers[k..]
        && t.buffer == start.buffer + Brought(s.answers[..k])
        && t.produced == s.produced + Brought(s.answers[..k])
        && !t.freshRead && t.isComplete == status.Complete?
        && view.Some? == !status.Error?
        && t.isError == (s.isError || status.Error?)
  {
    hide Brought, Enough, ReadsOn, Fill;
    var u := ApplyRelease(s).(freshRead := false);
    if s.isComplete || Cached(ApplyRelease(s), targetSize) {
      k := 0;
    } else {
      k := FillReadsOn(u, Start(u, targetSize));
    }
  }

  /** After a release, a pull of no more than is cached does not ask the source. */
  lemma PullAfterRelease(s: State, size: nat, targetSize: nat)
    requires size > 0 && !s.isComplete && s.released + size + targetSize <= |s.buffer|
    ensures var (t, view) := Pull(Release(s, size), targetSize);
      t.answers == s.answers && t.produced == s.produced && view == Some(s.buffer[s.released + size..])
  {
    var r := Release(s, size);
    var t := ApplyRelease(r);
    assert t.buffer[t.released..] == s.buffer[s.released + size..];
  }

  /** A pull right after a pull always does, unless the end was met. */
  lemma PullAfterPull(s: State, first: nat, second: nat)
    requires !s.isComplete
    ensures var t := Pull(s, first).0;
      !t.isComplete && t.answers != [] ==> |Pull(t, second).0.answers| < |t.answers|
  {
    hide Fill;
    var a := PullReadsOn(s, first);
    var t := Pull(s, first).0;
    if !t.isComplete && t.answers != [] {
      var b := PullReadsOn(t, second);
      assert ApplyRelease(t).answers == t.answers;
      assert t.answers[..0] == [];
    }
  }
}
