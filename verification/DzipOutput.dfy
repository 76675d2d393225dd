/**
 The buffer `dzip_deflate` appends to (src/dzip/deflate/deflate.c). It is a true append exactly
 while every chunk starts below 2^32 bytes; beyond that the encoder cuts off what it had written.
 */
module DzipOutput {
  import opened Bytes
  import opened DzipFormat
  import opened DzipDeflate
  import opened DzipRoundTrip

  // ---------------------------------------------------------------------------
  // One call

  /** Every chunk of the call starts where the output holds fewer than 2^32 bytes. */
  predicate StartsBelow(size: nat, input: seq<byte>, recent: seq<uint32>)
    requires |recent| == RECENT_SIZE
    decreases |input|
  {
    input == [] ||
    var k := FirstCut(input);
    && size < TWO32
    && StartsBelow(size + |ChunkBytes(input[..k], recent)|, input[k..], ChunkRecent(input[..k], recent))
  }

  lemma KeptLength(out: seq<byte>)
    ensures if |out| < TWO32 then Kept(out) == out else |Kept(out)| < |out|
  {
    if |out| < TWO32 { assert out[..|out|] == out; }
  }

  /** The output never gets longer than an append, and shorter when a chunk starts too late. */
  lemma {:induction false} IntoLength(out: seq<byte>, input: seq<byte>, recent: seq<uint32>)
    requires |recent| == RECENT_SIZE
    ensures |DeflateInto(out, input, recent)| <= |out| + |DeflateBytes(input, recent)|
    ensures !StartsBelow(|out|, input, recent) ==>
              |DeflateInto(out, input, recent)| < |out| + |DeflateBytes(input, recent)|
    decreases |input|
  {
    hide Kept, ChunkBytes, ChunkRecent;
    if input != [] {
      var k := FirstCut(input);
      KeptLength(out);
      IntoLength(Kept(out) + ChunkBytes(input[..k], recent), input[k..], ChunkRecent(input[..k], recent));
    }
  }

  lemma {:induction false} IntoAppends(out: seq<byte>, input: seq<byte>, recent: seq<uint32>)
    requires |recent| == RECENT_SIZE && StartsBelow(|out|, input, recent)
    ensures DeflateInto(out, input, recent) == out + DeflateBytes(input, recent)
    decreases |input|
  {
    hide Kept, ChunkBytes, ChunkRecent;
    if input == [] {
      assert out + [] == out;
    } else {
      var k := FirstCut(input);
      var chunk, table := ChunkBytes(input[..k], recent), ChunkRecent(input[..k], recent);
      KeptLength(out);
      IntoAppends(out + chunk, input[k..], table);
      Associative(out, chunk, DeflateBytes(input[k..], table));
    }
  }

  /** A call appends what it should if and only if every chunk starts below 2^32 bytes. */
  lemma AppendsIffStartsBelow(out: seq<byte>, input: seq<byte>, recent: seq<uint32>)
    requires |recent| == RECENT_SIZE
    ensures DeflateInto(out, input, recent) == out + DeflateBytes(input, recent)
       <==> StartsBelow(|out|, input, recent)
  {
    hide DeflateInto, DeflateBytes;
    if StartsBelow(|out|, input, recent) {
      IntoAppends(out, input, recent);
    } else {
      IntoLength(out, input, recent);
    }
  }

  /** Nothing is lost while the whole output stays within 2^32 bytes. */
  lemma {:induction false} SmallOutputStartsBelow(size: nat, input: seq<byte>, recent: seq<uint32>)
    requires |recent| == RECENT_SIZE && size + |DeflateBytes(input, recent)| <= TWO32
    ensures StartsBelow(size, input, recent)
    decreases |input|
  {
    hide EncodeAll, ChunkCommands, ChunkRecent;
    if input != [] {
      var k := FirstCut(input);
      var chunk := ChunkBytes(input[..k], recent);
      assert |chunk| >= HEADER_SIZE;
      SmallOutputStartsBelow(size + |chunk|, input[k..], ChunkRecent(input[..k], recent));
    }
  }

  // ---------------------------------------------------------------------------
  // Successive calls on one state

  /** The table after the calls. */
  function CallsRecent(inputs: seq<seq<byte>>, recent: seq<uint32>): (r: seq<uint32>)
    requires |recent| == RECENT_SIZE
    ensures |r| == RECENT_SIZE
    decreases |inputs|
  {
    if inputs == [] then recent else CallsRecent(inputs[1..], DeflateRecent(inputs[0], recent))
  }

  /** The bytes they are to write. */
  function DeflateCalls(inputs: seq<seq<byte>>, recent: seq<uint32>): seq<byte>
    requires |recent| == RECENT_SIZE
    decreases |inputs|
  {
    if inputs == [] then []
    else DeflateBytes(inputs[0], recent) + DeflateCalls(inputs[1..], DeflateRecent(inputs[0], recent))
  }

  /** What they make of one output buffer. */
  function CallsInto(out: seq<byte>, inputs: seq<seq<byte>>, recent: seq<uint32>): seq<byte>
    requires |recent| == RECENT_SIZE
    decreases |inputs|
  {
    if inputs == [] then out
    else CallsInto(DeflateInto(out, inputs[0], recent), inputs[1..], DeflateRecent(inputs[0], recent))
  }

  predicate CallsStartBelow(size: nat, inputs: seq<seq<byte>>, recent: seq<uint32>)
    requires |recent| == RECENT_SIZE
    decreases |inputs|
  {
    inputs == [] ||
    (StartsBelow(size, inputs[0], recent) &&
     CallsStartBelow(size + |DeflateBytes(inputs[0], recent)|, inputs[1..], DeflateRecent(inputs[0], recent)))
  }

  lemma {:induction false} CallsIntoLength(out: seq<byte>, inputs: seq<seq<byte>>, recent: seq<uint32>)
    requires |recent| == RECENT_SIZE
    ensures |CallsInto(out, inputs, recent)| <= |out| + |DeflateCalls(inputs, recent)|
    ensures !CallsStartBelow(|out|, inputs, recent) ==>
              |CallsInto(out, inputs, recent)| < |out| + |DeflateCalls(inputs, recent)|
    decreases |inputs|
  {
    hide StartsBelow, DeflateInto, DeflateBytes, DeflateRecent;
    if inputs != [] {
      var next, table := DeflateInto(out, inputs[0], recent), DeflateRecent(inputs[0], recent);
      IntoLength(out, inputs[0], recent);
      if StartsBelow(|out|, inputs[0], recent) { IntoAppends(out, inputs[0], recent); }
      CallsIntoLength(next, inputs[1..], table);
    }
  }

  lemma {:induction false} CallsIntoAppends(out: seq<byte>, inputs: seq<seq<byte>>, recent: seq<uint32>)
    requires |recent| == RECENT_SIZE && CallsStartBelow(|out|, inputs, recent)
    ensures CallsInto(out, inputs, recent) == out + DeflateCalls(inputs, recent)
    decreases |inputs|
  {
    hide StartsBelow, DeflateInto, DeflateBytes, DeflateRecent;
    if inputs == [] {
      assert out + [] == out;
    } else {
      var bytes, table := DeflateBytes(inputs[0], recent), DeflateRecent(inputs[0], recent);
      IntoAppends(out, inputs[0], recent);
      CallsIntoAppends(out + bytes, inputs[1..], table);
      Associative(out, bytes, DeflateCalls(inputs[1..], table));
    }
  }

  lemma {:induction false} SmallCallsStartBelow(size: nat, inputs: seq<seq<byte>>, recent: seq<uint32>)
    requires |recent| == RECENT_SIZE && size + |DeflateCalls(inputs, recent)| <= TWO32
    ensures CallsStartBelow(size, inputs, recent)
    decreases |inputs|
  {
    hide StartsBelow, DeflateBytes, DeflateRecent;
    if inputs != [] {
      SmallOutputStartsBelow(size, inputs[0], recent);
      SmallCallsStartBelow(size + |DeflateBytes(inputs[0], recent)|, inputs[1..], DeflateRecent(inputs[0], recent));
    }
  }

  // ---------------------------------------------------------------------------
  // Several buffers

  /**
   A run that empties its output buffer now and then: each group is the calls into one buffer
   that starts empty, and what the run writes is the buffers one after the other.
   */
  function Written(groups: seq<seq<seq<byte>>>, recent: seq<uint32>): seq<byte>
    requires |recent| == RECENT_SIZE
    decreases |groups|
  {
    if groups == [] then []
    else CallsInto([], groups[0], recent) + Written(groups[1..], CallsRecent(groups[0], recent))
  }

  /** No buffer is appended to once it holds 2^32 bytes. */
  predicate BuffersStayBelow(groups: seq<seq<seq<byte>>>, recent: seq<uint32>)
    requires |recent| == RECENT_SIZE
    decreases |groups|
  {
    groups == [] ||
    (CallsStartBelow(0, groups[0], recent) && BuffersStayBelow(groups[1..], CallsRecent(groups[0], recent)))
  }

  lemma {:induction false} CallsConcat(a: seq<seq<byte>>, b: seq<seq<byte>>, recent: seq<uint32>)
    requires |recent| == RECENT_SIZE
    ensures DeflateCalls(a + b, recent) == DeflateCalls(a, recent) + DeflateCalls(b, CallsRecent(a, recent))
    decreases |a|
  {
    hide DeflateBytes, DeflateRecent;
    if a == [] {
      assert a + b == b;
    } else {
      var table := DeflateRecent(a[0], recent);
      assert (a + b)[1..] == a[1..] + b;
      CallsConcat(a[1..], b, table);
      Associative(DeflateBytes(a[0], recent), DeflateCalls(a[1..], table), DeflateCalls(b, CallsRecent(a, recent)));
    }
  }

  lemma {:induction false} WrittenLength(groups: seq<seq<seq<byte>>>, recent: seq<uint32>)
    requires |recent| == RECENT_SIZE
    ensures |Written(groups, recent)| <= |DeflateCalls(Concat(groups), recent)|
    ensures !BuffersStayBelow(groups, recent) ==> |Written(groups, recent)| < |DeflateCalls(Concat(groups), recent)|
    decreases |groups|
  {
    hide CallsInto, CallsStartBelow, DeflateCalls, CallsRecent;
    if groups != [] {
      var table := CallsRecent(groups[0], recent);
      CallsIntoLength([], groups[0], recent);
      WrittenLength(groups[1..], table);
      CallsConcat(groups[0], Concat(groups[1..]), recent);
    }
  }

  lemma {:induction false} WrittenIsAll(groups: seq<seq<seq<byte>>>, recent: seq<uint32>)
    requires |recent| == RECENT_SIZE && BuffersStayBelow(groups, recent)
    ensures Written(groups, recent) == DeflateCalls(Concat(groups), recent)
    decreases |groups|
  {
    hide CallsInto, CallsStartBelow, CallsRecent, DeflateBytes;
    if groups != [] {
      var table := CallsRecent(groups[0], recent);
      CallsIntoAppends([], groups[0], recent);
      WrittenIsAll(groups[1..], table);
      CallsConcat(groups[0], Concat(groups[1..]), recent);
      assert [] + DeflateCalls(groups[0], recent) == DeflateCalls(groups[0], recent);
    }
  }

  /** A run writes all it should if and only if no buffer is appended to from 2^32 bytes on. */
  lemma WrittenIffBelow(groups: seq<seq<seq<byte>>>, recent: seq<uint32>)
    requires |recent| == RECENT_SIZE
    ensures Written(groups, recent) == DeflateCalls(Concat(groups), recent) <==> BuffersStayBelow(groups, recent)
  {
    hide Written, DeflateCalls, BuffersStayBelow;
    if BuffersStayBelow(groups, recent) {
      WrittenIsAll(groups, recent);
    } else {
      WrittenLength(groups, recent);
    }
  }

  // ---------------------------------------------------------------------------
  // From the lengths of the inputs alone

  /** At most so many bytes are written for one input. */
  function Budget(n: nat): nat {
    n + n / 32 + 17 * Max(1, n / 1_000_000)
  }

  function TotalBudget(inputs: seq<seq<byte>>): nat {
    if inputs == [] then 0 else Budget(|inputs[0]|) + TotalBudget(inputs[1..])
  }

  predicate BuffersAreSmall(groups: seq<seq<seq<byte>>>) {
    forall g :: 0 <= g < |groups| ==> TotalBudget(groups[g]) <= TWO32
  }

  lemma {:induction false} CallsBound(inputs: seq<seq<byte>>, recent: seq<uint32>)
    requires |recent| == RECENT_SIZE
    ensures |DeflateCalls(inputs, recent)| <= TotalBudget(inputs)
    decreases |inputs|
  {
    hide DeflateBytes, DeflateRecent, Budget;
    if inputs != [] {
      BudgetHolds(inputs[0], recent);
      CallsBound(inputs[1..], DeflateRecent(inputs[0], recent));
    }
  }

  lemma BudgetHolds(input: seq<byte>, recent: seq<uint32>)
    requires |recent| == RECENT_SIZE
    ensures |DeflateBytes(input, recent)| <= Budget(|input|)
  {
    DeflateBound(input, recent);
  }

  lemma {:induction false} SmallBuffersStayBelow(groups: seq<seq<seq<byte>>>, recent: seq<uint32>)
    requires |recent| == RECENT_SIZE && BuffersAreSmall(groups)
    ensures BuffersStayBelow(groups, recent)
    decreases |groups|
  {
    hide CallsStartBelow, CallsRecent, DeflateCalls;
    if groups != [] {
      CallsBound(groups[0], recent);
      SmallCallsStartBelow(0, groups[0], recent);
      SmallBuffersStayBelow(groups[1..], CallsRecent(groups[0], recent));
    }
  }

  // ---------------------------------------------------------------------------
  // What is lost

  /** A chunk started at exactly 2^32 bytes is all that remains of the output. */
  lemma ChunkAloneRemains(out: seq<byte>, input: seq<byte>, recent: seq<uint32>)
    requires |recent| == RECENT_SIZE && |out| == TWO32 && 1 <= |input| <= 2 * MAX_CHUNK
    ensures DeflateInto(out, input, recent) == ChunkBytes(input, recent)
  {
    hide ChunkBytes, ChunkRecent;
    var k := FirstCut(input);
    assert input[..k] == input && input[k..] == [];
    assert Kept(out) == [] && [] + ChunkBytes(input, recent) == ChunkBytes(input, recent);
  }

  /** Inputs of at most eight bytes: a header and one literal, and the table is not touched. */
  lemma TinyChunk(input: seq<byte>, recent: seq<uint32>)
    requires |recent| == RECENT_SIZE && 1 <= |input| <= WINDOW_START
    ensures |ChunkBytes(input, recent)| == HEADER_SIZE + 1 + |input| && ChunkRecent(input, recent) == recent
  {
    hide Header;
    var c := Literal(input[0..|input|]);
    assert [] + [c] == [c] && [c][1..] == [];
    assert ChunkCommands(input, recent) == [c];
    assert EncodeAll([c]) == EncodeCommand(c) + [];
  }

  lemma TinyCall(input: seq<byte>, recent: seq<uint32>)
    requires |recent| == RECENT_SIZE && 1 <= |input| <= WINDOW_START
    ensures |DeflateBytes(input, recent)| == HEADER_SIZE + 1 + |input| && DeflateRecent(input, recent) == recent
  {
    hide ChunkBytes, ChunkRecent;
    var k := FirstCut(input);
    assert input[..k] == input && input[k..] == [];
    assert DeflateBytes([], recent) == [];
    TinyChunk(input, recent);
  }

  function Times(n: nat, input: seq<byte>): seq<seq<byte>> {
    seq(n, i => input)
  }

  lemma OnceMore(n: nat, input: seq<byte>)
    requires n > 0
    ensures Times(n, input) == [input] + Times(n - 1, input)
  {
  }

  lemma {:induction false} TinyCalls(n: nat, input: seq<byte>, recent: seq<uint32>)
    requires |recent| == RECENT_SIZE && 1 <= |input| <= WINDOW_START
    ensures |DeflateCalls(Times(n, input), recent)| == n * (HEADER_SIZE + 1 + |input|)
    ensures CallsRecent(Times(n, input), recent) == recent
    decreases n
  {
    hide DeflateBytes, DeflateRecent;
    if n > 0 {
      OnceMore(n, input);
      assert Times(n, input)[1..] == Times(n - 1, input);
      TinyCall(input, recent);
      TinyCalls(n - 1, input, recent);
    }
  }

  /** Calls with one zero byte and four with two that together write exactly 2^32 bytes. */
  function FillingCalls(): seq<seq<byte>> {
    Times(238_609_290, [0]) + Times(4, [0, 0])
  }

  lemma {:induction false} CallsIntoSnoc(out: seq<byte>, inputs: seq<seq<byte>>, last: seq<byte>, recent: seq<uint32>)
    requires |recent| == RECENT_SIZE
    ensures CallsInto(out, inputs + [last], recent)
         == DeflateInto(CallsInto(out, inputs, recent), last, CallsRecent(inputs, recent))
    decreases |inputs|
  {
    hide DeflateInto, DeflateRecent;
    if inputs == [] {
      assert ([] + [last])[1..] == [];
    } else {
      assert (inputs + [last])[1..] == inputs[1..] + [last];
      CallsIntoSnoc(DeflateInto(out, inputs[0], recent), inputs[1..], last, DeflateRecent(inputs[0], recent));
    }
  }

  /**
   The buffer does lose what was written: after the filling calls into one buffer, the next call
   leaves only its own chunk there.
   */
  lemma BufferWrapIsReal(last: seq<byte>, recent: seq<uint32>)
    requires |recent| == RECENT_SIZE && 1 <= |last| <= 2 * MAX_CHUNK
    ensures |CallsInto([], FillingCalls(), recent)| == TWO32
    ensures CallsInto([], FillingCalls() + [last], recent) == ChunkBytes(last, recent)
  {
    hide CallsInto, DeflateCalls, CallsRecent, DeflateInto, CallsStartBelow;
    hide Times;
    var ones, twos := Times(238_609_290, [0]), Times(4, [0, 0]);
    TinyCalls(238_609_290, [0], recent);
    TinyCalls(4, [0, 0], recent);
    CallsConcat(ones, twos, recent);
    CallsRecentConcat(ones, twos, recent);
    SmallCallsStartBelow(0, FillingCalls(), recent);
    CallsIntoAppends([], FillingCalls(), recent);
    CallsIntoSnoc([], FillingCalls(), last, recent);
    ChunkAloneRemains(CallsInto([], FillingCalls(), recent), last, recent);
  }

  lemma {:induction false} CallsRecentConcat(a: seq<seq<byte>>, b: seq<seq<byte>>, recent: seq<uint32>)
    requires |recent| == RECENT_SIZE
    ensures CallsRecent(a + b, recent) == CallsRecent(b, CallsRecent(a, recent))
    decreases |a|
  {
    hide DeflateRecent;
    if a == [] {
      assert a + b == b;
    } else {
      assert (a + b)[1..] == a[1..] + b;
      CallsRecentConcat(a[1..], b, DeflateRecent(a[0], recent));
    }
  }
}
