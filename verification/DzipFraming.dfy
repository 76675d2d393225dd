/**
 Chunk framing over partial input (src/dzip/inflate/extensions.c) and the end-to-end law: any
 number of deflate calls, their output cut anywhere, inflates to the concatenated inputs.
 */
module DzipFraming {
  import opened Bytes
  import opened DzipFormat
  import opened DzipDeflate
  import opened DzipOutput
  import opened DzipRoundTrip
  import DzipInflate

  /** Refused, with what had been appended by then; or done, with the input not yet consumed. */
  datatype RangeResult = Refused(out: seq<byte>) | Done(out: seq<byte>, rest: seq<byte>)

  /** Complete chunks are decoded from the front; an incomplete one is left for later. */
  function DecodeRange(input: seq<byte>, out: seq<byte>): RangeResult
    decreases |input|
  {
    if |input| <= HEADER_SIZE then Done(out, input)
    else if !GoodHeader(input) then Refused(out)
    else if ChunkSize(input) > |input| then Done(out, input)
    else
      var v := DecodeChunk(input, out);
      if !v.ok then Refused(v.out) else DecodeRange(input[ChunkSize(input)..], v.out)
  }

  /** `dzip_inflate_range`: on failure the caller's range is left where it was. */
  method InflateRange(output: Buffer, input: seq<byte>) returns (ok: bool, rest: seq<byte>)
    modifies output
    ensures var r := DecodeRange(input, old(output.bytes));
      && ok == r.Done?
      && output.bytes == r.out
      && rest == if ok then r.rest else input
  {
    hide DecodeChunk;
    var chunk := input;
    while |chunk| > HEADER_SIZE
      invariant DecodeRange(chunk, output.bytes) == DecodeRange(input, old(output.bytes))
      decreases |chunk|
    {
      if chunk[..8] != MAGIC { return false, input; }
      if Le(chunk[8..12]) != VERSION { return false, input; }
      if ChunkSize(chunk) > |chunk| { break; }
      AcceptedAdvances(chunk, output.bytes);
      var inflated := DzipInflate.Inflate(chunk, output);
      if !inflated { return false, input; }
      chunk := chunk[ChunkSize(chunk)..];
    }
    return true, chunk;
  }

  /** Every accepted chunk moves the range forward by at least seventeen bytes. */
  lemma AcceptedAdvances(chunk: seq<byte>, out: seq<byte>)
    requires Readable(chunk)
    ensures DecodeChunk(chunk, out).ok ==> ChunkSize(chunk) >= HEADER_SIZE + 1
  {
  }

  // ---------------------------------------------------------------------------
  // Independence of cuts

  lemma HeaderOfPrefix(a: seq<byte>, b: seq<byte>)
    requires |a| >= HEADER_SIZE
    ensures GoodHeader(a + b) == GoodHeader(a) && ChunkSize(a + b) == ChunkSize(a)
  {
    assert (a + b)[..8] == a[..8];
    assert (a + b)[8..12] == a[8..12];
    assert (a + b)[12..16] == a[12..16];
  }

  lemma ChunkOfPrefix(a: seq<byte>, b: seq<byte>, out: seq<byte>)
    requires Readable(a) && GoodHeader(a)
    ensures Readable(a + b) && DecodeChunk(a + b, out) == DecodeChunk(a, out)
  {
    HeaderOfPrefix(a, b);
    if HEADER_SIZE < ChunkSize(a) {
      assert (a + b)[HEADER_SIZE..ChunkSize(a)] == a[HEADER_SIZE..ChunkSize(a)];
    }
  }

  /**
   For arbitrary bytes: refusing a prefix settles the whole, and otherwise going on from the
   leftover is the same as one call on everything.
   */
  lemma {:induction false} CutIndependence(a: seq<byte>, b: seq<byte>, out: seq<byte>)
    ensures match DecodeRange(a, out)
      case Refused(o) => DecodeRange(a + b, out) == Refused(o)
      case Done(o, rest) => DecodeRange(a + b, out) == DecodeRange(rest + b, o)
    decreases |a|
  {
    hide DecodeChunk, GoodHeader, ChunkSize;
    if |a| > HEADER_SIZE {
      HeaderOfPrefix(a, b);
      if GoodHeader(a) && ChunkSize(a) <= |a| {
        ChunkOfPrefix(a, b, out);
        var v := DecodeChunk(a, out);
        if v.ok {
          AcceptedAdvances(a, out);
          assert (a + b)[ChunkSize(a)..] == a[ChunkSize(a)..] + b;
          CutIndependence(a[ChunkSize(a)..], b, v.out);
        }
      }
    }
  }

  /** Pieces arriving one by one, each call given the leftover of the last and the new piece. */
  function Feed(pieces: seq<seq<byte>>, rest: seq<byte>, out: seq<byte>): RangeResult
    decreases |pieces|
  {
    if pieces == [] then Done(out, rest)
    else
      match DecodeRange(rest + pieces[0], out)
      case Refused(o) => Refused(o)
      case Done(o, r) => Feed(pieces[1..], r, o)
  }

  /** What a call leaves over, a call with nothing new leaves over again. */
  lemma {:induction false} LeftoverIsStable(a: seq<byte>, out: seq<byte>)
    requires DecodeRange(a, out).Done?
    ensures var r := DecodeRange(a, out); DecodeRange(r.rest, r.out) == r
    decreases |a|
  {
    hide DecodeChunk, GoodHeader, ChunkSize;
    if |a| > HEADER_SIZE && ChunkSize(a) <= |a| {
      AcceptedAdvances(a, out);
      LeftoverIsStable(a[ChunkSize(a)..], DecodeChunk(a, out).out);
    }
  }

  /** Any cut of the bytes into pieces gives what one call on all of them gives. */
  lemma {:induction false} FeedIsOneCall(pieces: seq<seq<byte>>, rest: seq<byte>, out: seq<byte>)
    requires DecodeRange(rest, out) == Done(out, rest)
    ensures Feed(pieces, rest, out) == DecodeRange(rest + Concat(pieces), out)
    decreases |pieces|
  {
    hide DecodeRange;
    if pieces == [] {
      assert rest + Concat(pieces) == rest;
    } else {
      Associative(rest, pieces[0], Concat(pieces[1..]));
      CutIndependence(rest + pieces[0], Concat(pieces[1..]), out);
      var r := DecodeRange(rest + pieces[0], out);
      if r.Done? {
        LeftoverIsStable(rest + pieces[0], out);
        FeedIsOneCall(pieces[1..], r.rest, r.out);
      }
    }
  }

  // ---------------------------------------------------------------------------
  // End to end

  /** Whether every chunk of one deflate call passes the size check, appended to `total` bytes. */
  predicate InputFits(total: nat, input: seq<byte>, recent: seq<uint32>)
    requires |recent| == RECENT_SIZE
    decreases |input|
  {
    input == [] ||
    var k := FirstCut(input);
    && DistancesFit(total, ChunkCommands(input[..k], recent))
    && InputFits(total + k, input[k..], ChunkRecent(input[..k], recent))
  }

  /** The same for successive calls. */
  predicate CallsFit(total: nat, inputs: seq<seq<byte>>, recent: seq<uint32>)
    requires |recent| == RECENT_SIZE
    decreases |inputs|
  {
    inputs == [] ||
    (InputFits(total, inputs[0], recent) &&
     CallsFit(total + |inputs[0]|, inputs[1..], DeflateRecent(inputs[0], recent)))
  }

  /** No chunk of the call steps over a multiple of 2^32; only lengths matter. */
  predicate NoChunkCrosses(total: nat, input: seq<byte>)
    decreases |input|
  {
    input == [] ||
    var k := FirstCut(input);
    NoCrossing(total, k) && NoChunkCrosses(total + k, input[k..])
  }

  predicate NoCallCrosses(total: nat, inputs: seq<seq<byte>>)
    decreases |inputs|
  {
    inputs == [] || (NoChunkCrosses(total, inputs[0]) && NoCallCrosses(total + |inputs[0]|, inputs[1..]))
  }

  lemma {:induction false} SmallInputDoesNotCross(total: nat, input: seq<byte>)
    requires total + |input| <= TWO32
    ensures NoChunkCrosses(total, input)
    decreases |input|
  {
    if input != [] { SmallInputDoesNotCross(total + FirstCut(input), input[FirstCut(input)..]); }
  }

  /** In particular nothing crosses while the whole output stays within 2^32 bytes. */
  lemma {:induction false} SmallTotalsDoNotCross(total: nat, inputs: seq<seq<byte>>)
    requires total + |Concat(inputs)| <= TWO32
    ensures NoCallCrosses(total, inputs)
    decreases |inputs|
  {
    hide NoChunkCrosses;
    if inputs != [] {
      SmallInputDoesNotCross(total, inputs[0]);
      SmallTotalsDoNotCross(total + |inputs[0]|, inputs[1..]);
    }
  }

  lemma {:induction false} InputFitsIfNoCrossing(total: nat, input: seq<byte>, recent: seq<uint32>)
    requires |recent| == RECENT_SIZE && NoChunkCrosses(total, input)
    ensures InputFits(total, input, recent)
    decreases |input|
  {
    hide ChunkCommands, ChunkRecent, DistancesFit, NoCrossing;
    if input != [] {
      var k := FirstCut(input);
      ChunkFitsIfNoCrossing(total, input[..k], recent);
      InputFitsIfNoCrossing(total + k, input[k..], ChunkRecent(input[..k], recent));
    }
  }

  lemma ChunkFitsIfNoCrossing(total: nat, window: seq<byte>, recent: seq<uint32>)
    requires |recent| == RECENT_SIZE && |window| < TWO32 && NoCrossing(total, |window|)
    ensures DistancesFit(total, ChunkCommands(window, recent))
  {
    var prior: seq<byte> := seq(total, i => 0);
    ChunkCommandsFaithful(prior, window, recent);
  }

  lemma {:induction false} CallsFitIfNoCrossing(total: nat, inputs: seq<seq<byte>>, recent: seq<uint32>)
    requires |recent| == RECENT_SIZE && NoCallCrosses(total, inputs)
    ensures CallsFit(total, inputs, recent)
    decreases |inputs|
  {
    hide InputFits, NoChunkCrosses, DeflateRecent;
    if inputs != [] {
      InputFitsIfNoCrossing(total, inputs[0], recent);
      CallsFitIfNoCrossing(total + |inputs[0]|, inputs[1..], DeflateRecent(inputs[0], recent));
    }
  }

  /**
   The chunks of one input, followed by anything, decode to the input and that rest exactly when
   every chunk passes the size check; otherwise they are refused.
   */
  lemma {:induction false} ChunksRoundTrip(prior: seq<byte>, input: seq<byte>, recent: seq<uint32>, rest: seq<byte>)
    requires |recent| == RECENT_SIZE
    ensures var r := DecodeRange(DeflateBytes(input, recent) + rest, prior);
      if InputFits(|prior|, input, recent) then r == DecodeRange(rest, prior + input) else r.Refused?
    decreases |input|
  {
    hide NoCrossing, DistancesFit, ChunkCommands, ChunkBytes, ChunkRecent, DecodeChunk, GoodHeader, ChunkSize, Readable;
    if input == [] {
      assert prior + input == prior;
      assert DeflateBytes(input, recent) + rest == rest;
    } else {
      var k := FirstCut(input);
      var head, tail := ChunkBytes(input[..k], recent), DeflateBytes(input[k..], ChunkRecent(input[..k], recent));
      ChunkRoundTrip(prior, input[..k], recent, tail + rest);
      Associative(head, tail, rest);
      assert (head + (tail + rest))[|head|..] == tail + rest;
      if DistancesFit(|prior|, ChunkCommands(input[..k], recent)) {
        ChunksRoundTrip(prior + input[..k], input[k..], ChunkRecent(input[..k], recent), rest);
        assert input[..k] + input[k..] == input;
        Associative(prior, input[..k], input[k..]);
      }
    }
  }

  /**
   One call of `dzip_deflate` on a buffer that holds `out`. It appends all its chunks exactly when
   each starts below 2^32 bytes. What it then appended, followed by anything, decodes to the
   input and that rest exactly when every chunk passes the size check; otherwise it is refused.
   */
  lemma DeflateRoundTrip(out: seq<byte>, prior: seq<byte>, input: seq<byte>, recent: seq<uint32>, rest: seq<byte>)
    requires |recent| == RECENT_SIZE
    ensures var all := DeflateInto(out, input, recent);
      && (all == out + DeflateBytes(input, recent) <==> StartsBelow(|out|, input, recent))
      && (StartsBelow(|out|, input, recent) ==>
            && out <= all
            && var r := DecodeRange(all[|out|..] + rest, prior);
               if InputFits(|prior|, input, recent) then r == DecodeRange(rest, prior + input) else r.Refused?)
  {
    hide DeflateInto, DeflateBytes, DecodeRange, InputFits;
    AppendsIffStartsBelow(out, input, recent);
    ChunksRoundTrip(prior, input, recent, rest);
    if StartsBelow(|out|, input, recent) {
      assert (out + DeflateBytes(input, recent))[|out|..] == DeflateBytes(input, recent);
    }
  }

  lemma NothingToDecode(out: seq<byte>)
    ensures DecodeRange([], out) == Done(out, []) && out + [] == out
  {
  }

  lemma {:induction false} CallsRoundTrip(prior: seq<byte>, inputs: seq<seq<byte>>, recent: seq<uint32>)
    requires |recent| == RECENT_SIZE
    ensures var r := DecodeRange(DeflateCalls(inputs, recent), prior);
      if CallsFit(|prior|, inputs, recent) then r == Done(prior + Concat(inputs), []) else r.Refused?
    decreases |inputs|
  {
    hide InputFits, DecodeRange, DeflateBytes, DeflateRecent;
    if inputs == [] {
      NothingToDecode(prior);
    } else {
      var later := DeflateCalls(inputs[1..], DeflateRecent(inputs[0], recent));
      ChunksRoundTrip(prior, inputs[0], recent, later);
      Associative(prior, inputs[0], Concat(inputs[1..]));
      CallsRoundTrip(prior + inputs[0], inputs[1..], DeflateRecent(inputs[0], recent));
    }
  }

  /**
   The law the codec is for: whatever the table held, however the input is split over deflate
   calls, however the calls share buffers, and however what they write is cut on its way. As long
   as no buffer is appended to from 2^32 bytes on, which is exactly when all chunks get written,
   the decoder appends precisely the input if every chunk passes its size check, and refuses if
   one does not. Buffers given little enough stay below, and chunks that step over no multiple of
   2^32 pass; both can be told from the lengths of the inputs.
   */
  lemma StreamRoundTrip(prior: seq<byte>, groups: seq<seq<seq<byte>>>, recent: seq<uint32>, pieces: seq<seq<byte>>)
    requires |recent| == RECENT_SIZE
    requires Concat(pieces) == Written(groups, recent)
    ensures Concat(pieces) == DeflateCalls(Concat(groups), recent) <==> BuffersStayBelow(groups, recent)
    ensures var inputs, r := Concat(groups), Feed(pieces, [], prior);
      BuffersStayBelow(groups, recent) ==>
        if CallsFit(|prior|, inputs, recent) then r == Done(prior + Concat(inputs), []) else r.Refused?
    ensures BuffersAreSmall(groups) ==> BuffersStayBelow(groups, recent)
    ensures NoCallCrosses(|prior|, Concat(groups)) ==> CallsFit(|prior|, Concat(groups), recent)
  {
    hide CallsFit, NoCallCrosses, Written, DeflateCalls, BuffersAreSmall, BuffersStayBelow, DecodeRange;
    var inputs := Concat(groups);
    WrittenIffBelow(groups, recent);
    CallsRoundTrip(prior, inputs, recent);
    assert DecodeRange([], prior) == Done(prior, []) by { NothingToDecode(prior); }
    FeedIsOneCall(pieces, [], prior);
    assert [] + Concat(pieces) == Concat(pieces);
    if BuffersAreSmall(groups) { SmallBuffersStayBelow(groups, recent); }
    if NoCallCrosses(|prior|, inputs) { CallsFitIfNoCrossing(|prior|, inputs, recent); }
  }

  /**
   An input that fails, although no chunk of it steps over a multiple of 2^32: after the filling
   calls into one buffer, the decoder gets the last input alone, and reports success.
   */
  lemma LostInput(last: seq<byte>, recent: seq<uint32>)
    requires |recent| == RECENT_SIZE && 1 <= |last| <= 2 * MAX_CHUNK
    ensures var inputs := FillingCalls() + [last];
      && NoCallCrosses(0, inputs)
      && DecodeRange(CallsInto([], inputs, recent), []) == Done(last, [])
      && Concat(inputs) != last
  {
    hide CallsInto, DeflateBytes, ChunkBytes, ChunkRecent, DecodeRange, NoCallCrosses;
    var inputs := FillingCalls() + [last];
    BufferWrapIsReal(last, recent);
    FillingInput();
    ConcatSnoc(FillingCalls(), last);
    SmallTotalsDoNotCross(0, inputs);
    OneChunkDecodes(last, recent);
  }

  lemma OneChunkDecodes(input: seq<byte>, recent: seq<uint32>)
    requires |recent| == RECENT_SIZE && 1 <= |input| <= 2 * MAX_CHUNK
    ensures DecodeRange(ChunkBytes(input, recent), []) == Done(input, [])
  {
    hide ChunkBytes, ChunkRecent, DecodeChunk, GoodHeader, ChunkSize, DistancesFit, ChunkCommands;
    var chunk := ChunkBytes(input, recent);
    ChunkRoundTrip([], input, recent, []);
    assert chunk + [] == chunk && [] + input == input && chunk[|chunk|..] == [];
  }

  lemma FillingInput()
    ensures |Concat(FillingCalls())| == 238_609_298
  {
    hide Times;
    TimesLength(238_609_290, [0]);
    TimesLength(4, [0, 0]);
    ConcatAppend(Times(238_609_290, [0]), Times(4, [0, 0]));
  }

  lemma {:induction false} TimesLength(n: nat, s: seq<byte>)
    ensures |Concat(Times(n, s))| == n * |s|
    decreases n
  {
    if n > 0 {
      OnceMore(n, s);
      assert Times(n, s)[1..] == Times(n - 1, s);
      TimesLength(n - 1, s);
    }
  }

  lemma ConcatSnoc(a: seq<seq<byte>>, s: seq<byte>)
    ensures Concat(a + [s]) == Concat(a) + s
  {
    ConcatAppend(a, [s]);
    assert [s][1..] == [] && s + [] == s;
  }
}
