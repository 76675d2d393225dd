/**
 That the chunk encoder takes the repeats it is offered (src/dzip/deflate/deflate.c): what one
 round does, over the bytes of the window, where it cuts its input, and how far zeros shrink.
 */
module DzipMatching {
  import opened Bytes
  import opened DzipFormat
  import opened DzipDeflate
  import opened DzipRoundTrip
  import opened DzipGrammar
  import Vluint

  /** The table entry of a position: its four bytes as a number, modulo 16963. */
  function Entry(window: seq<byte>, at: nat): nat
    requires at + 4 <= |window|
  {
    (window[at] as int + 256 * window[at + 1] as int + 65536 * window[at + 2] as int
     + 16777216 * window[at + 3] as int) % 16963
  }

  lemma EntryIsSlot(window: seq<byte>, at: nat)
    requires at + 4 <= |window|
    ensures Slot(window, at) == Entry(window, at) < 16963
  {
    var s := window[at..at + 4];
    assert s[0] == window[at] && s[1] == window[at + 1] && s[2] == window[at + 2] && s[3] == window[at + 3];
    Le4(s);
    hide Le;
  }

  /** n bytes from `at` on repeat those `distance` before them. */
  predicate RepeatsFor(window: seq<byte>, at: nat, distance: nat, n: nat) {
    && distance <= at && at + n <= |window|
    && forall i :: at <= i < at + n ==> window[i] == window[i - distance]
  }

  lemma {:induction false} MatchLengthIsLongest(window: seq<byte>, at: nat, distance: nat, n: nat)
    requires distance <= at <= |window| && RepeatsFor(window, at, distance, n)
    ensures MatchLength(window, at, distance) >= n
    decreases n
  {
    if n > 0 {
      assert window[at] == window[at - distance];
      MatchLengthIsLongest(window, at + 1, distance, n - 1);
    }
  }

  lemma LongestRepeat(window: seq<byte>, at: nat, distance: nat)
    requires distance <= at <= |window|
    ensures var n := MatchLength(window, at, distance);
      && RepeatsFor(window, at, distance, n) && !RepeatsFor(window, at, distance, n + 1)
      && (RepeatsFor(window, at, distance, 5) <==> n >= 5)
  {
    hide MatchLength;
    MatchLengthRepeats(window, at, distance);
    if RepeatsFor(window, at, distance, 5) { MatchLengthIsLongest(window, at, distance, 5); }
  }

  /**
   One round. The position is recorded in its entry. If the position recorded there before lies
   earlier and at least five bytes repeat from there, all that repeat become one match, behind what
   was pending; otherwise nothing is written and the round moves on by one byte.
   */
  lemma RoundTakesRepeats(window: seq<byte>, p: Progress) returns (n: nat)
    requires InLoop(window, p) && p.at + 4 < |window|
    ensures var i := Entry(window, p.at);
      && i < |p.recent|
      && var previous, q := p.recent[i], Step(window, p);
      && q.recent == p.recent[i := p.at]
      && if previous < p.at && RepeatsFor(window, p.at, p.at - previous, 5) then
           && n >= 5 && RepeatsFor(window, p.at, p.at - previous, n)
           && !RepeatsFor(window, p.at, p.at - previous, n + 1)
           && q.at == q.literalBegin == p.at + n
           && q.commands == p.commands
              + (if p.literalBegin < p.at then [Literal(window[p.literalBegin..p.at])] else [])
              + [Match(n, p.at - previous)]
         else q.at == p.at + 1 && q.literalBegin == p.literalBegin && q.commands == p.commands
  {
    hide MatchLength, RepeatsFor, Slot, Entry;
    EntryIsSlot(window, p.at);
    var previous := p.recent[Slot(window, p.at)];
    n := 0;
    if previous < p.at {
      n := MatchLength(window, p.at, p.at - previous);
      LongestRepeat(window, p.at, p.at - previous);
    }
    var q := Step(window, p);
    if n >= 5 {
      Associative(p.commands, LiteralRun(window, p.literalBegin, p.at), [Match(n, p.at - previous)]);
    } else {
      assert p.commands + [] == p.commands;
    }
  }

  /** An entry of the table is what it was, or a position of this window that has this entry. */
  predicate Carried(window: seq<byte>, old': seq<uint32>, new': seq<uint32>) {
    && |new'| == |old'|
    && forall i :: 0 <= i < |old'| ==>
         new'[i] == old'[i] || (8 <= new'[i] && new'[i] + 4 < |window| && Entry(window, new'[i]) == i)
  }

  lemma {:induction false} RunCarries(window: seq<byte>, p: Progress, old': seq<uint32>)
    requires InLoop(window, p) && Carried(window, old', p.recent)
    ensures Carried(window, old', Run(window, p).recent)
    decreases |window| - p.at
  {
    hide Step;
    if p.at + INDEX_SIZE < |window| {
      var n := RoundTakesRepeats(window, p);
      RunCarries(window, Step(window, p), old');
    }
  }

  /**
   The table a chunk leaves: the one it found, except for positions of its own; those of its first
   position and the entries nobody hit are settled.
   */
  lemma TableIsCarried(window: seq<byte>, recent: seq<uint32>)
    requires |recent| == RECENT_SIZE && |window| < TWO32
    ensures Carried(window, recent, ChunkRecent(window, recent))
    ensures |window| <= 12 ==> ChunkRecent(window, recent) == recent
    ensures |window| > 12 ==>
              var new' := ChunkRecent(window, recent);
              var i := Entry(window, 8);
              i < |new'| && 8 <= new'[i] && new'[i] + 4 < |window| && Entry(window, new'[i]) == i
  {
    var p := Start(recent);
    if |window| > 12 {
      var n := RoundTakesRepeats(window, p);
      RunOnce(window, p);
      var q := Step(window, p);
      RunCarries(window, q, q.recent);
    }
    hide Step, Run;
    RunCarries(window, p, recent);
    if |window| <= 12 { NothingRun(window, p); }
  }

  lemma NothingRun(window: seq<byte>, p: Progress)
    requires InLoop(window, p) && p.at + INDEX_SIZE >= |window|
    ensures Run(window, p) == p
  {
  }

  /** The input is cut into chunks of a million bytes; the last has up to two million. */
  lemma CutLaw(input: seq<byte>, recent: seq<uint32>)
    requires |recent| == RECENT_SIZE && input != []
    ensures |recent| == 16963
    ensures |input| <= 2_000_000 ==>
              && DeflateBytes(input, recent) == ChunkBytes(input, recent)
              && DeflateRecent(input, recent) == ChunkRecent(input, recent)
    ensures |input| > 2_000_000 ==>
              var first, rest := input[..1_000_000], input[1_000_000..];
              && DeflateBytes(input, recent)
                 == ChunkBytes(first, recent) + DeflateBytes(rest, ChunkRecent(first, recent))
              && DeflateRecent(input, recent) == DeflateRecent(rest, ChunkRecent(first, recent))
  {
    hide ChunkBytes, ChunkRecent;
    if |input| <= 2_000_000 {
      assert input[..|input|] == input && input[|input|..] == [];
      assert DeflateBytes([], ChunkRecent(input, recent)) == [];
      assert ChunkBytes(input, recent) + [] == ChunkBytes(input, recent);
    }
  }

  /** What is written for a window is a chunk in digits, and its body a sentence for its commands. */
  lemma WrittenChunk(window: seq<byte>, recent: seq<uint32>)
    requires |recent| == RECENT_SIZE && 1 <= |window| <= 2_000_000
    ensures var s := ChunkBytes(window, recent);
      ChunkAt(s, |s|) && Sentence(s[16..], ChunkCommands(window, recent))
  {
    hide ChunkCommands, EncodeAll, Sentence, Begins, Announced, GoodHeader, ChunkSize;
    var s := ChunkBytes(window, recent);
    ChunkRoundTrip([], window, recent, []);
    assert s + [] == s;
    HeaderInDigits(s);
    ChunkCommandsFaithful([], window, recent);
    WrittenSentence(ChunkCommands(window, recent));
    assert s[16..] == EncodeAll(ChunkCommands(window, recent));
  }

  /** The chunk of one byte "A", in full. */
  lemma ChunkOfA(recent: seq<uint32>)
    requires |recent| == RECENT_SIZE
    ensures ChunkBytes([65], recent)
         == [100, 101, 101, 122, 119, 104, 97, 116, 1, 0, 0, 0, 18, 0, 0, 0, 8, 65]
  {
    var c := Literal([65]);
    assert [65][0..1] == [65] && [] + [c] == [c] && [c][1..] == [];
    assert ChunkCommands([65], recent) == [c];
    assert EncodeAll([c]) == [8, 65] + EncodeAll([]);
    assert EncodeAll([c]) == [8, 65];
  }

  // ---------------------------------------------------------------------------
  // Zeros

  function Zeros(n: nat): seq<byte> {
    seq(n, i => 0)
  }

  lemma ZerosRepeat(n: nat, at: nat, distance: nat, k: nat)
    requires distance <= at && at + k <= n
    ensures RepeatsFor(Zeros(n), at, distance, k)
  {
  }

  /** From a position whose entry points back, one round takes all zeros that are left. */
  lemma ZerosRound(n: nat, p: Progress)
    requires InLoop(Zeros(n), p) && p.at + 5 <= n && |p.recent| == 16963
    requires p.recent[0] < p.at && p.literalBegin < p.at
    ensures var q := Step(Zeros(n), p);
      && q.at == q.literalBegin == n && Run(Zeros(n), p) == q
      && q.commands == p.commands + [Literal(Zeros(n)[p.literalBegin..p.at])] + [Match(n - p.at, p.at - p.recent[0])]
  {
    hide Step, Run, RepeatsFor;
    var w := Zeros(n);
    assert Entry(w, p.at) == 0;
    var d := p.at - p.recent[0];
    ZerosRepeat(n, p.at, d, 5);
    ZerosRepeat(n, p.at, d, n - p.at);
    var k := RoundTakesRepeats(w, p);
    assert k == n - p.at by { LongestIs(w, p.at, d, k, n - p.at); }
    RunTwice(w, p);
  }

  lemma LongestIs(window: seq<byte>, at: nat, distance: nat, n: nat, m: nat)
    requires RepeatsFor(window, at, distance, n) && !RepeatsFor(window, at, distance, n + 1)
    requires RepeatsFor(window, at, distance, m) && at + m == |window|
    ensures n == m
  {
  }

  lemma RunTwice(window: seq<byte>, p: Progress)
    requires InLoop(window, p) && p.at + INDEX_SIZE < |window| && Step(window, p).at == |window|
    ensures Run(window, p) == Step(window, p)
  {
    hide Step;
  }

  /**
   From fourteen zeros on, with any table, a chunk of zeros is eight or nine of them and one match:
   at most 31 bytes in all.
   */
  lemma ZerosShrink(n: nat, recent: seq<uint32>) returns (k: nat, d: nat)
    requires |recent| == RECENT_SIZE && 14 <= n <= 2_000_000
    ensures 8 <= k <= 9 && 1 <= d <= 9
    ensures ChunkCommands(Zeros(n), recent) == [Literal(Zeros(k)), Match(n - k, d)]
    ensures |ChunkBytes(Zeros(n), recent)| <= 31
  {
    hide Step, Run;
    var w := Zeros(n);
    var p := Start(recent);
    assert Entry(w, 8) == 0;
    if recent[0] < 8 {
      k, d := 8, 8 - recent[0];
      ZerosRound(n, p);
      FromZeros(n, p, k, d, recent);
    } else {
      var m := RoundTakesRepeats(w, p);
      var q := Step(w, p);
      k, d := 9, 1;
      RunOnce(w, p);
      ZerosRound(n, q);
      FromZeros(n, q, k, d, recent);
    }
    ZerosCost(n, k, d, recent);
  }

  lemma RunOnce(window: seq<byte>, p: Progress)
    requires InLoop(window, p) && p.at + INDEX_SIZE < |window|
    ensures Run(window, p) == Run(window, Step(window, p))
  {
    hide Step;
  }

  lemma FromZeros(n: nat, p: Progress, k: nat, d: nat, recent: seq<uint32>)
    requires |recent| == RECENT_SIZE && n < TWO32 && InLoop(Zeros(n), p) && k <= n
    requires Run(Zeros(n), Start(recent)) == Run(Zeros(n), p)
    requires p.commands == [] && p.literalBegin == 0 && p.at == k
    requires Run(Zeros(n), p).literalBegin == n
    requires Run(Zeros(n), p).commands == p.commands + [Literal(Zeros(n)[0..k])] + [Match(n - k, d)]
    ensures ChunkCommands(Zeros(n), recent) == [Literal(Zeros(k)), Match(n - k, d)]
  {
    hide Run;
    assert Zeros(n)[0..k] == Zeros(k);
    assert LiteralRun(Zeros(n), n, n) == [];
    var cs := [Literal(Zeros(k)), Match(n - k, d)];
    assert [] + [Literal(Zeros(k))] + [Match(n - k, d)] == cs && cs + [] == cs;
  }

  lemma ZerosCost(n: nat, k: nat, d: nat, recent: seq<uint32>)
    requires |recent| == RECENT_SIZE && 14 <= n <= 2_000_000 && 8 <= k <= 9 && 1 <= d <= 9
    requires ChunkCommands(Zeros(n), recent) == [Literal(Zeros(k)), Match(n - k, d)]
    ensures |ChunkBytes(Zeros(n), recent)| <= 31
  {
    hide ChunkCommands, EncodeArg, Vluint.Encode;
    var a, b := Literal(Zeros(k)), Match(n - k, d);
    ArgCost(CMD_LITERAL, k);
    ArgCost(CMD_MATCH, n - k);
    Vluint.EncodeLength(d, 1);
    Vluint.SmallPowers();
    assert [a, b] == [a] + [b] && [a][1..] == [] && [b][1..] == [];
    EncodeAllSnoc([a], b);
  }
}
