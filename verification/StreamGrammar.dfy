/**
 The streaming format in digits (junked/dzip-working-immediate): which bytes are which commands,
 what a copied byte is, and exactly which bytes the decoder accepts and what it makes of them.
 */
module StreamGrammar {
  import opened Bytes
  import opened StreamFormat
  import opened StreamRoundTrip
  import D = StreamInflate
  import E = StreamDeflate

  // ---------------------------------------------------------------------------
  // Commands

  /** Command c with argument n: one byte c + 8 * n, or c + 4 + 8 * low and a byte for n / 32. */
  predicate Head(p: seq<byte>, c: nat, n: nat) {
    && c < 4 && 1 <= |p| <= 2
    && var low := p[0] / 8;
       if |p| == 1 then p[0] == c + 8 * low && n == low
       else p[0] == c + 4 + 8 * low && n == low + 32 * p[1] as int
  }

  /** One command, its head k bytes long: 0 is a literal and its bytes, 1 a match and its distance. */
  predicate PhraseAt(p: seq<byte>, c: Command, k: nat) {
    && 0 < k <= |p|
    && match c
       case Literal(data) => data != [] && Head(p[..k], 0, |data|) && p[k..] == data
       case Match(length, distance) =>
         && length >= 1 && Head(p[..k], 1, length)
         && |p| == k + 2 && distance == p[k] as int + 256 * p[k + 1] as int < 65535
  }

  ghost predicate Phrase(p: seq<byte>, c: Command) {
    exists k: nat :: PhraseAt(p, c, k)
  }

  ghost predicate Sentence(s: seq<byte>, cs: seq<Command>)
    decreases |cs|
  {
    if cs == [] then s == []
    else exists n: nat :: n <= |s| && Phrase(s[..n], cs[0]) && Sentence(s[n..], cs[1..])
  }

  /** A command that has begun, its head k bytes long; a literal shows what it has. */
  predicate BegunAt(v: seq<byte>, k: nat, n: nat) {
    && 0 < k <= |v| && n >= 1
    && (|| (Head(v[..k], 0, n) && |v| < k + n)
        || (Head(v[..k], 1, n) && |v| < k + 2))
  }

  /** No command at all yet, or one that may go on; of a long head, the first byte may be any. */
  ghost predicate Unfinished(v: seq<byte>) {
    || v == []
    || (|v| == 1 && v[0] / 4 % 2 == 1)
    || exists k: nat, n: nat :: BegunAt(v, k, n)
  }

  /** What an unfinished command has put out. */
  function Shown(v: seq<byte>): seq<byte> {
    if v == [] || v[0] % 4 != 0 then []
    else if v[0] / 4 % 2 == 0 then v[1..]
    else if |v| == 1 then [] else v[2..]
  }

  // ---------------------------------------------------------------------------
  // What a copied byte is

  /** Slots nobody has written are zero. */
  lemma {:induction false} UnwrittenIsZero(h: seq<byte>, p: nat)
    requires |h| <= p < 65535
    ensures WindowOf(h)[p] == 0
    decreases |h|
  {
    if h != [] {
      var n := |h| - 1;
      UnwrittenIsZero(h[..n], p);
      assert n % WINDOW == n by { Inside65535(n); }
    }
  }

  lemma Inside65535(n: nat)
    requires n < 65535
    ensures n % 65535 == n
  {
  }

  /** Distance 0 is a whole window; what lies before the start of the stream is zero. */
  function Back(distance: nat): nat {
    if distance == 0 then 65535 else distance
  }

  lemma SourceLaw(h: seq<byte>, distance: nat)
    requires distance < 65535
    ensures Source(h, distance) == if |h| >= Back(distance) then h[|h| - Back(distance)] else 0
  {
    var n, back := |h|, Back(distance);
    if n >= back {
      var p := n - back;
      SlotOf(n, distance, p);
      WindowKeeps(h, p);
    } else {
      var p := 65535 + n - back;
      Inside65535(p);
      if distance > 0 { assert 65535 + n - distance == p; } else { AddMultiple(n, 1); Inside65535(n); }
      UnwrittenIsZero(h, p);
    }
  }

  lemma SlotOf(n: nat, distance: nat, p: nat)
    requires distance < 65535 && p + Back(distance) == n
    ensures (65535 + n - distance) % 65535 == p % 65535
  {
    if distance == 0 {
      AddMultiple(p, 2);
    } else {
      AddMultiple(p, 1);
    }
  }

  /** A match repeats, byte by byte, what lies its distance back, zeros before the start included. */
  lemma {:induction false} MatchLaw(h: seq<byte>, length: nat, distance: nat, q: nat)
    requires distance < 65535 && |h| <= q < |h| + length
    ensures var r := Extend(h, length, distance);
      r[q] == if q >= Back(distance) then r[q - Back(distance)] else 0
    decreases length
  {
    hide WindowOf, Source;
    var g := h + [Source(h, distance)];
    var r := Extend(h, length, distance);
    assert r == Extend(g, length - 1, distance) && g <= r;
    SourceLaw(h, distance);
    if q == |h| {
      assert r[q] == g[q];
      if q >= Back(distance) { assert r[q - Back(distance)] == g[q - Back(distance)]; }
    } else {
      MatchLaw(g, length - 1, distance, q);
    }
  }

  // ---------------------------------------------------------------------------
  // The decoder on whole commands

  lemma FirstByte(b: byte, c: nat)
    requires c < 4
    ensures b == c + 8 * (b / 8) <==> b % 4 == c && b / 4 % 2 == 0
    ensures b == c + 4 + 8 * (b / 8) <==> b % 4 == c && b / 4 % 2 == 1
  {
  }

  /** The first byte of a command, from the command state: on, or refused. */
  lemma FirstStep(d: D.State, h: seq<byte>, b: byte)
    requires AtCommand(d, h)
    ensures D.Valid(d)
    ensures var c, low, o := b % 4, b / 8, D.Feed(d, [b]);
      if b / 4 % 2 == 1 then
        && o.Ready? && o.out == [] && D.Valid(o.state) && o.state.command == c
        && Inside(o.state.(commandBytes := 0), h, D.ExtendArg1, low)
      else if low >= 1 && c < 2 then
        o.Ready? && o.out == [] && Inside(o.state, h, JobOf(c), low)
      else o == D.Failed([])
  {
    hide WindowOf, D.Feed, D.CopyState;
    FeedOne(d, b);
  }

  /** The second one. */
  lemma SecondStep(u: D.State, h: seq<byte>, low: nat, b: byte)
    requires D.Valid(u) && Inside(u.(commandBytes := 0), h, D.ExtendArg1, low)
    ensures var n, o := low + 32 * b as int, D.Feed(u, [b]);
      if n >= 1 && u.command < 2 then o.Ready? && o.out == [] && Inside(o.state, h, JobOf(u.command), n)
      else o == D.Failed([])
  {
    hide WindowOf, D.Feed, D.CopyState;
    FeedOne(u, b);
  }

  /** A whole head: into the command, or refused for a zero argument or an unknown command. */
  lemma FeedHead(d: D.State, h: seq<byte>, p: seq<byte>, c: nat, n: nat)
    requires AtCommand(d, h) && Head(p, c, n)
    ensures D.Valid(d)
    ensures var o := D.Feed(d, p);
      if n >= 1 && c < 2 then o.Ready? && o.out == [] && Inside(o.state, h, JobOf(c), n) else o == D.Failed([])
  {
    hide WindowOf, D.Feed, AtCommand, Inside, JobOf;
    FirstByte(p[0], c);
    FirstStep(d, h, p[0]);
    if |p| == 1 {
      assert p == [p[0]];
    } else {
      var u := D.Feed(d, [p[0]]).state;
      SecondStep(u, h, p[0] / 8, p[1]);
      assert p == [p[0]] + [p[1]];
      D.Resumable(d, [p[0]], [p[1]]);
      assert [] + D.Feed(u, [p[1]]).out == D.Feed(u, [p[1]]).out;
    }
  }

  /** A phrase is carried out, also where its head is longer than it need be. */
  lemma FeedPhrase(d: D.State, h: seq<byte>, p: seq<byte>, c: Command) returns (t: D.State)
    requires AtCommand(d, h) && Phrase(p, c)
    ensures Emittable(c) && D.Valid(d)
    ensures AtCommand(t, Apply(h, c))
    ensures D.Feed(d, p) == D.Ready(Apply(h, c)[|h|..], t)
  {
    hide WindowOf, Extend, D.Feed, AtCommand, Head;
    var k: nat :| PhraseAt(p, c, k);
    var head, rest := p[..k], p[k..];
    assert p == head + rest;
    match c {
      case Literal(data) =>
        HeadBound(head, 0, |data|);
        FeedHead(d, h, head, 0, |data|);
        var u := D.Feed(d, head).state;
        t := FeedLiteral(u, h, data);
        D.Resumable(d, head, rest);
        assert [] + data == data == (h + data)[|h|..];
      case Match(length, distance) =>
        HeadBound(head, 1, length);
        FeedHead(d, h, head, 1, length);
        var u := D.Feed(d, head).state;
        PointInDigits(rest, distance);
        t := FeedPoint(u, h, length, distance);
        D.Resumable(d, head, rest);
        var out := Extend(h, length, distance)[|h|..];
        assert [] + out == out;
    }
  }

  lemma HeadBound(p: seq<byte>, c: nat, n: nat)
    requires Head(p, c, n)
    ensures n <= 8191
  {
  }

  lemma PointInDigits(rest: seq<byte>, distance: nat)
    requires |rest| == 2 && distance == rest[0] as int + 256 * rest[1] as int
    ensures rest == EncodePoint(distance)
  {
  }

  lemma {:induction false} FeedSentence(d: D.State, h: seq<byte>, s: seq<byte>, cs: seq<Command>)
    returns (t: D.State)
    requires AtCommand(d, h) && Sentence(s, cs)
    ensures AllEmittable(cs) && D.Valid(d)
    ensures AtCommand(t, ApplyAll(h, cs))
    ensures D.Feed(d, s) == D.Ready(ApplyAll(h, cs)[|h|..], t)
    decreases |cs|
  {
    hide AtCommand, Phrase, Apply, D.Feed;
    AtCommandValid(d, h);
    if cs == [] {
      t := d;
      FeedNothing(d);
      assert h[|h|..] == [];
    } else {
      var n: nat :| n <= |s| && Phrase(s[..n], cs[0]) && Sentence(s[n..], cs[1..]);
      var u := FeedPhrase(d, h, s[..n], cs[0]);
      var g := Apply(h, cs[0]);
      t := FeedSentence(u, g, s[n..], cs[1..]);
      assert s == s[..n] + s[n..];
      AtCommandValid(u, g);
      D.Resumable(d, s[..n], s[n..]);
      var all := ApplyAll(h, cs);
      assert h <= g <= all by { ApplyGrows(h, cs[0]); }
      assert g[|h|..] + all[|g|..] == all[|h|..];
    }
  }

  // ---------------------------------------------------------------------------
  // The decoder on arbitrary bytes

  /** An unfinished command is accepted, and the bytes of a literal are put out as they come. */
  lemma FeedUnfinished(d: D.State, h: seq<byte>, v: seq<byte>)
    requires AtCommand(d, h) && Unfinished(v)
    ensures D.Valid(d) && D.Feed(d, v).Ready? && D.Feed(d, v).out == Shown(v)
  {
    hide WindowOf, D.Feed, AtCommand, Inside, JobOf, Head;
    AtCommandValid(d, h);
    if v == [] {
      FeedNothing(d);
    } else if |v| == 1 && v[0] / 4 % 2 == 1 {
      FirstStep(d, h, v[0]);
      assert v == [v[0]];
    } else {
      var k: nat, n: nat :| BegunAt(v, k, n);
      FeedBegun(d, h, v, k, n);
    }
  }

  lemma FeedBegun(d: D.State, h: seq<byte>, v: seq<byte>, k: nat, n: nat)
    requires AtCommand(d, h) && BegunAt(v, k, n)
    ensures D.Valid(d) && D.Feed(d, v).Ready? && D.Feed(d, v).out == Shown(v)
  {
    hide WindowOf, D.Feed, D.CopyState;
    var head, rest := v[..k], v[k..];
    assert v == head + rest;
    AtCommandValid(d, h);
    ShownPart(v, k, n);
    if Head(head, 0, n) && |v| < k + n {
      FeedHead(d, h, head, 0, n);
      var u := D.Feed(d, head).state;
      FeedShortLiteral(u, rest);
      D.Resumable(d, head, rest);
      assert [] + rest == rest;
    } else {
      FeedHead(d, h, head, 1, n);
      var u := D.Feed(d, head).state;
      D.Resumable(d, head, rest);
      if rest == [] { FeedNothing(u); } else {
        assert rest == [rest[0]];
        FeedOne(u, rest[0]);
      }
    }
  }

  lemma ShownPart(v: seq<byte>, k: nat, n: nat)
    requires BegunAt(v, k, n)
    ensures Shown(v) == if Head(v[..k], 0, n) && |v| < k + n then v[k..] else []
  {
    FirstByte(v[0], 0);
    FirstByte(v[0], 1);
  }

  /** At the front of any bytes there is a command, an unfinished one, or a refusal. */
  lemma FrontCases(d: D.State, h: seq<byte>, t: seq<byte>) returns (n: nat, c: Command)
    requires AtCommand(d, h) && t != []
    ensures D.Valid(d) && n <= |t|
    ensures (n > 0 && Phrase(t[..n], c)) || Unfinished(t) || D.Feed(d, t).Failed?
  {
    hide WindowOf, D.Feed, AtCommand, Inside, JobOf;
    n, c := 0, Literal([]);
    var b := t[0];
    AtCommandValid(d, h);
    FirstByte(b, b % 4);
    if b / 4 % 2 == 0 {
      assert t[..1] == [b];
      n, c := AfterHead(d, h, t, 1, b % 4, b / 8);
    } else if |t| >= 2 {
      assert t[..2] == [b, t[1]];
      n, c := AfterHead(d, h, t, 2, b % 4, b / 8 + 32 * t[1] as int);
    }
  }

  lemma AfterHead(d: D.State, h: seq<byte>, t: seq<byte>, k: nat, number: nat, arg: nat)
    returns (n: nat, c: Command)
    requires AtCommand(d, h) && 0 < k <= |t| && Head(t[..k], number, arg)
    ensures D.Valid(d) && n <= |t|
    ensures (n > 0 && Phrase(t[..n], c)) || Unfinished(t) || D.Feed(d, t).Failed?
  {
    hide WindowOf, D.Feed, AtCommand, Inside, JobOf, Head;
    n, c := 0, Literal([]);
    var head, rest := t[..k], t[k..];
    assert t == head + rest;
    AtCommandValid(d, h);
    FeedHead(d, h, head, number, arg);
    D.Resumable(d, head, rest);
    if arg >= 1 && number == 0 {
      if |rest| < arg {
        assert BegunAt(t, k, arg);
      } else {
        n, c := k + arg, Literal(t[k..k + arg]);
        assert t[..n][..k] == head && t[..n][k..] == t[k..k + arg];
        assert PhraseAt(t[..n], c, k);
      }
    } else if arg >= 1 && number == 1 {
      if |rest| < 2 {
        assert BegunAt(t, k, arg);
      } else if rest[0] as int + 256 * rest[1] as int < 65535 {
        n, c := k + 2, Match(arg, rest[0] as int + 256 * rest[1] as int);
        assert t[..n][..k] == head && t[..n][k..] == rest[..2];
        assert PhraseAt(t[..n], c, k);
      } else {
        LastDistance(D.Feed(d, head).state, h, arg, rest);
      }
    }
  }

  /** Distance 65535 is refused. */
  lemma LastDistance(u: D.State, h: seq<byte>, arg: nat, rest: seq<byte>)
    requires Inside(u, h, JobOf(1), arg) && |rest| >= 2 && rest[0] as int + 256 * rest[1] as int >= 65535
    ensures D.Valid(u) && D.Feed(u, rest).Failed?
  {
    hide WindowOf, D.Feed, D.CopyState, Le;
    assert rest[0] == 255 && rest[1] == 255;
    FeedOne(u, 255);
    var w := D.Next(u, 255).value.0;
    assert w.point[1 := 255] == [255, 255] == EncodePoint(65535);
    PointRoundTrip(65535);
    FeedOne(w, 255);
    assert rest == [255] + ([255] + rest[2..]);
    D.Resumable(w, [255], rest[2..]);
    D.Resumable(u, [255], [255] + rest[2..]);
  }

  /**
   From the command state, on arbitrary bytes: they are accepted exactly if they are a sentence and
   an unfinished command behind it.
   */
  lemma {:induction false} AcceptedShape(d: D.State, h: seq<byte>, t: seq<byte>) returns (n: nat, cs: seq<Command>)
    requires AtCommand(d, h)
    ensures D.Valid(d)
    ensures D.Feed(d, t).Ready? ==> n <= |t| && Sentence(t[..n], cs) && Unfinished(t[n..])
    decreases |t|
  {
    hide AtCommand, Phrase, Unfinished, D.Feed;
    AtCommandValid(d, h);
    n, cs := 0, [];
    assert t[..0] == [] && t[0..] == t;
    assert Unfinished([]) by { EmptyIsUnfinished(); }
    if t != [] && !Unfinished(t) {
      var k, c := FrontCases(d, h, t);
      if k > 0 && Phrase(t[..k], c) {
        var u := FeedPhrase(d, h, t[..k], c);
        AtCommandValid(u, Apply(h, c));
        assert t == t[..k] + t[k..];
        D.Resumable(d, t[..k], t[k..]);
        var m, rest := AcceptedShape(u, Apply(h, c), t[k..]);
        if D.Feed(d, t).Ready? {
          n, cs := k + m, [c] + rest;
          LongerSentence(t, k, m, c, rest);
        }
      }
    }
  }

  lemma EmptyIsUnfinished()
    ensures Unfinished([])
  {
  }

  lemma LongerSentence(t: seq<byte>, k: nat, m: nat, c: Command, rest: seq<Command>)
    requires k + m <= |t| && Phrase(t[..k], c) && Sentence(t[k..][..m], rest)
    ensures Sentence(t[..k + m], [c] + rest) && t[k + m..] == t[k..][m..]
  {
    hide Phrase;
    var s, cs := t[..k + m], [c] + rest;
    assert s[..k] == t[..k] && s[k..] == t[k..][..m];
    assert cs[0] == c && cs[1..] == rest;
  }

  /** What the decoder makes of bytes that are a sentence and an unfinished command. */
  lemma AcceptedMeaning(d: D.State, h: seq<byte>, t: seq<byte>, n: nat, cs: seq<Command>)
    requires AtCommand(d, h) && n <= |t| && Sentence(t[..n], cs) && Unfinished(t[n..])
    ensures D.Valid(d) && AllEmittable(cs)
    ensures var o := D.Feed(d, t); o.Ready? && o.out == ApplyAll(h, cs)[|h|..] + Shown(t[n..])
  {
    hide AtCommand, Sentence, Unfinished, D.Feed, ApplyAll, Shown;
    var u := FeedSentence(d, h, t[..n], cs);
    FeedUnfinished(u, ApplyAll(h, cs), t[n..]);
    assert t == t[..n] + t[n..];
    AtCommandValid(d, h);
    D.Resumable(d, t[..n], t[n..]);
  }

  /** "deezwhat" */
  predicate BeginsWithMagic(s: seq<byte>) {
    |s| >= 8 && s[..8] == [100, 101, 101, 122, 119, 104, 97, 116]
  }

  /** Before the eighth byte nothing is checked and nothing put out; with it the magic must be there. */
  lemma {:induction false} FeedFirst(d: D.State, s: seq<byte>)
    requires D.Valid(d) && d.job == D.ReadHeader && |s| + d.bytesRead <= 8
    ensures var o := D.Feed(d, s);
      if |s| + d.bytesRead < 8 then o.Ready? && o.out == []
      else o.Ready? <==> d.magic[..d.bytesRead] + s == MAGIC
    decreases |s|
  {
    if s != [] {
      var m := d.magic[d.bytesRead := s[0]];
      assert m[..d.bytesRead + 1] == d.magic[..d.bytesRead] + [s[0]];
      assert d.magic[..d.bytesRead] + s == m[..d.bytesRead + 1] + s[1..];
      if d.bytesRead < 7 {
        FeedFirst(D.Next(d, s[0]).value.0, s[1..]);
      } else {
        assert s[1..] == [] && m[..8] == m;
      }
    }
  }

  /** A sentence of n bytes, and an unfinished command behind it. */
  ghost predicate Accepted(t: seq<byte>, n: nat, cs: seq<Command>) {
    n <= |t| && Sentence(t[..n], cs) && Unfinished(t[n..])
  }

  /** Behind the magic the decoder is in the command state; another beginning is refused. */
  lemma AfterMagic(s: seq<byte>) returns (u: D.State)
    requires |s| >= 8
    ensures AtCommand(u, []) && D.Valid(u)
    ensures if BeginsWithMagic(s) then D.Feed(D.INITIAL_STATE, s) == D.Feed(u, s[8..])
            else D.Feed(D.INITIAL_STATE, s).Failed?
  {
    hide D.Feed, AtCommand;
    var d := D.INITIAL_STATE;
    var head, t := s[..8], s[8..];
    assert s == head + t && d.magic[..0] + head == head;
    FeedFirst(d, head);
    D.Resumable(d, head, t);
    u := FeedWholeMagic();
    AtCommandValid(u, []);
    assert [] + D.Feed(u, t).out == D.Feed(u, t).out;
  }

  /**
   The decoder from its initial state, on arbitrary bytes. Up to seven are always accepted. From
   eight on they are accepted exactly if they begin with the magic and go on with a sentence and an
   unfinished command.
   */
  lemma DecoderAccepts(s: seq<byte>)
    ensures |s| < 8 ==> D.Feed(D.INITIAL_STATE, s).Ready? && D.Feed(D.INITIAL_STATE, s).out == []
    ensures |s| >= 8 ==>
              (D.Feed(D.INITIAL_STATE, s).Ready? <==>
               BeginsWithMagic(s) && exists n: nat, cs :: Accepted(s[8..], n, cs))
  {
    hide D.Feed, Sentence, Unfinished, AtCommand;
    if |s| < 8 {
      FeedFirst(D.INITIAL_STATE, s);
    } else {
      var u := AfterMagic(s);
      var m, c := AcceptedShape(u, [], s[8..]);
      if D.Feed(u, s[8..]).Ready? { assert Accepted(s[8..], m, c); }
      if n: nat, cs :| Accepted(s[8..], n, cs) { AcceptedMeaning(u, [], s[8..], n, cs); }
    }
  }

  /** And then the sentence is carried out, and of a begun literal what there is. */
  lemma DecoderMeans(s: seq<byte>, n: nat, cs: seq<Command>)
    requires BeginsWithMagic(s) && Accepted(s[8..], n, cs)
    ensures AllEmittable(cs)
    ensures var o := D.Feed(D.INITIAL_STATE, s);
      o.Ready? && o.out == ApplyAll([], cs) + Shown(s[8..][n..])
  {
    hide D.Feed, Sentence, Unfinished, AtCommand, ApplyAll, Shown;
    var u := AfterMagic(s);
    AcceptedMeaning(u, [], s[8..], n, cs);
    assert ApplyAll([], cs)[0..] == ApplyAll([], cs);
  }

  // ---------------------------------------------------------------------------
  // What the encoder writes

  /** Every command is written as a phrase for it, and as no longer one than there is. */
  lemma WrittenPhrase(c: Command)
    requires Emittable(c)
    ensures Phrase(EncodeCommand(c), c)
    ensures forall p :: Phrase(p, c) ==> |EncodeCommand(c)| <= |p|
  {
    var e := EncodeCommand(c);
    var number, n := if c.Literal? then 0 else 1, if c.Literal? then |c.data| else c.length;
    var k := |EncodeArg(number, n)|;
    assert e[..k] == EncodeArg(number, n);
    WrittenHead(number, n);
    hide Head, EncodeArg;
    assert PhraseAt(e, c, k);
    forall p | Phrase(p, c) ensures |e| <= |p| {
      var j: nat :| PhraseAt(p, c, j);
      assert Head(p[..j], number, n);
    }
  }

  lemma WrittenHead(c: nat, n: nat)
    requires c < 2 && 1 <= n <= 8191
    ensures Head(EncodeArg(c, n), c, n)
    ensures forall p :: Head(p, c, n) ==> |EncodeArg(c, n)| <= |p|
  {
  }
}
