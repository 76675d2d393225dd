/**
 The dzip format in digits (src/dzip/common/internal.h, src/dzip/inflate): which bytes are which
 commands, chunks and streams, as relations; the decoder accepts exactly these, and the encoder
 writes the shortest of them.
 */
module DzipGrammar {
  import opened Bytes
  import opened DzipFormat
  import opened DzipDeflate
  import opened DzipFraming
  import Vluint

  // ---------------------------------------------------------------------------
  // Numbers and commands

  /** Groups of seven bits, least significant first; all bytes but the last are 128 or more. */
  predicate Groups(p: seq<byte>) {
    && p != [] && p[|p| - 1] < 128
    && forall i :: 0 <= i < |p| - 1 ==> p[i] >= 128
  }

  function Digits(p: seq<byte>): nat {
    if p == [] then 0 else p[0] % 128 + 128 * Digits(p[1..])
  }

  /** The number of the groups, in 64 bits. */
  predicate Writes(p: seq<byte>, n: nat) {
    Groups(p) && n == Digits(p) % 18446744073709551616
  }

  /**
   A command's number c and argument n: one byte c + 8 * n, or a byte c + 4 + 8 * low and groups
   for the higher part of n; also where fewer bytes would do.
   */
  predicate Head(p: seq<byte>, c: nat, n: nat) {
    && c < 4 && p != []
    && var low := p[0] / 8;
       if |p| == 1 then p[0] == c + 8 * low && n == low
       else p[0] == c + 4 + 8 * low && Groups(p[1..]) && n == (low + 32 * Digits(p[1..])) % 18446744073709551616
  }

  /** One command, its head k bytes long: 0 is a literal and its bytes, 1 a match and its distance. */
  predicate PhraseAt(p: seq<byte>, c: Command, k: nat) {
    && 0 < k <= |p|
    && match c
       case Literal(data) => data != [] && Head(p[..k], 0, |data|) && p[k..] == data
       case Match(length, distance) =>
         length >= 1 && distance >= 1 && Head(p[..k], 1, length) && Writes(p[k..], distance)
  }

  ghost predicate Phrase(p: seq<byte>, c: Command) {
    exists k: nat :: PhraseAt(p, c, k)
  }

  /** A sequence of commands; nothing else is one. */
  ghost predicate Sentence(s: seq<byte>, cs: seq<Command>)
    decreases |cs|
  {
    if cs == [] then s == []
    else exists n: nat :: n <= |s| && Phrase(s[..n], cs[0]) && Sentence(s[n..], cs[1..])
  }

  /** What one command makes of the output; the distance is compared with a size of 32 bits. */
  predicate Gives1(out: seq<byte>, c: Command, r: seq<byte>) {
    match c
    case Literal(data) => r == out + data
    case Match(length, distance) =>
      && 1 <= distance <= |out| % 4294967296
      && |r| == |out| + length && r[..|out|] == out
      && forall i :: |out| <= i < |r| ==> r[i] == r[i - distance]
  }

  ghost predicate Gives(out: seq<byte>, cs: seq<Command>, r: seq<byte>)
    decreases |cs|
  {
    if cs == [] then r == out else exists mid :: Gives1(out, cs[0], mid) && Gives(mid, cs[1..], r)
  }

  // ---------------------------------------------------------------------------
  // Numbers and commands are read so

  lemma GroupsAreVluint(p: seq<byte>)
    ensures Groups(p) <==> Vluint.IsVluint(p)
  {
    if p != [] {
      var q := p[..|p| - 1];
      assert forall i :: 0 <= i < |q| ==> q[i] == p[i];
      if Groups(p) { assert Vluint.Continued(q); }
    }
  }

  lemma {:induction false} DigitsAreValue(p: seq<byte>)
    ensures Digits(p) == Vluint.Value(p)
  {
    if p != [] { DigitsAreValue(p[1..]); }
  }

  /** The reader takes the groups in front, if there are any, and nothing else. */
  lemma NumberIsRead(s: seq<byte>, n: nat, k: nat)
    ensures Vluint.Decode(s) == Some((n, k)) <==> k <= |s| && Writes(s[..k], n)
  {
    hide Vluint.IsVluint, Vluint.Value, Vluint.PrefixLength;
    if k <= |s| {
      GroupsAreVluint(s[..k]);
      DigitsAreValue(s[..k]);
      if Groups(s[..k]) { Vluint.PrefixLengthUnique(s, k); }
    }
    DecodedPrefix(s);
  }

  lemma DecodedPrefix(s: seq<byte>)
    ensures var r := Vluint.Decode(s);
      r.Some? ==> r.value.1 <= |s| && Vluint.IsVluint(s[..r.value.1])
                  && r.value.0 == Vluint.Value(s[..r.value.1]) % TWO64
  {
  }

  lemma FirstByte(b: byte, c: nat)
    requires c < 4
    ensures b == c + 8 * (b / 8) <==> b % 4 == c && b / 4 % 2 == 0
    ensures b == c + 4 + 8 * (b / 8) <==> b % 4 == c && b / 4 % 2 == 1
  {
  }

  lemma WrapInside(low: nat, high: nat)
    ensures (low + 32 * (high % TWO64)) % TWO64 == (low + 32 * high) % TWO64
  {
    var q := high / TWO64;
    assert high == TWO64 * q + high % TWO64;
    assert low + 32 * high == low + 32 * (high % TWO64) + TWO64 * (32 * q);
    AddWraps(low + 32 * (high % TWO64), 32 * q);
  }

  lemma AddWraps(a: nat, k: nat)
    ensures (a + TWO64 * k) % TWO64 == a % TWO64
  {
    assert a + TWO64 * k == TWO64 * (a / TWO64 + k) + a % TWO64;
  }

  lemma HeadReads(s: seq<byte>, c: nat, n: nat, k: nat)
    requires s != [] && 0 < k <= |s| && Head(s[..k], c, n)
    ensures ParseArg(s) == Some((c, n, k))
  {
    hide Vluint.Decode, Groups, Digits;
    var p := s[..k];
    FirstByte(s[0], c);
    if k > 1 {
      var high := s[1..][..k - 1];
      assert p[1..] == high;
      NumberIsRead(s[1..], Digits(high) % TWO64, k - 1);
      WrapInside(s[0] / 8, Digits(high));
    }
  }

  lemma ReadIsHead(s: seq<byte>)
    requires s != [] && ParseArg(s).Some?
    ensures var (c, n, k) := ParseArg(s).value; Head(s[..k], c, n)
  {
    hide Vluint.Decode, Groups, Digits;
    var c := s[0] % 4;
    FirstByte(s[0], c);
    if s[0] / 4 % 2 == 1 {
      var (high, j) := Vluint.Decode(s[1..]).value;
      NumberIsRead(s[1..], high, j);
      var p := s[..1 + j];
      assert p[1..] == s[1..][..j];
      NotEmpty(s[1..][..j]);
      WrapInside(s[0] / 8, Digits(s[1..][..j]));
    }
  }

  lemma NotEmpty(p: seq<byte>)
    requires Groups(p)
    ensures p != []
  {
  }

  lemma PhraseReads(p: seq<byte>, c: Command, rest: seq<byte>)
    requires Phrase(p, c)
    ensures ParseCommand(p + rest) == Some((c, |p|))
  {
    hide Head, Groups, Digits, ParseArg, Vluint.Decode;
    var k: nat :| PhraseAt(p, c, k);
    var s := p + rest;
    assert s[..k] == p[..k];
    match c
    case Literal(data) =>
      HeadReads(s, 0, |data|, k);
      assert s[k..k + |data|] == p[k..];
    case Match(length, distance) =>
      HeadReads(s, 1, length, k);
      var d := |p| - k;
      assert s[k..][..d] == p[k..];
      NumberIsRead(s[k..], distance, d);
  }

  lemma ReadIsPhrase(s: seq<byte>)
    requires s != [] && ParseCommand(s).Some?
    ensures var (c, k) := ParseCommand(s).value; Phrase(s[..k], c)
  {
    hide Head, Groups, Digits, ParseArg, Vluint.Decode;
    ReadIsHead(s);
    var (number, n, k) := ParseArg(s).value;
    var (c, m) := ParseCommand(s).value;
    var p := s[..m];
    match c {
      case Literal(data) =>
        assert p[..k] == s[..k] && p[k..] == data;
      case Match(length, distance) =>
        NumberIsRead(s[k..], distance, m - k);
        assert p[..k] == s[..k] && p[k..] == s[k..][..m - k];
    }
    assert PhraseAt(p, c, k);
  }

  /** Command sequences are read as exactly the sentences they are. */
  lemma {:induction false} ParseIffSentence(s: seq<byte>, cs: seq<Command>)
    ensures Parse(s) == Some(cs) <==> Sentence(s, cs)
    decreases |s|
  {
    hide ParseCommand, Phrase;
    if s == [] {
      NothingIsSentence(cs);
    } else {
      if Sentence(s, cs) { SentenceReads(s, cs); }
      if Parse(s) == Some(cs) { ReadIsSentence(s); }
    }
  }

  lemma NothingIsSentence(cs: seq<Command>)
    ensures Sentence([], cs) <==> cs == []
  {
  }

  lemma SentenceReads(s: seq<byte>, cs: seq<Command>)
    requires s != [] && Sentence(s, cs)
    ensures Parse(s) == Some(cs)
    decreases |s|, 0
  {
    hide ParseCommand, Phrase;
    var n: nat :| n <= |s| && Phrase(s[..n], cs[0]) && Sentence(s[n..], cs[1..]);
    PhraseReads(s[..n], cs[0], s[n..]);
    assert s[..n] + s[n..] == s;
    ParseIffSentence(s[n..], cs[1..]);
    assert [cs[0]] + cs[1..] == cs;
  }

  lemma ReadIsSentence(s: seq<byte>)
    requires s != [] && Parse(s).Some?
    ensures Sentence(s, Parse(s).value)
    decreases |s|, 0
  {
    hide ParseCommand, Phrase;
    var (c, k) := ParseCommand(s).value;
    ReadIsPhrase(s);
    var rest := Parse(s[k..]).value;
    ParseIffSentence(s[k..], rest);
    var cs := [c] + rest;
    assert cs[0] == c && cs[1..] == rest;
    assert Phrase(s[..k], cs[0]) && Sentence(s[k..], cs[1..]);
  }

  lemma {:induction false} GivesIsApplyAll(out: seq<byte>, cs: seq<Command>, r: seq<byte>)
    ensures Gives(out, cs, r) <==> ApplyAll(out, cs) == Some(r)
    decreases |cs|
  {
    hide Apply, Gives1;
    if cs != [] {
      if Gives(out, cs, r) {
        var mid :| Gives1(out, cs[0], mid) && Gives(mid, cs[1..], r);
        Gives1IsApply(out, cs[0], mid);
        GivesIsApplyAll(mid, cs[1..], r);
      }
      if ApplyAll(out, cs) == Some(r) {
        var mid := Apply(out, cs[0]).value;
        Gives1IsApply(out, cs[0], mid);
        GivesIsApplyAll(mid, cs[1..], r);
      }
    }
  }

  lemma Gives1IsApply(out: seq<byte>, c: Command, r: seq<byte>)
    ensures Gives1(out, c, r) <==> Apply(out, c) == Some(r)
  {
    if c.Match? && 1 <= c.distance <= |out| % TWO32 {
      CopyCharacterized(out, r, c.length, c.distance);
    }
  }

  lemma SentenceDecodes(s: seq<byte>, cs: seq<Command>, out: seq<byte>, r: seq<byte>)
    requires Sentence(s, cs) && Gives(out, cs, r)
    ensures Decode(s, out) == Verdict(true, r)
  {
    hide Decode, Parse, ApplyAll, Sentence, Gives;
    DecodeIsParseThenApply(s, out);
    ParseIffSentence(s, cs);
    GivesIsApplyAll(out, cs, r);
  }

  /**
   The chunk decoder on arbitrary bytes: it succeeds with an output exactly if they are a sentence
   that gives it, from the output before.
   */
  lemma DecodeIffSentence(s: seq<byte>, out: seq<byte>, r: seq<byte>)
    ensures Decode(s, out) == Verdict(true, r) <==> exists cs :: Sentence(s, cs) && Gives(out, cs, r)
  {
    hide Decode, Parse, ApplyAll, Sentence, Gives;
    DecodeIsParseThenApply(s, out);
    if Decode(s, out) == Verdict(true, r) {
      var cs := Parse(s).value;
      ParseIffSentence(s, cs);
      GivesIsApplyAll(out, cs, r);
    }
    if cs :| Sentence(s, cs) && Gives(out, cs, r) { SentenceDecodes(s, cs, out, r); }
  }

  // ---------------------------------------------------------------------------
  // Chunks and streams

  /** "deezwhat", version 1, little-endian. */
  predicate Begins(s: seq<byte>) {
    |s| >= 16 && s[..12] == [100, 101, 101, 122, 119, 104, 97, 116, 1, 0, 0, 0]
  }

  function Announced(s: seq<byte>): nat
    requires |s| >= 16
  {
    s[12] as int + 256 * s[13] as int + 65536 * s[14] as int + 16777216 * s[15] as int
  }

  /** A chunk of n bytes at the front of s, with something in it. */
  predicate ChunkAt(s: seq<byte>, n: nat) {
    16 < n <= |s| && Begins(s) && Announced(s) == n
  }

  /** What is no chunk yet: too short for a header and a byte, or announcing more than is there. */
  predicate Incomplete(s: seq<byte>) {
    |s| <= 16 || (Begins(s) && Announced(s) > |s|)
  }

  /** Chunks from the front as long as there are complete ones, and what is left. */
  ghost predicate StreamGives(s: seq<byte>, out: seq<byte>, r: seq<byte>, rest: seq<byte>)
    decreases |s|
  {
    if Incomplete(s) then r == out && rest == s
    else
      exists n: nat, cs, mid ::
        ChunkAt(s, n) && Sentence(s[16..n], cs) && Gives(out, cs, mid) && StreamGives(s[n..], mid, r, rest)
  }

  lemma HeaderInDigits(s: seq<byte>)
    requires |s| >= 16
    ensures GoodHeader(s) <==> Begins(s)
    ensures ChunkSize(s) == Announced(s)
  {
    var v := s[8..12];
    assert v[0] == s[8] && v[1] == s[9] && v[2] == s[10] && v[3] == s[11];
    Le4(v);
    var z := s[12..16];
    assert z[0] == s[12] && z[1] == s[13] && z[2] == s[14] && z[3] == s[15];
    Le4(z);
    hide Le;
    assert s[..12] == s[..8] + s[8..12];
    if s[..8] == MAGIC && Le(v) == 1 { assert v == [1, 0, 0, 0]; }
    if Begins(s) { assert s[..8] == s[..12][..8] && v == s[..12][8..]; }
  }

  /**
   `dzip_inflate_range` on arbitrary bytes: it succeeds, with an output and a rest, exactly if they
   are chunks of sentences that give the output, and then that rest.
   */
  lemma {:induction false} RangeIffStream(s: seq<byte>, out: seq<byte>, r: seq<byte>, rest: seq<byte>)
    ensures DecodeRange(s, out) == Done(r, rest) <==> StreamGives(s, out, r, rest)
    decreases |s|
  {
    hide Decode, Sentence, Gives, GoodHeader, ChunkSize, Begins, Announced;
    if |s| > 16 {
      HeaderInDigits(s);
      if Begins(s) && Announced(s) <= |s| {
        if StreamGives(s, out, r, rest) { StreamDecodes(s, out, r, rest); }
        if DecodeRange(s, out) == Done(r, rest) { DecodedStream(s, out, r, rest); }
      }
    }
  }

  lemma StreamDecodes(s: seq<byte>, out: seq<byte>, r: seq<byte>, rest: seq<byte>)
    requires |s| > 16 && !Incomplete(s) && StreamGives(s, out, r, rest)
    ensures DecodeRange(s, out) == Done(r, rest)
    decreases |s|, 0
  {
    hide Decode, Sentence, Gives, GoodHeader, ChunkSize, Begins, Announced;
    HeaderInDigits(s);
    var n: nat, cs, mid :|
      ChunkAt(s, n) && Sentence(s[16..n], cs) && Gives(out, cs, mid) && StreamGives(s[n..], mid, r, rest);
    SentenceDecodes(s[16..n], cs, out, mid);
    assert DecodeChunk(s, out) == Verdict(true, mid);
    RangeIffStream(s[n..], mid, r, rest);
  }

  lemma DecodedStream(s: seq<byte>, out: seq<byte>, r: seq<byte>, rest: seq<byte>)
    requires |s| > 16 && !Incomplete(s) && DecodeRange(s, out) == Done(r, rest)
    ensures StreamGives(s, out, r, rest)
    decreases |s|, 0
  {
    hide Decode, Sentence, Gives, GoodHeader, ChunkSize, Begins, Announced;
    HeaderInDigits(s);
    var n := Announced(s);
    var mid := DecodeChunk(s, out).out;
    assert DecodeChunk(s, out).ok && n > 16;
    DecodeIffSentence(s[16..n], out, mid);
    var cs :| Sentence(s[16..n], cs) && Gives(out, cs, mid);
    RangeIffStream(s[n..], mid, r, rest);
    assert ChunkAt(s, n) && StreamGives(s[n..], mid, r, rest);
  }

  // ---------------------------------------------------------------------------
  // What the encoder writes

  lemma WrittenNumber(n: uint64)
    ensures Writes(Vluint.Encode(n), n)
    ensures forall p :: Writes(p, n) ==> |Vluint.Encode(n)| <= |p|
  {
    hide Vluint.Encode, Vluint.Decode, Groups, Digits;
    var e := Vluint.Encode(n);
    Vluint.RoundTrip(n, []);
    assert e + [] == e && e[..|e|] == e;
    NumberIsRead(e, n, |e|);
    forall p | Writes(p, n) ensures |e| <= |p| {
      assert p[..|p|] == p;
      NumberIsRead(p, n, |p|);
      Vluint.WriterIsShortest(p, n);
    }
  }

  /** The head of a command is one byte for arguments below 32, and as short as it can be. */
  lemma WrittenHead(c: nat, n: uint64)
    requires c < 4
    ensures Head(EncodeArg(c, n), c, n)
    ensures n < 32 ==> EncodeArg(c, n) == [c + 8 * n]
    ensures forall p :: Head(p, c, n) ==> |EncodeArg(c, n)| <= |p|
  {
    hide Vluint.Encode, Groups, Digits, ParseArg;
    var e := EncodeArg(c, n);
    ArgRoundTrip(c, n, []);
    assert e + [] == e && e[..|e|] == e;
    ReadIsHead(e);
    forall p | Head(p, c, n) ensures |e| <= |p| {
      if n >= 32 { LongHead(p, c, n); }
    }
  }

  lemma LongHead(p: seq<byte>, c: nat, n: uint64)
    requires c < 4 && n >= 32 && Head(p, c, n)
    ensures 1 + |Vluint.Encode(n / 32)| <= |p|
  {
    hide Vluint.Encode, Groups, Digits;
    var high := Digits(p[1..]);
    WrapInside(p[0] / 8, high);
    var h := high % TWO64;
    assert (p[0] / 8 + 32 * h) % TWO64 == n;
    HighGroups(p[1..], h, p[0] / 8, n);
  }

  /** The groups of a wrapped argument are no shorter than those of its own higher part. */
  lemma HighGroups(q: seq<byte>, h: uint64, low: nat, n: uint64)
    requires Writes(q, h) && low < 32 && n >= 32 && (low + 32 * h) % TWO64 == n
    ensures |Vluint.Encode(n / 32)| <= |q|
  {
    hide Vluint.Encode, Writes;
    WrittenNumber(h);
    HigherPart(h, low, n);
    Vluint.EncodeLength(h, |Vluint.Encode(h)|);
    Vluint.EncodeLength(n / 32, |Vluint.Encode(h)|);
  }

  lemma HigherPart(h: uint64, low: nat, n: uint64)
    requires low < 32 && (low + 32 * h) % TWO64 == n
    ensures n / 32 <= h
  {
    var t := low + 32 * h;
    assert t == TWO64 * (t / TWO64) + n;
    assert n <= t;
  }

  /** Every command is written as a phrase for it, and as no longer one than there is. */
  lemma WrittenPhrase(c: Command)
    requires Emittable(c)
    ensures Phrase(EncodeCommand(c), c)
    ensures forall p :: Phrase(p, c) ==> |EncodeCommand(c)| <= |p|
  {
    hide EncodeArg, Vluint.Encode, Head, Writes;
    var e := EncodeCommand(c);
    var number, n: uint64 := if c.Literal? then 0 else 1, if c.Literal? then |c.data| else c.length;
    var k := |EncodeArg(number, n)|;
    WrittenHead(number, n);
    assert e[..k] == EncodeArg(number, n);
    if c.Match? { WrittenNumber(c.distance); }
    assert PhraseAt(e, c, k);
    forall p | Phrase(p, c) ensures |e| <= |p| {
      var j: nat :| PhraseAt(p, c, j);
      assert Head(p[..j], number, n);
    }
  }

  lemma {:induction false} WrittenSentence(cs: seq<Command>)
    requires AllEmittable(cs)
    ensures Sentence(EncodeAll(cs), cs)
  {
    hide Sentence, Parse;
    ParseInvertsEncode(cs);
    ParseIffSentence(EncodeAll(cs), cs);
  }
}
