/**
 The streaming dzip format (junked/dzip-working-immediate): commands, the circular window both
 sides keep, and what a command sequence means as an extension of the bytes seen so far.
 */
module StreamFormat {
  import opened Bytes

  const WINDOW := 65535
  const COMPACT_MAX := 32
  const EXTEND_BIT := 4
  const COMMAND_MAX := 4
  const META_MAX := 8
  /** The largest argument a command can carry: thirteen bits. */
  const EXTEND_MASK := 8191

  const CMD_LITERAL := 0
  const CMD_MATCH := 1

  /** "deezwhat" */
  const MAGIC: seq<byte> := [100, 101, 101, 122, 119, 104, 97, 116]

  datatype Command =
    | Literal(data: seq<byte>)
    | Match(length: nat, distance: nat)

  /** The arguments that fit: lengths 1 to 8191, distances below the window size, zero included. */
  predicate Emittable(c: Command) {
    match c
    case Literal(data) => 1 <= |data| <= EXTEND_MASK
    case Match(length, distance) => 1 <= length <= EXTEND_MASK && distance < WINDOW
  }

  predicate AllEmittable(cs: seq<Command>) {
    forall i :: 0 <= i < |cs| ==> Emittable(cs[i])
  }

  function EncodeArg(command: nat, arg: nat): seq<byte>
    requires command < COMMAND_MAX && arg <= EXTEND_MASK
  {
    if arg < COMPACT_MAX then
      [command + META_MAX * arg]
    else
      [command + EXTEND_BIT + META_MAX * (arg % COMPACT_MAX), arg / COMPACT_MAX]
  }

  function EncodePoint(n: nat): seq<byte>
    requires n < TWO16
  {
    [n % 0x100, n / 0x100]
  }

  function EncodeCommand(c: Command): seq<byte>
    requires Emittable(c)
  {
    match c
    case Literal(data) => EncodeArg(CMD_LITERAL, |data|) + data
    case Match(length, distance) => EncodeArg(CMD_MATCH, length) + EncodePoint(distance)
  }

  function EncodeAll(cs: seq<Command>): seq<byte>
    requires AllEmittable(cs)
  {
    if cs == [] then [] else EncodeCommand(cs[0]) + EncodeAll(cs[1..])
  }

  // ---------------------------------------------------------------------------
  // The circular window

  /** The window after the bytes of h have gone through it; it starts as zeros. */
  function WindowOf(h: seq<byte>): (w: seq<byte>)
    ensures |w| == WINDOW
  {
    if h == [] then seq(WINDOW, i => 0)
    else
      var n := |h| - 1;
      WindowOf(h[..n])[n % WINDOW := h[n]]
  }

  lemma WindowOfSnoc(h: seq<byte>, b: byte)
    ensures WindowOf(h + [b]) == WindowOf(h)[|h| % WINDOW := b]
  {
    assert (h + [b])[..|h|] == h;
  }

  /** Until 65535 more bytes have come, a byte is still found at its place. */
  lemma {:induction false} WindowKeeps(h: seq<byte>, p: nat)
    requires p < |h| <= p + WINDOW
    ensures WindowOf(h)[p % WINDOW] == h[p]
    decreases |h|
  {
    var n := |h| - 1;
    if p < n {
      WindowKeeps(h[..n], p);
      DistinctSlots(p, n);
    }
  }

  lemma DistinctSlots(p: nat, n: nat)
    requires p < n < p + WINDOW
    ensures p % WINDOW != n % WINDOW
  {
  }

  // ---------------------------------------------------------------------------
  // Meaning

  /** The byte a match copies next: the window slot `distance` before the stream position. */
  function Source(h: seq<byte>, distance: nat): byte
    requires distance < WINDOW
  {
    WindowOf(h)[(WINDOW + |h| - distance) % WINDOW]
  }

  function Extend(h: seq<byte>, length: nat, distance: nat): (r: seq<byte>)
    requires distance < WINDOW
    ensures h <= r && |r| == |h| + length
    decreases length
  {
    if length == 0 then h else Extend(h + [Source(h, distance)], length - 1, distance)
  }

  function Apply(h: seq<byte>, c: Command): (r: seq<byte>)
    requires Emittable(c)
    ensures h <= r
  {
    match c
    case Literal(data) => h + data
    case Match(length, distance) => Extend(h, length, distance)
  }

  function ApplyAll(h: seq<byte>, cs: seq<Command>): (r: seq<byte>)
    requires AllEmittable(cs)
    ensures h <= r
    decreases |cs|
  {
    if cs == [] then h else ApplyAll(Apply(h, cs[0]), cs[1..])
  }

  lemma {:induction false} EncodeAllConcat(a: seq<Command>, b: seq<Command>)
    requires AllEmittable(a) && AllEmittable(b)
    ensures AllEmittable(a + b) && EncodeAll(a + b) == EncodeAll(a) + EncodeAll(b)
  {
    hide EncodeCommand;
    if a == [] {
      assert a + b == b;
    } else {
      EncodeAllConcat(a[1..], b);
      assert (a + b)[1..] == a[1..] + b;
      Associative(EncodeCommand(a[0]), EncodeAll(a[1..]), EncodeAll(b));
    }
  }

  lemma {:induction false} ApplyAllConcat(h: seq<byte>, a: seq<Command>, b: seq<Command>)
    requires AllEmittable(a) && AllEmittable(b)
    ensures AllEmittable(a + b) && ApplyAll(h, a + b) == ApplyAll(ApplyAll(h, a), b)
    decreases |a|
  {
    hide Apply;
    if a == [] {
      assert a + b == b;
    } else {
      ApplyAllConcat(Apply(h, a[0]), a[1..], b);
      assert (a + b)[1..] == a[1..] + b;
    }
  }
}
