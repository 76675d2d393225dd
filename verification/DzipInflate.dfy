/** The chunk decoder (src/dzip/inflate/inflate.c). */
module DzipInflate {
  import opened Bytes
  import opened DzipFormat
  import Vluint

  /** `dzip_inflate`: refines the command semantics on arbitrary chunk bytes. */
  method Inflate(chunk: seq<byte>, output: Buffer) returns (ok: bool)
    requires Readable(chunk)
    modifies output
    ensures Verdict(ok, output.bytes) == DecodeChunk(chunk, old(output.bytes))
  {
    if chunk[..8] != MAGIC { return false; }
    if Le(chunk[8..12]) != VERSION { return false; }
    if ChunkSize(chunk) <= HEADER_SIZE { return false; }
    Le4(chunk[12..16]);
    var input := chunk[HEADER_SIZE..ChunkSize(chunk)];

    while input != []
      invariant |input| < TWO32
      invariant Decode(input, output.bytes) == DecodeChunk(chunk, old(output.bytes))
      decreases |input|
    {
      var more;
      more, input := InflateCommand(input, output);
      if !more { return false; }
    }
    return true;
  }

  /**
   One round from `read_cmd` back to `read_cmd`: either the command is carried out and `rest`
   is what follows it, or the function fails with the output as it was.
   */
  method InflateCommand(input: seq<byte>, output: Buffer) returns (ok: bool, rest: seq<byte>)
    requires input != [] && |input| < TWO32
    modifies output
    ensures var c := ParseCommand(input);
      if c.None? || Apply(old(output.bytes), c.value.0).None? then
        !ok && output.bytes == old(output.bytes)
      else
        ok && rest == input[c.value.1..] && Some(output.bytes) == Apply(old(output.bytes), c.value.0)
  {
    hide Copy, ParseArg;
    var arg := ReadArg(input);
    if arg.None? { return false, input; }
    var (command, arg1, k) := arg.value;
    rest := input[k..];
    assert |rest| % TWO32 == |rest| == |input| - k;

    // cmd_switch
    if command == CMD_LITERAL {
      if arg1 == 0 { return false, rest; }
      if arg1 > |rest| % TWO32 { return false, rest; }
      assert rest[..arg1] == input[k..k + arg1];
      assert rest[arg1..] == input[k + arg1..];
      output.Append(rest[..arg1]);
      return true, rest[arg1..];
    } else if command == CMD_MATCH {
      if arg1 == 0 { return false, rest; }
      var arg2 := Vluint.Read(rest);
      if arg2.None? { return false, rest; }
      var (distance, d) := arg2.value;
      assert rest[d..] == input[k + d..];
      rest := rest[d..];
      if distance == 0 { return false, rest; }
      var outputSize := |output.bytes| % TWO32;
      if distance > outputSize { return false, rest; }
      CopyOut(output, arg1, distance);
      return true, rest;
    } else {
      return false, rest;
    }
  }

  /** `read_cmd` and `read_extended_arg1`. */
  method ReadArg(input: seq<byte>) returns (r: Option<(nat, uint64, nat)>)
    requires input != []
    ensures r == ParseArg(input)
  {
    var command: nat := input[0] % COMMAND_MAX;
    var arg1: uint64 := input[0] / META_MAX % COMPACT_MAX;
    var extend := input[0] / EXTEND_BIT % 2 == 1;
    if !extend { return Some((command, arg1, 1)); }
    var high := Vluint.Read(input[1..]);
    if high.None? { return None; }
    arg1 := (arg1 + COMPACT_MAX * high.value.0) % TWO64;
    return Some((command, arg1, 1 + high.value.1));
  }

  /** The copying loop of `read_match`. */
  method CopyOut(output: Buffer, length: uint64, distance: uint64)
    requires 1 <= distance <= |output.bytes|
    modifies output
    ensures output.bytes == Copy(old(output.bytes), length, distance)
  {
    var arg1: uint64 := length;
    while arg1 > 0
      invariant distance <= |output.bytes|
      invariant Copy(output.bytes, arg1, distance) == Copy(old(output.bytes), length, distance)
    {
      var copy := output.bytes[|output.bytes| - distance];
      output.Push(copy);
      arg1 := arg1 - 1;
    }
  }
}
