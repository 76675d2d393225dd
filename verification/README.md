# Verified model of the prog-dir core

A Dafny model of the algorithmic parts of the repository, and proofs about it:

- **vluint** (`Vluint.dfy`): the variable-length integers, in wrapping 64-bit arithmetic.
- **dzip chunks** (`DzipFormat`, `DzipDeflate`, `DzipInflate`, `DzipRoundTrip`, `DzipOutput`, `DzipFraming`,
  `DzipGrammar`, `DzipMatching`): the greedy LZ77 encoder with its lossy, never reset table; the decoder; the
  chunk framing over partial input; the round trip over whole streams; the bound on expansion.
- **dzip streaming** (`StreamFormat`, `StreamDeflate`, `StreamInflate`, `StreamRoundTrip`, `StreamGrammar`,
  `StreamMatching`): the encoder that holds back a literal and a growing match over a circular window, the
  resumable decoder, and the round trip over any calls on either side. The link between the two is the *history*, the bytes that have passed so
  far: both windows are a function of it, also where a match reads bytes never written.
- **assembler and VM** (`Machine`, `MachineLaws`, `Assembler`, `CompilerCorrectness`, `TreeMeaning`): structured
  routines compiled by back-patching, run by the accumulator machine.
- **chained table and interning** (`ChainedTable`, `Immutable`): chains of linked items, relinked in place.
- **paren parser and macros** (`ParenText`, `ParenGrammar`, `ParenTree`, `ParenParser`, `ParenMacro`): what a text
  means, the one-pass parser over linked nodes, and macro application on a shared body.
- **chain-io** (`ChainRead`, `ChainWrite`): the lazily compacted read buffer and the deferred write buffer.

Code that changes things step by step is a class or a method with loops, proved against a function of its
inputs or its old state; the laws are lemmas about those functions. Linked nodes are real heap objects; the
proofs about them use a *picture*, a map of the pointers, that the class invariant ties to the heap. `Bytes.dfy`
holds bytes, fixed-width integers and the growable buffer.

Beside the laws that relate a component's parts to each other, each has laws that fix its answer from outside:
formats as grammars in digits (`DzipGrammar`, `StreamGrammar`, `ParenGrammar`), instructions and source trees over
plain bytes and keywords (`MachineLaws`, `TreeMeaning`), encoders over the bytes they see (`DzipMatching`,
`StreamMatching`), readers and writers over the answers of their source and sink (end of `ChainRead`, `ChainWrite`).

`dafny verify dfyconfig.toml` checks everything.

## Choices

- Bit operations on bytes are written as the arithmetic they perform (`& 3` as `% 4`, `>> 3` as `/ 8`, `|` of
  disjoint bits as `+`); narrowing and wrapping are explicit `%`. Words are little-endian.
- A `char` of the streaming window is compared with an `unsigned char`; where `char` is signed, bytes from 128
  on never compare equal. Signedness is a parameter, and the law holds for both.
- The chunk codec keeps two sizes in 32 bits, and its round trip has a condition from each. The encoder resizes
  its output buffer from the truncated size, so a call appends its chunks exactly if each starts below 2^32
  bytes (`StartsBelow`, `BuffersStayBelow`); otherwise it loses bytes, and `LostInput` is an input for which the
  decoder then reports success with the wrong output. The decoder compares distances with the output's size
  modulo 2^32, so complete chunks decode exactly if no distance exceeds that number (`DistancesFit`); otherwise it
  refuses, and `SizeLimitIsReal` is an input. From lengths alone, `BuffersAreSmall` implies the first condition
  and `NoCallCrosses`, that no chunk steps over a multiple of 2^32, the second.
- An empty first call of the streaming encoder makes the next call write the magic again.
  `StreamingRoundTripExactly` says that, for inputs that do not begin with the magic's own last six bytes, the
  law holds exactly when the first call is the only one or is not empty.
- A text is a byte string without NUL. `paren_parse` returns null both for a refused and for a blank text.
- Undefined behaviour of the VM's signed arithmetic is an outcome of its own; direct evaluation and machine meet
  it together. Float operations are parameters. Operand resolution is a parameter of the assembler.
- The source of a `chain_read` and the sink of a `chain_write` are any finite list of answers; once it is used
  up they answer "complete".

## Model

| member | source | states |
|---|---|---|
| `Vluint.Read` | src/vluint/vluint.c:15-58 | the loop with its wrapping `power` and `result` returns exactly: nothing on a string without a final byte, else the base-128 value of the first number modulo 2^64 and its length |
| `Vluint.Write` | src/vluint/vluint.c:60-73 | appends the encoding of the number and nothing else |
| `Vluint.RoundTrip` | src/vluint/vluint.c:15-73 | for every 64-bit number and every suffix, reading the encoding gives the number and stops where the encoding ends |
| `Vluint.PrefixFree` | src/vluint/vluint.c:60-73 | no encoding is a prefix of another number's |
| `Vluint.WriterIsShortest` | src/vluint/vluint.c:15-73 | no byte string that reads back to a number, by wrapping or not, is shorter than the writer's |
| `Vluint.ReaderNeverWraps` | src/vluint/vluint.c:22-52 | on the writer's output neither `power` nor `result` leaves 64 bits while the reader needs them |
| `Vluint.EncodeLength` | src/vluint/vluint.c:60-73 | an encoding has at most k bytes exactly when the number is below 128^k |
| `Vluint.PrefixLengthUnique` | src/vluint/vluint.c:24-50 | a prefix that is one number is the prefix the reader takes |
| `DzipInflate.Inflate` | src/dzip/inflate/inflate.c:19-164 | on arbitrary chunk bytes: result and output are those of the command semantics, reading stays inside the chunk, and the loop ends |
| `DzipInflate.InflateCommand` | src/dzip/inflate/inflate.c:50-160 | one round either carries out the one command at the front, or fails with the output untouched; zero, oversized and unknown arguments fail |
| `DzipInflate.ReadArg` | src/dzip/inflate/inflate.c:59-88 | command number, 64-bit wrapping argument and bytes used, or truncation |
| `DzipInflate.CopyOut` | src/dzip/inflate/inflate.c:153-158 | the byte loop is the overlapping copy of the semantics |
| `DzipFormat.CopyCharacterized` | src/dzip/inflate/inflate.c:153-158 | the copying loop yields the one extension in which every new byte repeats the byte `distance` before it, overlap included |
| `DzipFormat.DecodeAppends` | src/dzip/inflate/inflate.c:119-158 | decoding, failing or not, only appends to the output |
| `DzipFormat.DecodeIsParseThenApply` | src/dzip/inflate/inflate.c:50-160 | decoding succeeds exactly when the bytes parse as commands and each is defined on the output before it, and then gives that output |
| `DzipFormat.ArgRoundTrip` | src/dzip/deflate/deflate.c:55-72 | every command number with every 64-bit argument is read back from what `write_command` wrote, whatever follows |
| `DzipFormat.CommandRoundTrip` | src/dzip/deflate/deflate.c:74-112 | every literal and match the encoder may write parses back to itself and nothing more |
| `DzipFormat.ParseInvertsEncode` | src/dzip/deflate/deflate.c:74-112 | a whole written command sequence parses back to the same sequence |
| `DzipFormat.HeaderRoundTrip` | src/dzip/deflate/deflate.c:191-196 | magic, version and little-endian chunk size are read back from a written header |
| `DzipFormat.AppliesIffDistancesFit` | src/dzip/inflate/inflate.c:146-151 | well-formed commands are carried out if and only if every match distance is at most the size of the output before it, taken modulo 2^32 |
| `DzipDeflate.CheckMatch` | src/dzip/deflate/deflate.c:114-127 | the length found is the length of the repeat |
| `DzipDeflate.WriteCommand` | src/dzip/deflate/deflate.c:55-72 | appends the compact or the extended form of the command |
| `DzipDeflate.DeflateState.WriteLiteral` | src/dzip/deflate/deflate.c:74-94 | appends the pending literal, if any, as one command; nothing is pending afterwards |
| `DzipDeflate.DeflateState.WriteMatch` | src/dzip/deflate/deflate.c:96-112 | appends the match and moves both positions behind it |
| `DzipDeflate.DeflateState.SetupMatch` | src/dzip/deflate/deflate.c:129-153 | the table entry of the four bytes is replaced by the position; the candidate is measured only if it lies before the position |
| `DzipDeflate.DeflateState.Round` | src/dzip/deflate/deflate.c:168-185 | one round changes fields, table and output as the encoder function's step does |
| `DzipDeflate.DeflateState.DeflateWindow` | src/dzip/deflate/deflate.c:162-189 | the loop and the last literal write exactly the chunk's commands and leave the chunk's table |
| `DzipDeflate.DeflateState.DeflateChunk` | src/dzip/deflate/deflate.c:155-197 | resizes the output from its size taken modulo 2^32, whatever it holds, and appends one chunk there, its header patched in last with the truncated 32-bit size |
| `DzipDeflate.DeflateState.Deflate` | src/dzip/deflate/deflate.c:199-232 | the chunks of the input cut at the maximum size, each written where the buffer's 32-bit size says, the table carried from chunk to chunk; for every buffer and input |
| `DzipRoundTrip.MatchLengthRepeats` | src/dzip/deflate/deflate.c:114-127 | the match is sound and maximal: every byte of it repeats, the next one does not |
| `DzipRoundTrip.StepFaithful` | src/dzip/deflate/deflate.c:168-185 | every round keeps: the commands written decode to exactly the window up to the pending literal |
| `DzipRoundTrip.ChunkCommandsFaithful` | src/dzip/deflate/deflate.c:155-189 | for every table content and every prior output of whatever size: a chunk's commands give exactly prior plus window if and only if their distances pass the decoder's 32-bit size check, and are refused otherwise; a chunk that steps over no multiple of 2^32 always passes |
| `DzipRoundTrip.MatchesStayInChunk` | src/dzip/deflate/deflate.c:139-146 | every match of a chunk reaches back only into what the chunk itself has produced, which is a prefix of its window |
| `DzipRoundTrip.ChunkRoundTrip` | src/dzip/deflate/deflate.c:155-197 | a chunk followed by anything is a well-formed chunk of its announced size; it decodes to prior plus window if and only if its distances pass the size check, and is refused otherwise |
| `DzipRoundTrip.SizeLimitIsReal` | src/dzip/inflate/inflate.c:146-151 | the check does refuse what the encoder writes: thirteen zeros encoded with a fresh table are refused exactly after those prior sizes for which eight bytes more reach or step over a multiple of 2^32 |
| `DzipRoundTrip.MatchCost` | src/dzip/deflate/deflate.c:96-112 | a match of five bytes or more with a three-byte distance is written in fewer bytes than it covers |
| `DzipRoundTrip.ChunkBound` | src/dzip/deflate/deflate.c:155-197 | a chunk of n <= 2,000,000 bytes is encoded in at most n + n/32 + 17 bytes, for every table content |
| `DzipRoundTrip.DeflateBound` | src/dzip/deflate/deflate.c:199-222 | `dzip_deflate` on n bytes writes at most n + n/32 + 17 * max(1, n/1,000,000) |
| `DzipOutput.AppendsIffStartsBelow` | src/dzip/deflate/deflate.c:155-160 | one call appends exactly its chunks if and only if each starts where the buffer holds fewer than 2^32 bytes |
| `DzipOutput.WrittenIffBelow` | src/dzip/deflate/deflate.c:155-222 | a run of calls over any number of buffers, each starting empty, writes all its chunks if and only if no buffer is appended to once it holds 2^32 bytes |
| `DzipOutput.SmallBuffersStayBelow` | src/dzip/deflate/deflate.c:199-222 | no buffer is, if by the expansion bound the inputs written to it fit 2^32 bytes |
| `DzipOutput.BufferWrapIsReal` | src/dzip/deflate/deflate.c:157-160 | calls that fill one buffer with exactly 2^32 bytes, and one call more: only the last chunk is left |
| `DzipFraming.InflateRange` | src/dzip/inflate/extensions.c:72-111 | complete chunks are decoded from the front and an incomplete one is left; on failure the caller's range does not move |
| `DzipFraming.CutIndependence` | src/dzip/inflate/extensions.c:72-111 | for arbitrary bytes: refusing a prefix settles the whole with the same output, and otherwise going on from the leftover equals one call on everything |
| `DzipFraming.LeftoverIsStable` | src/dzip/inflate/extensions.c:82-108 | a call with nothing new keeps leftover and output |
| `DzipFraming.FeedIsOneCall` | src/dzip/inflate/extensions.c:72-111 | any cut into pieces, leftovers carried over, gives output, leftover and verdict of one call |
| `DzipFraming.DeflateRoundTrip` | src/dzip/deflate/deflate.c:199-232 | one call on any buffer appends all its chunks if and only if each starts below 2^32 bytes; what it then appended, followed by any rest, decodes to the input and leaves that rest if every chunk passes the size check, and is refused if one does not |
| `DzipFraming.StreamRoundTrip` | src/dzip/deflate/deflate.c:199-232 | any number of deflate calls on one state over any number of buffers, any initial table, any prior output, any cut: all chunks are written if and only if no buffer is appended to from 2^32 bytes on; then inflating appends exactly the concatenated inputs and leaves nothing over if every chunk passes the size check, and is refused if one does not; both conditions follow from bounds on the inputs' lengths |
| `DzipFraming.LostInput` | src/dzip/deflate/deflate.c:157-160 | an input for which the first condition fails and the second holds: the decoder reports success with the last call's input alone |
| `DzipFraming.SmallTotalsDoNotCross` | src/dzip/deflate/deflate.c:199-222 | no chunk steps over a multiple of 2^32 while the whole output stays within 2^32 bytes |
| `DzipGrammar.NumberIsRead` | src/vluint/vluint.c:15-58 | groups of seven bits in front are read as their number in 64 bits, minimal or not, and nothing else is |
| `DzipGrammar.ParseIffSentence` | src/dzip/inflate/inflate.c:50-160 | command sequences are read as exactly the sentences of a grammar in digits: 0 is a literal of a non-zero count, 1 a match of a non-zero length and distance; 2, 3, zeros and truncated commands are in none |
| `DzipGrammar.DecodeIffSentence` | src/dzip/inflate/inflate.c:50-160 | on arbitrary bytes the chunk decoder succeeds with an output if and only if they are a sentence that gives it: literals appended, matches repeating what lies their distance back, that distance at most the 32-bit size |
| `DzipGrammar.RangeIffStream` | src/dzip/inflate/extensions.c:72-111 | on arbitrary bytes `dzip_inflate_range` succeeds with an output and a rest if and only if they are chunks (magic, version and size in digits) of sentences that give the output, and then that rest |
| `DzipGrammar.WrittenPhrase` | src/dzip/deflate/deflate.c:55-112 | every command is written as a phrase of the grammar for it, and none is shorter |
| `DzipMatching.WrittenChunk` | src/dzip/deflate/deflate.c:155-197 | what is written for a window is a chunk of the grammar, its body a sentence for the commands |
| `DzipMatching.ChunkOfA` | src/dzip/deflate/deflate.c:155-197 | the chunk of one byte, in full |
| `DzipMatching.RoundTakesRepeats` | src/dzip/deflate/deflate.c:129-185 | one round over the bytes of the window: the position is recorded at its four bytes modulo 16963; five or more bytes that repeat from the position recorded before become one match, as long as it can be, behind the pending literal; otherwise nothing is written |
| `DzipMatching.TableIsCarried` | src/dzip/deflate/deflate.c:129-153 | a chunk leaves the table as it was, except for positions of its own at their own entries |
| `DzipMatching.CutLaw` | src/dzip/deflate/deflate.c:199-222 | chunks of 1,000,000 bytes, the last of up to 2,000,000, the table carried on |
| `DzipMatching.ZerosShrink` | src/dzip/deflate/deflate.c:155-197 | with any table, a chunk of 14 to 2,000,000 zeros is eight or nine of them and one match, in at most 31 bytes |
| `StreamFormat.WindowKeeps` | junked/dzip-working-immediate/internal.h:42-43 | a byte written to the circular window is found at its place until 65535 more have come |
| `StreamInflate.Resumable` | junked/dzip-working-immediate/inflate.c:59-228 | a call on a ++ b gives output, verdict and state of a call on a and, if that succeeds, one on b, from every state a call can leave |
| `StreamInflate.InflateState.Inflate` | junked/dzip-working-immediate/inflate.c:54-229 | the goto machine over a range: output, verdict and saved state are those of the byte-by-byte semantics |
| `StreamInflate.InflateState.RunJob` | junked/dzip-working-immediate/inflate.c:74-222 | each job does to state and output what the semantics says, and goes to the job it says |
| `StreamInflate.InflateState.RunMatchPoint` | junked/dzip-working-immediate/inflate.c:177-202 | two distance bytes are collected, a distance of 65535 is refused, then the whole match is copied |
| `StreamInflate.InflateState.RunSelect` | junked/dzip-working-immediate/inflate.c:132-155 | a zero argument and an unknown command fail; otherwise the job of the command follows |
| `StreamInflate.InflateState.CopyContents` | junked/dzip-working-immediate/inflate.c:204-221 | copying inside the window until the length is reached |
| `StreamDeflate.AddByte` | junked/dzip-working-immediate/deflate.c:114-170 | every byte step keeps literal_begin <= match_to_begin <= bytes_read, match_from_begin <= match_to_begin, the pending span at most 8191, and table entries at most bytes_read |
| `StreamDeflate.Deflater.FinalizeLiteral` | junked/dzip-working-immediate/deflate.c:86-112 | the pending bytes are read back from the window into one literal, if there are any; the 16-bit length is not truncated |
| `StreamDeflate.Deflater.FinalizeMatch` | junked/dzip-working-immediate/deflate.c:132-151 | literal and match are written with lengths and distance that fit their fields |
| `StreamDeflate.Deflater.Break` | junked/dzip-working-immediate/deflate.c:130-165 | at a break: match, full literal or nothing is written, and the next candidate is set up |
| `StreamDeflate.Deflater.AddStateByte` | junked/dzip-working-immediate/deflate.c:114-170 | the code takes the encoder function's step and writes its commands |
| `StreamDeflate.Deflater.WriteLiteral` | junked/dzip-working-immediate/deflate.c:172-183 | pending bytes and given bytes become literals and enter the window |
| `StreamDeflate.Deflater.Deflate` | junked/dzip-working-immediate/deflate.c:185-214 | one call: the magic if nothing was read before, then the call's commands; the last eight bytes are always literal |
| `StreamRoundTrip.PendingIntact` | junked/dzip-working-immediate/deflate.c:106-111 | pending literal bytes are still the input's bytes when they are written |
| `StreamRoundTrip.SameSlot` | junked/dzip-working-immediate/deflate.c:130-134 | the encoder's slot for a match byte and the decoder's slot for the distance modulo 65535 are the same, distance 0 included |
| `StreamRoundTrip.MatchRestores` | junked/dzip-working-immediate/deflate.c:130-139 | carrying out a pending match from the window at its start restores the input bytes it covers, unwritten zeros included |
| `StreamRoundTrip.BreakRestores` | junked/dzip-working-immediate/deflate.c:130-156 | what is written at a break stands for exactly the bytes that stop being pending |
| `StreamRoundTrip.ByteStep` | junked/dzip-working-immediate/deflate.c:114-170 | every byte step keeps the two windows equal and the pending match sound, and its commands extend the decoded history to the new literal_begin |
| `StreamRoundTrip.CallMeansInput` | junked/dzip-working-immediate/deflate.c:185-214 | one call's commands extend the history by exactly its input, for either signedness of `char` |
| `StreamRoundTrip.FeedArg` | junked/dzip-working-immediate/inflate.c:103-155 | compact and extended arguments from 1 to 8191 are read back |
| `StreamRoundTrip.CopyIsExtend` | junked/dzip-working-immediate/inflate.c:204-221 | the decoder's copying loop is the extension of the history by the window slot at the distance |
| `StreamRoundTrip.FeedCommand` | junked/dzip-working-immediate/inflate.c:103-222 | fed the bytes of a command the decoder outputs what the command adds to the history, and waits for the next command with the window of the new history |
| `StreamRoundTrip.FeedWholeMagic` | junked/dzip-working-immediate/inflate.c:76-101 | the eight magic bytes lead from the initial state to the first command |
| `StreamRoundTrip.CutsDoNotMatter` | junked/dzip-working-immediate/inflate.c:54-229 | successive calls on any non-empty pieces end as one call on their concatenation |
| `StreamRoundTrip.StreamingRoundTrip` | junked/dzip-working-immediate/deflate.c:185-214 | for any inputs whose first is non-empty (or which are at most one) and any cut of the encoded bytes, the decoder never fails and outputs exactly the concatenated inputs |
| `StreamRoundTrip.EmptyFirstCallBreaks` | junked/dzip-working-immediate/deflate.c:189-192 | an empty first call followed by any calls, for any cut: the magic stands twice in the stream, and the decoder outputs its last six bytes and then up to 3237 encoded bytes as they are |
| `StreamRoundTrip.StreamingRoundTripExactly` | junked/dzip-working-immediate/deflate.c:185-214 | for any inputs not beginning with the magic's last six bytes, any cut and either signedness: the decoder returns the inputs if and only if the first call is the only one or is not empty |
| `StreamRoundTrip.EmptyThenShortBreaks` | junked/dzip-working-immediate/deflate.c:189-192 | an empty call and then one of at most 16 bytes break the law for every input, also one that begins with those six bytes |
| `StreamMatching.StepTakesRepeats` | junked/dzip-working-immediate/deflate.c:114-170 | one byte step over the bytes that have passed, all cases: what goes on with the match writes nothing; a break writes a match of five bytes or more behind its literal, or a full literal, or nothing; the next match starts from the position recorded for the eight bytes to come, and this one is recorded |
| `StreamMatching.CallLaw` | junked/dzip-working-immediate/deflate.c:185-214 | one call: up to sixteen bytes are one literal; of more, the last eight are one, behind what the steps write and leave pending |
| `StreamMatching.ZerosShrink` | junked/dzip-working-immediate/deflate.c:114-214 | n zeros as a first call make at most the magic, four bytes for every 8191, and two literals |
| `StreamMatching.TwentyZerosNineOnes` | junked/dzip-working-immediate/deflate.c:114-214 | one such call in full: a match on unwritten zeros and two literals, 22 bytes |
| `StreamGrammar.DecoderAccepts` | junked/dzip-working-immediate/inflate.c:54-229 | on arbitrary bytes the decoder accepts exactly the magic, a sentence of a grammar in digits, and an unfinished command; zero arguments, commands 2 and 3 and distance 65535 are in none |
| `StreamGrammar.DecoderMeans` | junked/dzip-working-immediate/inflate.c:54-229 | and puts out what the sentence gives, and of a begun literal what there is |
| `StreamGrammar.MatchLaw` | junked/dzip-working-immediate/inflate.c:204-221 | every byte a match copies is the one its distance back in the stream, distance 0 being 65535, and zero before the start |
| `StreamGrammar.WrittenPhrase` | junked/dzip-working-immediate/deflate.c:56-84 | every command is written as a phrase of the grammar for it, and none is shorter |
| `Machine.Vm.Compute` | backburner/vm/vm.c:40-109 | loads, stores, checked signed arithmetic and float operations at the modular operand address, or undefined behaviour exactly where the C expression has it |
| `Machine.Vm.RunRound` | backburner/vm/vm.c:29-130 | one pass fetches modulo the code length, advances with wrap-around, and jumps, stops, refuses or computes |
| `Machine.Vm.Frame` | backburner/vm/vm.c:16-139 | up to a given number of passes: state and way of ending are those of the round function |
| `Machine.RoundsAdd` | backburner/vm/vm.c:29-131 | rounds compose, and a run that has ended stays ended |
| `MachineLaws.LoadLaw` | backburner/vm/vm.c:52-84 | a load puts the four bytes of its operand into the register and changes nothing else |
| `MachineLaws.StoreLaw` | backburner/vm/vm.c:52-84 | a store leaves the register's word at its operand, and all other bytes and the register alone |
| `MachineLaws.StoreThenLoad` | backburner/vm/vm.c:52-84 | loading back what was stored at the same operand restores the register |
| `MachineLaws.ArithmeticLaw` | backburner/vm/vm.c:60-74 | sum, difference, product and the quotient rounded towards zero of register and operand as signed numbers, if they fit 32 bits; undefined if not |
| `MachineLaws.DivisionByZero` | backburner/vm/vm.c:72-74 | division by a zero operand is undefined |
| `MachineLaws.AddThenSubtract` | backburner/vm/vm.c:60-66 | subtracting the operand just added restores the register |
| `MachineLaws.FloatLaw` | backburner/vm/vm.c:86-100 | float operations take register and operand in this order and change the register alone, by the parameter of their name |
| `MachineLaws.ConversionLaw` | backburner/vm/vm.c:104-110 | the conversions change the register alone |
| `MachineLaws.OperandIsAddress` | backburner/vm/vm.c:40-44 | an operand is the word at its argument, modulo the room in memory after the 32-bit sum |
| `MachineLaws.SmallOperand` | backburner/vm/vm.c:40-44 | arguments that fit the memory stand for themselves |
| `MachineLaws.RoundLaw` | backburner/vm/vm.c:29-131 | exit, the two jumps, unknown opcodes and the computing ones, one round each |
| `Assembler.MachineCode.ParseRecurse` | backburner/vm/assembler.c:253-306 | succeeds exactly when every statement reads, and then appends exactly the positional code of the statements |
| `Assembler.MachineCode.ParseStatement` | backburner/vm/assembler.c:260-297 | nested routine, `ifelse` or instruction, each with its code |
| `Assembler.MachineCode.ParseIfElse` | backburner/vm/assembler.c:151-204 | the reserved slots are patched with the absolute targets; a missing or text body fails |
| `Assembler.MachineCode.ParseInstruction` | backburner/vm/assembler.c:206-251 | unknown keywords, missing operands and operands of `exit` fail |
| `CompilerCorrectness.Simulate` | backburner/vm/vm.c:16-131 | one statement's code, wherever it lies in the array, reaches in at most its own length of rounds what structured evaluation reaches, just past its end if control falls through |
| `CompilerCorrectness.SimulateAll` | backburner/vm/vm.c:16-131 | the same for a sequence of statements |
| `CompilerCorrectness.IfElseParts` | backburner/vm/assembler.c:166-198 | under any nesting, the two patched jumps of an `ifelse` hold the start of its else code and its end |
| `CompilerCorrectness.RunsLikeSource` | backburner/vm/assembler.c:253-306 | any program reaches within as many rounds as it has instructions what its direct evaluation reaches; where it falls off the end, the next fetch is the first instruction |
| `CompilerCorrectness.AssembledProgramIsCorrect` | backburner/vm/assembler.c:151-306 | an assembled program ending in `exit` stops within its length with the memory and result of direct evaluation, or in the same undefined operation, for every memory, frame, result and operand resolution |
| `CompilerCorrectness.ReadIsSourced` | backburner/vm/assembler.c:206-251 | what the assembler reads contains no hand-written jump |
| `CompilerCorrectness.AllJumpTargets` | backburner/vm/assembler.c:166-198 | every emitted jump target lies after the jump and at most at the end of the code |
| `CompilerCorrectness.AssembledProgramNeverWraps` | backburner/vm/vm.c:31-32 | an assembled program ending in `exit` never relies on the wrap of the instruction pointer: before every fetch of every run the pointer is inside the code and has moved on by at least one for every round |
| `CompilerCorrectness.RunProgram` | backburner/vm/vm.c:16-139 | the unlimited loop of `vm_frame` on the code of a program ending in `exit` ends, as direct evaluation does |
| `TreeMeaning.OperationIsExecuted` | backburner/vm/text.c:166-194 | each keyword's opcode does what the keyword says, with signed arithmetic spelled out over bytes |
| `TreeMeaning.ReadIffAcceptable` | backburner/vm/assembler.c:151-306 | a tree is assembled exactly if its keywords are known, operands resolve and bodies are routines; its code has as many instructions as it has operations and jumps |
| `TreeMeaning.AssembledTreeIsCorrect` | backburner/vm/assembler.c:151-306 | against the meaning of the source tree itself, by keyword: an accepted tree ending in `exit`, assembled and run with any memory, frame and result, stops within its length with the memory and result that meaning gives, or in its undefined operation |
| `TreeMeaning.AssembleAndRun` | backburner/vm/assembler.c:253-306 | the same of the code: reading, back-patching and the unlimited machine loop |
| `ChainedTable.OneBucketChanged` | src/table/table.h:52-104 | relinking one bucket among its own nodes leaves all chains acyclic, disjoint and complete |
| `ChainedTable.BucketsPushed` | src/table/table.h:97-99 | pushing a node in front of the bucket its digest selects keeps the bucket array |
| `ChainedTable.BucketsAppended` | src/table/table.h:70-74 | inserting behind the last item of a bucket keeps the bucket array |
| `ChainedTable.BucketsRemoved` | src/table/table.h:106-113 | unlinking any item of a bucket keeps the bucket array over the remaining nodes |
| `ChainedTable.MoveHead` | src/table/table.h:94-101 | moving one head between the arrays keeps both, in place |
| `ChainedTable.MoveAll` | src/table/table.h:84-104 | all nodes, and only they, end up in the new array |
| `ChainedTable.Table.Resize` | src/table/table.h:84-104 | the table stays valid with the same nodes and contents; only `next` fields of nodes change |
| `ChainedTable.Table.Match` | src/table/table.h:55-65 | finds the item with the key and its predecessor, or the end of the bucket |
| `ChainedTable.Table.Include` | src/table/table.c:34-64 | the table as a map gains the key with a new item, or returns the item it has; the bucket array grows exactly at four fifths, to 1031 or the count times 2.71828, however that is rounded, and the count before is then below four fifths of it |
| `ChainedTable.Table.Delete` | src/table/table.h:106-113 | the table as a map loses the key and nothing else |
| `ChainedTable.KeyAdded` | src/table/table.c:54-56 | adding an item with a new key keeps keys unique and adds one entry to the map |
| `ChainedTable.Table.ItemInItsBucket` | src/table/table.h:52-65 | every item is reached, at one place, from the bucket its key's digest selects |
| `Immutable.Namespace.ImmutableString` | src/immutable/immutable.c:26-40 | returns the copy kept for this content, new if there was none; copies of other contents stay |
| `Immutable.Namespace.ImmutableStrings` | src/immutable/immutable.c:26-40 | after any run of calls with resizes in between, two returned pointers are the same object exactly when the inputs were equal |
| `Immutable.SameObjectIffEqual` | src/immutable/immutable.c:26-40 | recorded copies coincide exactly when their inputs do |
| `ParenText.BuildInvertsPrint` | src/paren-parser/paren-parser.c:174-231 | a token sequence builds a forest exactly when it is that forest printed |
| `ParenText.BuildsIffBalanced` | src/paren-parser/paren-parser.c:191-228 | tokens are refused exactly when a prefix closes too much or something stays open |
| `ParenText.TokensOfRendering` | src/paren-parser/paren-parser.c:21-43 | any rendering with white gaps, one wherever two words meet, is read back as its tokens |
| `ParenText.TextIsRendering` | src/paren-parser/paren-parser.c:21-43 | every text is such a rendering of its tokens |
| `ParenText.ParseInvertsPrinting` | src/paren-parser/paren-parser.c:163-232 | a text parses to a forest exactly when it is the forest, with writable words, printed with some sufficient white space |
| `ParenText.RejectsExactlyUnbalanced` | src/paren-parser/paren-parser.c:191-228 | a text is rejected exactly when its parentheses do not balance |
| `ParenGrammar.ParseIffWrites` | src/paren-parser/paren-parser.c:163-232 | byte by byte and without tokens: a text parses to exactly the forest it writes, with white space, word bytes and parentheses as numbers, and is refused if it writes none |
| `ParenParser.SkipSpace` | src/paren-parser/paren-parser.c:21-35 | stops at the first byte that is not white |
| `ParenParser.SkipWord` | src/paren-parser/paren-parser.c:37-43 | stops at the first byte that cannot be in a word |
| `ParenParser.GrowWord` | src/paren-parser/paren-parser.c:215-220 | linking a word node at the write pointer extends the innermost open list |
| `ParenParser.GrowOpen` | src/paren-parser/paren-parser.c:183-190 | linking a list node opens it, with its own child slot next and its peer slot on the stack |
| `ParenParser.GrowClose` | src/paren-parser/paren-parser.c:191-197 | taking the peer slot from the stack completes the innermost list |
| `ParenParser.Reader.AddNode` | src/paren-parser/paren-parser.c:187-187 | a new node is linked at the write pointer and no other pointer changes |
| `ParenParser.Reader.ReadToken` | src/paren-parser/paren-parser.c:181-221 | one token changes the growing tree as it changes the open lists, or is an unexpected parenthesis |
| `ParenParser.Reader.ParenParse` | src/paren-parser/paren-parser.c:163-232 | the returned pointer, over new nodes only, stands for the forest the text means, with one node for every word and opening parenthesis; null when the text is refused |
| `ParenMacro.FrameFilled` | src/paren-parser/paren-preprocessor.c:319-351 | filling every hole with its parameter's value yields simultaneous substitution |
| `ParenMacro.SubstitutionReplacesWords` | src/paren-parser/paren-preprocessor.c:319-351 | substitution in a forest is replacing the named words in its printed form, at any depth, all at once |
| `ParenMacro.LastParameterCounts` | src/paren-parser/paren-preprocessor.c:326-338 | a name stands for the argument of the last parameter with it |
| `ParenMacro.FindMatches` | src/paren-parser/paren-preprocessor.c:200-246 | the explicit-stack search records exactly the word nodes of the body with the parameter's name |
| `ParenMacro.FrameOf` | src/paren-parser/paren-preprocessor.c:200-246 | a body read in is its frame with exactly the recorded places as holes |
| `ParenMacro.Macro.constructor` | src/paren-parser/paren-preprocessor.c:299-313 | a macro starts valid: for every parameter the recorded places are the holes with its name |
| `ParenMacro.DupeTree` | src/paren-parser/paren-preprocessor.c:126-147 | the copy consists of new nodes and stands for the same forest |
| `ParenMacro.Macro.FillMatches` | src/paren-parser/paren-preprocessor.c:331-334 | all places of one parameter take over the argument; frame and call site are untouched |
| `ParenMacro.Macro.Fill` | src/paren-parser/paren-preprocessor.c:326-338 | each hole ends with the argument of the last parameter of its name, and the loop stops at the shorter list |
| `ParenMacro.Macro.BodyFilled` | src/paren-parser/paren-preprocessor.c:326-351 | with as many arguments as parameters the shared body stands for the original one substituted, whatever its holes held before |
| `ParenMacro.Macro.Apply` | src/paren-parser/paren-preprocessor.c:319-366 | succeeds exactly with as many arguments as parameters; then the result is a new copy of the original body with all parameters replaced at once, followed by what followed the call; the macro stays valid for the next call |
| `ParenMacro.Splice` | src/paren-parser/paren-preprocessor.c:350-359 | the copy's last peer takes over what followed the call |
| `ChainRead.Chain.RunApplyRelease` | src/chain-io/read.c:38-57 | the lazy rewrite and downshift, with their thresholds |
| `ChainRead.Chain.RunPull` | src/chain-io/read.c:59-122 | state, result and view are those of the pull function |
| `ChainRead.Chain.RunFill` | src/chain-io/read.c:83-101 | the source is called until it ends, fails or exceeds the size |
| `ChainRead.Chain.RunRelease` | src/chain-io/read.c:124-132 | releases add up and mark the next read fresh |
| `ChainRead.PullShowsStream` | src/chain-io/read.c:38-122 | a pull never moves the released offset, and a successful one shows exactly the produced bytes from there on |
| `ChainRead.PullAfterAnyRun` | src/chain-io/read.c:38-132 | after any interleaving of pulls and releases, over-releases included, a successful pull shows the stream from the total released on, empty while that is not produced yet |
| `ChainRead.NothingLostOrRepeated` | src/chain-io/read.c:38-132 | a consumer that releases what it takes gets every byte once, in order |
| `ChainRead.CompletionIsFinal` | src/chain-io/read.c:63-66 | after the pull that met the end every pull fails, whatever is still unreleased |
| `ChainRead.PullReadsOn` | src/chain-io/read.c:59-122 | one pull in full: what is shown from the cache, how many answers of the source are used and kept, and how it ends |
| `ChainRead.ReleaseDropsMost` | src/chain-io/read.c:38-57 | released bytes leave the buffer once they are more than half of it, or it is very large, and not before |
| `ChainRead.PullAfterRelease` | src/chain-io/read.c:68-80 | after a release, cached bytes are shown without asking the source |
| `ChainRead.PullAfterPull` | src/chain-io/read.c:68-101 | a pull right after a pull asks the source |
| `ChainWrite.Chain.RunFlushInput` | src/chain-io/write.c:41-69 | the sink is called until it completes or fails; an earlier error stops it at once |
| `ChainWrite.Chain.RunPush` | src/chain-io/write.c:71-112 | compaction, direct flush of large inputs, or appending with a deferred flush |
| `ChainWrite.Chain.RunPushFinal` | src/chain-io/write.c:119-129 | flushes only from a million waiting bytes on |
| `ChainWrite.Chain.RunFlush` | src/chain-io/write.c:131-146 | `written` moves by what the sink took, and only on success; what is offered and taken is `FlushDelivers` |
| `ChainWrite.FlushLoopKeeps` | src/chain-io/write.c:50-68 | a flush moves a prefix of its input to the sink and reports the rest |
| `ChainWrite.PushConserves` | src/chain-io/write.c:71-112 | one push keeps: taken plus waiting is everything pushed, or after an error taken is a prefix of it |
| `ChainWrite.PushConservation` | src/chain-io/write.c:41-146 | over any run of pushes, direct buffer writes and flushes and any sink: without an error, bytes taken followed by bytes waiting are the concatenation of everything pushed; after one, what was taken is a prefix of it |
| `ChainWrite.ErrorIsFinal` | src/chain-io/write.c:43-46 | an error stays flagged and the sink is given nothing more |
| `ChainWrite.FlushDelivers` | src/chain-io/write.c:41-69 | a flush uses the sink's answers up to the first that is not incomplete; the sink gains what they take of all that waits; it succeeds unless one was an error |
| `ChainWrite.WillingSinkTakesAll` | src/chain-io/write.c:131-146 | a sink that takes all it is offered leaves nothing waiting |
| `ChainWrite.PushDelivers` | src/chain-io/write.c:71-112 | a push joins what waits and offers all of it from a million bytes on, or offers a large input itself when nothing waits, keeping what is left |
| `ChainWrite.PushFinalDelivers` | src/chain-io/write.c:119-129 | bytes written into the buffer are offered from a million on |
| `ChainWrite.PushCompacts` | src/chain-io/write.c:78-88 | written bytes leave the buffer once they are more than half of it, or it is very large, and not before |

## Left out

- dzip statistics, `dzip_inflate_read_chunk` and the chain-io adapters of dzip: counters and plumbing.
- DzipDeflate.DeflateState.DeflateChunk: asks for an input below 2^32 bytes, because the C code keeps its size in 32 bits; `dzip_deflate` never gives it more than 2,000,000.
- Allocation failure: buffers and nodes can always grow.
- 64-bit byte counters of the streaming codec and of chain-io, and the table's `100 * item_count`: unbounded here.
- ChainedTable.Table.Delete: `item_count` is only an upper bound on the items, as the code does not lower it; the freeing of the item is not modelled.
- The sdbm hash of `table.c`: the table is proved for every hash function.
- Machine.Vm.Frame: takes a limit on the number of passes, because a program that never exits would run forever; `RunProgram` is the unlimited loop for programs that end in `exit`.
- Machine.Vm.Frame: asks for memory larger than frame plus a register and for at least one instruction, without which the C code divides by zero.
- Assembler.MachineCode.ParseRecurse: `Shaped` leaves out `name` statements, because the constant they define is resolved by a stub.
- Assembler.MachineCode.ParseStatement: the same.
- StreamRoundTrip.StreamingRoundTripExactly: leaves open an empty first call before inputs that begin with the magic's last six bytes, apart from short ones (`EmptyThenShortBreaks`): whether some input is its own encoding.
- The `name` keyword, scopes and constants of the assembler (its constant resolution is a stub) and `parse_sum`; `vm_init` and the machine-code files.
- Statements the assembler would dereference as lists although they are words or empty: `Shaped` excludes them.
- Line and column numbers, file loading and error messages of the parser; words are compared by content, which interning makes the same as by pointer.
- `process_include`, the search for the macro to apply, and repeated expansion, which need not end.
- ParenMacro.Macro.constructor: takes the parameter names as read by `read_macro_arg_list`; default values, which no call uses, are not modelled.
- ParenMacro.Macro.Apply: the call site is unlinked but not freed; later calls overwrite every place that still points to it before it is read.
- Mutexes and `realpath` in `immutable.c`.
- ChainRead.PullShowsStream: claims nothing about bytes still unreleased when the source has ended; `CompletionIsFinal` says that later pulls fail.
- `dzip_deflate_chain_output`, tar, http, network, pkg, filestore, gltf and the other utilities: input/output, foreign libraries or easy members.
- The other streaming variants under `junked`: near-duplicates.
