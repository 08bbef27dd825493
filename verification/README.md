# Proofs for compression, JSON and the shared tools

A Dafny model of the parts of the repository that transform data or share state, and
proofs of what they are for. `dafny verify dfyconfig.toml` checks the whole project.

**LZO1X-1** (`compression/minilzo.c`). The byte format is an algebra: items of literals and
a back reference, with `Encode` for their bytes and `Expand` for their meaning (`LzoFormat`).
`LzoDecode` is the decoder over values, label by label; `LzoRoundTrip` shows that it reads
every stream back. The compressor (`LzoCompress`, `LzoEmit`, `LzoMatch`) and both
decompressors (`LzoDecompress`, `LzoCopy`) are the imperative code on arrays, proved against
these. `LzoStream` has the language of all streams, read from front to back, and shows that it is
what the decoder accepts; `LzoRuns` follows the dictionary through a run of equal bytes. `Adler32`
is the checksum with its deferred reduction.

**JSON** (`rapidjson/`). `JsonGrammar` says what the recursive reader accepts and which events
it sends; the class in `JsonReader` has both readers, and `JsonMachine` relates every
configuration of the table-driven one to what the grammar has still to read. `JsonNumber` and
`JsonString` are the scalars with their machine arithmetic and the in-place decoder.
`JsonDocument` has values, events and the stack that builds values; `JsonWriter` the writers'
level stack and `JsonBuffer` the buffer they write to; `JsonHandlers` has both as classes. `JsonRoundTrip`, `JsonLoad`, `JsonCounts` and
`JsonClimb` connect them: what is written is read back, and whatever is read builds one value.
`JsonSyntax` has the language of JSON texts as syntax trees that keep every byte, down to the
spelling of strings (`JsonSpelling`); `JsonExact` and `JsonTexts` show that the readers accept just
these, and `JsonLayout` checks the layout of what is written.
`JsonLengths` and `JsonLimits` are about strings whose length does not fit into 32 bits. `Utf8`
and `JsonAscii` are the decoder of RFC 3629 and writing for an ASCII target.

**JSON Pointer** (`rapidjson/pointer.h`). `JsonPointer` has the two notations of RFC 6901 and
their round trips, `JsonPointerIndex` the names that are indices, `JsonPointerText` the loops over one token array and one name buffer, and
`JsonPointerTree` the laws of looking up, creating, setting and erasing.

**Shared state.** `PoolAllocator` is the chunked allocator as a class. `CallbackKeeper` and
`ObjectsCache` are state machines in which the steps of any number of threads interleave
freely around the spin lock of `SpinLock`.

Bytes are numbers below 256, and 64-bit and 32-bit words are numbers with explicit
reductions. Text ends with a zero byte, as the streams of the library assume; reading beyond
the end yields zero.

Where the code differs from what one expects, the model follows the code:

- The callback table's destructor calls an empty function object that was bound and never
  processed; that throws out of a destructor and ends the program. `EachCalledOnce` states the
  property exactly under the absence of empty callbacks, which follows if none is ever bound, and
  `EmptyCallbackTerminates` gives a run.
- A pool request close to 2^64 bytes wraps the additions of `Malloc` and is answered with a block
  outside its chunk. `Malloc` and `Realloc` state their laws exactly under `NoWrap`, and
  `WrapHappens` gives a request.
- The readers count elements and members in 32 bits. An array of 2^32 elements is accepted, but its
  count wraps and the document is left with more than one root. `AcceptedTextLoads` states for each
  kind of reader exactly when one is left, and `TooManyElements` gives a text.
- The readers hand out strings with a length of 32 bits. In place a longer one fails an assertion.
  Otherwise only its end is handed out, or memory that is not the string's; the rest stays on the
  stack, where the table-driven parser takes it for a count and a state. `ParseBothWays`,
  `ParseInPlace`, `AcceptedTextLoads` and `WriteAndParse` state exactly where that happens, and
  `LostRoot`, `LongRoot` and `ParsersPart` give texts. A reader is lost, in the model, from such an
  assertion, such memory or such a count on; what it then does depends on the bytes.
- The writer reserves room for a string by a 32-bit number, which wraps from 715827883 bytes on, and
  for an ASCII target from 357913942 on. The string buffer has its capacity and the assertion
  that fails beyond it (`short`); `WriteString` states exactly when it does, and `ReservedIsEnough`
  for which lengths it never does.
- The length of a pointer's token has 32 bits, but a URI fragment is checked beyond it.
  `ParsedSurvives` states exactly when a pointer survives either, and `LongNameDoesNotSurvive` and
  `CutCharacterDoesNotSurvive` give names. Strings for an ASCII target are decoded beyond their
  length as well.
- The overflow test of pointer indices lets some numbers wrap; `IndexMeans` states
  what they become, and round trips do not depend on it.
- Fewer than 32 bytes of input left are not compressed at all, since the test for a pointer that
  wraps fails for them; the bound for runs allows for that.
- A lone trailing surrogate in an escape is encoded as if it were a code point.
- The comment of the pointer's parser says that its text need not end with a zero byte, but the
  code reads the byte after the text.

## Model

| member | source | states |
|---|---|---|
| LzoRoundTrip.StreamReadsBack | compression/minilzo.c:5934-6342 | every stream of valid items, left-over literals and end marker is decoded with OK, all input consumed, to exactly the bytes that the items stand for, for any capacity that holds them |
| LzoRoundTrip.ItemsReadBack | compression/minilzo.c:5994-6337 | from the start of any sequence of items the decoder arrives, step by step, at the gap after the last one with exactly their expansion written, whatever literal count is stored in the last instruction |
| LzoRoundTrip.MatchReadsBack | compression/minilzo.c:6090-6262 | for every offset and length the format allows, the near, middle and far forms of a reference decode to that offset and length, with any literal count stored in the free bits, and never to the end marker |
| LzoRoundTrip.GapReadsBack | compression/minilzo.c:5994-6065 | what is stored between two references, whether nothing, a count in the byte before or a run with its header, is read back as those literals |
| LzoRoundTrip.HeaderReadsBack | compression/minilzo.c:5997-6011 | the header of a literal run of any length is read back as that length |
| LzoRoundTrip.LengthReadsBack | compression/minilzo.c:6000-6010 | a length written as zero bytes and a rest is read back, from any value already counted, as long as it stays below the limit of the overflow test |
| LzoRoundTrip.EofReadsBack | compression/minilzo.c:6339-6342 | the three bytes of the end marker end the decoding with OK exactly at the end of the input |
| LzoRoundTrip.ShortStreamReadsBack | compression/minilzo.c:5983-5992 | the special first byte for up to 238 literals without a reference is read back, down to a single byte |
| LzoStream.AcceptsExactly | compression/minilzo.c:5934-6346 | for all bytes and every capacity: the decoder returns OK and a text exactly if the bytes are a stream that stands for that text and there is room for it; a stream is an opening of either kind, references in any of the five layouts, each with its literals, and an end marker of any length and count |
| LzoStream.StreamReads | compression/minilzo.c:5934-6346 | every such stream is read to its text, with OK if nothing follows it and otherwise with the code for input left over |
| LzoStream.StreamSpelled | compression/minilzo.c:5934-6346 | what is accepted is such a stream |
| LzoStream.RefReads | compression/minilzo.c:6040-6316 | a reference in any layout, also of two bytes after one to three literals and of three bytes 2049 to 3072 back after a run, is copied from its offset, and its count lies two bytes before its end |
| LzoStream.TooSmall | compression/minilzo.c:6351-6354 | a stream for whose text there is no room is reported as an overrun of the output, after the beginning of the text |
| LzoStream.CutOff | compression/minilzo.c:6345-6348 | a stream that is cut off anywhere is reported as an overrun of the input, after the beginning of the text |
| LzoStream.TooFarBack | compression/minilzo.c:6357-6360 | a stream up to a reference that reaches back too far is reported as that, whatever room there is and whatever follows |
| LzoDecode.Step | compression/minilzo.c:5978-6342 | every step keeps the facts that the reads after a label need and either advances the read cursor or goes on from the end of a match, so decoding ends on every input |
| LzoDecode.ReadLength | compression/minilzo.c:5865-5877 | the tests against a length of 2^64 - 511 keep every length that is read below 2^64 |
| LzoCompress.Compress | compression/minilzo.c:5211-5275 | for every input, of any number of blocks, the output fits n + n/16 + 64 + 3 bytes, is a stream that stands for the input, and is decoded to it with any capacity of at least its length; and a run of r equal bytes inside a block, wherever it begins, leaves no more than r/255 bytes of itself and a sixteenth more than the rest, with an allowance for how far the probes are apart |
| LzoCompress.CompressBlock | compression/minilzo.c:4924-5209 | a block carries the code on to its end but for the literals it returns; every dictionary entry points strictly before the cursor, the first reference has at least four literals before it, and every run of equal bytes in the block is coded by references |
| LzoCompress.CodeMatch | compression/minilzo.c:5000-5204 | pending literals and a match whose first four bytes agree become one more valid item, inside the size bound and inside the block |
| LzoCompress.Probe | compression/minilzo.c:4988-4997 | a look-up yields the position that the slot of the word at the cursor held, stores the cursor there and changes no other slot, and hits exactly if four bytes agree |
| LzoRuns.ProbeMisses | compression/minilzo.c:4984-4997 | after a first probe inside a run that misses, the next one inside it cannot miss |
| LzoRuns.ProbeHits | compression/minilzo.c:4988-5204 | a probe inside a run that has been probed before codes the run to its end or to the end of the block |
| LzoCompress.Finish | compression/minilzo.c:5239-5275 | the literals left over and the end marker complete the stream inside the bound |
| LzoCompress.ItemSize | compression/minilzo.c:5000-5203 | an item of literals and a reference takes at most 17/16 of the bytes it stands for |
| LzoCompress.LiteralsSize | compression/minilzo.c:5000-5051 | literals take at most a sixteenth and 17/16 bytes more than themselves |
| LzoCompress.ItemCarriesOn | compression/minilzo.c:5149-5204 | literals and a reference to text that repeats are an item by which the expansion goes on with exactly the input's next bytes |
| LzoEmit.PutMatch | compression/minilzo.c:5149-5203 | the bytes stored for a reference, with their shifts, masks and bitwise ors, are the arithmetic form of its instruction |
| LzoEmit.PutLiteralsWide | compression/minilzo.c:5000-5051 | literals stored 4, 8 and 16 bytes at a time leave exactly the literals before the cursor, whatever was stored beyond it |
| LzoEmit.PatchCount | compression/minilzo.c:5005-5008 | or-ing a count of up to three into the byte before the last is adding it to two bits that are free |
| LzoMatch.ExtendByWords | compression/minilzo.c:5052-5073 | comparing eight bytes at a time by exclusive or and trailing zeros finds the end of the match as specified, reading inside the input |
| LzoMatch.ExtendByBytes | compression/minilzo.c:5118-5148 | the byte loop with its stop test after every eighth byte finds the same end |
| LzoMatch.WordsCompare | compression/minilzo.c:5056-5073 | for little-endian words, a zero exclusive or means eight equal bytes, and otherwise the trailing zeros over eight count the equal bytes |
| LzoMatch.XorFindsDifference | compression/minilzo.c:5056-5073 | the same for words of any number of bytes |
| LzoMatch.MatchEndIsLongest | compression/minilzo.c:5052-5148 | the match found cannot be extended by a byte, unless the search stopped at the end of the block after a multiple of eight bytes |
| LzoCopy.CopyMatchWords | compression/minilzo.c:6270-6289 | copying 8, 4 and 1 bytes at a time equals the overlapping byte copy whenever the distance is at least eight |
| LzoCopy.CopyMatchBytes | compression/minilzo.c:6310-6314 | the byte loop is the overlapping copy, for every distance |
| LzoCopy.CopyBackBlock | compression/minilzo.c:6270-6289 | a copy no longer than its distance is one slice of what was there |
| LzoCopy.CopyBackRepeats | compression/minilzo.c:6310-6314 | copying back over text that repeats gives the text |
| LzoDecompress.DecompressSafe | compression/minilzo.c:5934-6361 | for arbitrary input and any capacity the decompressor ends, reads inside the input, writes inside the capacity and leaves the rest of the buffer alone; it returns OK exactly on streams for whose text there is room, and on the others an overrun of the output and the beginning of the text |
| LzoDecompress.DecompressFast | compression/minilzo.c:5393-5810 | the decompressor without tests does the same on every input for which the tests would not fail |
| LzoDecompress.Reference | compression/minilzo.c:6262-6316 | a match is copied only from output already written, by words or bytes, or refused in the order of the look-behind and output tests |
| LzoDecompress.ReadZeros | compression/minilzo.c:5997-6010 | the loop over zero bytes in 64-bit arithmetic never wraps and agrees with the unbounded one |
| LzoSelfTest.RoundTrip | compression/testmini.c:105-145 | compressing and then decompressing with either decompressor gives every input back, and the compressed size is inside the documented bound |
| Adler32.LzoAdler32 | compression/minilzo.c:4279-4308 | with reductions only every 5552 bytes and in 32-bit arithmetic, the checksum of every buffer from every start value is the one that reduces after every byte; 1 for a null buffer |
| Adler32.NoOverflow | compression/minilzo.c:4270-4271 | over at most 5552 bytes from any 16-bit sums neither sum leaves 32 bits |
| Adler32.LateReduction | compression/minilzo.c:4289-4306 | reducing at the end is congruent to reducing at every byte |
| Adler32.Chaining | compression/minilzo.c:4279-4308 | the checksum continued over a split buffer is one pass over the whole |
| Adler32.ClosedForm | compression/minilzo.c:4279-4308 | from the start value 1 the low half is one and the sum of the bytes, the high half their number and the sum of the bytes each times its distance from the end, both modulo 65521 |
| JsonReader.ParseBothWays | rapidjson/reader.h:485-516 | for every text and every combination of the comments, trailing-comma and stop-when-done flags, both ways of parsing accept or reject alike, send identical events with identical counts and end at the same place, unless the table-driven one is lost; that is so exactly if the other one is, or an array or object ends in which a string or name reached 2^32 - 1 bytes, and never for a text shorter than 2^32 bytes |
| JsonHandlers.AcceptedTextStrays | rapidjson/reader.h:1711-1776 | for an accepted text that is so exactly if such a string, not the root, or such a name is in it |
| JsonReader.ParseInPlace | rapidjson/reader.h:808-835 | a whole text parsed in place sends the same events as the copying reader exactly if no string reaches 2^32 - 1 bytes, and every string handed out still lies intact in the buffer at the end |
| JsonReader.ParseBuffer | rapidjson/reader.h:485-516 | what each of the four kinds of reader makes of a text, and that the copying ones leave it alone |
| JsonReader.Reader.Parse | rapidjson/reader.h:485-516 | the recursive parser does what the grammar says of the whole text, with strings of 32-bit lengths, and is lost exactly at a string that cannot be handed out |
| JsonTexts.AcceptedIsSpelled | rapidjson/reader.h:485-516 | for every text and all flags: it is accepted, up to a place and with some events, exactly if up to there it is the text of a syntax tree with these events, with white space, comments and trailing commas as the flags allow, and, unless reading stops after the value, nothing behind but what may stand there |
| JsonTexts.ValueReads | rapidjson/reader.h:1391-1405 | every value of the grammar, wherever it stands, is read to its end and its events are sent, with counts of 32 bits |
| JsonTexts.ValueSpelled | rapidjson/reader.h:1391-1405 | every value that is read is one of the grammar |
| JsonExact.GapReads | rapidjson/reader.h:559-586 | white space and comments of both kinds are passed over |
| JsonExact.SkipSpelled | rapidjson/reader.h:559-586 | and nothing else is |
| JsonReader.Reader.IterativeParse | rapidjson/reader.h:1822-1854 | the table-driven parser does the same, and is lost exactly at a string that cannot be handed out, or at the end of an array or object where bytes of a string lie on the stack in place of its count and state |
| JsonReader.Reader.ParseString | rapidjson/reader.h:808-835 | a string is decoded in place or on the stack and handed out, and as many bytes stay on the stack as its 32-bit counter misses |
| JsonReader.InBufferKept | rapidjson/stream.h:144-167 | strings handed out before stay where they are while later text is decoded |
| JsonReader.Reader.ParseObject | rapidjson/reader.h:588-654 | an object is read with its members, separators, counts and trailing comma as the grammar says |
| JsonReader.Reader.ParseArray | rapidjson/reader.h:656-702 | the same for an array |
| JsonReader.Reader.ParseValue | rapidjson/reader.h:1391-1405 | the first byte chooses among the kinds of value |
| JsonReader.Reader.Transit | rapidjson/reader.h:1648-1798 | a transition sends its events, changes the stack and leaves exactly what the grammar has still to read |
| JsonReader.Reader.SkipWhitespaceAndComments | rapidjson/reader.h:559-586 | white space, and comments where they are allowed, are passed over; an unfinished comment fails |
| JsonMachine.DocumentIsResume | rapidjson/reader.h:1822-1854 | parsing a text is resuming the machine at its start |
| JsonMachine.ValueFirst | rapidjson/reader.h:1648-1798 | wherever a value may start, what is left is the value and then what follows in the state after it |
| JsonMachine.OpenTransit | rapidjson/reader.h:1656-1681 | opening an array or object and pushing a frame leaves the rest of the grammar unchanged |
| JsonMachine.CloseTransit | rapidjson/reader.h:1718-1776 | closing one pops the frame with the right count and resumes the state it was opened in |
| JsonMachine.CommaStep | rapidjson/reader.h:1711-1716 | a comma counts the value before it |
| JsonMachine.KeyStep | rapidjson/reader.h:1683-1688 | a name leads to where its colon is expected |
| JsonMachine.ErrorStep | rapidjson/reader.h:1482-1643 | wherever the table has an error the grammar fails, without another event |
| JsonNumber.ParseNumber | rapidjson/reader.h:1133-1388 | every number is read to its end and reported with its exact value as 32-bit where that fits, as 64-bit where only that does, and as a double beyond both |
| JsonExact.NumberReads | rapidjson/reader.h:1133-1388 | a number of section 2.4 of RFC 4627 is read to its end, as an integer of its value where 64 bits hold it and otherwise as a double of just its text, or refused beyond the limits |
| JsonExact.NumberSpelled | rapidjson/reader.h:1133-1388 | and nothing else is read as a number |
| JsonNumber.TakeInteger | rapidjson/reader.h:1149-1238 | the three loops over the integer part give its exact value, or pass to the next width exactly when it no longer fits |
| JsonNumber.Take32 | rapidjson/reader.h:1158-1185 | no step of the 32-bit loop wraps, and it stops exactly before the digit that would |
| JsonNumber.Take64 | rapidjson/reader.h:1206-1229 | the same for 64 bits |
| JsonNumber.TakeFraction | rapidjson/reader.h:1240-1286 | all digits of a fraction are consumed, and those that scale the exponent are counted |
| JsonNumber.TakeExponent | rapidjson/reader.h:1288-1327 | an exponent is read or refused by its limit |
| JsonNumber.NegateIsMinus | rapidjson/reader.h:1371-1383 | complement and increment of an unsigned word is the negative number, up to the least one |
| JsonString.ParseInsitu | rapidjson/reader.h:840-905 | decoding into the text itself yields the bytes that the string stands for and its end, for every text; the write cursor never passes the read cursor, unread text is never overwritten, and what lies around the string is left alone |
| JsonString.ParseToStack | rapidjson/reader.h:776-830 | a string is decoded onto the stack and taken off again by a 32-bit counter: its last bytes, as many as the length reduced to 32 bits, the rest staying there; or nothing, where the counter comes out as zero |
| JsonSpelling.DecodeIsSpelled | rapidjson/reader.h:840-905 | for every text: a string is decoded to some bytes and an end exactly if the text up to a quotation mark there spells these bytes: plain characters, the eight short escapes, escapes by four hexadecimal digits of either case, and surrogate pairs |
| JsonSpelling.UnitIsSpelled | rapidjson/reader.h:853-904 | one turn of the loop takes a character exactly as it is spelled |
| JsonSpelling.EncodesIsUtf8 | rapidjson/encodings.h:101-121 | the encoder gives exactly the bytes that have the bits of the code point and are as few as possible |
| JsonString.DecodeUnread | rapidjson/stream.h:144-167 | decoding depends only on text that is still unread |
| JsonLengths.BothHandIt | rapidjson/reader.h:816-832 | both ways hand out all of a string exactly if it is shorter than 2^32 - 1 bytes, and one of just that length only the way in place |
| JsonNumber.NumberUnread | rapidjson/reader.h:1133-1388 | a number depends only on text that is still unread |
| JsonString.ParseUnit | rapidjson/reader.h:853-904 | one turn of the loop: an escape, a pair of surrogates, a plain byte, the end or an error |
| JsonString.ParseHex4 | rapidjson/reader.h:755-774 | four hexadecimal digits are read to their value or refused |
| JsonString.UnitAtUnread | rapidjson/stream.h:144-167 | a step depends only on text that is still unread, so bytes written behind the read cursor do not matter |
| JsonString.UnitAt | rapidjson/reader.h:853-904 | what is read is never shorter than the bytes it stands for |
| JsonDocument.FlagsDependOnValue | rapidjson/document.h:633-670 | the four integer constructors give the same flags for the same mathematical value |
| JsonDocument.EventsBuild | rapidjson/document.h:2333-2373 | the events of a value, on any stack, push exactly that value and leave the rest |
| JsonDocument.SameEventsBuildSame | rapidjson/document.h:2335-2338 | the width in which a number is reported makes no difference to the document |
| JsonHandlers.AcceptedTextLoads | rapidjson/document.h:2154-2165 | what each of the four kinds of reader makes of an accepted text, which is that of a tree: a root exactly if the reader can hand out every string of it and no array or object has 2^32 children, and that tree exactly if, besides, no string or name has 2^32 bytes; where only a count is at fault the stack is higher than one, by what it does not take |
| JsonLoad.AcceptedEventsBuild | rapidjson/document.h:2333-2373 | the events of an accepted text, with strings cut to lengths of 32 bits, leave on any stack one value and what wrapped counts do not take away |
| JsonLoad.OnlyTree | rapidjson/document.h:2333-2373 | no two trees have the same events, so that a text is that of one tree |
| JsonLoad.TooManyElements | rapidjson/reader.h:656-702 | an accepted text with 2^32 elements in an array, whose count wraps to zero, so that 2^32 + 1 values are left |
| JsonCounts.BuildsExactly | rapidjson/document.h:2361-2373 | the events of a tree, with counts reduced and strings cut to 32 bits, leave one value on any stack and besides it all that wrapped counts do not take away, which is nothing exactly if all counts fit; the value then is the tree with its strings cut |
| JsonCounts.CutSame | rapidjson/reader.h:829-830 | nothing is cut exactly if no string or name has 2^32 bytes |
| JsonCounts.BuildClimbs | rapidjson/document.h:2333-2373 | a stack that is built is as high as the events climb |
| JsonCounts.TreeMarks | rapidjson/reader.h:1711-1776 | in the events of a whole tree, bytes of a string are taken for a frame exactly if a string inside an array or object, or a name, reaches 2^32 - 1 bytes |
| JsonLoad.EveryTextBuilds | rapidjson/document.h:2333-2373 | all events of a text shorter than 2^32 bytes, accepted or not, can be handled |
| JsonClimb.EveryTextClimbs | rapidjson/document.h:2333-2373 | whatever the text and its length, no event takes more from the document's stack than is there, and an accepted one leaves at least one value |
| JsonClimb.ValueClimbs | rapidjson/reader.h:1391-1405 | a value that is read leaves at least itself, and one that is not takes nothing away that was there |
| JsonLimits.LostRoot | rapidjson/reader.h:816-832 | a text that is one string of 2^32 - 1 letters is handed out in place, and the copying reader is lost at it |
| JsonLimits.LongRoot | rapidjson/reader.h:816-832 | with one letter more the copying reader accepts it and hands out the empty string, and the one in place is lost |
| JsonLimits.ParsersPart | rapidjson/reader.h:1748-1776 | inside an array that string makes the parsers part: one accepts the text, the other is lost |
| JsonLoad.ValueIsValue | rapidjson/reader.h:1391-1405 | the events of every value that is read are, but for the width of numbers, those of a value of the document |
| JsonLoad.FailedValueBuilds | rapidjson/document.h:2333-2373 | the events sent before an error can all be handled, for texts shorter than 2^32 bytes |
| JsonWriter.ValueWrites | rapidjson/writer.h:442-467 | on any writer where a value may go, the events of the value write the separator due and its text, in every style, and no assertion fails |
| JsonWriter.DocumentWrites | rapidjson/writer.h:176-236 | a fresh writer writes exactly the text of the value |
| JsonLayout.WrittenIsLaidOut | rapidjson/prettywriter.h:125-237 | checked byte by byte: every item has a line of its own where the style says so, indented once for each bracket around it, a closing bracket once less; colons and elements on one line have one space; in the compact style there is no white space outside strings |
| JsonRoundTrip.DocumentReadsBack | rapidjson/reader.h:485-516 | the text of every value without doubles, compact or pretty with any indentation or array option, is accepted under all flags, and its events build that value: strings byte for byte, integers exact, members in order with duplicates; they reach a handler in place always, and otherwise exactly if no string has 2^32 - 1 bytes |
| JsonRoundTrip.ValueReadsBack | rapidjson/reader.h:1391-1405 | the text of a value anywhere in a document is read to its end, if what follows does not go on with a number |
| JsonRoundTrip.StringReadsBack | rapidjson/reader.h:840-905 | arbitrary bytes written as a string are decoded as they were |
| JsonRoundTrip.NumberReadsBack | rapidjson/reader.h:1133-1388 | every integer of 64 bits, signed or unsigned, is read back exactly |
| JsonRoundTrip.LeadsAreSpace | rapidjson/prettywriter.h:190-232 | separators are a comma where one is due and white space besides |
| JsonHandlers.Writer.Accept | rapidjson/document.h:1768-1805 | walking a value writes the separator due and its text; no assertion on room fails if there is room for every string |
| JsonHandlers.Writer.Prefix | rapidjson/prettywriter.h:190-232 | both prefixes put exactly the separator of the style and count the value |
| JsonHandlers.Writer.WriteString | rapidjson/writer.h:350-421 | the loop writes the quoted and escaped string; the buffer is found short exactly if the string goes beyond the capacity after the reservation, and never if that did not wrap |
| JsonWriter.ReservedIsEnough | rapidjson/writer.h:364-365 | the room reserved for a string of some length is enough for every such string exactly if the 32-bit number does not wrap |
| JsonAscii.ReservedIsEnough | rapidjson/writer.h:366-367 | the same for an ASCII target, with twelve bytes reserved for each |
| JsonWriter.WrapsBelow | rapidjson/writer.h:364-367 | where either number wraps it is less than strings of that length can take |
| JsonBuffer.StringBuffer.Reserve | rapidjson/internal/stack.h:113-119 | there is room for as much as is asked for, by the growth of the stack |
| JsonBuffer.StringBuffer.PutUnsafe | rapidjson/internal/stack.h:127-133 | a byte is put, and the assertion fails exactly if there is no room |
| JsonHandlers.Writer.Close | rapidjson/prettywriter.h:125-170 | closing writes the line and indentation due and the bracket, and drops the level |
| JsonHandlers.Writer.WriteIndent | rapidjson/prettywriter.h:234-237 | as many characters as levels times the count |
| JsonHandlers.Document.Accept | rapidjson/document.h:1768-1805 | walking a value into a document pushes exactly that value on any stack |
| JsonHandlers.Document.Handle | rapidjson/document.h:2333-2373 | each handler method changes the stack as specified |
| JsonHandlers.Document.HandleAll | rapidjson/document.h:2154-2165 | a reader's events, in order, build what the specification builds, or stop where it does |
| JsonHandlers.DeepCopy | rapidjson/document.h:2405-2417 | the copy of a value through a document equals it |
| JsonHandlers.ParseDocument | rapidjson/document.h:2154-2165 | for every text, of any length, and every kind of reader: the root, a rejection, the failing assertion or a lost reader, each exactly where the strings and counts of the text say so; the root is the tree that the text is of exactly if nothing wraps and no string is cut |
| JsonHandlers.WriteAndParse | rapidjson/document.h:1768-1805 | a value written in any style and parsed in either way under any flags is the value again, in place always, and otherwise exactly if no string has 2^32 - 1 bytes; the buffer written to has the room if every string is shorter than 715827883 bytes |
| Utf8.DecodeFollowsGrammar | rapidjson/encodings.h:145-175 | the decoder accepts exactly the characters of section 4 of RFC 3629, takes just their bytes, and gives the code point that they encode, never a surrogate |
| Utf8.DecodeUndoesEncode | rapidjson/encodings.h:101-175 | every code point but the surrogates is encoded as a character and decoded back |
| Utf8.MasksHit | rapidjson/encodings.h:204-221 | the table of byte classes and the masks select the ranges of the grammar |
| Utf8.EncodeInjective | rapidjson/encodings.h:101-121 | different code points have different encodings |
| JsonAscii.WriteAndRead | rapidjson/writer.h:350-421 | for an ASCII target exactly the strings whose characters reach their end are written, in ASCII only; a string is read back byte for byte exactly if it is well-formed UTF-8 of at most 2^32 - 2 bytes, and the buffer has the room if it is shorter than 357913942 bytes |
| JsonAscii.WriteString | rapidjson/writer.h:364-421 | the loop writes the specified text or fails; the buffer is found short exactly if the text goes beyond the capacity after the reservation |
| JsonAscii.WrittenIffReaches | rapidjson/writer.h:371-377 | writing succeeds exactly if UTF-8 characters, as they lie in memory, reach the end of the string, and takes just the string exactly if it is well-formed |
| Utf8.ReachedStops | rapidjson/encodings.h:145-175 | decoding from the start of a text comes to a given place exactly if what lies before is well-formed, and otherwise at most three bytes behind it, if at all |
| JsonAscii.WrittenIsAscii | rapidjson/writer.h:371-419 | nothing but ASCII is written |
| JsonAscii.AsciiReadsBack | rapidjson/reader.h:859-882 | escapes and surrogate pairs are read back as the bytes they were written for |
| JsonPointer.ParsedSurvives | rapidjson/pointer.h:802-972 | whatever was parsed is an equal pointer after being written and parsed again: in the plain notation exactly if each token has the length and index its name stands for, as a URI fragment exactly if, besides, what each token keeps of its name is well-formed UTF-8; the first always holds for a text shorter than 2^32 bytes |
| JsonPointer.LongNameDoesNotSurvive | rapidjson/pointer.h:895-917 | a name of 2^32 + 1 bytes, a digit and then letters, whose token keeps the digit, is no index, and would be read as one |
| JsonPointer.CutCharacterDoesNotSurvive | rapidjson/pointer.h:959-966 | a name of 2^32 + 1 bytes that begins with a character of two bytes: the token keeps one of them and survives in the plain notation, but its URI fragment has both and is another pointer |
| JsonPointer.PlainReadsBack | rapidjson/pointer.h:941-972 | the plain notation of every token list is read back as the tokens that its names stand for |
| JsonPointer.PlainIsTheText | rapidjson/pointer.h:802-932 | a text that is accepted in the plain notation is the plain notation of its names |
| JsonPointer.UriReadsBack | rapidjson/pointer.h:941-972 | the URI fragment, where it can be written, is read back as its names with the rest of a character in which one ends, which is an equal pointer exactly if the tokens are consistent and well-formed |
| JsonPointer.UriIffReaches | rapidjson/pointer.h:959-966 | a pointer has a URI fragment exactly if from the start of each name there are UTF-8 characters, as they lie in the buffer, that reach the end of what the token keeps; so exactly the well-formed ones where nothing is cut off |
| JsonPointer.FragmentsCanBeWritten | rapidjson/pointer.h:842-867 | what was parsed from a URI fragment, of any length, can be written as one, and is read back exactly under the condition for all pointers, so always if the text is shorter than 2^32 bytes |
| JsonPointer.TokensAreSolidi | rapidjson/pointer.h:811-815 | a successful parse has as many tokens as the first pass counted |
| JsonPointerText.ParseText | rapidjson/pointer.h:802-932 | parsing fills exactly the token array that was counted, stays inside a name buffer as long as the text, and stores the specified names, terminators and indices, or reports the specified error and offset |
| JsonPointerText.ValidatePercent | rapidjson/pointer.h:844-853 | percent triplets are checked as UTF-8 while they are stored; even a malformed character stays inside the buffer |
| JsonPointerText.Take | rapidjson/pointer.h:991-1012 | a triplet is decoded, or zero is returned and the stream is invalid |
| JsonPointerText.ToIndex | rapidjson/pointer.h:889-917 | a name is an index if it is all digits without a leading zero and the overflow test lets it pass |
| JsonPointerIndex.IndexMeans | rapidjson/pointer.h:895-917 | a name without leading zeros that is a decimal number below 2^32 - 1 is that index; beyond, it is no index or what is left of the number in 32 bits; every other name is no index |
| JsonPointerIndex.DigitsAreIndex | rapidjson/pointer.h:895-917 | the decimal digits of every number below 2^32 - 1 are that index |
| JsonPointerIndex.IndexFinds | rapidjson/pointer.h:479-507 | a pointer of these digits resolves to that element of an array |
| JsonPointerText.Stringify | rapidjson/pointer.h:941-972 | from the stored tokens and name buffer both notations are written as specified; characters of a fragment are checked in the buffer, also behind the length of the token |
| JsonPointerText.DecodeInBuffer | rapidjson/pointer.h:961-966 | checking a character in the buffer gives what it does on the name alone, since the zero byte behind it is no part of one |
| JsonPointerText.Rewrite | rapidjson/pointer.h:802-972 | a text parsed, written from what is stored and parsed again gives an equal pointer under exactly these conditions |
| JsonPointerTree.CreateLaw | rapidjson/pointer.h:401-447 | creating reports that a value existed exactly if the pointer resolved before, then leaves the tree unchanged and returns that value; otherwise it returns a null |
| JsonPointerTree.SetLaw | rapidjson/pointer.h:610-612 | after a value is set the pointer resolves to it, exactly unless a dash met an array; then it does not resolve |
| JsonPointerTree.SetOne | rapidjson/pointer.h:401-447 | what setting makes of each kind of value: an element put in place, appended after nulls or at a dash, a member replaced or added, and a value that can hold neither turned into an array for an index and an object for a name |
| JsonPointerTree.ParsedPointerLaws | rapidjson/pointer.h:401-447 | both laws for every pointer that was parsed |
| JsonPointerTree.SetKeepsOthers | rapidjson/pointer.h:401-447 | a pointer that resolved, and parts from the one set at a container that keeps its kind, resolves to what it did |
| JsonPointerTree.NamesPart | rapidjson/pointer.h:424-435 | tokens of different names part in every object |
| JsonPointerTree.EraseLaw | rapidjson/pointer.h:711-749 | erasing succeeds exactly if the pointer resolves to something other than the root, and changes nothing otherwise |
| JsonPointerTree.EraseTakesOut | rapidjson/pointer.h:737-749 | the parent is left with just that child taken out |
| JsonPointerTree.EraseThenGet | rapidjson/pointer.h:737-749 | after erasing, the pointer resolves again exactly if a member of the same name, or an element, followed |
| JsonPointerTree.EraseKeepsOthers | rapidjson/pointer.h:711-749 | pointers that part from the one erased at an object, or before it in an array, keep their values |
| JsonPointerTree.EraseMovesDown | rapidjson/pointer.h:741-745 | what lay behind an erased element, and all below it, is found one place further down |
| JsonPointerTree.Resolve | rapidjson/pointer.h:479-507 | looking up finds the value, or the first token that does not resolve |
| PoolAllocator.Pool.Malloc | rapidjson/allocators.h:176-188 | a block handed out is aligned, inside its chunk and apart from all others, exactly if no 64-bit addition for the request wraps |
| PoolAllocator.Pool.Realloc | rapidjson/allocators.h:191-222 | a block grows in place or moves with its bytes, all other blocks keep theirs, and it has room for the new size exactly if no addition wraps; a null pointer yields what a request does |
| PoolAllocator.Pool.AddChunk | rapidjson/allocators.h:237-249 | a new chunk is put in front, or nothing changes |
| PoolAllocator.Pool.Clear | rapidjson/allocators.h:145-153 | everything is given back but an empty user buffer |
| PoolAllocator.Pool.Size | rapidjson/allocators.h:168-173 | the size is the 64-bit sum over the chunks, and never more than the capacity where that fits |
| PoolAllocator.Pool.Capacity | rapidjson/allocators.h:158-163 | the capacity is the 64-bit sum over the chunks |
| PoolAllocator.Room | rapidjson/allocators.h:180-183 | where a request finds room, and where it only seems to because a sum has wrapped |
| PoolAllocator.WrapHappens | rapidjson/allocators.h:176-188 | two requests to a new pool of which the second wraps and is answered with a block outside its chunk |
| PoolAllocator.GrownBlock | rapidjson/allocators.h:205-212 | the last block can grow with its chunk and stays apart from the others |
| PoolAllocator.CopyLaw | rapidjson/allocators.h:214-219 | the copy arrives in the new block and disturbs none |
| CallbackKeeper.EachCalledOnce | tools/callback_keeper.hpp:58-99 | in every interleaving of bind and process, then destruction: the destructor ends well exactly if no empty callback is left, as none is if none was ever bound, and then every callback bound has been called exactly once, with data only by a process call on its key, and before destruction with nulls only where something else was bound under its key |
| CallbackKeeper.ProcessHandsOver | tools/callback_keeper.hpp:82-99 | in every run, a process call that finds a callback under its key has called it with its own session, key and data once no thread is inside a call |
| CallbackKeeper.OnlyProcessCalls | tools/callback_keeper.hpp:66-99 | a callback called before destruction that is the only one bound under its key was called with the data of a process call on that key |
| CallbackKeeper.RunsReplace | tools/callback_keeper.hpp:66-80 | at every moment, what was called with nulls has had something else bound under its key |
| CallbackKeeper.RunsAccounted | tools/callback_keeper.hpp:66-99 | at every moment an empty entry of the table was bound as such or is about to be overwritten or erased by the thread that swapped it in |
| CallbackKeeper.RunsKeep | tools/callback_keeper.hpp:66-99 | at every moment at most one thread is inside the lock and every callback bound is at exactly one place: offered, in the table, taken or called |
| CallbackKeeper.NextKeeps | tools/callback_keeper.hpp:66-99 | every step of every thread keeps that |
| CallbackKeeper.DestroyLaw | tools/callback_keeper.hpp:58-63 | the destructor calls all that is left once with nulls, or ends the program at the first empty callback |
| CallbackKeeper.EmptyCallbackTerminates | tools/callback_keeper.hpp:58-63 | a run after which the destructor does that |
| SpinLock.Taken | tools/blocker.hpp:16-24 | a lock taken when it is free keeps the threads apart |
| SpinLock.Given | tools/blocker.hpp:65-70 | giving the lock back leaves it free |
| ObjectsCache.RunsKeep | tools/cache.hpp:25-47 | in every interleaving of gets and returns at most one thread is inside the lock, every object allocated is at exactly one place, none is cached or freed twice, and the cache never exceeds its maximum |
| ObjectsCache.NextKeeps | tools/cache.hpp:25-47 | every step of every thread keeps that |
| ObjectsCache.NeverLentTwice | tools/cache.hpp:25-36 | an object about to be handed out is held by nobody, neither cached nor freed, and in no other thread's hands |
| ObjectsCache.CachedIsReused | tools/cache.hpp:25-36 | in every run, a thread that finds the cache not empty hands out the object returned last, whether or not there is memory |
| ObjectsCache.AllocatedOnlyIfEmpty | tools/cache.hpp:25-36 | objects are allocated only while none is cached |
| ObjectsCache.RoomIsUsed | tools/cache.hpp:38-47 | in every run, an object brought back becomes the first of the cache if there was room, and is freed otherwise |
| ObjectsCache.DestroyedFreesAll | tools/cache.hpp:54-58 | after destruction every object allocated has been freed once or is still with a client, never both |

## Left out

- Doubles: a double event carries the text it was read from; conversion, printing and comparison of doubles are not modelled, and neither are NaN and infinity, numbers as strings and full precision. The limits that reject a number as too big are applied to exact integers instead of rounded doubles, and the counters of fraction and exponent digits are unbounded.
- Error codes and offsets of the JSON readers: only acceptance, events and the place reached are modelled; the two readers report different codes.
- Handlers that stop a parse: the handler of the readers accepts every event.
- JsonNumber.ParseNumber: the limit that rejects a number as too big is applied to exact integers, not to rounded doubles.
- JsonNumber.TakeInteger: the same.
- JsonNumber.TakeFraction: counts digits without the bound of an int.
- JsonNumber.TakeExponent: takes the scale from these counts, so that its limit is unbounded as well.
- JsonReader.Reader.IterativeParse: what a lost reader does is not modelled. Its stack is one of frames with a number of bytes on top of each, so that it counts as lost where the code reads such bytes as a count and a state, whatever they are.
- JsonReader.ParseBothWays: the same; bytes that happen to be the right count and state would go unnoticed.
- JsonLoad.EveryTextBuilds: is stated below 2^32 bytes, where no count can wrap and names stay names; `EveryTextClimbs` has the heights for every text.
- JsonLoad.FailedValueBuilds: the same.
- JsonHandlers.ParseDocument: events are handled after the parse and not during it.
- JsonHandlers.WriteAndParse: for a value with longer strings than there is room for, what is stated is about the bytes that are put, although the assertion of the buffer may have failed.
- JsonAscii.WriteAndRead: the same.
- The flags that check the encoding while reading or writing.
- `internal/itoa.h` is taken as canonical decimal output, and `internal/stack.h` as a plain stack but for the string buffer, whose allocations are taken to succeed; the writers' counters of values are unbounded.
- Copies of pointers, whose name buffer is as long as the kept names say.
- JsonPointerTree.CreateLaw: the tree is updated over values, so that references into it and the sharing they bring are not captured; this holds for setting and erasing as well. The memory of a new member's name is taken to be there: a copied string asks for its length and one more byte in 32 bits, which is none for 2^32 - 1 bytes.
- JsonHandlers.DeepCopy: the same for the strings that a copy owns.
- JsonHandlers.Document.Handle: the same for strings that are copied.
- `EraseMember`, `AddMember` and `FindMember` as they move memory: only their effect on the sequence of members is modelled.
- PoolAllocator.Pool.Realloc: the copy is left out where a wrapped addition would take it outside the chunk; what then happens to memory is not modelled.
- Memory order of the spin lock: steps are sequentially consistent. `spin_blocker_try` is not modelled, nor are `spin_blocker_infinite_flag` and its two unlocks.
- What callbacks do when they are called, in particular calling the table again, and any use of the table or the cache during its destruction.
- The vector instruction paths of the JSON reader and writer, and the big-endian, 32-bit, LZO1Y, LZO1Z and dictionary variants of LZO.
- UTF-16 and UTF-32, byte order marks and automatic encodings; raw values and raw numbers in the writer; the swap and default operations of pointers.
- The schema validator, file and encoded streams, `dataport`, `dynamic_frame`, splines, hashes, memory wrappers and the web server: file and network access, floating point or thin wrappers that would only add easy members.
