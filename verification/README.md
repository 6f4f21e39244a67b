# Verified models of the device-management server's core logic

The server speaks SIP and HTTP to GB/T 28181 cameras and recorders. Its own hard logic lies in the two
libraries built into it, mongoose (networking) and tinyxml2 (XML), and in the allocator of device
identifiers. This project models those parts in Dafny and proves what they are for. Every module is named
for the part it models:

| module | what it models |
|---|---|
| QueueProtocol, MgQueue | the lock-free message ring between a worker thread and a connection, once as interleaved single accesses and once as a class |
| IoBuf, HttpChunk | the receive buffer and in-place decoding of chunked HTTP bodies (section 7.1 of RFC 9112) |
| WsFrame, WsStream, WsConnection | WebSocket frames, streams of frames, and the connection that unmasks and reassembles messages in its receive buffer (sections 5.2 to 5.4 of RFC 6455) |
| JsonScan, JsonDoc, JsonLookup, JsonGet, JsonMissing, JsonDepth, JsonString | the one-pass JSON path search against lookup in a document tree, for paths that exist and for those that do not, documents that are too deep or malformed, and string escapes |
| Glob, GlobKept, GlobTaken, GlobEnds | wildcard matching with backtracking to the last wildcard: when it loses a match, when it accepts too much, and when it ends |
| Base64, Digest, Sha1, Md5 | the codecs: base64 and the streaming digests |
| PollTimer | periodic timers |
| XmlText, XmlReference | escapes, numeric references and decoding of XML text in its own buffer |
| XmlPrinter, XmlParser, XmlReader, XmlRoundTrip | the printer, the recursive parser as functions and as loops over a read position, and their round trip |
| XmlSpelling, XmlRefusal | what the parser makes of documents in any spelling: white space, quotes, entities and references as they may stand, names that are repeated or do not match, and documents cut short |
| XmlTree | the document tree in memory, with parent and sibling links changed in place |
| GbCode, GbId, GbConcurrent | device identifiers, the allocator run by one caller, and the allocator under concurrent callers |
| Bytes | bytes and their bits, 64-bit wrap-around, byte orders and sequence lemmas |

Code that changes its data step by step is modelled by classes and loops, each proved against a
specification function; the properties are lemmas about those functions. Where both sides of a law go through
the same function, such as a digit's value or an operation on bits, a lemma ties that function to the numbers,
alphabets and vectors of the standard it implements. Several claims one would expect
are false of the code. For each there is a lemma with an input that shows it, and a theorem that says exactly
when the code does what is expected (for some wildcard patterns with `?`, one direction of that):

| what one would expect | an input that shows it false | when it holds |
|---|---|---|
| `getchunk` finds the chunk there is | `OwnLineEndTaken`, `LineEndInFrontTaken`: sizes close to 2^64 | `GetChunkExact`, and `Deliver` and `ReadAll` for whole bodies |
| WebSocket events do not depend on how the bytes are cut | `CutShows`: a final continuation with nothing in progress | `WsStream.DecodeSplit`, `WsConnection.ReadAll` |
| a JSON number is read to its end | `ExponentTooLong`: `1e3080` | `NumberExact`, `GetRefinesLookup` |
| a JSON path that names nothing finds nothing | `MissingIndexFound`, `MissingKeyFound` | `ExactPaths` |
| `*` takes no slash | `StarTakesSlash`, `QuestionTakesSlash` | `TakesNothingExactly` for patterns without `?`; `NothingTaken` for all |
| no match is lost | `StarLosesMatch`, `QuestionLosesMatch` | `LosesNothingExactly` and `HashThenStar`, among others for patterns without `?`; `NothingLost` for all |
| `mg_match` ends | `HashInSubjectLoops`, `HashInSubject` | `PatternEnds`, `SubjectEnds`; `NoneBehindEnds` for a pattern and a subject; `WalkEnds` |
| an ampersand that begins no entity survives decoding | `UnknownEntityGarbled` | `UnknownEntity` |
| MD5 counts every bit | `FourGigabytesAreLost` | `Md5Counts` |
| a timer polled late expires once for each period | `LateIsBehind` | `ExactMeansSteady` |
| a drained ring takes every message shorter than it | `FifteenToSpareIsNot` | `ProgressOnDrained` |
| inserting a node leaves a tree | `BelowItself` | `CanMove`, `InsertEndChild`, `InsertFirstChild` |
| `InsertAfterChild` follows no null link | a last child moved behind the one before it | `InsertAfterChild` |
| a code that is taken is given out | `CreateLosesCode`: no local identifier yet | `CreateIsLeast` |
| an identifier is given out once | `LastDisagrees`, `OldLocalGivenOut`, `HalfLoadedIsGivenOut` | the same three, and `SetLocalAgain` and `SetLocalElsewhere` |

Where code and documentation differ the model follows the code: `*` in `mg_match` is documented not to match
a slash; the comment beside 0x98967E in IDManager.h says 9999999, but the number is 9999998 and the window
therefore one wider.

To check everything: `dafny verify dfyconfig.toml`.

## Model

| member | source | states |
|---|---|---|
| QueueProtocol.FirstInFirstOut | mongoose.c:4009-4066 | In every interleaving of single shared reads and writes of one producer (book, fill, add) and one consumer (next, del), no access leaves the buffer, no assert fails, and the messages consumed are a prefix of those added, in order and byte for byte |
| QueueProtocol.NeverOverwritesUnread | mongoose.c:4023-4061 | In every reachable state, every possible store lies inside the buffer, misses every unread record and every wrap marker still to be passed, and changes nothing else |
| QueueProtocol.AccessesInside | mongoose.c:4015-4066 | In every state the invariant allows, the loads and stores either side is about to make lie inside the buffer, and the asserts beside them hold |
| QueueProtocol.EmptyMeansDrained | mongoose.c:4042-4054 | In every interleaving, when the consumer's next step makes `mg_queue_next` return 0, whichever of its comparisons that is, everything added has been consumed |
| QueueProtocol.NextAloneFinds | mongoose.c:4042-4054 | From every state the invariant allows with a message waiting, `mg_queue_next` returns the oldest one's length, wrapping around first where it has to |
| QueueProtocol.FinishReadTakes | mongoose.c:4063-4066 | Reading that message to its end and `mg_queue_del` move exactly it from the waiting to the consumed messages |
| QueueProtocol.AddAloneAdds | mongoose.c:4056-4061 | `mg_queue_add` moves head behind the record and makes the bytes written the last waiting message |
| QueueProtocol.MessageGoesThrough | mongoose.c:4029-4066 | Every message with room on a drained queue is booked, written, added, found, read and deleted whole, and leaves the queue drained |
| QueueProtocol.RunKeepsInv | mongoose.c:4009-4066 | Every schedule keeps the invariant that ties head, tail, marker, the record chain in the buffer and both callers' local variables to the message histories |
| QueueProtocol.BookAloneOutcome | mongoose.c:4029-4040 | Run without interference, the steps of `mg_queue_book`, with `size_t` arithmetic modulo 2^64, book ahead of head, or mark and wrap, or book behind tail, and fail otherwise |
| QueueProtocol.ProgressOnDrained | mongoose.c:4029-4054 | On a drained queue a message is booked after at most one failed booking and one `mg_queue_next` if and only if it fits before or after wrapping; otherwise both calls leave the ring as it is |
| QueueProtocol.SixteenToSpareIsEnough | mongoose.c:4029-4054 | A message with sixteen bytes to spare can always be booked on a drained queue, as the worker's 100-byte queue relies on |
| QueueProtocol.FifteenToSpareIsNot | mongoose.c:4029-4040 | Sixteen is exact: with fifteen there is a drained queue that refuses the message for good |
| MgQueue.Queue.constructor | mongoose.c:4009-4013 | A new queue over any buffer holds nothing |
| MgQueue.Queue.Book | mongoose.c:4029-4040 | Alone on the queue, booking keeps the waiting messages and returns the space and place of the outcome above |
| MgQueue.Queue.Add | mongoose.c:4056-4061 | Appends the booked bytes as the last waiting message |
| MgQueue.Queue.Next | mongoose.c:4042-4054 | Returns length and place of the oldest waiting message, 0 exactly when there is none |
| MgQueue.Queue.Del | mongoose.c:4063-4066 | Removes exactly the oldest waiting message |
| MgQueue.AddKeepsLayout | mongoose.c:4056-4061 | Storing a length and moving head makes the filled bytes one more record of the chain |
| IoBuf.Buffer.Append | mongoose.c:2389-2399 | Appends at the end, growing the storage when needed, and keeps what was there |
| IoBuf.Buffer.Del | mongoose.c:2401-2408 | Cuts out the given span, clipped to the data, and closes the gap |
| HttpChunk.NibbleIs | mongoose.c:5411-5415 | A digit of either case has its value; any other character is off by the letter W modulo 256 |
| HttpChunk.OrIs | mongoose.c:5417-5420 | Putting digits together is the or of their bits, however far they overlap |
| HttpChunk.UnhexSize | mongoose.c:5411-5420 | `mg_unhexn` gives the positional value of any hexadecimal digits, in mixed case and with zeros in front, below 2^64 |
| HttpChunk.UnhexHex | mongoose.c:5411-5420 | In particular `mg_unhexn` reads back the hexadecimal length that the chunk writer prints |
| HttpChunk.ChunkOfEncode | mongoose.c:2176-2187 | The chunk format holds exactly the data of a chunk whose size line has the right value in digits of either case, whatever follows |
| HttpChunk.ChunkStable | mongoose.c:2176-2187 | More bytes never change a chunk the format holds |
| HttpChunk.GetChunkExact | mongoose.c:2176-2187 | `getchunk`, with sums that wrap at 2^64, finds the chunk of the format if and only if the size line does not mislead it: a size of 2^64 - 2, one that reaches back to a line end in front of the line, or one whose line end is still to come; misled, it reads outside the data or reports more data than there is |
| HttpChunk.OwnLineEndTaken | mongoose.c:2176-2187 | `fffffffffffffffe` and a line end pass for a chunk of 2^64 - 2 bytes, whatever is in front |
| HttpChunk.LineEndInFrontTaken | mongoose.c:2176-2187 | `ffffffffffffffec` and a line end pass for a chunk when a line end stands in front, as it does behind a header |
| HttpChunk.FittingNeverBreaks | mongoose.c:2176-2187 | Nothing misleads it as long as every size line that decoding meets fits into 64 bits |
| HttpChunk.DecodeSplit | mongoose.c:2201-2235 | In the format, for any bytes at all, decoding a prefix and then the rest gives what decoding them at once gives; the code keeps to it as `Deliver` and `ReadAll` say |
| HttpChunk.DecodeEncode | mongoose.c:1541-1546 | Decoding gives the data of every list of non-empty chunks closed by an empty one, with size lines in digits of either case, and keeps every following byte |
| HttpChunk.HelloBody | mongoose.c:2176-2235 | The body `5`, `hello`, `0` with its line ends, byte by byte, decodes to hello and the end |
| HttpChunk.Receiver.GetChunkAt | mongoose.c:2176-2187 | The scan over the buffer computes `getchunk` with its wrapped sums, for any bytes at all |
| HttpChunk.Receiver.Deliver | mongoose.c:2201-2235 | One call comes to a size line that misleads `getchunk` if and only if decoding the waiting bytes meets one; otherwise it compacts every complete chunk in place, reports each once in order, keeps the unprocessed bytes, and resets the offset after the last chunk |
| HttpChunk.ReadAll | mongoose.c:2195-2235 | However the bytes of a body are cut into reads, and whichever chunks the handler deletes: either some read shows a size line that misleads `getchunk`, which is said exactly, or the events, the kept data and what follows are those of decoding everything at once |
| HttpChunk.AnyCutHolds | mongoose.c:2201-2235 | Bytes that meet no misleading size line, wherever they end, can be cut anywhere |
| HttpChunk.ReadEncoded | mongoose.c:2201-2235 | For a body of chunks with size lines in digits of either case and a handler that deletes nothing, the buffer ends as header, exact concatenation and every following byte, and each chunk is reported once in order |
| WsFrame.ParseFrame | mongoose.c:6179-6243 | A frame made by `mkhdr` and `mg_ws_mask`, for any opcode, mask and payload up to 1 GiB, is parsed to its own lengths and unmasked to its payload |
| WsFrame.MaskedByte | mongoose.c:6202-6205 | A bit of a masked byte is set if and only if the bits of the payload byte and of its mask byte differ |
| WsFrame.HelloMasked | mongoose.c:6179-6207 | The masked frame 81 85 37 fa 21 3d 7f 9f 4d 51 58 of section 5.7 of RFC 6455 holds Hello |
| WsFrame.LongHeaders | mongoose.c:6179-6235 | And the headers given there for 256 and 65536 bytes are read and written so |
| WsFrame.ParseStable | mongoose.c:6179-6207 | A frame that parses still parses the same with more bytes behind it |
| WsFrame.PrefixRefused | mongoose.c:6179-6207 | Every strict prefix of a frame is refused |
| WsFrame.OversizeRefused | mongoose.c:6198-6200 | A frame longer than 1 GiB is refused, whatever follows |
| WsStream.DecodeSplit | mongoose.c:6276-6345 | Handling a prefix and then the rest gives the events, message in progress and left-over bytes of handling them at once if and only if the cut is not right behind a final empty continuation with nothing in progress and a byte other than zero to follow |
| WsStream.CutShows | mongoose.c:6332-6340 | The bytes 80 00 81 00 at once raise a message with flags 81, and cut in the middle one with flags 00, both of length 2^64 - 1 |
| WsStream.OneFrame | mongoose.c:6276-6345 | What a short frame of each of the sixteen operations, final or not, raises and answers, in which order, and what it leaves of the message in progress |
| WsStream.DecodeWires | mongoose.c:6285-6341 | Handling a stream of whole frames is handling the frames one after another |
| WsStream.PartsTell | mongoose.c:6322-6340 | The fragments of a message, with control frames between them, end in one message event with their concatenation, and the control events in order |
| WsStream.DecodeLegal | mongoose.c:6276-6345 | Every legal stream (sections 5.2 to 5.4 of RFC 6455) of data, continuation, ping and pong frames delivers exactly its messages and control frames and leaves nothing |
| WsConnection.MakeHeader | mongoose.c:6209-6235 | The header built byte by byte is the header of section 5.2 of RFC 6455 for the length, flags and mask |
| WsConnection.MaskTail | mongoose.c:6237-6243 | Masks exactly the last bytes of the send buffer with the four bytes before them |
| WsConnection.Send | mongoose.c:6245-6254 | Appends exactly one frame of the payload |
| WsConnection.Connection.Process | mongoose.c:6179-6207 | Returns the length of the frame at the offset and unmasks it in place, or returns 0 and leaves the bytes unchanged |
| WsConnection.Connection.FinishMessage | mongoose.c:6332-6340 | The last fragment raises the message and removes it, keeping the bytes behind; when the message is empty the flags are the first byte behind, or the zero left by deletion, and the length is 0 - 1 wrapped |
| WsConnection.Connection.Read | mongoose.c:6276-6345 | One read event handles exactly the complete frames, in order, in place, for any bytes, and puts the frames of its replies, masked if it is a client, behind what is in the send buffer |
| WsConnection.DecodeMatched | mongoose.c:6276-6345 | Whatever arrives, each ping is answered by a pong and each close by a close, with the same payload and in order, and nothing else is sent |
| WsConnection.HelloAnswered | mongoose.c:6298-6317 | A server answers a ping that says Hello with 8a 05 and Hello, a close with 88 05 and Hello, a pong not at all |
| WsConnection.ReadAll | mongoose.c:6276-6345 | However the bytes are cut into reads, the message in progress, the left-over bytes, the answers sent and, the flags of stray frames apart, the events are those of decoding everything at once; the events are the same altogether if and only if no cut is right behind a stray frame with a byte other than zero to follow |
| WsConnection.ReadLegal | mongoose.c:6276-6345 | For every legal stream in any pieces, the messages delivered are the concatenated unmasked fragments in order, the control frames arrive undisturbed, nothing is stray, and exactly the pings are answered |
| JsonLookup.GetRefinesLookup | mongoose.c:2493-2630 | For every well-formed document of nesting up to 30 with any white space, and every path of keys and indices that exists in it, the offset and length are the span of the value that tree lookup finds if and only if every number up to the end of that value can be read to its end; otherwise the search stops there or cuts the number short |
| JsonDepth.WholeDocument | mongoose.c:2493-2630 | A well-formed document whose numbers can be read is found whole when it nests up to 30, and is answered with `MG_JSON_TOO_DEEP`, -1, when it nests deeper |
| JsonDepth.Refused | mongoose.c:2516-2630 | Wherever the search stands, white space is passed over, and a character that may not come next ends it with `MG_JSON_INVALID`, -2 |
| JsonDepth.Broken | mongoose.c:2516-2630 | So do a word cut short, a string without its end and a bracket of the wrong kind; a text that ends too early is `MG_JSON_NOT_FOUND`, -3 |
| JsonLookup.NumberInTheWay | mongoose.c:2476-2486 | Behind an element with a number that cannot be read to its end every path finds nothing |
| JsonLookup.ExponentTooLong | mongoose.c:2476-2486 | In `[1e3080,2]` the path `$[1]` finds nothing |
| JsonDepth.ExponentShortEnough | mongoose.c:2476-2486 | In `[1e3079,2]` it finds the 2 |
| JsonLookup.PassRaw | mongoose.c:2433-2445 | The string scan stops exactly at the closing quote of every raw string without stray escapes |
| JsonLookup.NumberExact | mongoose.c:2447-2491 | The number scan takes exactly the characters of a number, whatever ends it, if and only if the digits of the exponent do not go on once their value has reached 308; otherwise it stops at one of its digits |
| JsonLookup.SkipValue | mongoose.c:2501-2630 | A value that is not on the path is passed over without touching the search if all its numbers can be read to their ends, and stops it otherwise |
| JsonLookup.FindValue | mongoose.c:2493-2630 | From the machine's state at a value, the rest of a path that exists is found where lookup in the value finds it, under the same condition |
| JsonGet.Find | mongoose.c:2493-2630 | The loop computes the run of the one-pass machine on any text and path |
| JsonGet.ScanNumber | mongoose.c:2447-2491 | The loop consumes what the number grammar consumes |
| JsonGet.FindValueOf | mongoose.c:2493-2630 | The loop returns the span of the value on every well-formed document and existing path if and only if the numbers up to its end can be read |
| JsonMissing.ExactPaths | mongoose.c:2493-2630 | In every well-formed document a path finds something only if it exists, and, with numbers that can be read to their ends, always if it does, if and only if no index stands before its last item (or it is longer than documents may nest) |
| JsonMissing.MissingIsNotFound | mongoose.c:2516-2630 | A path whose only index, if any, is its last item and that does not exist finds nothing in any well-formed document: the answer is `MG_JSON_NOT_FOUND`, or `MG_JSON_INVALID` where a number cannot be read to its end |
| JsonMissing.EarlyIndexFoundWrong | mongoose.c:2516-2602 | For every path with an index before its last item there is a document without its value in which it finds something |
| JsonMissing.LongPathFoundRight | mongoose.c:2516-2560 | A path longer than documents may nest neither exists nor is found |
| JsonMissing.MissingIndexFound | mongoose.c:2516-2575 | For instance an index one past the end of a nested array finds the first element of the next array |
| JsonMissing.MissingKeyFound | mongoose.c:2516-2602 | And a key missing from one object is found in the next object |
| JsonString.EscapeRoundTrip | mongoose.c:2651-2674 | Unescaping what `qcpy` writes gives the string back, for every string without zero byte (section 7 of RFC 8259) |
| JsonString.Escapes | mongoose.c:2421-2432 | The seven characters and letters that belong together, one way and back; no other character is escaped, no other letter may stand behind a backslash |
| JsonString.UnicodeEscape | mongoose.c:2655-2661 | `\u00` and two digits of either case give their byte; other codes are refused |
| JsonString.EscapeScans | mongoose.c:2433-2445 | `mg_pass_string` runs over escaped text exactly to the closing quote |
| JsonString.QuoteCopy | mongoose.c:3927-3939 | The copying loop writes the escapes and counts them |
| JsonString.UnescapeInto | mongoose.c:2651-2674 | Unescapes into a buffer and ends it with a zero byte, or reports that it does not fit or is malformed |
| JsonString.QuoteAndBack | mongoose.c:3927-3939 | Through both loops every string without zero byte comes back |
| GlobTaken.MatchIsExact | mongoose.c:5330-5360 | The walk is exact (true if and only if the recursive definition matches) for every pattern without `*`, every subject without a slash, and every pattern whose `*` and runs are good in the sense of the rows below, when the subject holds no wildcard character of the pattern; what it accepts always matches with `*` taken for `#` |
| GlobTaken.ExactPatterns | mongoose.c:5330-5360 | For every pattern of literals, `*` and `#`: the walk is exact on every such subject if and only if both conditions below hold |
| GlobKept.HashThenStar | mongoose.c:5330-5360 | For every pattern of literals, `*` and `#`: no match is lost on any subject if and only if each `*` with a `#` somewhere in front of it has only slashes behind it up to one more wildcard |
| GlobKept.LosesNothingExactly | mongoose.c:5330-5360 | The same with `?`, which may stand where those slashes stand, as long as no `*` has a `?` in its run before the first `#` |
| GlobKept.NothingLost | mongoose.c:5330-5360 | For every pattern, `?` anywhere: no match is lost if each `*` behind a `#`, or behind or at a `*` with a `?` in its run, has only slashes and `?` behind it up to one more wildcard |
| GlobTaken.TakesNothingExactly | mongoose.c:5330-5360 | For every pattern without `?`: nothing is accepted that does not match if and only if each `*` whose run begins with a slash, and is longer or the last, has only `*` and single slashes between it and a `#` in front of it |
| GlobTaken.NothingTaken | mongoose.c:5330-5360 | For every pattern that condition is enough, with runs that begin with `?` counted in |
| GlobTaken.LooseIsTight | mongoose.c:5330-5360 | Behind a `#` with only `*` and single slashes since, taking a `*` for `#` makes no difference to what matches |
| Glob.RunIsAhead | mongoose.c:5330-5360 | At every turn, what is still to be accepted is what the recursive definition still accepts: giving up all wildcards but the last loses nothing |
| GlobEnds.Match | mongoose.c:5330-5360 | Wherever the walk ends, the loop returns its answer, which loses no match and accepts nothing else under the conditions above |
| GlobEnds.PatternEnds | mongoose.c:5330-5360 | The walk ends on every subject if and only if the pattern has neither `*` nor `#` |
| GlobEnds.SubjectEnds | mongoose.c:5330-5360 | The walk ends for every pattern if and only if no wildcard character of the subject stands behind a different character |
| GlobEnds.NoneBehindEnds | mongoose.c:5330-5360 | For one pattern and one subject it ends when no wildcard character of the pattern stands in the subject behind a different character |
| GlobEnds.ApartEnds | mongoose.c:5330-5360 | In particular it ends, with the answer of the recursive walk, when the subject holds no wildcard character of the pattern |
| GlobEnds.WalkEnds | mongoose.c:5330-5360 | For any pattern and subject the walk ends if and only if it never comes back to a wildcard standing at the same wildcard in the subject, with characters behind that do not do |
| GlobEnds.HashInSubject | mongoose.c:5333-5349 | The pattern `#c` on a subject with a `#` behind its first character ends if and only if just c follows that `#` |
| GlobTaken.StarsAreExact | mongoose.c:5330-5360 | For patterns of literals and `*` alone: exact if and only if no run of literals behind a `*` begins with a slash and is the last one or longer than the slash |
| GlobTaken.StarTakesSlash | mongoose.c:5344-5348 | `*/b` accepts `/x/b`: the documented meaning of `*` does not hold |
| GlobTaken.QuestionTakesSlash | mongoose.c:5336-5348 | `*?b` accepts `/xb` |
| GlobKept.StarLosesMatch | mongoose.c:5344-5348 | `#a*b` refuses `a/ab` |
| GlobKept.QuestionLosesMatch | mongoose.c:5336-5348 | `*a?b` refuses `aa/b` |
| GlobEnds.HashInSubjectLoops | mongoose.c:5333-5349 | So `#a` on `x#b` returns to the same state for ever |
| Base64.DecodeEncode | mongoose.c:92-108 | Decoding undoes encoding for every byte string (section 4 of RFC 4648) |
| Base64.Vectors | mongoose.c:3941-3956 | f, fo and foobar are Zg==, Zm8= and Zm9vYmFy, as in section 10 of RFC 4648, and fb ff bf is +/+/ |
| Base64.BitsBack | mongoose.c:92-108 | The three bytes of a group are the 24 bits of its four letters |
| Base64.GroupRefused | mongoose.c:92-108 | A group is refused if and only if one of its first two characters is no letter, or one of the others neither a letter nor an equals sign |
| Base64.DecodeCut | mongoose.c:92-108 | Characters that do not fill a group of four at the end are not looked at |
| Base64.BlockEncode | mongoose.c:3941-3956 | The encoder that takes three bytes at a time writes the specified text |
| Base64.Update | mongoose.c:58-72 | One more byte turns the partial text, with its left-over bits kept in the output, into the partial text of one byte more |
| Base64.Final | mongoose.c:74-83 | Flushing and padding completes the partial text to the specified text and a zero byte |
| Base64.EncodeBytes | mongoose.c:85-90 | Byte at a time, the same text as three at a time |
| Base64.DecodeBytes | mongoose.c:92-108 | The decoding loop gives the specified bytes, or 0 when a character does not belong |
| Base64.EncodeAndDecode | mongoose.c:85-108 | Through both loops every byte string comes back |
| Digest.FoldGoesOn | mongoose.c:4341-4359 | Folding the round function over a message goes on from where a prefix stopped, with the left-over bytes in front |
| Digest.Position | mongoose.c:4349-4350 | The place in the block buffer read off the bit counter is the number of left-over bytes |
| Digest.Sha1Counts | mongoose.c:4345-4348 | The two 32-bit words hold the bit length modulo 2^64 after any update |
| Digest.Md5Counts | mongoose.c:2926-2931 | MD5 casts the length to 32 bits first: its count stays exact if and only if the bits it loses are zero |
| Digest.FourGigabytesAreLost | mongoose.c:2926-2931 | An MD5 update of four gigabytes leaves a wrong count |
| Digest.PaddedIsWhole | mongoose.c:4361-4377 | Padding makes the message a whole number of blocks |
| Digest.AbcPadded | mongoose.c:4361-4377 | The padded block of `abc`, for both digests |
| Digest.CounterBytes | mongoose.c:4365-4369 | The eight length bytes are those of the 64-bit count, in either byte order |
| Sha1.Context.constructor | mongoose.c:4332-4339 | The initial chaining value and an empty message |
| Sha1.StartShows | mongoose.c:4332-4339 | The initial chaining value is that of section 6.1 of RFC 3174, byte by byte |
| Sha1.Context.Update | mongoose.c:4341-4359 | Chaining value, buffer and counter are those of the whole message so far |
| Sha1.Context.Final | mongoose.c:4361-4383 | The digest is that of the message with the padding of section 5.1.1 of FIPS 180-4, and the context is erased |
| Sha1.HashPieces | mongoose.c:4332-4383 | For any split of a message into updates, the digest is that of the whole |
| Md5.StartShows | mongoose.c:2834-2842 | The initial chaining value is that of section 3.3 of RFC 1321, byte by byte |
| Md5.LastBlocks | mongoose.c:2961-2985 | The last one or two blocks are the left-over bytes, a one bit, zeros and the length |
| Md5.Context.Update | mongoose.c:2926-2959 | Chaining value and buffer are those of the whole message so far; the counter stays exact if and only if the piece has nothing in the bits lost |
| Md5.Context.Final | mongoose.c:2961-2989 | The digest is that of sections 3.1 to 3.5 of RFC 1321 whenever the counter is exact |
| Md5.HashPieces | mongoose.c:2834-2989 | For any split into pieces under four gigabytes, the digest is that of the whole |
| PollTimer.NextExpiration | mongoose.c:5455-5461 | The next expiration is never past nor more than a period ahead, and every expiration so far has a whole period of its own |
| PollTimer.ExpiredIs | mongoose.c:5455-5461 | A timer expires when its time has come; its next time is one period on, or one period from now when that is over, when it starts, or when the clock has been put back |
| PollTimer.NeverAhead | mongoose.c:5455-5461 | A timer never expires more than elapsed time divided by period times |
| PollTimer.ExactMeansSteady | mongoose.c:5455-5461 | The count equals floor(elapsed / period) at every poll if and only if no gap between polls takes in the ends of two periods |
| PollTimer.OnceAPeriod | mongoose.c:5455-5461 | Polling at least once a period is enough for that |
| PollTimer.LateIsBehind | mongoose.c:5455-5461 | After the first gap that is too long the count is behind |
| PollTimer.CallsAre | mongoose.c:5463-5477 | A repeating timer calls at each expiration, and once at the first poll when it is to run now; any other calls exactly once |
| PollTimer.TimerNode.CheckExpired | mongoose.c:5455-5461 | Updates the expiration time as specified, in 64-bit arithmetic |
| PollTimer.TimerNode.Poll | mongoose.c:5463-5477 | One timer's turn in the poll loop |
| PollTimer.PollAt | mongoose.c:5442-5477 | A fresh timer polled at given times makes exactly the calls counted above |
| XmlText.DecodeEscape | tinyxml2.cpp:2639-2691 | Decoding what `PrintString` writes gives the string with line ends normalized, for text and for attribute values; without a carriage return, unchanged |
| XmlText.FiveEntities | tinyxml2.cpp:289-387 | The five entities of section 4.6 of XML 1.0, written and read |
| XmlText.LineEnds | tinyxml2.cpp:304-323 | A carriage return, a line feed, or both in either order become one line feed |
| XmlText.EscapeHides | tinyxml2.cpp:2639-2691 | Escaped text holds no character that could end it |
| XmlText.StepOfEscape | tinyxml2.cpp:301-380 | One step of the decoder on escaped text writes one character of the normal form and leaves the escape of the rest |
| XmlText.UnknownEntity | tinyxml2.cpp:363-367 | A string decodes to what it would with every ampersand that begins no entity kept, if and only if for each such ampersand an ampersand stands as many characters further ahead as decoding has saved before it |
| XmlText.NothingSaved | tinyxml2.cpp:363-367 | So it does when nothing before such an ampersand becomes shorter |
| XmlText.UnknownEntityGarbled | tinyxml2.cpp:363-367 | But `&lt;&x` decodes to `<lx` |
| XmlText.DecodeShrinks | tinyxml2.cpp:289-387 | Decoding never makes a string longer, numeric references included |
| XmlText.GetStr | tinyxml2.cpp:289-387 | Decodes any string inside its own buffer, the write pointer never passing the read pointer, ends it with a zero byte and leaves the rest of the buffer alone |
| XmlText.PrintString | tinyxml2.cpp:2639-2691 | The loop that flushes runs of plain characters writes exactly the escapes |
| XmlReference.ReferenceDecodes | tinyxml2.cpp:478-571 | A reference in decimal digits below 2^32, or in any hexadecimal digits of either case, decodes to the UTF-8 form of its number, modulo 2^32, although the digits are read backwards in 32-bit arithmetic |
| XmlReference.NoReference | tinyxml2.cpp:478-571 | Without a semicolon the ampersand stays, `&#` at the end loses it, and `&#;` is the character zero |
| XmlReference.Utf8RoundTrip | tinyxml2.cpp:425-475 | The UTF-8 form of every number below 2^21 is the shortest of section 3 of RFC 3629 and can be read back; a larger one leaves nothing |
| XmlReference.Utf8Vectors | tinyxml2.cpp:425-475 | The examples of section 7 of RFC 3629 |
| XmlPrinter.Printer.OpenElement | tinyxml2.cpp:2723-2733 | Writes seal, indentation and start of the tag, and remembers the name |
| XmlPrinter.Printer.CloseElement | tinyxml2.cpp:2795-2820 | Writes the end of an element as its content and depth demand, and forgets the name |
| XmlPrinter.Printer.PushText | tinyxml2.cpp:2833-2846 | Text and CDATA sections, with the depth at which they stop indentation |
| XmlPrinter.Printer.Visit | tinyxml2.cpp:2119-2130 | Visiting a node writes exactly its specified text, restores the name stack and leaves the specified state |
| XmlPrinter.Layout | tinyxml2.cpp:2705-2846 | How a tree with an attribute, a text, a comment and an empty element is laid out, in both modes |
| XmlReader.Reader.SkipWhiteSpace | tinyxml2.cpp:718-728 | The place of the first character that is not white space |
| XmlReader.Reader.FindEnd | tinyxml2.cpp:215-237 | The first place of the end tag, or the end of the text |
| XmlReader.Reader.ReadAttribute | tinyxml2.cpp:1418-1443 | Reads one attribute as specified, or refuses it |
| XmlReader.Reader.ReadAttributes | tinyxml2.cpp:1935-1992 | Reads the attributes to the end of the tag, refusing duplicates |
| XmlReader.Reader.ReadNode | tinyxml2.cpp:718-785 | One turn of the loop inserts the node the specification inserts next, or ends with its result |
| XmlReader.Reader.ReadElement | tinyxml2.cpp:2051-2076 | An element with its content, checked against the end tag that comes back |
| XmlReader.Reader.ParseDeep | tinyxml2.cpp:1050-1162 | The recursive loop computes the specified nodes and restores the depth; the error flag is set exactly on failure |
| XmlReader.Reader.Parse | tinyxml2.cpp:2525-2553 | The document is parsed as specified |
| XmlRoundTrip.AttributesAre | tinyxml2.cpp:1935-1992 | Printed attributes are read back, in order, with values normalized |
| XmlRoundTrip.MarkupIs | tinyxml2.cpp:718-785 | Comments, CDATA sections, declarations and unknown markup are identified by their headers and read back |
| XmlRoundTrip.TextNodeIs | tinyxml2.cpp:1209-1233 | A run of text is read back as one node, or dropped when blank |
| XmlRoundTrip.ParsesAll | tinyxml2.cpp:1050-1162 | Nodes printed at any depth and printer state are read back in normal form, and the parser goes on behind them, if and only if they are acceptable |
| XmlRoundTrip.ParsePrinted | tinyxml2.cpp:2525-2553 | Parsing what the printer writes for any document gives its normal form if it is not nested too deep and its declarations come first, and fails otherwise |
| XmlRoundTrip.PlainIsNormal | tinyxml2.cpp:1209-1233 | A tree without carriage returns, blank text and neighbouring texts is its own normal form |
| XmlRoundTrip.RoundTrip | tinyxml2.cpp:2705-2932 | Such a tree comes back unchanged if and only if it is within the depth limit with declarations first |
| XmlSpelling.DecodeSpelled | tinyxml2.cpp:289-387 | Text that spells its characters as themselves, by entity or by number decodes to them |
| XmlSpelling.AttributeRead | tinyxml2.cpp:1418-1443 | A name, an equals sign with any white space around it, and a value in quotes of either kind are read as that name and the decoded value |
| XmlSpelling.AttributesRead | tinyxml2.cpp:1935-1992 | Attributes with any white space between them are read in order, and refused if and only if a name is repeated |
| XmlSpelling.ItemsRead | tinyxml2.cpp:1050-1162 | Markup in any spelling, with text between, is read as what it means, and the parser goes on behind it, if and only if it is acceptable |
| XmlSpelling.DocumentRead | tinyxml2.cpp:2525-2553 | However a tree is written, with white space, quotes, entities, empty or paired tags as they may stand and perhaps a byte order mark, it is read as that tree if and only if no attribute is repeated, end tags match, the depth is within the limit, declarations come first and no text follows |
| XmlSpelling.DeviceListRead | tinyxml2.cpp:1418-1443 | `<DeviceList Num='2'/>` is read, and with a second Num refused |
| XmlRefusal.StrayEnd | tinyxml2.cpp:1069-1130 | An end tag at the top ends the document: what comes before it is kept and what follows is not read |
| XmlRefusal.Unended | tinyxml2.cpp:1050-1162 | An element whose text ends before its end tag is refused |
| XmlRefusal.NoValue | tinyxml2.cpp:1418-1443 | So is an attribute without equals sign, without quote or without its second quote |
| XmlRefusal.NoTail | tinyxml2.cpp:718-785 | And a comment, CDATA section, declaration or unknown markup that is not ended |
| XmlRoundTrip.Write | tinyxml2.cpp:2119-2130 | A fresh printer's buffer holds the specified document |
| XmlReader.WriteAndRead | tinyxml2.cpp:2525-2539 | Through the printer and the reader classes a document comes back in normal form, or is refused, under the same condition |
| XmlTree.UnlinkedGood | tinyxml2.cpp:866-887 | Unlinking keeps the tree well formed: siblings doubly linked, first and last right, parents right, no cycles |
| XmlTree.InsertedGood | tinyxml2.cpp:903-961 | Linking a free node at any place keeps the tree well formed |
| XmlTree.MovedSpec | tinyxml2.cpp:903-997 | Moving a subtree to any place of any parent that is not inside it is removing it from one sequence of children and inserting it into the other, and keeps the tree well formed |
| XmlTree.DetachedSpec | tinyxml2.cpp:1179-1191 | A node taken from its old parent is nobody's child, and nothing else changes |
| XmlTree.Node.Unlink | tinyxml2.cpp:866-887 | The assignments do exactly that unlinking |
| XmlTree.CanMove | tinyxml2.cpp:903-997 | A node can get a new parent in a well-formed tree if and only if that parent is not below it |
| XmlTree.BelowItself | tinyxml2.cpp:903-997 | Whatever else it holds, what comes out of moving a node below itself is no tree |
| XmlTree.Node.InsertEndChild | tinyxml2.cpp:903-930 | Appends, moving the node from another parent when needed; the result is well formed if and only if the node is not put below itself |
| XmlTree.Node.InsertFirstChild | tinyxml2.cpp:933-961 | Prepends likewise, under the same condition |
| XmlTree.Node.InsertAfterChild | tinyxml2.cpp:964-997 | Inserts behind a given child, under the same condition, returns null for a stranger; follows a null link if and only if the last child is moved behind the sibling it already follows |
| XmlTree.Node.DeleteChild | tinyxml2.cpp:890-900 | Removes exactly the subtree; all other nodes keep children, parents and well-formedness |
| XmlTree.Node.DeleteNode | tinyxml2.cpp:1164-1177 | The destructor removes exactly the node and everything below it |
| XmlTree.Node.DeleteChildren | tinyxml2.cpp:856-863 | Deletes child after child until nothing below is left |
| XmlTree.PrunedAway | tinyxml2.cpp:817-823 | With its subtree gone a node can be removed and the rest is well formed |
| GbCode.CodeExact | IDManager.cpp:234-241 | The only ten characters that are read as a ten-digit code and its type are the digits of that code, signs and spaces included |
| GbCode.NumberRead | tools/TypeConversion.cpp:53-69 | What `String2Ull` and `String2Int` read: the digits behind white space and a sign, whatever follows, or 0 for what does not fit |
| GbCode.DigitsOfValue | IDManager.cpp:201 | Without leading zeros, a number is written in one way |
| GbId.FirstCodeIs | IDManager.cpp:129-185 | Every first code is type times ten million and one; the alarm type and every unlisted type take the extension type's codes |
| GbId.SeekIsLeast | IDManager.h:33-45 | The search returns the least free code of a window of ten million, or 0 if and only if the window is full |
| GbId.CreateIsLeast | IDManager.cpp:124-214 | Creation gives the identifier with the least free code of its window and registers it, or "" with nothing changed if and only if the window is full |
| GbId.CreateLosesCode | IDManager.cpp:124-214 | Without a local identifier the least free code is taken and nothing given out for it |
| GbId.AddKeeps | IDManager.cpp:46-84 | Adding any string keeps the agreement: an in-band code of a known type is in its type's set if and only if domain plus digits is registered |
| GbId.DelKeeps | IDManager.cpp:85-110 | So does deleting any string |
| GbId.AddPutsIn | IDManager.cpp:46-84 | Adding registers the identifier and no other, and puts its code, if it is one of a band, into use and no other |
| GbId.DelTakesOut | IDManager.cpp:85-110 | Deleting takes the identifier out and no other, and frees its code and no other |
| GbId.DeletedGivenOut | IDManager.cpp:85-214 | A deleted identifier is the next of its type to be given out if and only if all codes of its window below it are in use |
| GbId.CreateKeeps | IDManager.cpp:124-214 | So does creating, and the identifier is new, unless the last code of the window is taken |
| GbId.LastDisagrees | IDManager.cpp:187-213 | The last code belongs to the next type: taking it keeps the agreement if and only if that type is unknown or has the code already, and in the latter case a registered identifier is given out again |
| GbId.RunKeeps | IDManager.cpp:46-214 | Every run of additions, deletions and creations that takes no last code keeps the agreement |
| GbId.StartAgrees | IDManager.cpp:215-233 | Setting the local identifier at the start registers it and establishes the agreement |
| GbId.SetLocalAgain | IDManager.cpp:215-233 | Setting it again within the domain keeps the agreement if and only if the old identifier was not registered or its code not in a known band |
| GbId.OldLocalGivenOut | IDManager.cpp:124-233 | After that, a creation of its type gives the old local identifier out a second time if and only if all identifiers of its window below it are registered |
| GbId.SetLocalElsewhere | IDManager.cpp:215-233 | Setting it to another domain keeps the agreement if and only if, the two local identifiers apart, the same codes are registered in both domains |
| GbId.FreeIsNext | IDManager.cpp:124-214 | A free code is the next to be given out if and only if all codes of its window below it are in use |
| GbId.HandleMng.GetCode | IDManager.h:33-45 | The loop finds and takes that code |
| GbId.HandleMng.ReleaseHandle | IDManager.h:51-58 | Releases exactly that code |
| GbId.DevCodeMng.constructor | IDManager.cpp:11-38 | Twelve empty sets, one a type |
| GbId.DevCodeMng.AddDevCodeID | IDManager.cpp:46-84 | The method adds to list and set as specified |
| GbId.DevCodeMng.DelDevCodeID | IDManager.cpp:85-110 | The method removes from list and set as specified |
| GbId.DevCodeMng.CreateDevCode | IDManager.cpp:124-214 | The method creates as specified |
| GbId.DevCodeMng.SetLocalGBID | IDManager.cpp:215-233 | The method sets the local identifier as specified |
| GbConcurrent.StepInv | IDManager.cpp:85-214 | Every critical section of every caller keeps: registered identifiers are the live and the loaded ones, callers hold different identifiers, and a code is in use exactly while its identifier is held |
| GbConcurrent.LiveIdsDiffer | IDManager.cpp:124-214 | In every interleaving of the critical sections of creating and deleting, as long as no window's last code has been taken, live identifiers are pairwise distinct and differ from every loaded one; with nobody between two sections the index agrees with the registry |
| GbConcurrent.AloneCreates | IDManager.cpp:124-214 | The two sections of a creation that nobody comes between are the creation of one caller |
| GbConcurrent.AloneDeletes | IDManager.cpp:85-110 | And those of a deletion the deletion |
| GbConcurrent.SpillMeansFull | IDManager.h:33-45 | A last code is taken only when all other codes of the type are in use |
| GbConcurrent.HalfLoadedIsGivenOut | IDManager.cpp:46-84 | Loading must be over first: an identifier that is registered but not yet indexed is given out again by the next creation of its type if and only if all identifiers of its window below it are registered |

## Left out

- Weak memory: the queue's steps are taken one at a time (sequential consistency), which is what the barriers at mongoose.c:3988-3994 are for.
- HttpChunk.Receiver.Deliver: once a wrapped sum has made the code read or move bytes that are not there, nothing is said of what follows.
- Allocation failure, the alignment of buffer sizes and the erasing of freed memory in the receive buffer.
- WsConnection.Connection.Read: the client handshake is not modelled, nor what else is put into the send buffer between replies; the mask a client draws for each reply is a parameter.
- User event handlers: apart from deleting HTTP chunks they do not change the receive buffer.
- JsonLookup.GetRefinesLookup: the floating-point value of a number is not modelled.
- GlobKept.NothingLost: for a pattern with a `?` in the run of a `*` before its first `#`, and GlobTaken.NothingTaken for every pattern with `?`, the condition is enough, but not shown to be needed. What the walk answers where it ends on subjects that hold a wildcard character of the pattern is not compared with a meaning. Captures are not modelled.
- The round functions of SHA-1 and MD5 are a parameter, and so is the byte order of the machine that MD5 corrects for.
- Timer lists: each timer is modelled on its own; `mg_timer_free` is not modelled.
- XmlParser.ParseDeep: values are decoded when they are parsed, not when they are first read; line numbers, memory pools, error texts, user data and the modes that leave entities alone or collapse white space are not modelled. White-space and name-character tests and the depth limit are parameters, as tinyxml2.h is not part of this model; the laws asked of them are in `Lawful`.
- XmlRoundTrip.ParsePrinted: no plain text at document level, where the printer would write it and the parser may refuse it. The printer's initial depth is 0, its compact mode is one for the whole tree, and no byte order mark is written.
- XmlTree.Node.InsertEndChild: all nodes belong to one document. What the freed memory of a deleted node holds is not modelled, nor the shape left by `InsertAfterChild` once it has followed a null link.
- XmlReference.ReferenceDecodes: decimal digits that overflow 32 bits are modelled in `ReadBack` but nothing is claimed of them.
- File input and output, number conversion, visitors other than the printer and shallow copies of XML nodes.
- GbConcurrent.LiveIdsDiffer: callers delete an identifier only while it is theirs, and at most once; the local identifier does not change; loading is finished. `IsDevCodeExist`, `GetHandle` and `GetHandle_R` are not modelled, nor is logging.
- SIP, HTTP routing, the database, subscriptions, port management and the flat message builders and readers, whose members would be easy ones.
