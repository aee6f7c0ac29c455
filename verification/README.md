# Verified model of the logger plugin

The plugin watches a MySQL or MariaDB server. Each audit event becomes a JSON object; the objects
are queued in a linked list and a single thread broadcasts them as WebSocket text frames to up to
32 connected clients. This project models the algorithms underneath and the protocol between the
threads, and proves what they promise:

- the streaming SHA-1 equals the one-shot digest of RFC 3174 however the message is cut
  (`Sha1Spec.dfy`, `Sha1.dfy`, over the bit operations of `Bits.dfy`), with the laws of its functions bit by
  bit (`BitLaws.dfy`) and the sample of RFC 6455 computed to the last octet (`WordBits.dfy`,
  `Sha1Words.dfy`, `SampleAnswer.dfy`);
- the bit-index base 64 encoder against the groups of RFC 4648 section 4 (`Base64.dfy`);
- WebSocket frames of RFC 6455 section 5 over sockets that move any positive part of a request
  (`Ws.dfy`, `SocketExt.dfy`, `ByteOrder.dfy`), and written out octet by octet (`FrameOctets.dfy`);
- the growable string buffer with its amortised cost, the JSON emitter against an RFC 8259 decoder,
  the event objects and their UTF-8 (`StrBuf.dfy`, `Json.dfy`, `Events.dfy`, `Utf8.dfy`), and what
  a reader finds under each name (`Announcements.dfy`, `SampleEvent.dfy`);
- the scanners for request lines, header fields, configuration files and decimal numbers
  (`Scanning.dfy`, `Http.dfy`, `Headers.dfy`, `Config.dfy`, `StringExt.dfy`), and on texts given as octets
  (`RequestOctets.dfy`, `ConfigText.dfy`);
- the opening handshake, its answer, and how far the decision is that of RFC 6455 section 4.2.1
  (`Handshake.dfy`, `Accept.dfy`, `Rfc6455.dfy`, `Disagreements.dfy`, `SampleRequest.dfy`);
- the queue and broadcast as a transition system over all interleavings (`Protocol.dfy`), and the
  linked list, the client slots and the sockets in memory, whose every atomic step is proved to be a
  step of that system (`MessageQueue.dfy`, `Reports.dfy`, `Logger.dfy`);
- the parts together (`EndToEnd.dfy`).

Code that changes memory is modelled by classes, arrays and loops, each proved against a function;
the theorems are lemmas about those functions. A socket is a pair of octet sequences with a
nondeterministic transfer size and, unless it is `reliable`, nondeterministic errors. A critical
section, the unlocked peek and the send to one slot are one atomic step each. The host byte order, the
build target, the clock and the number of reporting threads are parameters. Octets are integers from
0 to 255; every width and wrap-around of the C code is written out.

Where the code departs from what it implements, the model follows the code and a theorem gives the
exact condition under which it meets the standard: `Base64.StandardIffPartialGroup`,
`Ws.ReadBackIffLengthFits`, `Ws.DeliveredIffFits`, `StrBuf.StrBuf.Delete`, `StringExt.AtoinExact`,
`StringExt.NoOverflowIffNineDigits`, `Json.QuotedRoundTrip`, `Events.EventRoundTrip`, `Utf8.EventUtf8`,
`Http.VersionRecovered`, `Headers.ValueInLineIffNotBlank`, `Headers.RfcBlockRoundTrip`,
`Config.AbortedIff`, `Config.LastLineUnterminated`, `Handshake.OrderFreeIffConsistent`, `Rfc6455.PlainIff`,
`EndToEnd.HandshakeAgreesIff`, `Protocol.OvershootIsTight`.

Run `dafny verify dfyconfig.toml` to check the project.

## Model

| member | source | states |
|---|---|---|
| Sha1.HashChunks | src/sha1.c:100-208 | Any sequence of `SHA1Input` calls followed by `SHA1Result` gives the RFC 3174 digest of the concatenation when it is shorter than 2^61 octets, and otherwise reports a corrupted context. |
| Sha1.Sha1Context.constructor | src/sha1.c:59-79 | A new context has absorbed the empty message. |
| Sha1.Sha1Context.Reset | src/sha1.c:59-79 | Any context can be made to represent the empty message again. |
| Sha1.Sha1Context.Input | src/sha1.c:159-208 | The absorbed message grows by exactly the given octets; null data, a finished context, a corrupted context and an overflowing length each have their own outcome. |
| Sha1.Sha1Context.CountOctet | src/sha1.c:188-197 | The split counter with its manual carry is eight times the octet count, until the step that reaches 2^61 octets, which is the one that is reported. |
| Sha1.Sha1Context.AbsorbByte | src/sha1.c:185-204 | After every octet the full blocks are folded into the hash and the rest is in the block buffer. |
| Sha1.Sha1Context.MessageSchedule | src/sha1.c:246-257 | The 80-word array filled in place is the recursive schedule W(t) of RFC 3174 section 6.1. |
| Sha1.Sha1Context.ProcessMessageBlock | src/sha1.c:230-315 | The four 20-round loops with rotating registers equal one 80-step compression with f(t) and K(t), for every block and chaining value. |
| Sha1.Sha1Context.PadToLength | src/sha1.c:347-370 | Both padding branches leave the stream extended by 0x80 and the zeros of RFC 3174 section 4, with eight octets of the block free. |
| Sha1.Sha1Context.StoreLength | src/sha1.c:375-382 | The last eight octets of the block become the 64-bit length, most significant first. |
| Sha1.Sha1Context.PadMessage | src/sha1.c:339-385 | The hash words become the fold of the compression over the padded message. |
| Sha1.Sha1Context.Result | src/sha1.c:100-137 | The digest is SHA-1 of everything absorbed, a second call repeats it, and errors leave the digest buffer alone. |
| Sha1.DigestAt | src/sha1.c:130-134 | The shift that extracts digest octet i yields octet i mod 4 of word i div 4, most significant first. |
| Sha1.LengthOctets | src/sha1.c:375-382 | The two counter halves written octet by octet are the 64-bit big-endian bit length. |
| Sha1Spec.PadBlocks | src/sha1.c:347-370 | The padded message is a whole number of blocks: one final block, or two exactly when more than 55 octets are buffered. |
| Sha1Spec.PadInjective | src/sha1.c:339-385 | Two messages below 2^61 octets are padded to the same blocks only if they are the same message. |
| BitLaws.RotLRotates | src/sha1.c:37 | The circular shift moves the high bits of a word to its low end and loses none: in numbers, the low 32 - n bits times 2^n plus the high n bits. |
| BitLaws.FChooses | src/sha1.c:265-275 | In rounds 0 to 19 every bit of f(t) is that of C where B has a 1 and that of D elsewhere. |
| BitLaws.FIsParity | src/sha1.c:278-306 | In rounds 20 to 39 and 60 to 79 it is the parity of the three bits. |
| BitLaws.FIsMajority | src/sha1.c:288-296 | In rounds 40 to 59 it is their majority. |
| BitLaws.KIsSquareRoot | src/sha1.c:232-237 | The four constants are the integer parts of 2^30 times the square roots of 2, 3, 5 and 10. |
| BitLaws.WordOfOctets | src/sha1.c:246-252 | The shifted and joined octets of a block are the big-endian number of its words. |
| SampleAnswer.SampleDigest | src/sha1.c:100-385 | The SHA-1 digest of the sample key of RFC 6455 section 1.3 and the GUID is the one given there, octet by octet. |
| Base64.EncodeInto | src/base64.c:41-70 | The buffer receives the characters and padding that fit, in order, and nothing behind them changes; the returned length counts from where the character loop stopped. |
| Base64.CharIndex | src/base64.c:50-59 | The table index computed from bit positions is the sextet RFC 4648 assigns to that character. |
| Base64.BodyByBits | src/base64.c:49-61 | For every input the number of characters and each character equal those of the three-octet groups of RFC 4648 section 4. |
| Base64.FirstOctetInRange | src/base64.c:54 | Every read of the first octet of a character is inside the data. |
| Base64.StandardIffPartialGroup | src/base64.c:63-69 | The padded output is the standard one if and only if the length is not a multiple of three; otherwise it is the standard one and four stray padding characters. |
| Base64.EmptyInputIsPadded | src/base64.c:63-69 | Without data four padding characters are still written. |
| Base64.DecodeEncode | src/base64.c:41-70 | A strict decoder restores every input from its standard encoding. |
| Base64.TableEntry | src/base64.c:30-39 | The 64-entry table is table 1 of RFC 4648. |
| ByteOrder.NetworkOrder16 | src/ws.c:280-288 | `htons` followed by a store puts a 16-bit value on the wire most significant octet first, on hosts of either order. |
| ByteOrder.NetworkOrder64 | src/ws.c:42-44 | The `htonll` macro is a full octet swap on little-endian hosts and the identity on others, so a store is big-endian on both. |
| ByteOrder.ReadOrder64 | src/ws.c:45-47 | Loading eight octets and applying `ntohll` gives their big-endian value on hosts of either order. |
| SocketExt.Socket.RecvN | src/socket_ext.c:158-181 | The octets received are exactly those consumed from the stream, and a short count means the end of the stream or a satisfied handler. |
| SocketExt.Socket.SendN | src/socket_ext.c:183-203 | On success the whole buffer reaches the stream in order; an error leaves a proper prefix of it. |
| Ws.AllocFrame | src/ws.c:241-305 | The buffer holds, whatever the host order, the two header octets, the extended length in its shortest form and the payload; with the mask flag, half of the key before the payload and two octets of anything at the end. |
| Ws.AllocatedUnmasked | src/ws.c:241-305 | Without the mask flag that is the RFC 6455 frame and nothing else. |
| Ws.HeaderWordFields | src/ws.c:280-281 | The masked and shifted header word carries FIN and RSV bits, opcode, mask bit and 7-bit length in their places. |
| Ws.ReceivedHeaderFields | src/ws.c:367-376 | The masks of the receiver extract exactly those fields; the flags also keep the opcode bits. |
| Ws.Send | src/ws.c:307-329 | What reaches the wire is, for any flags and any size, the part of the allocated buffer that its size converted to int asks for, or less after an error; without the mask flag the buffer is the RFC 6455 frame. |
| Ws.DeliveredIffFits | src/ws.c:325-328 | The returned value tells truthfully how much of the frame is on the wire if and only if there was an error or the frame is shorter than 2^31 octets. |
| Ws.SendText | src/ws.c:331-335 | The same for a text frame around a C string. |
| Ws.MaskTwice | src/ws.c:412-416 | Unmasking undoes masking with any 4-octet key. |
| Ws.ParseOfFrame | src/ws.c:343-434 | A frame of sections 5.2 and 5.3 of RFC 6455, masked or not and in any length form, is decoded to its opcode, flags and payload and consumed exactly, whatever follows it. |
| Ws.ReadBackIffLengthFits | src/ws.c:385-391 | A well-formed frame is read back if and only if a 64-bit length announces fewer than 2^31 octets. |
| Ws.CutFrame | src/ws.c:343-434 | No proper prefix of a frame is taken for a frame. |
| Ws.Recv | src/ws.c:343-434 | With a complete frame at the head of the stream, exactly that frame is consumed under any partial receives, stored or skipped, and its fields are delivered; a stream that ends inside a frame is consumed and reported as success; only a failed receive gives a negative result; what is consumed always comes from the front. |
| Ws.StreamRoundTrip | src/ws.c:343-434 | A concatenation of frames followed by anything that is no frame splits into exactly those frames and that rest. |
| Ws.Exchange | src/ws.c:307-434 | Messages sent by `ws_send` and read by `ws_recv`, between hosts of any byte order and under any partial transfers, come back in order with opcode, FIN and RSV bits and payload. |
| Ws.FitsIffBelowMax | src/ws.c:269-325 | An unmasked frame's size fits an int if and only if its payload is shorter than 2^31 - 10 octets, the bound used for messages. |
| FrameOctets.SentOctets | src/ws.c:258-302 | An unmasked frame begins with FIN, RSV and opcode; then comes n for n < 126, 126 and two octets of length below 65536, 127 and eight from there on; then the payload. |
| FrameOctets.BroadcastOctets | src/ws.c:331-335 | A broadcast message starts with the octet 0x81, its length in that form, and the text. |
| FrameOctets.ReceivedOctets | src/ws.c:367-419 | An unmasked frame written out in octets, with a length below 2^31, is received with its opcode, payload and size, whatever follows. |
| FrameOctets.ReceivedMaskedShort | src/ws.c:367-419 | A masked frame of up to 125 octets is received with every bit of octet i of its payload inverted exactly where octet i mod 4 of the key has a 1. |
| FrameOctets.ReceivedMasked16 | src/ws.c:378-419 | The same after the length code 126 and two octets hi and lo, for 256 hi + lo octets. |
| FrameOctets.ReceivedMasked64 | src/ws.c:389-419 | The same after 127 and eight octets of length below 2^31. |
| BitLaws.XorByteBit | src/ws.c:412-416 | A bit of the unmasked octet is 1 exactly when the bits of the received octet and of the key differ. |
| StrBuf.RunInvariant | src/strbuf.c:32-138 | Over any run of edits from capacity c0: contents are the edited sequence and fit with their NUL, the capacity is c0 times a power of two, all reallocations together copied at most the final capacity less c0, and the capacity is c0 or below twice the peak length plus 33. |
| StrBuf.GrowthDoubles | src/strbuf.c:61-64 | The growth loop ends on the least doubling that fits the text and the margin. |
| StrBuf.PeakIsLongest | src/strbuf.c:56-74 | The peak that bounds the capacity is the length of the longest text the run has held. |
| StrBuf.StrBuf.Realloc | src/strbuf.c:56-74 | The buffer moves to that capacity with its octets kept. |
| StrBuf.StrBuf.Insertn | src/strbuf.c:99-124 | An in-place insertion at any position, growing when needed, is the insertion into the sequence, with the NUL after it. |
| StrBuf.StrBuf.Append | src/strbuf.c:84-92 | An append concatenates. |
| StrBuf.StrBuf.Delete | src/strbuf.c:126-138 | A deletion removes the range from the sequence, or changes nothing and reports ERANGE outside it or at the end of the text; the exact outcome when `start + count` wraps around, and that the request is then met only if `start` is out of range. |
| Json.QuotedRoundTrip | src/json.c:94-142 | An RFC 8259 section 7 decoder stops at the closing quote and returns the input if and only if the input has no control characters besides the five escaped ones. |
| Json.DecodeEscaped | src/json.c:107-137 | The same for the escaped characters alone, before any rest of the text. |
| SampleEvent.EscapedOctets | src/json.c:107-137 | What each escaped octet becomes, in octets. |
| Json.EncodeString | src/json.c:94-142 | The loop appends the quoted and escaped C string, or `null` for a null pointer. |
| Json.Encode | src/json.c:31-68 | A format is appended with each conversion replaced by its argument, for any number of arguments. |
| Json.IntegerTextFits | src/json.c:75-81 | The 40-octet buffer holds every 64-bit number and its NUL. |
| Json.IntegerRoundTrip | src/json.c:75-81 | A printed integer is read back as the same number, with the rest of the text untouched. |
| Json.ObjectRoundTrip | src/logger.c:548-607 | An emitted object parses to exactly its member list and rest if and only if all its strings are clean. |
| Events.BuildEvent | src/logger.c:541-607 | For every subclass and build target the buffer ends up holding the object with exactly the announced fields. |
| Events.EventRoundTrip | src/logger.c:550-607 | Whatever the query, user or error text, the object parses to exactly its field list if those strings are clean, and not at all otherwise. |
| Events.EventTextWhole | src/logger.c:667-670 | An event text has no NUL inside, so it is sent whole as a C string. |
| Announcements.QueryAnnounced | src/logger.c:553-577 | A reader of a clean query event finds its type, user, query (or command), clock reading, row count (minus 2^64 from 2^63 on) and query number under their names, and the database exactly for audit versions from 3.2. |
| Announcements.ErrorAnnounced | src/logger.c:579-592 | Likewise type, time, error code and message of an error, and the query number from version 3.2. |
| Announcements.ResultAnnounced | src/logger.c:593-604 | Likewise type, time and row count of a result. |
| Announcements.CStringIs | src/logger.c:566-591 | An announced string is everything before the first NUL. |
| SampleEvent.ErrorText | src/logger.c:579-607 | The whole text of an error event with a quote, a backslash and a line feed in its message. |
| Utf8.EscapeKeepsUtf8 | src/json.c:107-137 | Escaped text is UTF-8 (RFC 3629) if and only if the text is. |
| Utf8.EventUtf8 | src/logger.c:541-607 | An event's text is UTF-8, as JSON and text frames require, if and only if the strings it announces are. |
| Utf8.ValidIffEncodes | src/json.c:107-137 | The texts called UTF-8 are exactly the encodings of sequences of Unicode scalar values. |
| StringExt.AtoinFromRight | src/string_ext.c:75-97 | Summing digits from the right with wrapping arithmetic gives the wrapped left-to-right decimal value, and 0 for anything but digits. |
| StringExt.AtoinExact | src/string_ext.c:75-97 | The result is the decimal value if and only if that value is below 2^31. |
| StringExt.NoOverflowIffNineDigits | src/string_ext.c:84-94 | No partial sum or power of ten overflows if and only if there are at most nine digits. |
| StringExt.Strnstr | src/string_ext.c:55-71 | The first occurrence within the length is found, and none only if there is none. |
| Scanning.SkipRun | src/http.c:31 | A SKIP stops exactly at the end of the run of matching octets. |
| Http.ParseRequestLine | src/http.c:45-131 | The scanner's result is that of the specification on every text, all error returns included. |
| Http.RequestRoundTrip | src/http.c:45-131 | A request line of RFC 7230 section 3.1.1 with any spaces, target, version digits and continuation is found whole, and is rejected only when the first token contains no method name. |
| Http.VersionRecovered | src/http.c:126-128 | The packed version gives both numbers back if and only if each is at most 255. |
| Http.MethodsKnown | src/http.c:34-43 | Each of the eight methods is accepted. |
| Http.MethodInsideToken | src/http.c:75-82 | So is every token that contains one of them anywhere. |
| RequestOctets.KnownMethodIff | src/http.c:34-86 | A first token passes if and only if GET, HEAD, POST, PUT, DELETE, CONNECT, OPTIONS or TRACE stands somewhere in it. |
| Headers.ParseHeaders | src/http.c:133-184 | The callbacks, their order and the returned position are those of the specification on every text. |
| Headers.ReadField | src/http.c:149-176 | One line yields the specified name and value fragments, or the error. |
| Headers.BlockRoundTrip | src/http.c:133-184 | A header block of RFC 7230 section 3.2 with arbitrary blanks around its colons and spaces after its values calls back with exactly its fields in order and returns the body position. |
| Headers.RfcBlockRoundTrip | src/http.c:164-174 | With spaces and tabs around its values a block of RFC 7230 section 3.2 still calls back with its fields in order; a delivered value is that of RFC 7230 if and only if no tab follows it, and otherwise ends in that tab. |
| Headers.ValueInLineIffNotBlank | src/http.c:164-174 | The value handed over is the trimmed text of its line if and only if the line has more than blanks after the colon; a blank value is refused or leaves the buffer, depending on its last octet. |
| Headers.CallsStartInside | src/http.c:149-177 | Every callback is given a name inside the text and a value that starts in it. |
| Headers.WrappedValueEndsBefore | src/http.c:168-174 | When a value's length wraps around, its last octet lies before the value and is a colon or a tab. |
| Config.ReadConfig | src/config.c:31-126 | The callbacks and the failed assertion, if any, are those of the specification on every text. |
| Config.ReadTurn | src/config.c:43-92 | One turn of the outer loop does what the specification says and always moves forward. |
| Config.LinesRead | src/config.c:31-126 | The entries of terminated lines are reported in order whatever follows them, and reading goes on there. |
| Config.Trim | src/config.c:109-112 | Trimming in place stops inside a non-empty value and leaves it NUL-terminated without trailing blanks. |
| Config.ConfigRoundTrip | src/config.c:31-126 | Rendered entries with arbitrary blank lines, padding and either line end are reported exactly, in order. |
| Config.LastLineUnterminated | src/config.c:83-95 | When the last line of a configuration has no newline, its entry is reported if and only if more than one octet is left of the value and its trailing blanks; the entries before it are reported in any case. |
| Config.AbortIffMissingEquals | src/config.c:43-76 | A turn of the outer loop meets the failing assertion if and only if its text starts with blanks, a name, blanks and then something other than `=` that is not the last octet; the reading then ends. |
| Config.AbortedIff | src/config.c:43-76 | On any text the assertion fails if and only if one of the turns of the outer loop starts in that way. |
| Config.ReportsAreTrimmed | src/config.c:49-114 | On every text, reported names have no blanks or `=`, and reported values are non-empty without blanks at either end. |
| ConfigText.SettingsRoundTrip | src/config.c:31-126 | Settings written with blank lines, spaces and tabs given as octets are reported exactly, in order. |
| ConfigText.ReportsInOctets | src/config.c:49-114 | On every text, reported names are free of the octets 0x20, 0x09 to 0x0D and `=`, and reported values start and end with none of 0x20 and 0x09 to 0x0D. |
| ConfigText.ExampleText | tests/config_tests.c:36 | The example text of the tests reports `foo`, `1` and `bar`, `hello world`. |
| Handshake.HandshakeState.OnHeader | src/ws.c:79-117 | The callback updates the state as the specification of one field says. |
| Handshake.FindToken | src/ws.c:92-105 | The `strtok_r` loop finds a token equal to the text if and only if there is one. |
| Handshake.HasTokenIff | src/ws.c:87-105 | A token is found if and only if the text stands between octets that are commas, spaces or tabs, or the ends of the value. |
| Handshake.UpgradeAfterComma | src/ws.c:92-107 | Whatever precedes it, `Upgrade` after a comma and any run of spaces and tabs, or after such a run alone, is taken for the request to upgrade. |
| Handshake.LowerIff | src/ws.c:87-105 | Letters are compared without case, and everything else exactly. |
| Handshake.ParseConnectRequest | src/ws.c:119-158 | The accepted key or the first failing check is that of the specification on every text. |
| Handshake.ConnectRoundTrip | src/ws.c:119-158 | On a request in the grammar, with any fields and body, the decision is that of its method, version and fields. |
| RequestOctets.OctetsDecided | src/ws.c:119-158 | The same of requests written out in octets: spaces, tabs, colons, digits and line ends. |
| SampleRequest.SampleHandshake | src/ws.c:119-206 | The request of RFC 6455 section 1.2 is accepted with its key, for which the accept string of section 1.3 is due. |
| Handshake.OnlyGet | src/ws.c:139-140 | Of all first tokens that pass the scanner only `GET` passes the method check. |
| Handshake.FoldCollects | src/ws.c:79-117 | For fields that do not contradict each other the final state is what the fields say, each part taken from any field that sets it. |
| Handshake.OrderFreeIffConsistent | src/ws.c:79-117 | All orders of the header fields give the same state if and only if no two fields of a class have different effects. |
| Handshake.SingleFieldsAreConsistent | src/ws.c:106-116 | That is so when Upgrade, Sec-WebSocket-Version and Sec-WebSocket-Key each occur at most once. |
| Handshake.TwoVersionsOrder | src/ws.c:109-112 | With two different versions the order matters. |
| Handshake.AcceptedIff | src/ws.c:139-152 | Consistent fields are accepted with a key if and only if the method is GET, the major version is below 2 and the fields ask for the upgrade, version 13 and that key. |
| Accept.AcceptShape | src/ws.c:189-193 | The accept string is 27 alphabet characters and one `=`, has no NUL, and decodes to the SHA-1 digest of key and GUID. |
| SampleAnswer.GuidOctets | src/ws.c:57-58 | The GUID is that of RFC 6455 section 1.3, in octets. |
| SampleAnswer.SampleAccept | src/ws.c:164-193 | The sample key of RFC 6455 section 1.3 has the accept string given there. |
| SampleAnswer.SampleResponse | src/ws.c:160-206 | The whole answer to it, status line and fields, octet by octet. |
| Accept.EncodeAccept | src/ws.c:164-193 | The 40-octet buffer ends up with the accept string of RFC 6455 section 4.2.2 and its terminator. |
| Accept.SendHandshakeAccept | src/ws.c:160-206 | The answer with that string is sent whole, not cut by its 256-octet buffer, or a proper prefix of it before an error. |
| Accept.AnswerRoundTrip | src/ws.c:195-200 | A header field reader finds the three fields of the answer, the accept string in the last, and then what was sent after the handshake. |
| Accept.AcceptClient | src/ws.c:208-239 | A request is answered with the accept string of its key when it is accepted, whole or a proper prefix after an error, and nothing is sent otherwise. |
| Accept.KeyOfRequest | src/ws.c:220-232 | An accepted key is a piece of the request, without NULs. |
| Protocol.RunSafe | src/logger.c:524-688 | Every state of every run, in any interleaving of producers, messaging thread, connects and closes, keeps all invariants. |
| Protocol.QueueSafety | src/logger.c:609-655 | Popped and queued messages together are the enqueue history, the counter is exact and bounded by 10239 plus the number of producers, and the pop after an unlocked peek never meets an empty queue. |
| Protocol.OvershootIsTight | src/logger.c:530-541 | With P > 0 producers a queue of n messages is reachable if and only if n is at most 10239 + P. |
| Protocol.SessionsSeeWindows | src/logger.c:631-688 | In every run the octets a session received after its handshake decode to the frames of a contiguous window of the popped sequence, a failed send leaves at most a cut frame, and the window of an open session is up to date. |
| Protocol.DecodeSession | src/logger.c:657-683 | The wire of a session splits into exactly its frames, followed by nothing or by a proper prefix of the next frame. |
| Protocol.HistoriesGrow | src/logger.c:638-683 | No step takes back anything that was popped, enqueued or sent. |
| Protocol.CapacityStep | src/logger.c:530-628 | Count plus producers between their two critical sections stays within the bound. |
| Protocol.SlotStep | src/logger.c:425-500 | Slots always hold different open sessions, and every open session has a slot. |
| Protocol.WindowStep | src/logger.c:657-683 | Every step keeps each session's messages a window that ends where the broadcast stands for its slot. |
| Reports.Conservation | src/logger.c:530-628 | In every run the texts that passed the capacity check, one for each check that passed, are those enqueued, those that producers hold between their two critical sections and those given up: nothing is enqueued twice or without a check of its own. |
| Protocol.SessionsConnected | src/logger.c:485-500 | Every session began with a connect of the run, and its window starts with the message that was then being sent around or the next one. |
| Protocol.ClientLimit | src/logger.c:485-508 | In every run at most 32 sessions are open, and a connect opens another one if and only if fewer are. |
| Reports.EnqueuedWereReported | src/logger.c:524-629 | In every run whose producers report events, the enqueued messages are, one by one, the texts of reported events. |
| Reports.SessionsWereAnswered | src/logger.c:479-500 | In every run whose clients connect after a handshake, every session begins with the answer to its own request, which was accepted. |
| MessageQueue.Queue.Follow | src/logger.c:638-655 | Following `next` from the head visits the nodes once each and meets null exactly after `count` steps: the list has no cycle. |
| MessageQueue.Queue.Enqueue | src/logger.c:609-628 | The pointer updates append one message and keep head, tail, links and counter in line, from the empty list too. |
| MessageQueue.Queue.Pop | src/logger.c:644-654 | They remove the oldest message, and the tail with the last one. |
| Logger.LoggerState.CheckCapacity | src/logger.c:530-541 | The first critical section is a step of the protocol and refuses exactly at 10240 messages. |
| Logger.LoggerState.Enqueue | src/logger.c:609-628 | The second critical section is a step of the protocol on the linked list. |
| Logger.LoggerState.Peek | src/logger.c:640-642 | The unlocked test of the head is a step of the protocol and tells whether the queue is empty. |
| Logger.LoggerState.Pop | src/logger.c:644-655 | After a peek, whatever steps came between, there is a head to pop. |
| Logger.LoggerState.SendToSlot | src/logger.c:657-683 | A send to one slot puts the frame on that client's wire only, or a proper prefix of it and frees the slot. |
| Logger.LoggerState.Connect | src/logger.c:485-508 | A new client takes the first free slot and is refused exactly when there is none. |
| Logger.LoggerState.Close | src/logger.c:472-476 | A closed client's slot becomes free and its session ends. |
| Logger.LoggerState.FindClient | src/logger.c:450-459 | The slot of a connected socket is found, and none only if there is none. |
| Logger.LoggerState.ProcessWsRequest | src/logger.c:444-509 | A connected client is read one frame and freed exactly after a close frame. A new one is sent nothing if its request is refused; an accepted one is sent the answer and takes the first free slot, or is sent a close frame when there is none. |
| Logger.SendClose | src/ws.c:337-341 | The close frame is the two octets 0x08 0x00, or a prefix of them after an error. |
| Logger.LoggerState.SendEvent | src/logger.c:524-629 | Undisturbed, the event's text is queued if and only if fewer than 10240 messages are pending. |
| Logger.LoggerState.ProcessPendingMessage | src/logger.c:636-687 | Undisturbed, the oldest message leaves the queue and extends the popped history, the trace only grows, and afterwards the wire of every connected client carries its whole window up to that message. |
| EndToEnd.ClientsSeeReports | src/logger.c:444-688 | In every interleaving of reporting threads, messaging thread and clients that connect after a handshake, each client is sent the answer to its own request and then exactly text frames that tell of a gap-free window of the reported events in enqueue order, with nothing after them but a cut frame of the next event when a send failed. The window starts where the broadcast stood at the connect and, while the client is connected, ends where it stands. Each payload parses to its event's fields exactly if the event is clean, is UTF-8 exactly if its strings are, and each enqueued event has a passed check of its own. |
| EndToEnd.SocketsSeeReports | src/logger.c:444-688 | The same of the octets sent through the socket of every session in memory, in every state that the modelled steps can reach. |
| EndToEnd.ClientStream | src/logger.c:444-688 | The whole stream of a served client is a header block with the accept string for its key, whose body is exactly the frames for its window of the reports, followed after a failed send by the cut frame of the next one. |
| EndToEnd.HandshakeDecision | src/ws.c:119-158 | A request in the grammar with consistent fields is accepted with a key if and only if its method is GET, its major version modulo 256 is below 2 and its fields pass the source's own tests. |
| EndToEnd.HandshakeAgreesIff | src/ws.c:119-158 | On a request of plain fields the decision agrees with RFC 6455 section 4.2.1 if and only if, what both ask for being there, the major version modulo 256 is below 2 exactly when the version is at least 1.1, there is a Host field and the key is 16 octets in base 64. |
| Disagreements.WronglyAccepted | src/ws.c:87-155 | `GET / HTTP/0.9` with the fields `C: U`, `U: w`, `S: 13` and `Sec-WebSocket-K: x` is accepted, against RFC 6455. |
| Disagreements.WronglyRefused | src/ws.c:106-108 | A request that RFC 6455 accepts is refused because its Upgrade field is a list, `websocket, h2c`. |
| Rfc6455.PlainIff | src/ws.c:87-116 | The source takes from a field what RFC 6455 takes from it if and only if the field is plain: no proper prefix of a name or value, no upgrade token set off by blanks only, no list or tab in Upgrade, no other spelling of 13, no tab after a version or valid key. |
| Rfc6455.PlainIffNeverMisread | src/ws.c:79-158 | A field is plain if and only if the source agrees with RFC 6455 on every GET request of version 1.1 with a Host field and a valid key whose other fields are plain. |
| Rfc6455.AgreementIff | src/ws.c:139-152 | For consistent plain fields, the exact condition on version, Host and key under which acceptance and the demand of RFC 6455 coincide. |
| EndToEnd.HandshakeInAnyOrder | src/ws.c:119-158 | Reordering the header fields of such a request does not change the decision. |

## Left out

- Deinit and restart: the drain in `logger_plugin_deinit` frees messages while the messaging thread may stand between its peek and its pop, and does not reset the counter; all runs here are runs before it.
- Data races on client slots and failing mutex calls: connect, close and the send to one slot are atomic steps, and `free_ws_client` succeeds.
- Logger.LoggerState.ProcessWsRequest: requires that the socket of a new client is not that of an earlier session and has been sent nothing; a slot whose client vanished without a close frame keeps its descriptor until the next send fails, and reuse of the number by the system in between is not modelled.
- Ws.AllocFrame: with the mask flag set the last two octets are arbitrary, because masking is unfinished in the source.
- Ws.Recv: after a failed receive, and when a frame is cut short, the output parameters are not stated.
- Ws.Exchange: messages whose frame's size does not fit an int, which `Ws.Send` covers, are not exchanged.
- Logger.LoggerState.CheckCapacity: events whose frame's size does not fit an int (texts of 2^31 - 10 octets or more) are not followed through the protocol.
- Logger.LoggerState.SendEvent: likewise for events of that size.
- StrBuf.StrBuf.Insertn: the first copy may overlap in the source, which C leaves undefined; it is taken to move the old tail.
- StrBuf.StrBuf.Realloc: a capacity of 0, from which doubling never ends, sizes that overflow `size_t` and failed allocations are not modelled.
- Config.ReadConfig: the failed assertion stops the program in builds with assertions enabled; what a build without them does after it is not modelled.
- StrBuf.StrBuf.Delete: where a wrapped deletion leaves the allocated block, only that it does is stated.
- RFC 6455 section 4.2.1: the optional fields (Origin, subprotocols, extensions) and the contents of the Host field are not looked at.
- StringExt.AtoinFromRight: signed overflow, undefined in C, is taken to wrap around.
- SocketExt.Socket.Send: `send` never returns 0 for a non-empty buffer.
- Allocation succeeds everywhere, except that a producer may give up between its two critical sections.
- `json_encode_double`: formatting of doubles is library behaviour; its text is a parameter.
- `http_recv_headers`: its handler looks for the end of the header block in the last chunk only, so a terminator split between reads is missed; the request text is a parameter.
- `http_send_content` and the other fixed HTTP answers, and the static pages: constant texts only.
- Library functions (`strstr`, `strncasecmp`, `strndup`, `isspace`, `snprintf` of strings) are functions of their documented meaning in the C locale.
- The `serve` loop, `poll`, `accept`, threads, mutex wrappers, files, clocks, plugin registration and system variables: foreign calls.
- `src/hex.c`, `src/error.c`, `src/time.c`, the tools, scripts and the user interface: they would only add easy members.
