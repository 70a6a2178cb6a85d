# Verification of the Tarantool connector

A Dafny model of an asynchronous client for Tarantool's IPROTO protocol, and proofs about it. It covers the four cores
under the asynchronous plumbing.

**Receive path.** `ReceiveBuffer` is the block of memory with its read and write pointers, replaced by a larger one while
frames handed out still refer to the old one. `Framing` cuts what a socket delivers, in chunks of any size, into frames on
top of it; `FrameParser` is the reference, a pure parser of one byte sequence that follows the length rules as they are
written. `Reconnect` is the greeting and the emptying of the buffer. `MsgPack` is the MessagePack format with all its
families, `Headers` the message header, `Replies` what a server's frames are read as.

**Requests.** `RequestPacker` appends to a stream and patches size and entry count back into it; `RequestBuilders` are the
requests built with it. `EndToEnd` feeds a finished request back through the receive path.

**SHA-1 and authentication.** `Sha1Spec` is FIPS 180-4. `Sha1Transform` is the block function with its in-place ring and
renamed registers, `Sha1Context` the streaming interface. The schedule is written through the input pointer, so blocks are
destroyed while they are hashed; the memory is modelled as it is. `Base64` and `Scramble` are the answer to the server's salt.
`Sha1Vectors` evaluates the definitions on published examples.

**Connection.** `SendPipeline` is the double-buffered queue and the one-write-at-a-time sender. `Requests` is the request
table, with handlers that may send again from inside their call; `ReceiveLoop` the receive loop with reconnecting, stopping
and destruction as a state machine over the steps of the strand; `Connector` the same as mutable state. `RequestsShipped` and
`ReceiveLoopShipped` compare the code as it is with what it was meant to be.

**Joined.** `Transmission` puts table and sending side on one strand, `Serving` feeds the table from the receive path, and
`Authentication` goes from the greeting to an accepted auth request.

## Where the code departs from its intent

The model keeps what the code does; each point has its counterexample and the exact condition.

- `send_request` calls the handler with "not connected" and then goes on to register and send
  (include/tarantool_connector/tarantool_connector.hpp:89-96). The request code is proved for both readings: `FallsThrough`
  is the code, `Exclusive` returns after the handler. `ReceiveLoopShipped.ShippedIff` says when the code keeps the
  invariant, `LossyAsShipped` shows a run that ends the receive loop with a request waiting, and `CrashedForGood` and
  `LossyForGood` that it waits for ever.
  That outcome is the one with assertions off; with assertions on, the program aborts at that point.
- Re-authentication after a reconnect is refused because the link is not up yet
  (include/tarantool_connector/tarantool_connector.hpp:428): `ReconnectIff`, `LostWithCredentials`.
- The 16-bit length tag is tested under the wrong value and the 64-bit length is narrowed
  (include/tarantool_connector/detail/tntpp_iproto_framing.h:416 and 430): `LengthAgreesIff` and its two companions.
- A frame without a body violates the assertion in `slice`
  (include/tarantool_connector/detail/tntpp_mutable_buffer.h:117): the outcome `Aborted`, and `HeaderOnly` in the parser.
- `SHA1Update` overwrites the caller's data from the second block on
  (include/tarantool_connector/detail/sha1.h:71), so a password of 128 bytes or more is destroyed by its first use:
  `PasswordsSurviveIff`.
- `connect` leaves the socket open, and the next one asserts that it is closed
  (include/tarantool_connector/connection.h:75), while the receive loop closes nothing between attempts, neither after a
  failure nor, with credentials, after a success whose authentication is refused: `FailsOpen`, and
  `Reconnect.Connection.Retry` for the attempt that violates it. This assumes that no late write error closes the socket
  between attempts (include/tarantool_connector/connection.h:220). The outcome of the attempts is the one with assertions
  off.
- `reset` fails the requests and leaves the send queue alone (include/tarantool_connector/tarantool_connector.hpp:349-362),
  so data of failed requests can be written later: `StaleIff`, `StaleWritten`.
- The 16-bit entry count of a select wraps at 65536 entries: `SelectConveysIff`. The index given to a select is
  never sent: `IndexNeverSent`.

## Model

| member | source | states |
|---|---|---|
| ReceiveBuffer.SharedBuffer.CopyRestFrom | include/tarantool_connector/detail/tntpp_mutable_buffer.h:30-36 | the unread bytes of the other block arrive at the front of this one, everything behind them is untouched, and the other block has nothing unread left; the two bounds are the asserted ones |
| ReceiveBuffer.FrozenBuffer.Slice | include/tarantool_connector/detail/tntpp_mutable_buffer.h:114-124 | a non-empty remainder of a view shows the remainder of its bytes; an empty remainder is outside the assertion |
| ReceiveBuffer.MutableBuffer.Prepare | include/tarantool_connector/detail/tntpp_mutable_buffer.h:152-161 | afterwards there is room for n bytes, the unread bytes and every view handed out are the same, a new block has exactly the stated size, and each unread byte was copied once more exactly if the block changed |
| ReceiveBuffer.MutableBuffer.GetReceiveBuffer | include/tarantool_connector/detail/tntpp_mutable_buffer.h:169-175 | with room left nothing at all changes; without, at least the default length is made free; unread bytes and views stay |
| ReceiveBuffer.MutableBuffer.AdvanceWriter | include/tarantool_connector/detail/tntpp_mutable_buffer.h:180-180 | exactly the bytes stored behind the write pointer join the unread ones |
| ReceiveBuffer.MutableBuffer.AdvanceReader | include/tarantool_connector/detail/tntpp_mutable_buffer.h:185-192 | the view shows the first n unread bytes, the rest stay unread, older views keep their bytes |
| ReceiveBuffer.MutableBuffer.Clear | include/tarantool_connector/detail/tntpp_mutable_buffer.h:206-214 | nothing is unread afterwards, every view keeps its bytes, a block never written to is kept |
| ReceiveBuffer.MutableBuffer.StoresBehindWriter | include/tarantool_connector/detail/tntpp_mutable_buffer.h:38-41 | stores into the area behind the write pointer change neither the unread bytes nor any view |
| ReceiveBuffer.Play | include/tarantool_connector/detail/tntpp_mutable_buffer.h:140-219 | over every run of reserve, socket store, consume, fetch and clear, every view handed out earlier shows the same bytes, in blocks in use and in abandoned ones |
| Framing.IprotoFraming.Fill | include/tarantool_connector/detail/tntpp_iproto_framing.h:382-391 | after prepare the room suffices, fetching the receive area reallocates nothing, and one read of any size between demanded and available loses and reorders nothing |
| Framing.IprotoFraming.TransferExactly | include/tarantool_connector/detail/tntpp_iproto_framing.h:369-396 | for every chunking the next n undelivered bytes are delivered and exactly they are consumed; a sound socket fails it only when fewer exist; each delivered byte was copied at most once; the block never exceeds the default length plus twice the largest transfer less one |
| Framing.IprotoFraming.ReadMessageLength | include/tarantool_connector/detail/tntpp_iproto_framing.h:398-460 | reading tag and field one after the other, in any chunks, gives what the pure length parser gives on the whole remaining stream |
| Framing.IprotoFraming.ReceiveMessage | include/tarantool_connector/detail/tntpp_iproto_framing.h:291-336 | for every stream and chunking: the outcome is that of the pure parser on everything undelivered, and exactly the bytes of that frame are consumed |
| Framing.IprotoFraming.ReceiveAll | include/tarantool_connector/detail/tntpp_iproto_framing.h:291-336 | successive calls return all messages the parser finds in the whole stream (a prefix of them over a failing socket), with the bodies still right when all have been received |
| Framing.IprotoFraming.Clear | include/tarantool_connector/detail/tntpp_iproto_framing.h:338-338 | what is undelivered is what the socket still holds; views keep their bytes |
| FrameParser.ParseLengthByParts | include/tarantool_connector/detail/tntpp_iproto_framing.h:405-454 | the two-step reading of a length equals the one-step reading |
| FrameParser.LengthAgreesIff | include/tarantool_connector/detail/tntpp_iproto_framing.h:408-454 | over all MessagePack integers the code reads the integer at the front, or refuses it when it is no 32-bit size, if and only if the format is not uint 16 and a uint 64 fits 32 bits |
| FrameParser.SixteenBitLengthIsLost | include/tarantool_connector/detail/tntpp_iproto_framing.h:412-420 | every 16-bit length is read as an empty message and the frame is refused after one byte |
| FrameParser.NoIntegerIsEmpty | include/tarantool_connector/detail/tntpp_iproto_framing.h:408-454 | every tag that is no integer is read as an empty message and the frame is refused after one byte |
| FrameParser.SixtyFourBitLengthIsNarrowed | include/tarantool_connector/detail/tntpp_iproto_framing.h:426-430 | every 64-bit length above 32 bits is silently cut to its low 32 bits |
| FrameParser.ParseExtends | include/tarantool_connector/detail/tntpp_iproto_framing.h:292-334 | a decided frame cannot be changed by bytes that arrive later |
| FrameParser.ParseAllMonotone | include/tarantool_connector/detail/tntpp_iproto_framing.h:292-334 | the messages of a prefix of a stream are a prefix of the messages of the stream |
| EndToEnd.ReceiveRequest | include/tarantool_connector/detail/tntpp_iproto_framing.h:291-336 | a finished request arriving in any chunks, with anything behind it, is received as one frame with its own header and body, leaving exactly what was behind it |
| EndToEnd.PeerReadsSubmissions | include/tarantool_connector/connection.h:160-228 | whatever requests are submitted, however completions interleave, and however much of the write in progress has got through, what is on the wire parses as exactly the requests complete there, in order, at least those of finished writes; an idle connection has written them all |
| Reconnect.ReadHello | include/tarantool_connector/detail/tntpp_iproto_framing.h:46-81 | succeeds only on 128 bytes with both newlines in place, consumes exactly those and yields the second half; over a sound socket fails only on a malformed greeting |
| Reconnect.HelloIff | include/tarantool_connector/detail/tntpp_iproto_framing.h:58-72 | a proper greeting has 128 bytes with a newline as the 64th and the last |
| Reconnect.Connection.TryAddress | include/tarantool_connector/connection.h:92-127 | one address: empty buffer, connect, greeting, empty buffer |
| Reconnect.Connection.Connect | include/tarantool_connector/connection.h:64-138 | after any history, with the socket open or closed on entry: success leaves the framing at byte 128 of the new stream with nothing of the old one, at the first address whose sound peer greets; views keep their bytes; a failed attempt at any address leaves the socket open |
| Reconnect.Connection.Retry | include/tarantool_connector/tarantool_connector.hpp:410-433 | attempts made one after the other: without credentials until one succeeds, as good as a first attempt, all addresses before it missed; with credentials all of them, since a success does not end the loop. The entry assertion is first violated by the attempt after the first one that was given an address, failed or not |
| Reconnect.FailsOpen | include/tarantool_connector/connection.h:75-75 | the witness: from a closed socket, one unreachable address makes the attempt fail and leaves the socket open |
| MsgPack.RoundTrip | include/tarantool_connector/detail/tntpp_request.h:45-49 | every value that can be packed unpacks to itself, taking exactly its own bytes, whatever follows |
| MsgPack.RoundTripAll | include/tarantool_connector/detail/tntpp_request.h:45-49 | the same for every sequence of values |
| MsgPack.RoundTripEntries | include/tarantool_connector/detail/tntpp_request.h:75-81 | the same for every sequence of map entries |
| Bytes.BigEndianRoundTrip | include/tarantool_connector/detail/tntpp_request.h:83-92 | a big-endian field of n bytes reads back as the number written modulo 256^n, and as the number itself when it fits |
| Bytes.FromBigEndianRoundTrip | include/tarantool_connector/detail/tntpp_iproto_framing.h:421-430 | every byte string is the image of the number it is read as |
| Bytes.BigEndianDigit | include/tarantool_connector/detail/tntpp_request.h:83-92 | byte i of an n-byte field is the digit of weight 256^(n-1-i): most significant first |
| MsgPack.KnownScalars | include/tarantool_connector/detail/tntpp_request.h:45-49 | nil, booleans and floating-point numbers, with their tags written out |
| MsgPack.KnownUnsigned | include/tarantool_connector/detail/tntpp_request.h:45-49 | the first number of each unsigned format, byte for byte |
| MsgPack.KnownNegative | include/tarantool_connector/detail/tntpp_request.h:45-49 | the boundary numbers of the negative formats, byte for byte |
| MsgPack.KnownLong | include/tarantool_connector/detail/tntpp_request.h:45-49 | the first numbers that need eight bytes, byte for byte |
| MsgPack.KnownStrings | include/tarantool_connector/detail/tntpp_request.h:45-49 | the heads of strings and binaries at each boundary |
| MsgPack.KnownExtensions | include/tarantool_connector/detail/tntpp_request.h:45-49 | the heads of extensions at each boundary |
| MsgPack.KnownContainers | include/tarantool_connector/detail/tntpp_request.h:53-62 | the heads of arrays and maps at each boundary |
| Headers.ConvertMap | include/tarantool_connector/detail/iproto_typedefs.h:1114-1153 | the loop over the map entries computes the conversion function |
| Headers.ConvertCharacterised | include/tarantool_connector/detail/iproto_typedefs.h:1114-1153 | conversion succeeds if and only if all keys are known fields and the four header fields hold unsigned integers; each field then has the value of its last occurrence or its default |
| Headers.EntryOkIff | include/tarantool_connector/detail/iproto_typedefs.h:159-187 | the 22 keys a header may carry, written out, and the four that must hold unsigned integers |
| Headers.ReplyConverts | include/tarantool_connector/detail/iproto_typedefs.h:1114-1153 | a map with type under 0x00, sync under 0x01 and schema version under 0x05, with or without a stream under 0x0a and in any order, converts to exactly these |
| Replies.ReplyParses | include/tarantool_connector/detail/tntpp_iproto_framing.h:291-336 | a frame with such a header, however encoded, and a body is delivered with exactly these fields and this body |
| Replies.ShortReplyParses | include/tarantool_connector/detail/tntpp_iproto_framing.h:291-336 | the same for all 64-bit values in the shortest encoding |
| Replies.ServerReplyParses | include/tarantool_connector/detail/tntpp_iproto_framing.h:291-336 | the same for replies whose fields have their full width, byte for byte as the server writes them |
| Replies.Refusals | include/tarantool_connector/detail/tntpp_iproto_framing.h:308-334 | which error a payload that is no MessagePack, no header, or a negative size leads to, and the header without a body |
| Headers.HeaderRoundTrip | include/tarantool_connector/detail/iproto_typedefs.h:1156-1175 | a packed header unpacks from its own bytes and converts back to itself without the schema version |
| Headers.HeaderSurvivesIff | include/tarantool_connector/detail/iproto_typedefs.h:1159-1174 | the round trip is the identity if and only if the schema version is 0 |
| RequestPacker.Packer.constructor | include/tarantool_connector/detail/tntpp_request.h:27-36 | size tag and four reserved bytes, empty payload |
| RequestPacker.Packer.BeginOpenMap | include/tarantool_connector/detail/tntpp_request.h:53-62 | map tag and two reserved bytes, whose place is remembered |
| RequestPacker.Packer.PackMapEntry | include/tarantool_connector/detail/tntpp_request.h:75-81 | key and value appended, the count up by one in 16 bits |
| RequestPacker.Packer.FinalizeMap | include/tarantool_connector/detail/tntpp_request.h:64-73 | the two count bytes become the count; no other byte changes |
| RequestPacker.Packer.Finalize | include/tarantool_connector/detail/tntpp_request.h:83-92 | the four size bytes become the payload size in 32 bits; no other byte changes |
| RequestPacker.FramedLengthIff | include/tarantool_connector/detail/tntpp_request.h:83-92 | the size read back is the payload size if and only if that is below 2^32 |
| RequestPacker.RequestRoundTrip | include/tarantool_connector/detail/tntpp_request.h:27-92 | every finished request under the limit, followed by anything, parses as one frame with its own sync, type, stream and body, consuming exactly its bytes; without a body it trips the slice assertion |
| RequestPacker.StreamRoundTrip | include/tarantool_connector/detail/tntpp_request.h:27-92 | requests written back to back are cut apart into the same requests in order, and what follows is read as if alone |
| RequestPacker.PrefixRoundTrip | include/tarantool_connector/detail/tntpp_request.h:27-92 | any byte prefix of requests written back to back is read as exactly the requests that are complete in it |
| RequestPacker.CountedMapIff | include/tarantool_connector/detail/tntpp_request.h:53-81 | a back-counted map decodes to exactly its entries in order if and only if their number fits 16 bits |
| RequestBuilders.PackFixed | include/tarantool_connector/tarantool_connector.hpp:276-289 | packing header, head and entries piece by piece yields the request of the whole map; under the size limits the other side reads back exactly that map |
| RequestBuilders.FixedRequestConveys | include/tarantool_connector/tarantool_connector.hpp:276-289 | every fixed-shape request reaches the other side as one frame whose body is exactly the intended map |
| RequestBuilders.Ping | include/tarantool_connector/tarantool_connector.hpp:240-251 | the ping request, with an empty map as body; under the size limits the other side reads back exactly that map |
| RequestBuilders.Call | include/tarantool_connector/tarantool_connector.hpp:276-289 | the call request, function name then arguments; under the size limits the other side reads back exactly that map |
| RequestBuilders.Eval | include/tarantool_connector/tarantool_connector.hpp:301-314 | the eval request, expression then arguments; under the size limits the other side reads back exactly that map |
| RequestBuilders.Auth | include/tarantool_connector/tarantool_connector.hpp:139-151 | the auth request, user then method and scramble; under the size limits the other side reads back exactly that map |
| RequestBuilders.OnSpace | include/tarantool_connector/box/tntpp_box.h:362-497 | insert and replace send the tuple under 0x21, remove the key under 0x20; then the space under 0x10, the id as given and 0 for a name; under the size limits the other side reads back exactly that map; an unset space is an error and sends nothing |
| RequestBuilders.Insert | include/tarantool_connector/box/tntpp_box.h:362-396 | type 0x02, tuple under 0x21, space id under 0x10 |
| RequestBuilders.Replace | include/tarantool_connector/box/tntpp_box.h:412-446 | type 0x03, tuple under 0x21, space id under 0x10 |
| RequestBuilders.Remove | include/tarantool_connector/box/tntpp_box.h:459-497 | type 0x05, key under 0x20, space id under 0x10 |
| RequestBuilders.RemoveByIndex | include/tarantool_connector/box/tntpp_box.h:510-557 | key, then space, then index; the request is sent only if both resolve; under the size limits the other side reads back exactly that map |
| RequestBuilders.FixedRequestBytes | include/tarantool_connector/detail/tntpp_request.h:27-92 | size field, header map and body map head of a small request, byte for byte |
| RequestBuilders.PingBytes | include/tarantool_connector/tarantool_connector.hpp:240-251 | a ping is eleven bytes, written out |
| RequestBuilders.CallBytes | include/tarantool_connector/tarantool_connector.hpp:276-289 | a call without arguments is these bytes, written out |
| RequestBuilders.SelectBuilder.With | include/tarantool_connector/box/tntpp_box.h:142-191 | each option appends its entry; the index option appends none |
| RequestBuilders.SelectBuilder.Select | include/tarantool_connector/box/tntpp_box.h:309-334 | the space entry, then both back-patches: header, counted map of all entries, framed |
| RequestBuilders.BuildSelect | include/tarantool_connector/box/tntpp_box.h:111-213 | a space and an index or none, any sequence of options, then the select: the request of the options' entries with the id given, 0 for a name, nothing for an unset space |
| RequestBuilders.IndexNeverSent | include/tarantool_connector/box/tntpp_box.h:142-146 | selects whose options differ only in the index are the same request |
| RequestBuilders.SelectConveysIff | include/tarantool_connector/box/tntpp_box.h:309-334 | the body decodes as one map of exactly the options' entries in order followed by the space if and only if fewer than 65535 of them packed an entry; in it each option stands under its own key (limit 0x12, offset 0x13, iterator 0x14, fetch position 0x1f, key 0x20, after position 0x2e, after tuple 0x2f) with the value last given, keys of options not given are absent, and the space is under 0x10 |
| RequestBuilders.EntriesSay | include/tarantool_connector/box/tntpp_box.h:142-191 | for every option list, what stands under each key, with the keys written out |
| Sha1Transform.MixIsF | include/tarantool_connector/detail/sha1.h:45-50 | the rewritten Ch, Parity and Maj are those of FIPS 180-4 section 4.1.1 |
| Sha1Transform.SwappedLoad | include/tarantool_connector/detail/sha1.h:39-40 | byte-swapping a little-endian load gives the big-endian word |
| Sha1Transform.RingLate | include/tarantool_connector/detail/sha1.h:42-43 | the ring update computes the next schedule word of section 6.1.2 and keeps the last sixteen (the method of section 6.1.3) |
| Sha1Transform.RoundInPlaceIsStep | include/tarantool_connector/detail/sha1.h:46-50 | a round on renamed registers is a round of section 6.1.2 on shifted ones |
| Sha1Transform.Rounds80 | include/tarantool_connector/detail/sha1.h:79-99 | 80 rounds over the ring equal 80 rounds over the 80-word schedule; the block ends as schedule words 64 to 79, no other memory changes |
| Sha1Transform.Transform | include/tarantool_connector/detail/sha1.h:55-111 | the state becomes the section 6.1.2 compression of the bytes found in the block, which is overwritten |
| Sha1Context.CounterStep | include/tarantool_connector/detail/sha1.h:134-137 | the split counter with its carry counts bits modulo 2^64 |
| Sha1Context.Context.Init | include/tarantool_connector/detail/sha1.h:116-125 | the initial value, nothing fed |
| Sha1Context.Context.Update | include/tarantool_connector/detail/sha1.h:130-149 | the context has been fed the bytes as they were on entry; the bytes that fill the first block and those behind the last whole block survive, so data with less than two blocks survives altogether, and every whole block from the second on is replaced by the end of its own schedule |
| Sha1Context.Context.AppendPadding | include/tarantool_connector/detail/sha1.h:182-187 | the padding of section 5.1.1, one byte at a time |
| Sha1Context.Context.Final | include/tarantool_connector/detail/sha1.h:154-196 | the digest is the SHA-1 of everything fed, and the context is wiped |
| Sha1Spec.DigestSpells | include/tarantool_connector/detail/sha1.h:189-192 | the digest's octets, four at a time, spell the five words of the state |
| Scramble.HashPieces | include/tarantool_connector/detail/sha1.h:116-196 | for every message and every split of it over the calls the digest is that of the whole |
| Sha1Vectors.ConstantLaw | include/tarantool_connector/detail/sha1.h:45-50 | the round constants are the integer parts of 2^30 times the square roots of 2, 3, 5 and 10 |
| Sha1Vectors.EightyRounds | include/tarantool_connector/detail/sha1.h:79-99 | sixteen rounds at a time on a window of the schedule compute the compression of the standard |
| Sha1Vectors.AbcDigest | include/tarantool_connector/detail/sha1.h:116-196 | the digest of the three octets abc, octet for octet |
| Sha1Vectors.LongDigest | include/tarantool_connector/detail/sha1.h:116-196 | the digest of the standard's 56-octet example, whose padding fills a second block, octet for octet |
| Base64.SaltRecovered | include/tarantool_connector/detail/tntpp_crypto.h:30-39 | every salt, encoded as in RFC 4648 section 4 and surrounded by white space, is recovered byte for byte by the padding trick |
| Base64.EncodeDecodes | include/tarantool_connector/detail/tntpp_crypto.h:35-39 | replacing the padding decodes to the bytes followed by as many zeros as there were padding characters |
| Base64.Alphabet | include/tarantool_connector/detail/tntpp_crypto.h:35-39 | the alphabet in order and the six white-space characters |
| Base64.KnownGroups | include/tarantool_connector/detail/tntpp_crypto.h:35-39 | the examples of RFC 4648 section 10, character for character |
| Scramble.ScramblePassword | include/tarantool_connector/detail/tntpp_crypto.h:24-68 | the answer for the password as it was on entry and the first 20 bytes of the decoded salt; of the password's memory the first block and the tail behind the last whole block survive, every block between is replaced by the end of its schedule, and the password is as before if and only if each of those blocks reproduces itself |
| Scramble.AnswerAccepted | include/tarantool_connector/detail/tntpp_crypto.h:46-61 | unmasking the answer gives the password's hash, and the server's check of it passes |
| Sha1Vectors.KnownAnswer | include/tarantool_connector/detail/tntpp_crypto.h:46-61 | the answer of the password abc to the salt 0 to 19, octet for octet |
| Scramble.ScramblePasses | include/tarantool_connector/detail/tntpp_crypto.h:24-68 | from any password and any white-space-padded base64 salt of at least 20 bytes to an accepted answer |
| Scramble.PasswordsSurviveIff | include/tarantool_connector/detail/tntpp_crypto.h:46-48 | all passwords of a length reproduce themselves, so that authenticating leaves them intact, if and only if the length is below 128 |
| Scramble.DestroysFragile | include/tarantool_connector/detail/tntpp_crypto.h:46-48 | the witness run: for every length from 128 on, scrambling a password of that length destroys it |
| Authentication.Authenticate | include/tarantool_connector/tarantool_connector.hpp:139-151 | from a greeting line holding a white-space-padded base64 salt of at least 20 bytes to an auth request whose scramble the server accepts |
| Authentication.Handshake | include/tarantool_connector/tarantool_connector.hpp:423-432 | connecting and authenticating: the request carries the user and an answer that the peer reached accepts under the salt of its own greeting |
| SendPipeline.DBQueue.Push | include/tarantool_connector/detail/tntpp_queue.h:27-31 | appended to what waits |
| SendPipeline.DBQueue.Swap | include/tarantool_connector/detail/tntpp_queue.h:40-49 | for every capacity the batch is exactly what waited, in order, and only the batch sent before is shrunk |
| SendPipeline.DBQueue.Clear | include/tarantool_connector/detail/tntpp_queue.h:51-61 | both halves empty |
| SendPipeline.Sender.SendData | include/tarantool_connector/connection.h:160-169 | one step of the pipeline machine, whose invariant is kept |
| SendPipeline.Sender.OnDataSent | include/tarantool_connector/connection.h:210-228 | one step of the pipeline machine, on success and on failure |
| SendPipeline.StepKeepsInv | include/tarantool_connector/connection.h:160-228 | every submitted buffer is written, dropped, in flight or queued exactly once and in order; one write at a time; its vector is intact; idle means nothing queued |
| SendPipeline.RunKeepsInv | include/tarantool_connector/connection.h:160-228 | the same after every interleaving of submissions and completions, write errors included |
| SendPipeline.SentInOrder | include/tarantool_connector/connection.h:160-228 | up to the first error: written, then in flight, then queued, equals the submissions in order |
| SendPipeline.ErrorLeavesNothing | include/tarantool_connector/connection.h:210-228 | after a write error nothing is in flight or queued, and the dropped part is what was in flight followed by what was queued |
| SendPipeline.AfterError | include/tarantool_connector/connection.h:210-228 | for every run through a write error: all that is written, dropped, in flight or queued afterwards is what was submitted afterwards, in order; all before is settled in the epochs up to the error |
| SendPipeline.WrittenInTwo | include/tarantool_connector/connection.h:185-228 | one completed write later what was in flight is written, two later what was queued is written too |
| Requests.DeliverCompletes | include/tarantool_connector/tarantool_connector.hpp:449-467 | a reply calls the handler its request was issued for and completes that request; duplicate, late and unknown ones change nothing |
| Requests.DeliverToSpent | include/tarantool_connector/tarantool_connector.hpp:449-467 | a message for an empty handler takes its entry out and does nothing else |
| Requests.SendRetains | include/tarantool_connector/tarantool_connector.hpp:95-95 | sending replaces no entry of the table, whatever the guard and even when ids have wrapped around |
| Requests.IdsWrap | include/tarantool_connector/tarantool_connector.hpp:227-230 | ids are the counter modulo 2^64, and a request is passed on under its own |
| Requests.ResetKeeps | include/tarantool_connector/tarantool_connector.hpp:349-362 | with the guard exclusive reset empties the table and fails every pending request once, whatever requests the handlers issue meanwhile and in whatever order the table is walked |
| Requests.SendKeeps | include/tarantool_connector/tarantool_connector.hpp:79-103 | with the guard exclusive every id stays in exactly one place, handlers that send again included |
| RequestsShipped.ResetShippedIff | include/tarantool_connector/tarantool_connector.hpp:349-362 | as shipped, reset walks an undisturbed table to its end if and only if no handler in it is empty and none issues a request on failure |
| RequestsShipped.ResetThrowsAgain | include/tarantool_connector/tarantool_connector.hpp:481-490 | a reset that threw throws again at once when the exception handler repeats it |
| ReceiveLoop.StepKeeps | include/tarantool_connector/tarantool_connector.hpp:400-494 | with the guard exclusive every step keeps the invariant of table and loop |
| ReceiveLoop.EveryRun | include/tarantool_connector/tarantool_connector.hpp:400-494 | in every run below 2^64 ids each request is unsent, pending or completed exactly once, replies reach only the request they name, and on every exit of the loop nothing is pending and the link is down |
| ReceiveLoop.StoppedForGood | include/tarantool_connector/tarantool_connector.hpp:53-61 | stopped is absorbing in every run, as shipped and as meant |
| ReceiveLoop.StoppedLoopEnds | include/tarantool_connector/tarantool_connector.hpp:404-436 | once stopped the loop takes at most two more steps, as shipped and as meant, from any state; after two it has exited or died, and with the guard exclusive and the invariant it does not die |
| ReceiveLoop.ExitsFromStart | include/tarantool_connector/tarantool_connector.hpp:404-494 | in every run, as shipped and as meant, the loop is left only when the connector is gone or an awaited operation was cancelled |
| ReceiveLoop.GoneIffStopping | include/tarantool_connector/tarantool_connector.hpp:53-61 | in every run the connector is gone if and only if it is stopped or about to be |
| ReceiveLoop.ShutsDown | include/tarantool_connector/tarantool_connector.hpp:404-407 | dropping the connector of a loop at its head cancels everything pending and leaves the loop |
| ReceiveLoop.ThrowIff | include/tarantool_connector/tarantool_connector.hpp:468-481 | a cancelled operation ends the loop, any other failure of one leads back to its head |
| ReceiveLoop.SchemaVersionIs | include/tarantool_connector/tarantool_connector.hpp:449-449 | the schema version is that of the last message received |
| ReceiveLoop.ReconnectIff | include/tarantool_connector/tarantool_connector.hpp:423-434 | a completed connect brings the link up if and only if there are no credentials |
| ReceiveLoop.ConnectsIff | include/tarantool_connector/tarantool_connector.hpp:413-434 | where a completed connect leads, in all cases |
| ReceiveLoop.TriesAgain | include/tarantool_connector/tarantool_connector.hpp:415-436 | after any number of failed attempts one that succeeds connects a live connector without credentials, as shipped and as meant, and nothing else has changed |
| ReceiveLoop.Recovers | include/tarantool_connector/tarantool_connector.hpp:438-446 | a lost connection fails everything pending with a broken pipe, and after any number of failed attempts the connector is connected again with an empty table |
| ReceiveLoop.LostWithCredentials | include/tarantool_connector/tarantool_connector.hpp:423-434 | with credentials a lost link stays lost in every run |
| ReceiveLoopShipped.ShippedIff | include/tarantool_connector/tarantool_connector.hpp:89-96 | the code as shipped keeps the invariant throughout a run if and only if every step is clean in the state it is taken in: sends happen with the link up, a completed reconnect has no credentials, and no handler in the table issues a request when the connection is lost |
| ReceiveLoopShipped.StepRefusedIff | include/tarantool_connector/tarantool_connector.hpp:89-96 | a step from a state with the invariant takes the not-connected branch if and only if it is not clean |
| ReceiveLoopShipped.CleanRunAgrees | include/tarantool_connector/tarantool_connector.hpp:89-96 | over a clean run the code as shipped and the code as meant are in the same states |
| ReceiveLoopShipped.LossyReached | include/tarantool_connector/tarantool_connector.hpp:89-96 | a concrete run with a request sent during a reconnect, and the states it reaches under either guard |
| ReceiveLoopShipped.LossyAsMeant | include/tarantool_connector/tarantool_connector.hpp:349-362 | losing the connection then fails the waiting request |
| ReceiveLoopShipped.LossyAsShipped | include/tarantool_connector/tarantool_connector.hpp:89-96 | losing the connection then ends the loop with a request waiting; the refused request had been passed on all the same |
| ReceiveLoopShipped.CrashedForGood | include/tarantool_connector/tarantool_connector.hpp:481-490 | whenever a run from the start has ended the loop by an exception, no continuation touches the entry of a request waiting then or calls its handler |
| ReceiveLoopShipped.RunSeparate | include/tarantool_connector/tarantool_connector.hpp:79-103 | in every run as shipped no id is both unsent and in the table, and none is beyond the counter |
| ReceiveLoopShipped.LossyForGood | include/tarantool_connector/tarantool_connector.hpp:481-490 | in every continuation of the run above the second request stays in the table and its handler is never called |
| Connector.Connector.SendRequest | include/tarantool_connector/tarantool_connector.hpp:79-103 | the method is the send function on the whole state |
| Connector.Connector.DoReset | include/tarantool_connector/tarantool_connector.hpp:349-362 | the method with its walk is the reset function on the whole state |
| Connector.Connector.OnMessage | include/tarantool_connector/tarantool_connector.hpp:449-467 | the method is the deliver function on the whole state |
| Connector.Connector.Take | include/tarantool_connector/tarantool_connector.hpp:400-494 | each step of the code is the step of the machine |
| Connector.Connector.Play | include/tarantool_connector/tarantool_connector.hpp:400-494 | any sequence of steps is the run of the machine; with the guard exclusive the invariant holds at its end |
| Serving.RunAnswers | include/tarantool_connector/tarantool_connector.hpp:449-467 | over every run the handlers called with a reply are those of the messages that find one, in order; nothing else calls a handler with a reply |
| Serving.HitsWithin | include/tarantool_connector/tarantool_connector.hpp:449-467 | the messages that find handlers are some of those received, in the order they came |
| Serving.Serve | include/tarantool_connector/tarantool_connector.hpp:437-467 | for every stream and chunking, with any steps of the connector in between, the messages delivered are the first ones of the pure parser, all of them given rounds enough and a sound socket, and the replies go to the handlers of their syncs in that order |
| Serving.Session | include/tarantool_connector/tarantool_connector.hpp:410-467 | the same from the connection attempt on, over the stream of the peer reached from byte 128 |
| Transmission.EveryBuffer | include/tarantool_connector/tarantool_connector.hpp:95-96 | table and sending side together, over every interleaving of the connector's steps with write completions and errors: the data of an accepted request is in exactly one place (written, dropped, in flight or queued), its request is waiting or completed once and never told it was not connected, and every waiting request was accepted |
| Transmission.DroppedAreFailed | include/tarantool_connector/connection.h:210-228 | the next reset fails every request still waiting, those whose data a write error dropped included, and in every continuation each request accepted before it is completed exactly once |
| Transmission.DroppedAfterReset | include/tarantool_connector/connection.h:210-228 | a dropped buffer need not belong to a waiting request: a write that ends in error after the reset drops the data of a request already failed |
| Transmission.StaleIff | include/tarantool_connector/tarantool_connector.hpp:349-362 | once all requests have been failed, no continuation writes data of an earlier request if and only if no write was in progress, because reset leaves the queue alone |
| Transmission.StaleWritten | include/tarantool_connector/tarantool_connector.hpp:349-362 | a run in which the data of two failed requests, one in flight and one queued, is written with the next connection up |
| Transmission.CleanAgrees | include/tarantool_connector/tarantool_connector.hpp:89-96 | the combined runs of the code as shipped and as meant are the same as long as the connector's steps are clean |

## Left out

- Coroutines, strands, executors, the resolver, timers and socket options: steps of one strand, a socket that delivers chunks of any size or fails, and a list of addresses stand in for them.
- Memory management: a view keeps its block alive by construction, and queued buffers are values, so the lifetime of the memory behind them is not modelled. Object sizes are unbounded, so `ready + bytes + default_length` does not wrap.
- The MessagePack library itself: `MsgPack` is the format, with the shortest encoding on packing; its limits on depth and size are not modelled, and floating-point numbers are raw bytes.
- Interaction of `Connection::stop` with a write in progress: that a closed socket makes the pending write and the pending read fail is not forced; those failures are events that may come at any time, so nothing is said about how soon a reset follows a write error.
- A handler giving up the last reference to the connector from inside its call: the connector is destroyed by a step of its own or by the loop. A reset therefore has one outcome for all its handlers, whereas the source reads the state again for each of them (include/tarantool_connector/tarantool_connector.hpp:355).
- Exceptions thrown by user handlers, other than calling an empty handler: a throwing handler in the receive loop is logged by the code, and one inside `reset` is not modelled.
- The schema and name lookups of `Box`: they are stubs in the source, and a named space or index resolves to id 0 as there.
- A send posted to the strand that runs after the connector is destroyed: the source would touch a freed object, so such a step is not part of a run.
- `FrozenBuffer::slice` with an explicit length: only the form without one is called.
- The error enumeration and its messages, conversions of response bodies to user types, logging, configuration, and the Picodata stub.
- Scramble.ScramblePassword: asks for base64 text whose length is a multiple of four and for at least 20 decoded bytes, because the source reads past the end of shorter input.
- Sha1Context.Context.Update: asks that the bytes at hand and the new ones stay below 2^32 together, because beyond that the source's 32-bit comparison wraps and it writes past its buffer.
- Authentication.Handshake: asks that every peer that greets offers a salt of at least 20 bytes in base64, because the source reads past the end of a shorter one.
- ReceiveLoop.EveryRun: stated for the exclusive guard and below 2^64 ids; `ReceiveLoopShipped.CleanRunAgrees` carries it over to the code as shipped, and `ReceiveLoopShipped.ShippedIff` says that it goes no further.
- Transmission.EveryBuffer: stated for the exclusive guard and below 2^64 ids; `Transmission.CleanAgrees` carries it over to the code as shipped.
