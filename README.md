# LDAP proxy frame reader

This is a model of the frame reader of the goldap LDAP proxy, with proofs about it.
- `server/proxy.go` reads one LDAP message at a time off a TCP connection.
- `readTagAndLength` reads the BER/DER identifier octet and the length. It takes one byte at a time, in short or long form.
- `readBytes` makes a zero-filled slice of the requested length, lets one `conn.Read` fill as much of it as arrives, and appends the whole slice to a growing buffer.
- `readLdapMessageBytes` puts the header and the payload together.
- `readClient` and `readServer` loop over the messages of one direction and number them.

The model has four modules:

- `Ber` (ber.dfy): the functions and lemmas about headers and frames.
  - `ParseHeader` and `LongLength` follow readTagAndLength on the bytes still to come on a connection.
  - `ParseFrame` adds the payload read.
  - `WellFormedHeader` describes the accepted headers independently of those steps.
  - `EncodeHeader` and `EncodeFrame` produce DER encodings.
  - The lemmas prove the source's rules against these partner definitions: the 0x30 leading byte, short and long form, indefinite length, leading zeros, the 2^23 guard, and the round trips.
- `Framing` (framing.dfy): the source's procedures, as imperative code.
  - `Conn` is a connection: all the bytes the peer will send, a read position, and a closed flag.
  - `FrameBuffer` is the `[]byte` that readBytes grows through a pointer.
  - `ReadBytes`, `ReadTagAndLength`, `ReadLengthOctets` and `ReadLdapMessageBytes` are methods, each proved against the matching `Ber` function.
- `Stream` (stream.dfy): what a reader loop does to a whole stream.
  - `SplitFrames` cuts the stream into the frames the loop publishes and the error that stops it.
  - `Numbered` gives the frames their ids.
  - The lemmas state pass-through fidelity, round-trip splitting and consecutive numbering.
  - `Offsets` gives the read position of every iteration and the result of each read.
- `Server` (server.dfy): the `Proxy` class.
  - Its three channels are sequences of the messages sent on them so far.
  - `ReadClient` and `ReadServer` are the two loops, proved against `SplitFrames` and `Numbered`.

Two behaviours of the code are easy to misread, and the model reproduces both as written:

- **Short payload reads are padded.** When the stream ends inside a payload, the model returns the message padded with zeros up to its declared length.
  - readBytes appends the whole zero-filled slice even after a short read (server/proxy.go:188-195).
  - readLdapMessageBytes ignores that read's result (server/proxy.go:180).
- **A non-0x30 leading byte** is the source's `panic` (server/proxy.go:226-228). It becomes the error `UnexpectedTag(b)`, and the reader loop then stops without closing its connection.

In five places the code does something other than what strict DER framing, or a plain reading of the loops, would lead one to expect. The model follows the code in each:

- A wrong leading tag is not an ordinary framing error that closes the connection. The code panics.
- DER (X.690, section 10.1) requires the length in its minimal form. The code rejects only a zero first length octet, so the non-minimal `0x30 0x81 0x05` is accepted (`Ber.LongFormAcceptedIff`).
- A read that returns fewer bytes than requested is not treated as a connection error. The code pads a short payload read and returns the message.
- The 2^23 guard does not limit lengths to 2^23, nor the long form to three octets. It is checked before each shift, so three octets can reach `0x30 0x83 0x80 0x00 0x00` (length 2^23), and four octets can reach `0x30 0x84 0x7F 0xFF 0xFF 0xFF` (length 2^31 − 1). Both are accepted (`Ber.WideLengthsAccepted`, `Ber.LongFormAcceptedIff`). The error comes only when one more octet is announced and present after octets that already reach 2^23: a fourth after three that start with 0x80 or more, or a fifth after four (`Ber.TooLargeWhenGuardTrips`).
- Client messages are numbered from 2, not 1, because `messageid` starts at 1 and is incremented before use (server/proxy.go:72, 83). Server messages are numbered from 1.

## Model

| member | source | states |
|---|---|---|
| Ber.Zeros | server/proxy.go:188 | `make([]byte, n)`: n bytes, all zero |
| Ber.ClassBits | server/proxy.go:213 | the class of an identifier octet is one of the four values 0-3 |
| Ber.ConstructedBit | server/proxy.go:214 | the constructed flag of an identifier octet (its mask form is `Ber.ConstructedBitAgrees`) |
| Ber.TagBits | server/proxy.go:215 | the tag number of a low-tag-number identifier octet is below 32 |
| Ber.HighBit | server/proxy.go:234 | the long-form test on a length octet (its mask form is `Ber.HighBitAgrees`) |
| Ber.LowBits | server/proxy.go:236-239 | the short-form length or the octet count is below 0x80, and it is the octet itself exactly when the high bit is clear |
| Ber.Identifier | server/proxy.go:213-215 | the identifier fields carry the decoded length, a class of 0-3 and a tag below 32 |
| Ber.ClassBitsAgree | server/proxy.go:213 | the class computed as `b / 0x40` is `b >> 6` on the octet |
| Ber.ConstructedBitAgrees | server/proxy.go:214 | the constructed flag is `b&0x20 == 0x20` |
| Ber.TagBitsAgree | server/proxy.go:215 | the tag number is `b & 0x1f` |
| Ber.HighBitAgrees | server/proxy.go:234 | the long-form test is `b&0x80 != 0` |
| Ber.LowBitsAgree | server/proxy.go:236-239 | the short-form length and the octet count are `b & 0x7f` |
| Ber.LengthOctetCount | server/proxy.go:239 | the octet `0x80 + n` announces n length octets in long form |
| Ber.LongLength | server/proxy.go:244-264 | the length loop ends either decoded at `k + n`, within the input, with a non-negative value, or rejected with Eof (all input consumed), LengthTooLarge or LeadingZeros (after the current octet) |
| Ber.ParseHeader | server/proxy.go:204-268 | an accepted header is at least 2 bytes, within the input, with a non-negative length; an error consumes at most the input, Eof consumes all of it, and any other error consumes at least one byte |
| Ber.ParseFrame | server/proxy.go:173-182 | a frame consumes between 2 bytes and the whole input, and no more than its own length |
| Ber.LongLengthDecoded | server/proxy.go:245-264 | once the first octet is non-zero, the loop decodes exactly when all octets are present and the big-endian value stays below 2^31, and the result is that value |
| Ber.LeadingByte | server/proxy.go:213-228 | the panic outcome happens exactly when the first byte is not 0x30; it consumes one byte and yields no frame; every accepted header is class 0, constructed, tag 16 |
| Ber.ShortForm | server/proxy.go:234-236 | a second byte with the high bit clear is the length itself, and the header is 2 bytes |
| Ber.IndefiniteLengthRejected | server/proxy.go:239-243 | a second byte of 0x80 is the indefinite-length error after 2 bytes, and no other input gives that error |
| Ber.LongForm | server/proxy.go:244-258 | an accepted long-form length is the big-endian value of the following `b & 0x7f` octets; the header is 2 + that many bytes; the first octet is non-zero |
| Ber.LeadingZerosRejected | server/proxy.go:259-262 | a zero first length octet is rejected with the leading-zeros error right after that octet |
| Ber.TooLargeAfterGuard | server/proxy.go:247-256 | "length too large" only comes after the octet that tripped the guard was consumed, with the value before that octet at least 2^23, so no earlier than byte 6 |
| Ber.TooLargeLoop | server/proxy.go:245-256 | the same bound, for the loop from any position |
| Ber.BigEndianTwoOctets | server/proxy.go:251 | two length octets or fewer stay below 2^16, so they never meet the 2^23 guard |
| Ber.GuardTripsLoop | server/proxy.go:245-256 | the converse for the loop: when the accumulated value first reaches 2^23 and another announced octet is present, the loop fails with "length too large" right after reading that octet |
| Ber.TooLargeWhenGuardTrips | server/proxy.go:247-256 | the converse for readTagAndLength: j length octets that first reach 2^23, followed by an announced octet that is present, give `HeaderError(LengthTooLarge, 3 + j)` |
| Ber.HeaderAccepted | server/proxy.go:204-268 | readTagAndLength accepts a header if and only if it is well formed (`WellFormedHeader`), and every accepted length is below 2^31 |
| Ber.LongHeaderAccepted | server/proxy.go:237-265 | the same equivalence for a long-form length octet |
| Ber.LongLengthFirstOctet | server/proxy.go:245-264 | the length loop started on a non-zero first octet decodes exactly the big-endian value below 2^31 |
| Ber.LengthOfHeader | server/proxy.go:237-265 | the header's length and size are the loop's outcome |
| Ber.LongFormAcceptedIff | server/proxy.go:244-264 | a long-form encoding without leading zeros, such as 0x81 0x05, is accepted exactly when its value is below 2^31 |
| Ber.WideLengthsAccepted | server/proxy.go:245-258 | the three-octet length 2^23 and the four-octet length 2^31 − 1 are both accepted |
| Ber.HeaderRoundTrip | server/proxy.go:204-268 | the DER header of any length below 2^31 is read back as that length and that header size, whatever follows |
| Ber.FrameComposition | server/proxy.go:173-182 | an accepted header gives a frame of header plus Length bytes that starts with the header bytes; with the whole payload present the frame is exactly the consumed prefix |
| Ber.FrameOfHeader | server/proxy.go:176-181 | the frame is the header, the payload bytes that arrived, and zeros up to Length |
| Ber.FrameContents | server/proxy.go:187-196 | a frame is the consumed prefix of the stream followed by zeros, padded only when the stream ran out |
| Ber.FiveBytePayload | server/proxy.go:173-182 | `30 05` and five payload bytes give a frame of 7 bytes with Length 5 |
| Ber.TruncatedPayloadPadded | server/proxy.go:187-196 | a truncated payload consumes the rest of the stream and comes back zero-padded to Length |
| Ber.FrameRoundTrip | server/proxy.go:173-182 | a stream that starts with an encoded message yields exactly that message's bytes and consumes exactly them |
| Framing.Conn.Remaining | server/proxy.go:189 | the bytes still to be read on the connection |
| Framing.Conn.Read | server/proxy.go:189 | one read copies the next min(len(p), remaining) bytes to the front of p, leaves the rest of p alone, and reports end of stream when bytes were asked for and none was left |
| Framing.Conn.Close | server/proxy.go:78 | the connection is closed and its position is unchanged |
| Framing.FrameBuffer.constructor | server/proxy.go:174 | the message buffer starts empty |
| Framing.ReadBytes | server/proxy.go:187-198 | the whole zero-filled slice is appended, after the bytes that arrived; the position moves by the bytes delivered; end of stream is reported when none was; the last buffer byte is returned |
| Framing.ReadTagAndLength | server/proxy.go:204-268 | the method's result, position and buffer are those of `ParseHeader` on the remaining bytes, in every success and error case, including the zero byte a failed one-byte read leaves behind |
| Framing.ReadLengthOctets | server/proxy.go:244-264 | the loop's result, position and buffer are those of `LongLength` |
| Framing.ReadLdapMessageBytes | server/proxy.go:173-182 | the result and the position are those of `ParseFrame` on the remaining bytes |
| Stream.SplitFrames | server/proxy.go:73-81 | repeated reads until the first error consume at most the stream |
| Stream.Numbered | server/proxy.go:83-84 | one message per frame |
| Stream.NumberedAt | server/proxy.go:83-84 | message i carries frame i and id `first + i` |
| Stream.NumberedIds | server/proxy.go:72-84 | ids are consecutive, and in read order, for every message at once (from `Stream.NumberedAt`) |
| Stream.SplitForwardsStream | server/proxy.go:73-86 | the frames a loop publishes, laid end to end, are the stream itself in order; only the last may run past its end, and it is then padded with zeros |
| Stream.ForwardStep | server/proxy.go:180-195 | one frame followed by the layout of the rest is still the stream, padded at its end |
| Stream.SplitFramesNonEmpty | server/proxy.go:204-243 | every published frame has at least the 2 header bytes, so a stream of n bytes gives at most n/2 frames |
| Stream.SplitRoundTrip | server/proxy.go:73-86 | a stream of encoded messages is split into exactly those messages and ends with Eof after consuming all of it |
| Stream.ReadAtShift | server/proxy.go:73-76 | a read at an offset of the rest of the stream is the same read at the shifted offset of the stream |
| Stream.Offsets | server/proxy.go:73-81 | the loop's read positions: read i starts where read i-1 ended and returns frame i; the read after the last frame fails as `SplitFrames` says |
| Server.Proxy.constructor | server/proxy.go:60-63 | the proxy holds its name and its two connections, and its three channels start empty |
| Server.Proxy.ReadClient | server/proxy.go:71-88 | after the loop the client position has advanced by what `SplitFrames` consumed; the dump and server channels have gained `Numbered(2, "CLIENT", frames)`, so ids start at 2; the loop stops with the split's error and the connection is closed unless that error is the panic |
| Server.Proxy.ReadServer | server/proxy.go:96-112 | the same for the server connection, with ids starting at 1 and the client channel as the forward channel |

## Left out

- Forward (server/proxy.go:32-58): listening, accepting and dialling are network I/O.
- start and the goroutines (server/proxy.go:60-69): concurrency is not modelled. The constructor plays the part of start and creates the channels empty. A channel send is an append to a sequence, with no blocking and no receiver.
- writeServer and writeClient (server/proxy.go:90-118): these are plain socket writes.
- dump (server/proxy.go:120-139): this is logging and pretty-printing.
- decodeMessage (server/proxy.go:162-171): it calls the external goldap decoder, which is not part of this model.
- The commented-out code (server/proxy.go:141-160, 205-207, 217-224): it is dead code.
- The log lines of the reader loops (server/proxy.go:79, 104): they are output only.
- Conn.Read delivers as many bytes as are left. A TCP read may also return fewer bytes in the middle of a stream; the model does not cover that, so a short read happens only at the end of the stream.
- Read does not look at the closed flag: nothing reads a connection after closing it.
- ReadBytes does not write out the `else if err != nil { return }` branch (server/proxy.go:192-193). That branch needs a full read that also reports an error, and this connection never gives one.
- Server.Proxy.ReadClient: the panic ends the loop with `UnexpectedTag` as its result. The source's goroutine panic brings the whole process down, and the model does not capture that.
- Server.Proxy.ReadServer: the same treatment of the panic.
- Lengths are unbounded integers. The 2^23 guard keeps every accumulated length below 2^31, so Go's 64-bit `int` never wraps here.
