# A verified model of the ZooKeeper proxy's byte path

The proxy sits between a ZooKeeper client and a server. It cuts the client's byte stream into length-delimited
frames, decodes each frame to a typed request, encodes the request again and sends it on, and it passes the server's
bytes back through a channel. This project models that path and proves what it keeps.

- `Outcomes.dfy`, `Bytes.dfy`: results with three outcomes (value, error, panic), fixed-width integers, and the
  mutable buffer `BytesMut`. The crate's getters panic on short input, and so do the readers here.
- `Proto.dfy`, `ProtoInPlace.dfy`, `Utf8Text.dfy`: the records. A reader is a function from bytes to a value and the
  bytes after it; `BytesMut.Take` runs one in place. Byte strings, vectors, the records that hold vectors, and the
  connect record also have methods that work on the buffer step by step. Records with the same layout share one
  datatype: `WatchedPath` stands for get-data, exists, get-children and get-children2 requests, `NumberedPath` for
  delete and check-watches.
- `RecordLaws.dfy`: record by record, that the reader is exact and inverse to the writer, that encodings are
  prefix-free, and that a truncated one is never read as a value.
- `LengthCodec.dfy`, `Framing.dfy`, `FramerRuns.dfy`: the framer with every setting general, its behaviour over whole
  streams, and its invariant over runs in which arrivals, decode calls and limit changes come in any order.
- `Constants.dfy`, `Requests.dfy`, `Responses.dfy`, `PacketsInPlace.dfy`, `Codec.dfy`, `PacketCodecs.dfy`: opcodes and
  xids, requests and replies as functions and as methods on a buffer, the two packet codecs and the opcode table they
  share.
- `RequestVerdicts.dfy`, `ReplyVerdicts.dfy`: exactly which frames the two decoders accept, which are errors and which
  panic, class by class.
- `Server.dfy`: the forwarding loops of one connection. An event is an arrival, one decode call, or a write of any part
  of what is being sent, and the theorems hold after every event. Progress is stated by the events that bring it about:
  from any point, decode calls and writes forward all that arrived, and takes and writes deliver all that was read.

Each method is proved equal to a specification function, and the theorems are about those functions.

Machine integers are explicit: `usize` is 64 bits, `as i32` wraps (`AsI32`), `put_uint` keeps the low bytes, lengths
that turn negative panic. A panic in any loop ends the connection, because the three loops run in one `select!`.

Where the code departs from what its comments suggest, the model follows the code:

- The framer counts a frame from where skipping stops, the diagrams in its comments from the end of the head. It hands
  out what is drawn exactly when the whole head is skipped (`DrawnExactlyWhenHeadSkipped`), so not in examples 1, 3 and
  4 (src/length_codec.rs:76-102, 138-168, 176-207), where the end of the payload is left to be read as the next head
  (`FirstExampleLosesTwo`, `ThirdExampleLosesTwo`, `FourthExampleLosesThree`). Examples 2, 5, 6 and 7 come out as drawn.
- `read_only` of a connect record is read only when more than one byte is left (`ConnectRead`). A connect that ends in
  its one `read_only` byte is therefore forwarded with a zero there, whatever it held (`ReadOnlyConnectIsChanged`);
  requests and connect replies come out unchanged exactly as `UnchangedIff` and `ConnectReplyUnchangedIff` say.
- A multi reply is accepted only when all its operations failed (`MultiReplyHoldsErrorsOnly`).
- Draining terminates exactly for the configurations `Drains` describes (`DrainsExactly`), and an encoded frame
  decodes back exactly when `Carries` holds (`EncodedFrameDecodesBack`): the encoder compares the maximum with the
  payload's length, the decoder with the adjusted length in the field.

## Model

| member | source | states |
|---|---|---|
| `Framing.ChunkingIndependence` | src/length_codec.rs:549-573 | For every valid configuration whose draining terminates and every way of cutting a stream into chunks, the frames, final decoder state, leftover bytes and first error are those of the simple whole-stream parser. |
| `Framing.FeedExtendsParse` | src/length_codec.rs:549-573 | Parsing a stream and then feeding one more chunk equals parsing both together, wherever the cut falls: inside a head, a body, or between frames. |
| `Framing.DrawnExactlyWhenHeadSkipped` | src/length_codec.rs:525-542 | For every accepted head with enough bytes after it: what is handed out is the frame the comments draw if and only if no head byte is kept; otherwise as many bytes as were kept are missing at its end and stay at the front of the buffer. |
| `Framing.DrawnFromFieldExactlyWhenFieldSkipped` | src/length_codec.rs:525-542 | Against a picture that counts from the end of the length field, the same holds if and only if skipping stops there. |
| `Framing.FirstExampleLosesTwo` | src/length_codec.rs:76-102 | Example 1, for every payload of 11 bytes: 11 bytes come out where 13 are drawn, and the payload's last two stay for the next head. |
| `Framing.ThirdExampleLosesTwo` | src/length_codec.rs:138-168 | The same for example 3, whose length counts the head. |
| `Framing.FourthExampleLosesThree` | src/length_codec.rs:176-207 | Example 4, for any two further head bytes: 13 bytes come out where 16 are drawn. |
| `Framing.SecondExampleAsDrawn` | src/length_codec.rs:110-139 | Example 2, for every payload: what is drawn comes out and nothing is left. |
| `Framing.FifthExampleAsDrawn` | src/length_codec.rs:218-261 | Example 5, likewise: the last byte of the head is kept. |
| `Framing.SixthExampleAsDrawn` | src/length_codec.rs:263-303 | Example 6, likewise, its length counting the whole frame. |
| `Framing.SeventhExampleAsDrawn` | src/length_codec.rs:305-334 | Example 7, likewise: the byte after the field is skipped. |
| `Framing.WrittenHeadIsJudged` | src/length_codec.rs:474-532 | For every configuration and every number a field can hold: too big above the maximum, then an overflow when the adjustment leaves 0 to 2^64, both without consuming anything, and accepted with the adjusted length otherwise. |
| `Framing.IncompleteHeadWaits` | src/length_codec.rs:474-481 | While a byte of the field, or one to be skipped, is missing, nothing is read. |
| `Framing.EncodesExactly` | src/length_codec.rs:579-617 | Which payloads `encode` accepts, what it appends for them, and the reason for each refusal. |
| `Framing.DrainsExactly` | src/length_codec.rs:474-541 | Every frame taken at a head consumes bytes if and only if the configuration cannot announce an empty frame without skipping. |
| `Framing.EmptyFrameHeadSticks` | src/length_codec.rs:474-541 | The head, for each configuration outside `Drains`, that yields an empty frame and leaves buffer and state as they were. |
| `Framing.DrainCodec` | src/length_codec.rs:549-573 | The loop that calls `decode` until it yields nothing terminates and collects what the drain specification says. |
| `Framing.FramingRoundTrip` | src/length_codec.rs:549-617 | The concatenated frames of any list of payloads, either endianness and width 1 to 8, decode to the list, and decoding goes on with what follows. |
| `Framing.EncodedFrameDecodesBack` | src/length_codec.rs:491-517 | What `encode` produces decodes to its payload if and only if the adjusted length fits the field and the decoder's limit. |
| `Framing.ParseLosesNothing` | src/length_codec.rs:525-541 | Framing the decoded payloads again, then the head already taken and the bytes left, restores the stream. |
| `FramerRuns.EveryRunKeeps` | src/length_codec.rs:464-573 | Over every run of arrivals, decode calls and limit changes: the received bytes are in order the skipped head bytes, the frames and the buffer; each frame starts the skip length after its head and is as long as its field plus the adjustment; its head was read by a decode call made when it had arrived, and its field was within the maximum in force at that call. |
| `FramerRuns.DecodeKeeps` | src/length_codec.rs:549-573 | A decode call in any state keeps that accounting, whether it yields a frame, waits or rejects. |
| `FramerRuns.PendingFrameUnaffected` | src/length_codec.rs:464-472 | Once a head was read, whatever arrives and however often the maximum changes, the next decode call does what it would have done under the old maximum. |
| `LengthCodec.LengthDelimitedCodec.Decode` | src/length_codec.rs:549-573 | Apart from capacity: one call has exactly the specified result, state and buffer, never panics, and an error changes neither buffer nor state. |
| `LengthCodec.LengthDelimitedCodec.DecodeHead` | src/length_codec.rs:474-532 | Apart from capacity: an incomplete or rejected head leaves the buffer alone; an accepted one yields the adjusted length and skips; no read passes the end of the buffer. |
| `LengthCodec.LengthDelimitedCodec.DecodeData` | src/length_codec.rs:534-542 | Waits without touching the buffer, or cuts exactly `n` bytes off its front. |
| `LengthCodec.LengthDelimitedCodec.Encode` | src/length_codec.rs:579-617 | Appends the length field and the payload, or refuses and leaves the destination alone. |
| `LengthCodec.LengthDelimitedCodec.SetMaxFrameLength` | src/length_codec.rs:470-472 | Changes the maximum and nothing else. |
| `Bytes.ReadsWhatWasWritten` | src/length_codec.rs:491-495 | Reading back a field of any width and endianness gives the number modulo 256 to the width. |
| `Bytes.WritesWhatWasRead` | src/length_codec.rs:491-495 | Writing back what a field reads as restores its bytes, and the number is below 256 to the width. |
| `Bytes.BigEndianDigit` | src/length_codec.rs:607-611 | Byte by byte, a big-endian field of any width holds the number's base-256 digits, most significant first. |
| `Bytes.LittleEndianDigit` | src/length_codec.rs:607-611 | Byte by byte, a little-endian field holds them least significant first. |
| `Bytes.I32OnTheWire` | src/proto.rs:5-9 | The four bytes of an `i32`: two's complement, most significant byte first. |
| `Bytes.I64OnTheWire` | src/proto.rs:145-162 | The eight bytes of an `i64`, likewise. |
| `Bytes.ShortReadsPanic` | src/proto.rs:17-24 | A read of one, four, eight or `n` bytes past the end of the buffer panics. |
| `Proto.StrRefused` | src/proto.rs:17-24 | The bytes of a string are accepted if they are UTF-8 and an error, no panic, otherwise. |
| `Proto.NegativeLengthPanics` | src/proto.rs:40-70 | A negative count or length panics, for vectors, byte strings and strings. |
| `Proto.VecFailsAtElement` | src/proto.rs:40-49 | A vector of any length fails as its first element that cannot be read, error or panic, whatever follows. |
| `Proto.BufRoundTrip` | src/proto.rs:51-70 | A byte vector is read back with the remainder preserved if and only if its length fits an `i32`. |
| `Utf8Text.ValidExactlyWhenEncoded` | src/proto.rs:22-22 | A byte string passes the UTF-8 test if and only if it encodes some sequence of Unicode scalar values. |
| `Proto.ParseStr` | src/proto.rs:17-24 | What the string reader accepts is the encoding of its result, a valid UTF-8 string, then what it left. |
| `Proto.StrRoundTrip` | src/proto.rs:5-24 | A string is read back from its encoding with the remainder preserved. |
| `Proto.ParseVecExact` | src/proto.rs:40-49 | For any element reader that is exact, what the vector reader accepts is the encoding of its result, then what it left. |
| `Proto.ParseVecInverts` | src/proto.rs:26-49 | For any element whose reader inverts its writer, a vector of any length is read back with the remainder preserved. |
| `Proto.ManySizeExact` | src/proto.rs:35-37 | The size of a vector's elements is the number of bytes written for them. |
| `Proto.ReadVec` | src/proto.rs:40-49 | The loop over a buffer reads exactly what the vector specification reads, with the same error or panic. |
| `Proto.WriteVec` | src/proto.rs:26-33 | The loop appends the count and every element in order. |
| `Proto.IdRoundTrip` | src/proto.rs:78-99 | Parse after print for an id. |
| `Proto.ParseId` | src/proto.rs:90-99 | Print after parse for an id. |
| `Proto.AclRoundTrip` | src/proto.rs:107-128 | Parse after print for an ACL entry. |
| `Proto.ParseAcl` | src/proto.rs:119-128 | Print after parse for an ACL entry. |
| `Proto.AclsRoundTrip` | src/proto.rs:26-49 | Parse after print for a vector of ACL entries. |
| `Proto.StatRoundTrip` | src/proto.rs:145-193 | Parse after print for a stat of eleven fields. |
| `Proto.ParseStat` | src/proto.rs:166-193 | Print after parse for a stat. |
| `Proto.ClientInfoRoundTrip` | src/proto.rs:258-279 | Parse after print for a client. |
| `Proto.ClientsRoundTrip` | src/proto.rs:1672-1693 | Parse after print for a who-am-I reply, a vector of clients. |
| `Proto.ParseConnectRequest` | src/proto.rs:307-328 | Which bytes the connect reader consumed: up to the password when at most one byte followed it, one more otherwise. |
| `Proto.ConnectRequestRoundTrip` | src/proto.rs:291-328 | A connect is read back whole when bytes follow it, and with a zero `read_only` and that byte unread when none do. |
| `Proto.ParseConnectResponse` | src/proto.rs:354-373 | The same consumption rule for the connect reply. |
| `Proto.ConnectResponseRoundTrip` | src/proto.rs:340-373 | A connect reply is read back whole when bytes follow it, and with a zero `read_only` and that byte unread when none do. |
| `ProtoInPlace.ReadConnectRequest` | src/proto.rs:307-328 | Reading field by field in place, with the test on the bytes left, agrees with the specification. |
| `ProtoInPlace.WriteConnectRequest` | src/proto.rs:291-300 | Appends the six fields in order. |
| `ProtoInPlace.ReadSetWatches` | src/proto.rs:397-410 | Three vectors read by the vector loop, one after the other, agree with the specification. |
| `ProtoInPlace.WriteSetWatches` | src/proto.rs:383-390 | Appends the number and the three vectors in order. |
| `ProtoInPlace.ReadCreate` | src/proto.rs:809-822 | Reading in place, the ACL vector by its loop, agrees with the specification. |
| `ProtoInPlace.WriteCreate` | src/proto.rs:793-802 | Appends the fields and the ACL vector in order. |
| `ProtoInPlace.ReadCreateTTL` | src/proto.rs:851-866 | The same with the time to live last. |
| `ProtoInPlace.ReadSetAcl` | src/proto.rs:1184-1197 | Reading in place, the ACL vector by its loop, agrees with the specification. |
| `ProtoInPlace.ReadString` | src/proto.rs:17-24 | Reading in place agrees with the specification, with its panic on a bad length and its error on bad UTF-8. |
| `Proto.SetWatchesRoundTrip` | src/proto.rs:383-410 | Parse after print for three vectors of strings. |
| `Proto.ParseSetWatches` | src/proto.rs:397-410 | Print after parse for three vectors of strings. |
| `Proto.MultiHeaderRoundTrip` | src/proto.rs:493-517 | Parse after print for the header of an operation. |
| `Proto.AuthPacketRoundTrip` | src/proto.rs:526-550 | Parse after print for an auth packet. |
| `Proto.ReplyHeaderRoundTrip` | src/proto.rs:559-583 | Parse after print for a reply header. |
| `Proto.SetDataRoundTrip` | src/proto.rs:621-645 | Parse after print for a set-data request. |
| `Proto.CreateRoundTrip` | src/proto.rs:792-822 | Parse after print for a create request, its ACL vector included. |
| `Proto.CreateTTLRoundTrip` | src/proto.rs:833-866 | Parse after print for a create request with a time to live. |
| `Proto.SetAclRoundTrip` | src/proto.rs:1170-1197 | Parse after print for a set-ACL request. |
| `Proto.WatchedPathRoundTrip` | src/proto.rs:591-612 | Parse after print for the requests made of a path and a watch flag. |
| `Proto.NumberedPathRoundTrip` | src/proto.rs:874-895 | Parse after print for the requests made of a path and a number. |
| `Proto.WatcherEventRoundTrip` | src/proto.rs:1260-1284 | Parse after print for a watch event. |
| `RecordLaws.InvertsIsPrefixFree` | src/record.rs:4-11 | Where a reader inverts a writer, equal encodings followed by anything come from equal values, followed by the same. |
| `RecordLaws.ExactInverseIsSelfDelimiting` | src/record.rs:4-11 | A reader exact and inverse to its writer makes encodings prefix-free, and never takes an encoding whose end is missing for a value. |
| `RecordLaws.StrSelfDelimiting` | src/proto.rs:5-24 | For strings: reading is exact, inverts writing, encodings are injective and prefix-free, and truncated ones are refused. |
| `RecordLaws.StrsSelfDelimiting` | src/proto.rs:26-49 | For vectors of strings: reading is exact, inverts writing, encodings are injective and prefix-free, and truncated ones are refused. |
| `RecordLaws.IdSelfDelimiting` | src/proto.rs:78-99 | For ids: reading is exact, inverts writing, encodings are injective and prefix-free, and truncated ones are refused. |
| `RecordLaws.AclSelfDelimiting` | src/proto.rs:107-128 | For ACL entries: reading is exact, inverts writing, encodings are injective and prefix-free, and truncated ones are refused. |
| `RecordLaws.AclsSelfDelimiting` | src/proto.rs:26-49 | For vectors of ACL entries: reading is exact, inverts writing, encodings are injective and prefix-free, and truncated ones are refused. |
| `RecordLaws.StatSelfDelimiting` | src/proto.rs:145-193 | For stats: reading is exact, inverts writing, encodings are injective and prefix-free, and truncated ones are refused. |
| `RecordLaws.ClientInfoSelfDelimiting` | src/proto.rs:258-279 | For clients: reading is exact, inverts writing, encodings are injective and prefix-free, and truncated ones are refused. |
| `RecordLaws.ClientsSelfDelimiting` | src/proto.rs:1672-1693 | For who-am-I replies: reading is exact, inverts writing, encodings are injective and prefix-free, and truncated ones are refused. |
| `RecordLaws.RequestHeaderSelfDelimiting` | src/proto.rs:463-486 | For request headers: reading is exact, inverts writing, encodings are injective and prefix-free, and truncated ones are refused. |
| `RecordLaws.ReplyHeaderSelfDelimiting` | src/proto.rs:559-583 | For reply headers: reading is exact, inverts writing, encodings are injective and prefix-free, and truncated ones are refused. |
| `RecordLaws.MultiHeaderSelfDelimiting` | src/proto.rs:493-517 | For operation headers: reading is exact, inverts writing, encodings are injective and prefix-free, and truncated ones are refused. |
| `RecordLaws.AuthPacketSelfDelimiting` | src/proto.rs:526-550 | For auth packets: reading is exact, inverts writing, encodings are injective and prefix-free, and truncated ones are refused. |
| `RecordLaws.SetWatchesSelfDelimiting` | src/proto.rs:383-410 | For set-watches requests, three vectors of strings: reading is exact, inverts writing, encodings are injective and prefix-free, and truncated ones are refused. |
| `RecordLaws.WatchedPathSelfDelimiting` | src/proto.rs:591-612 | For requests made of a path and a watch flag: reading is exact, inverts writing, encodings are injective and prefix-free, and truncated ones are refused. |
| `RecordLaws.NumberedPathSelfDelimiting` | src/proto.rs:874-895 | For requests made of a path and a number: reading is exact, inverts writing, encodings are injective and prefix-free, and truncated ones are refused. |
| `RecordLaws.SetDataSelfDelimiting` | src/proto.rs:621-645 | For set-data requests: reading is exact, inverts writing, encodings are injective and prefix-free, and truncated ones are refused. |
| `RecordLaws.SetAclSelfDelimiting` | src/proto.rs:1170-1197 | For set-ACL requests, with their vector: reading is exact, inverts writing, encodings are injective and prefix-free, and truncated ones are refused. |
| `RecordLaws.CreateSelfDelimiting` | src/proto.rs:792-822 | For create requests, with their vector: reading is exact, inverts writing, encodings are injective and prefix-free, and truncated ones are refused. |
| `RecordLaws.CreateTTLSelfDelimiting` | src/proto.rs:833-866 | For create requests with a time to live: reading is exact, inverts writing, encodings are injective and prefix-free, and truncated ones are refused. |
| `RecordLaws.WatcherEventSelfDelimiting` | src/proto.rs:1260-1284 | For watch events: reading is exact, inverts writing, encodings are injective and prefix-free, and truncated ones are refused. |
| `RecordLaws.OperationPrefixFree` | src/codec.rs:93-172 | Operations of the variant one opcode names have injective and prefix-free encodings. |
| `RecordLaws.MultiPrefixFree` | src/codec.rs:50-91 | Well-formed multis, of any number of operations, have injective and prefix-free encodings. |
| `Constants.OpCodeOfNumber` | src/constants.rs:15-49 | A number stands for an opcode if and only if it is that opcode's number. |
| `Constants.XidCodeOfNumber` | src/codec.rs:560-567 | An xid is special if and only if it is the number of a special xid. |
| `Requests.RequestSizeExact` | src/codec.rs:134-206 | For every request, a multi of any length included, the size is the number of bytes serialised. |
| `Requests.OpsSizeExact` | src/codec.rs:50-69 | The size of a list of operations is the number of bytes serialised for it. |
| `Requests.MultiRoundTrip` | src/codec.rs:50-91 | A well-formed multi of any length is read back from its encoding with the remainder preserved. |
| `Requests.ParseMulti` | src/codec.rs:71-91 | What the multi reader accepts is well-formed and is the encoding of its result, then what it left; it terminates. |
| `Requests.SubRoundTrip` | src/codec.rs:93-132 | An operation is read back under each opcode that names its variant. |
| `Requests.ParseSubExact` | src/codec.rs:93-132 | An accepted operation has the variant its opcode names, and its bytes are its encoding and what was left. |
| `Requests.RequestPrintAfterParse` | src/codec.rs:734-960 | For every accepted body: the packet is well-formed; without a connect the body is its encoding and the ignored bytes; with one, the three cases by the number of bytes after the password. |
| `Requests.RequestParseAfterPrint` | src/codec.rs:734-960 | Every well-formed packet, of any variant and xid class, is read back from its encoding; a connect leaves its last byte. |
| `Requests.HeadedRequestRead` | src/codec.rs:734-960 | The encoding of any well-formed packet with a header, followed by any bytes: read whole with those bytes ignored, or, for pings, auths and set-watches under their own xids and for who-am-I, multi and sync, a panic when there are any. |
| `Requests.ConnectRead` | src/codec.rs:755-762 | A connect of version 0 is accepted whatever follows its password, nothing included; which byte becomes `read_only` and what is left are given by the number of bytes. |
| `Requests.WrittenOnlyRequest` | src/codec.rs:148-148 | The one request no decoder produces is written as the record it holds. |
| `RequestVerdicts.AcceptedExactly` | src/codec.rs:734-960 | A body is accepted if and only if it is such a connect, or the encoding of a well-formed packet and what may follow it. |
| `RequestVerdicts.ReadUnderNumber` | src/codec.rs:798-960 | Under each number on the wire, exactly the requests the protocol assigns to it are read, in the protocol's own numbers. |
| `RequestVerdicts.UnknownOpcodeIsAnError` | src/codec.rs:804-808 | A number that is no opcode is an error that names it, whatever the body. |
| `RequestVerdicts.UnreadOpcodePanics` | src/codec.rs:954-956 | An opcode panics on every body if and only if it is one of the thirteen the proxy reads no request for. |
| `RequestVerdicts.BadPathIsAnError` | src/codec.rs:812-953 | A path that is no UTF-8 is an error, no panic, under every opcode whose request begins with one. |
| `RequestVerdicts.BadOperationRead` | src/codec.rs:71-132 | After any operations of a multi, one with an unknown opcode is an error that names it, and one whose opcode is no operation's a panic. |
| `RequestVerdicts.ShortBodyPanics` | src/codec.rs:735-737 | Fewer than eight bytes panic, and so do 2^31 or more, whose count turns negative. |
| `Requests.ReadBackUnchangedIff` | src/codec.rs:734-960 | A packet is read back as it was if and only if it is well-formed and, if a connect, not read-only. |
| `Requests.EncodingIsInjective` | src/codec.rs:287-299 | Well-formed packets with equal encodings are equal, up to the `read_only` byte of a connect. |
| `Responses.ParseResponseExact` | src/codec.rs:348-447 | A response accepted under an opcode other than multi encodes to the whole of its bytes. |
| `Responses.ParseResponseInverts` | src/codec.rs:348-508 | A response of the variant an opcode names is read back from its encoding, vectors and stat included. |
| `Responses.MultiReplyHoldsErrorsOnly` | src/codec.rs:252-278 | An accepted multi reply holds nothing but the errors of failed operations, and its bytes are their headers and the terminator. |
| `Responses.ErrorsOnlyAccepted` | src/codec.rs:252-278 | Conversely, the headers of any list of failed operations and a terminator are accepted as such a reply. |
| `Responses.ReplyPrintAfterParse` | src/codec.rs:618-717 | For every accepted reply but connect and multi: it is well-formed, its body is its encoding and the ignored bytes, and a successful one has none. |
| `Responses.ReplyParseAfterPrint` | src/codec.rs:307-717 | Every well-formed reply, connect and multi apart, is read back from its encoding under a table that holds its opcode. |
| `Responses.ConnectReplyReencoded` | src/codec.rs:629-635 | What re-encoding an accepted connect reply gives, by the number of bytes after its password, and how many of them are dropped. |
| `Responses.ConnectReplyUnchangedIff` | src/codec.rs:629-635 | An accepted connect reply is re-encoded unchanged if and only if exactly one byte follows its password and it is zero. |
| `Responses.ConnectReplyParseAfterPrint` | src/codec.rs:629-635 | A connect reply is read back from its encoding with a zero `read_only`, its last byte left unread. |
| `Responses.WrittenOnly` | src/codec.rs:451-508 | The responses no decoder produces are written as the records they hold. |
| `ReplyVerdicts.ConnectReplyRead` | src/codec.rs:629-635 | A connect reply of version 0 is accepted under every table and whatever follows its password, nothing included, with `read_only` and the rest given by the number of bytes. |
| `ReplyVerdicts.ControlReplyRead` | src/codec.rs:647-676 | Pings ignore what follows their header, auths panic on it, and replies with the set-watches xid always panic. |
| `ReplyVerdicts.WatchReplyRead` | src/codec.rs:648-655 | A watch event is read and what follows it ignored. |
| `ReplyVerdicts.BadWatchPathIsAnError` | src/codec.rs:648-655 | A watched path that is no UTF-8 is an error, no panic. |
| `ReplyVerdicts.FailedReplyRead` | src/codec.rs:679-684 | A reply that reports an error is accepted under every table, and what follows its header is ignored. |
| `ReplyVerdicts.UnknownReplyIsAnError` | src/codec.rs:708-708 | A successful reply to no request is an error, whatever its body. |
| `ReplyVerdicts.SuccessfulReplyRead` | src/codec.rs:708-717 | A successful reply is read when its response ends the frame, and panics when any byte follows. |
| `ReplyVerdicts.MultiReplyRead` | src/codec.rs:252-278 | The same for a multi reply of errors only. |
| `ReplyVerdicts.SuccessfulResultRead` | src/codec.rs:252-278 | After any errors, the result of an operation that succeeded is never read: an unknown opcode is an error, an error inside is passed on, all else panics. |
| `ReplyVerdicts.BadCreatedPathIsAnError` | src/codec.rs:385-429 | A created path that is no UTF-8 is an error, no panic. |
| `ReplyVerdicts.UnansweredReplyPanics` | src/codec.rs:443-446 | A successful reply to a request the proxy cannot read the answer of, sync included, panics. |
| `ReplyVerdicts.ShortReplyPanics` | src/codec.rs:625-625 | Fewer than four bytes panic, and so do 2^31 or more. |
| `ReplyVerdicts.AnswerIsVariant` | src/codec.rs:348-447 | Which response answers each request number on the wire, in the protocol's own numbers. |
| `ReplyVerdicts.AcceptedExactly` | src/codec.rs:618-717 | Under a table, a body is accepted if and only if it is such a connect reply, the encoding of a well-formed reply and what its class allows after it, or a multi reply of errors only. |
| `Codec.RepoAdmits` | src/codec.rs:569-578 | Of the numbers a head can hold, both codecs accept exactly 0 to 2^20, and refuse the others as too big. |
| `Codec.FrameIsRead` | src/codec.rs:963-984 | A complete frame of at most 2^20 bytes is handed to the decoder whole, its verdict is passed on, and what follows is left. |
| `Codec.RejectedHeadIsAnError` | src/codec.rs:968-970 | Any other length is a decode error, and nothing is consumed. |
| `Codec.PartOfFrameWaits` | src/codec.rs:972-975 | Every proper beginning of a frame gives nothing yet, and leaves the framer where the frame stands. |
| `Codec.ConnectForwardedAs` | src/codec.rs:594-610 | What is sent for a connect by the number of bytes after its password: one byte more when there was none. |
| `Codec.AnswerIsRead` | src/codec.rs:594-717 | Whatever the table held, once a request is sent the successful reply with its xid is read as the response that answers its number. |
| `Codec.RepliesAreFramed` | src/codec.rs:986-995 | Every reply but a multi, connect replies included, is sent as a four-byte length and its bytes up to 2^20 of them, and refused above; a multi panics. |
| `Codec.ConnectReplyIsFramed` | src/codec.rs:986-995 | The first reply of a session is sent behind its length, too. |
| `Codec.FramedConnectReplyRoundTrip` | src/codec.rs:613-635 | Through the framer, a connect reply followed by any bytes is read back with a zero `read_only`, and the bytes stay. |
| `Codec.ClientFrameIsFramed` | src/codec.rs:605-608 | The hand-written frame, whose length comes from `size()`, is the framer's own, which accepts it exactly up to its maximum. |
| `Codec.UnchangedIff` | src/codec.rs:594-610 | An accepted body is forwarded unchanged if and only if it is canonical: nothing ignored, and a connect ends in one zero byte. |
| `Codec.CanonicalExactlyEncodings` | src/codec.rs:594-610 | The canonical bodies are exactly the encodings of well-formed packets, read-only connects apart. |
| `Codec.ReadOnlyConnectIsChanged` | src/proto.rs:314-318 | A concrete accepted connect that is not forwarded unchanged: its `read_only` becomes zero. |
| `Codec.ForwardedSize` | src/codec.rs:605-608 | A forwarded body grows by at most one byte, and only for a connect that ends at its password. |
| `Codec.TableHoldsLatest` | src/codec.rs:596-602 | After any interleaving of encodes and decodes the table holds, for each xid, the opcode of the latest request that named it, and nothing else. |
| `Codec.ReplyReadUnderLatest` | src/codec.rs:679-716 | A successful reply is read under the opcode of the latest earlier request with its xid; with none it is a decode error. |
| `Codec.ReplyReadUnderOwnRequest` | src/codec.rs:618-717 | When the ordinary xids sent before it are distinct, whatever special xids recurred, a successful reply is read under its own request's opcode, however late or out of order it arrives. |
| `Codec.ReplyTransparency` | src/codec.rs:986-995 | A successful reply of at most 2^20 bytes that is no multi is re-encoded to the very frame it came in. |
| `Codec.FramedRequestRoundTrip` | src/codec.rs:963-984 | Through the framer: a well-formed packet is read back from its frame followed by any bytes, which stay, and the framer is at a head again. |
| `Codec.FramedReplyRoundTrip` | src/codec.rs:613-717 | The same for a well-formed reply under a table that holds its opcode. |
| `PacketsInPlace.SerializeMulti` | src/codec.rs:50-58 | The loop appends every header and operation in order, then the terminator. |
| `PacketsInPlace.SizeOfMulti` | src/codec.rs:60-68 | The loop computes the multi's size, which is the number of bytes serialised. |
| `PacketsInPlace.DeserializeMulti` | src/codec.rs:71-91 | The unbounded loop terminates and reads what the multi specification reads, with the same error or panic. |
| `PacketsInPlace.DeserializeRequest` | src/codec.rs:93-132 | Reading an operation in place agrees with the specification, opcode by opcode. |
| `PacketsInPlace.SerializeRequest` | src/codec.rs:134-172 | Writing a request in place, its vectors and a multi's operations by loops, appends exactly its bytes. |
| `PacketsInPlace.SizeOfPacket` | src/codec.rs:296-298 | The size computed for a packet, over a multi's operations by a loop, is that of the specification. |
| `PacketsInPlace.SerializePacket` | src/codec.rs:287-294 | Appends the header, if any, and the request. |
| `PacketsInPlace.SerializeReply` | src/codec.rs:307-314 | Appends the header, if any, and the response. |
| `PacketsInPlace.SerializeResponse` | src/codec.rs:451-508 | Writing a response in place, its vectors by loops, appends exactly its bytes. |
| `PacketsInPlace.DeserializeSingle` | src/codec.rs:348-447 | Reading a response other than a multi in place agrees with the specification, opcode by opcode. |
| `PacketsInPlace.DeserializeResponse` | src/codec.rs:348-447 | The same with the closing assertion that nothing is left, and with multis, whose results are responses again. |
| `PacketsInPlace.DeserializeMultiResponse` | src/codec.rs:252-278 | The unbounded loop over results terminates and reads what the multi reply specification reads, with the same error or panic. |
| `PacketCodecs.ServerPacketCodec.DecodeInner` | src/codec.rs:734-960 | Dispatch on special xids and opcodes in place agrees with the specification, panics and errors included. |
| `PacketCodecs.ServerPacketCodec.DecodeData` | src/codec.rs:812-958 | The same for the data requests. |
| `PacketCodecs.ServerPacketCodec.Decode` | src/codec.rs:963-984 | One call gives the packet of the next complete frame, or waits, or fails, and leaves framer and buffer as specified. |
| `PacketCodecs.ServerPacketCodec.Encode` | src/codec.rs:986-995 | Appends the framed reply, or fails and leaves the destination alone. |
| `PacketCodecs.ClientPacketCodec.Encode` | src/codec.rs:591-611 | Appends the request's frame and records its opcode under its xid. |
| `PacketCodecs.ClientPacketCodec.Decode` | src/codec.rs:613-720 | One call gives the reply of the next complete frame, read under the table as it is then. |
| `Server.EveryUpstreamRunKeeps` | src/server.rs:34-61 | After every event of every run, arrivals, decode calls and partial writes in any order: the frames taken, then the head or refused frame and the unread bytes, are what was received; what was written and is being written is those frames re-encoded; the table is what encoding them records; and a run that ended met a rejected head or a refused frame. |
| `Server.PollKeeps` | src/server.rs:39-58 | One decode call, and the encoding of its packet if it gives one, keeps that accounting, in either framer state and whether it yields, waits, rejects or refuses. |
| `Server.TransparentIff` | src/server.rs:34-61 | After every event of every run, ended or not: what was written and is being written, then the undelivered remainder, is what was received if and only if every frame taken is canonical. |
| `Server.CanonicalStreamIsTransparent` | src/server.rs:34-61 | While a stream of canonical frames, each of at most 2^20 bytes, arrives, after every event the loop runs and nothing is lost, duplicated or reordered; once all has arrived and the loop waits, all of it has been written. |
| `Server.TakenAreParsed` | src/server.rs:39-58 | At every point the frames taken are the first the simple parser finds; once the loop waits or has ended they are all up to the first refused, and it ended exactly when the parser saw a bad head or a frame was refused. |
| `Server.QuietRunsAgree` | src/server.rs:34-61 | However arrivals, decode calls and partial writes fell, a run that waits or has ended took, sent and recorded the same as dealing with the same bytes chunk by chunk. |
| `Server.UpstreamForwardsFrames` | src/server.rs:34-61 | Under any chunking the upstream loop sends, records and ends as forwarding the frames of the simple parser says, up to the first refused one. |
| `Server.ForwardedBound` | src/codec.rs:569-608 | What is sent for a frame of at most 2^20 bytes is at most one byte longer than that, and only for a connect; its length never wraps. |
| `Server.BackendReadsPackets` | src/server.rs:39-58 | In every run, ended or not, a framer with a limit one higher reads back, from all that was sent, exactly the packets of the frames taken, which are in the end the longest accepted prefix. |
| `Server.TableFollowsForwardedRequests` | src/codec.rs:596-602 | In every run, ended or not, the table holds, for each xid, the opcode of the latest forwarded request that named it, and nothing else. |
| `Server.EveryInterleavingKeeps` | src/server.rs:75-138 | After every event of every interleaving of the three loops: the upstream side depends on its own steps alone and keeps the accounting and the transparency condition; and the bytes written to the client, those being written, then those in the channel, are the bytes read from the backend, in order. |
| `Server.EveryRunSettles` | src/server.rs:34-61 | Progress: after any events, the decode calls and writes it names bring the loop to rest, and it has then sent the re-encoding of every frame received up to the first refused. |
| `Server.ClientReceivesEverything` | src/server.rs:75-87 | Delivery: after any events of a connection that lasts, the takes and writes it names hand the client every byte read from the backend, in order, and change nothing else. |
| `Server.NothingAfterTheEnd` | src/server.rs:125-138 | Once the upstream loop has ended, no later event takes, sends, records, reads or writes anything. |
| `Server.UpStreamConnection.ForwardBuffered` | src/server.rs:39-58 | The loop over the buffered frames terminates with the framer, buffer, table, frames taken and bytes sent of the specification, and tells whether it ended. |
| `Server.UpStreamConnection.Pipe` | src/server.rs:34-61 | The loop over all arrivals sends and records exactly what the specification says, also when a frame ends it early. |
| `Server.B2PDownStreamConnection.Pipe` | src/server.rs:100-107 | Every byte read of the backend goes into the channel, in order, as the reads of the connection's step function put it there. |
| `Server.P2CDownStreamConnection.Pipe` | src/server.rs:75-87 | Everything in the channel is written to the client, in order, as the takes and writes of the connection's step function do. |

## Left out

- Sockets, tasks, accept and connect, logging: arrivals of bytes, sends and channel operations are abstract steps, and
  writes succeed. The end of a stream is not a step: it ends the loop without another frame.
- Buffer capacities and `reserve`: they do not affect contents. An allocation of a non-negative length succeeds.
- LengthCodec.LengthDelimitedCodec.DecodeHead: does not model the capacity panic of `src.reserve(n)` for announced
  lengths no allocation can hold (src/length_codec.rs:529), nor the panic of negating an adjustment of `isize::MIN` when
  overflow checks are on (line 508); without them the negation wraps to the value used here.
- LengthCodec.LengthDelimitedCodec.Decode: the same two panics, as it calls `decode_head`.
- LengthCodec.LengthDelimitedCodec.Encode: the same for its `reserve` and its negation (lines 591 and 605).
- Records that are a fixed list of numbers and strings, without loop or branch, are modelled on values only. The model
  does not capture the buffer between two fields of such a record.
- BytesMut.Take: says nothing of the buffer after an error or panic inside a frame, because the decoder drops the frame.
- Values longer than an `i32` length can carry: the round trips assume the encoding is shorter than 2^31 bytes;
  `BufRoundTrip` shows the bound is needed.
- `MultiResponse` as an encoder: serialising or sizing a multi reply is unfinished in the source and panics here.
- `ZkResponse::size`: it only feeds a capacity hint.
- Opcodes that end in `panic!`, `todo!` or `unreachable!` are panics.
- Records no codec reaches (transactions, quorum packets, SASL, ephemerals): they would repeat the same lemmas.
- The builder's setters, the table of error codes, and the commented-out authorisation branch.
- The concurrent map's internals: insert and lookup are atomic.
