# mQUIC verification model

A Dafny model of the parts of mQUIC, a WebTransport camera streamer, that decide what a
byte on the wire means: the HTTP/3 and QPACK layer (h3zero), the capsules and datagrams of a
WebTransport session, the two frame buffers that the camera and the network thread of the
server share, and the two clients that put the pictures together again.

The parsers of h3zero take whatever chunk the network delivers and keep their progress in a
stream state. Each of them is modelled twice: as a machine that takes one octet after the
other (`DataStream`, `UnidirStream`, `Capsule`), and as the chunk-driven code with its buffers,
read counters and stale octets (`DataStreamParser`, `UnidirParser`, `Capsule.Accumulator`),
whose methods are proved to compute the machine. What holds of the machine therefore holds of
the code: cutting the stream differently changes nothing, and a whole stream means what its
frames mean one after the other. The same form is used for the two clients, with one
difference that the proofs bring out: their code gives up octets when a varint is split
between two chunks, so the statements there say exactly which cuts are harmless.

Modules:

- `Bytes`, `Varint`, `Writer`: octets, the integers of section 16 of RFC 9000, cursors that may be NULL.
- `PrefixInt`, `Huffman`, `HuffmanTable`, `Qpack`, `Status`, `StaticTable`, `QpackParser`, `QpackBuilder`, `HeaderText`: field lines (RFC 9204 section 4.5, RFC 7541 sections 5.1 and 5.2).
- `DataStream`, `DataStreamParser`, `DataStreamFrames`, `DataStreamErrors`, `EndToEnd`: request and response streams (RFC 9114 sections 4.1 and 7.1).
- `Settings`, `UnidirStream`, `UnidirParser`: SETTINGS, the control stream, WebTransport streams (RFC 9114 sections 6.2 and 7.2.4).
- `Capsule`, `SessionCapsule`: capsules (RFC 9297 section 3.2), closing and draining a session.
- `PrefixTable`, `PrefixList`, `Datagram`: declared sessions and the datagram round robin (RFC 9297 section 2.1).
- `DoubleBuffer`, `CameraLog`, `TornFrame`, `FrameBuffers`: the two threads of the streamer.
- `Jpeg`, `LengthFraming`, `FrameReceiver`, `WtStream`, `WtFrames`, `WtCuts`, `WtClient`: pictures on a stream, from the server's writes to the clients' files.

Pointers are positions in a buffer or NULL (`Cursor`), allocation succeeds, and the varint
functions of picoquic are the shortest encoding of section 16 of RFC 9000 and its decoder.
Integers are unbounded; where a width matters it is written out (the 63-bit limit of the
prefixed integer decoder, the 64-bit Huffman register as 64 bits, `UINT64_MAX` as the mark of a
value that is not known yet, one-bit settings).

What the proofs found in the code:

- A prefixed integer is decoded up to 63 continuation bits; larger values are encoded but rejected (`PrefixInt.DecodeInvertsEncode`).
- `h3zero_create_error_frame` checks for the status literal too late: with fewer than eight octets of room it reports success with a block that its own parser rejects, unless the status is 404 (`QpackBuilder.ErrorRoundTrip`, an input in `QpackBuilder.FourOctetErrorIsRejected`).
- An indexed range line is passed over, although the same field as a literal sets the range (`StaticTable.RangeEntry`), and a second :status is accepted when the first one was 0 (`Qpack.DuplicateIsRefused`).
- `h3zero_settings_encode` reserves the length octets for the whole room, so it needs more room than the frame it leaves (`Settings.SettingsEncode`).
- The accumulator refuses capsules without a value, the drain capsule of this library among them (`SessionCapsule.DrainIsNotStored`).
- A prefix that is polled with too little room for its identifier loses its ready flag without being asked (`Datagram.InterestKept`, for a whole call `Datagram.CallWithoutRoom`).
- The camera overwrites the frame that is being sent exactly after an odd number of backlog drops since its pop (`DoubleBuffer.OverwritesIffOddDrops`, a run in `TornFrame.DropTearsAFrame`).
- Both clients drop the octets of a length that a chunk does not complete (`LengthFraming.RebuiltIffNoLengthIsSplit`).
- `wt_handle_stream_data` takes a time stamp that does not arrive with its length for payload, and exactly then (`WtCuts.SavedForAnyCut`). This server sends no time stamps: a picture loses its first eight octets if and only if they arrive with the length (`WtCuts.ServerPictureCutAnywhere`).
- It saves the last wanted frame again with every chunk behind the limit (`WtFrames.LastFrameIsSavedAgain`, a run in `WtCuts.OneFrameIsSavedTwice`).

## Model

Sources are paths in the repository.

| member | source | states |
|---|---|---|
| Varint.EncodeParses | src/quic_server.c:59-82 | round trip: whatever follows, an encoding parses to its value and to its own length |
| Varint.EncodeIsMinimal | src/quic_server.c:59-82 | no shorter octet string has the same value |
| Varint.EncodeIsOctets | src/quic_server.c:59-82 | the shifts and masks of the C encoders produce the big-endian definition |
| Varint.QuicEncode | src/quic_server.c:59-82 | writes exactly the encoding for values below 2^62 and nothing for larger ones; the rest of the buffer stays |
| Varint.WtEncode | src/pico_webtransport.c:13-24 | the same octets, or 0 exactly when the room is smaller than the encoding; a larger value is written modulo 2^62 in eight octets |
| Varint.LongFormValue | src/pico_webtransport.c:21-23 | the eight-octet form of any value below 2^62 has that value |
| Varint.Decode | src/h3zero.c:57-77 | length 0 exactly when the buffer is too short, otherwise the value of the first varint |
| Varint.WtDecodeIsParse | src/pico_webtransport.c:25-39 | the straight-line decoder and the loop decoder are the same function of the octets |
| Varint.Examples | src/h3zero.c:57-77 | the examples of appendix A.1 of RFC 9000 decode to the values given there |
| PrefixInt.DecodeInvertsEncode | src/h3zero.c:103-166 | for a prefix disjoint from the mask: decoding the encoding gives the value and stops at its end if the value is below mask + 2^63, and fails otherwise |
| PrefixInt.DecodeBound | src/h3zero.c:132-166 | a decoded value fits in 64 bits and octets are consumed, so the C arithmetic never wraps |
| PrefixInt.GroupAt | src/h3zero.c:103-130 | continuation octet k is digit k of the value to base 128, marked unless it is the last, and there are as many octets as digits |
| PrefixInt.Examples | src/h3zero.c:103-130 | the examples of appendix C.1 of RFC 7541 |
| PrefixInt.IntEncode | src/h3zero.c:103-130 | NULL exactly when the room is shorter than the encoding; otherwise exactly the encoding |
| PrefixInt.IntDecode | src/h3zero.c:132-166 | the loop over continuation octets computes the recursive definition, errors included |
| Huffman.DecodeLoop | src/h3zero.c:1711-1776 | for any table, the loop over the 64-bit register (shift, refill, mask) decodes what a walk over the plain bit string decodes, with the same return value and the same truncation |
| Huffman.RefillRegister | src/h3zero.c:1726-1731 | refilling keeps the bit string that is still to be read; it is empty exactly when the register is |
| Huffman.TakeBit | src/h3zero.c:1740-1742 | the top bit is the next bit, the shifted register holds the rest |
| Huffman.WalkFollows | src/h3zero.c:1734-1758 | reading bits goes to the index that the bits lead to, and remembers whether all of them were ones |
| Huffman.DecodeInvertsEncode | src/h3zero.c:1711-1776 | for any table and any codes that lead to the octets of a string: decoding them, padded with ones, returns the string, or as much of it as fits the output |
| HuffmanTable.CodeLeads | src/h3zero.c:1129-1709 | in the two tables of the file the code that Appendix B of RFC 7541 lists for an octet leads to that octet, for all 256 |
| HuffmanTable.DecodesAppendixB | src/h3zero.c:1129-1776 | decoding the Huffman form of Appendix B of any octet string gives the string, or as much of it as fits the output |
| HuffmanTable.DecodesTruncated | src/h3zero.c:1734-1773 | whole codes and then part of one: the octets of the whole codes, and -1 unless the part is all ones |
| HuffmanTable.StopsAtEos | src/h3zero.c:1741-1750 | whole codes and then EOS: the octets of the codes and 0, whatever follows |
| QpackParser.ParseStatus | src/h3zero.c:366-382 | the number the digits spell, or -1 when an octet is no digit |
| Status.StatusIsNumber | src/h3zero.c:366-382 | the status is the number by its decimal places if all octets are digits, otherwise -1 |
| Status.StatusOfDecimal | src/h3zero.c:366-382 | the status of the decimal numeral of any number is the number |
| QpackParser.DecodeLiteral | src/h3zero.c:384-404 | a literal is its octets or their Huffman decoding into at most 256 octets |
| QpackParser.ParseHeaderValue | src/h3zero.c:406-506 | a value string sets the field of its header or fails, by the same cases: missing octets, duplicates, unknown values |
| QpackParser.ParseFieldLine | src/h3zero.c:559-664 | one field line of any of the three forms: position and parts behind it, or NULL |
| QpackParser.ParseHeaderFrame | src/h3zero.c:540-667 | the loop over a header block computes ParseBlock, errors included |
| Qpack.ParseLineAdvances | src/h3zero.c:559-664 | a field line that is accepted takes at least one octet and not more than there are |
| Qpack.ParseReferenceLine | src/h3zero.c:627-641 | a literal with a name reference is read back as that name and value |
| Qpack.ParseNamedLine | src/h3zero.c:642-659 | a literal with a literal name is read back as that name and value |
| Qpack.HuffmanValueMeansTheSame | src/h3zero.c:384-404 | a Huffman-coded value parses like its first 256 octets raw, so the same as the value unless it is longer |
| Qpack.HuffmanNameMeansTheSame | src/h3zero.c:508-538 | a Huffman-coded name means what its first 256 octets mean |
| Qpack.SameReference | src/h3zero.c:619-641 | the never-indexed bit of a line with a name reference changes nothing |
| Qpack.SameName | src/h3zero.c:642-659 | nor does that of a line with a literal name |
| Qpack.DynamicIsRefused | src/h3zero.c:559-664 | every line that refers to a dynamic table is refused |
| Qpack.DuplicateIsRefused | src/h3zero.c:406-506 | a second value for the same field is refused, except for a status whose first value was 0 |
| StaticTable.HeaderOfEntry | src/h3zero.c:172-272 | for all 99 entries, the header that the parser connects with an index is that of the name at the index |
| StaticTable.IndexMeansText | src/h3zero.c:559-618 | an index sets what its name and value set as text; the exception is the range entry, which an index passes over |
| StaticTable.FormsMeanTheSame | src/h3zero.c:559-664 | an entry of the table means the same as index, as name reference with its value, and as literal name and value |
| StaticTable.RangeEntry | src/h3zero.c:559-641 | the exception: index 55 changes nothing, its text sets the range or is a duplicate |
| StaticTable.MethodIffText | src/h3zero.c:334-347 | a value is a known method if and only if it is the text of the method |
| StaticTable.TypeIffText | src/h3zero.c:349-364 | a value is a known content type if and only if it is a text of it; plain text has two |
| QpackBuilder.ParseInvertsBlock | src/h3zero.c:540-667 | for any list of legal field lines, parsing what the encoders write gives what the lines mean |
| HeaderText.ParseGivesText | src/h3zero.c:540-667 | parsing what the encoders write gives the meaning of the names and values alone, whatever form the lines have |
| HeaderText.RequestText | src/h3zero.c:900-929 | as text the request block is GET, https, the path, then authority, range and user agent if given |
| HeaderText.PostText | src/h3zero.c:859-891 | as text the POST block is the same with POST and the content type at the end |
| HeaderText.ConnectText | src/h3zero.c:824-857 | as text the CONNECT block is CONNECT, https, the path, then protocol, authority, origin and user agent if given |
| HeaderText.ResponseText | src/h3zero.c:938-963 | as text the response block is status 200, then server and content type if given |
| HeaderText.ErrorTextMeans | src/h3zero.c:971-1003 | as text the error block with room for its status is the three digits, the server if given, and for 405 the allowed methods |
| QpackBuilder.CodeEncode | src/h3zero.c:704-718 | writes exactly the integer with its prefix bits, or NULL |
| QpackBuilder.LiteralPlusRefEncode | src/h3zero.c:720-736 | writes exactly the name reference, the length and the value, or NULL |
| QpackBuilder.LiteralPlusNameEncode | src/h3zero.c:780-797 | writes exactly the name and the value with their lengths, or NULL |
| QpackBuilder.FindContentType | src/h3zero.c:799-822 | the first static entry with this content type, none when there is none |
| QpackBuilder.CreateRequestHeaderFrame | src/h3zero.c:900-929 | the block of the request lines when it fits, NULL when it does not |
| QpackBuilder.CreatePostHeaderFrame | src/h3zero.c:859-891 | the block of the POST lines when it fits; NULL when not or when the content type is in no entry |
| QpackBuilder.CreateConnectHeaderFrame | src/h3zero.c:824-857 | the block of the CONNECT lines, with :protocol as a literal name, when it fits |
| QpackBuilder.CreateResponseHeaderFrame | src/h3zero.c:938-963 | the block of the 200 response lines when it fits |
| QpackBuilder.CreateErrorFrame | src/h3zero.c:971-1003 | exactly the octets of the error block for this room, the dropped status literal included |
| QpackBuilder.RequestRoundTrip | src/h3zero.c:900-929 | parsing a request block gives GET, the path and the range; authority and user agent are ignored |
| QpackBuilder.PostRoundTrip | src/h3zero.c:859-891 | parsing a POST block gives POST, path, range and content type |
| QpackBuilder.ConnectRoundTrip | src/h3zero.c:824-857 | parsing a CONNECT block gives CONNECT, path and protocol; authority, origin and user agent are ignored |
| QpackBuilder.ResponseRoundTrip | src/h3zero.c:938-963 | parsing a response block gives status 200 and the content type |
| QpackBuilder.ErrorRoundTrip | src/h3zero.c:971-1003 | parsing an error block gives 100 a + 10 b + c for its digits a, b, c (-1 when one is no digit) if and only if it is 404 or there were eight octets of room; otherwise the parser rejects what the builder returned |
| QpackBuilder.FourOctetErrorIsRejected | src/h3zero.c:971-1003 | inputs that show it: in four octets of room every status but 404 and 405 gives a block that the parser rejects |
| DataStream.FeedAppend | src/h3zero_common.c:646-815 | feeding a then b is feeding a ++ b: live state, delivered data, error code |
| DataStream.ChunkingNeverMatters | src/h3zero_common.c:1340-1384 | the same for any list of chunks |
| DataStream.FeedWebTransport | src/h3zero_common.c:747-750 | in a WebTransport stream every octet is handed on and the state stays |
| DataStreamParser.StreamState.ReadFrameHeader | src/h3zero_common.c:657-742 | however much of a frame header is there, the octets taken lead the machine from the old to the new live state, or to the same error; stale octets behind frame_header_read have no effect |
| DataStreamParser.StreamState.AcceptFrame | src/h3zero_common.c:689-740 | which frames may come now, with the same error codes |
| DataStreamParser.StreamState.LoadHeaders | src/h3zero_common.c:756-770 | HEADERS octets are stored behind those that are there |
| DataStreamParser.StreamState.FinishHeaders | src/h3zero_common.c:772-791 | a complete HEADERS frame becomes the header, a later one the trailer, or an error |
| DataStreamParser.StreamState.ReadPayload | src/h3zero_common.c:744-811 | the payload part of a call: data handed out and octets taken lead the machine on |
| DataStreamParser.StreamState.ParseDataStream | src/h3zero_common.c:646-815 | one call leads the machine from the old to the new live state, with the data in between, or to the same error; and octets are used or a parsed header ends |
| DataStreamParser.StreamState.Drive | src/h3zero_common.c:1241-1302 | the caller loop ends, by (octets left, frame_header_parsed), and computes Feed on the chunk |
| DataStreamParser.StreamState.DriveAll | src/h3zero_common.c:1340-1384 | chunk after chunk computes Feed on the whole stream |
| DataStreamFrames.SplitIsExact | src/h3zero_common.c:657-742 | the one-shot parser splits a string into complete frames and a rest without losing an octet |
| DataStreamFrames.FrameThrough | src/h3zero_common.c:657-811 | a whole frame takes the machine where the one-shot parser goes |
| DataStreamFrames.MachineRefinesBatch | src/h3zero_common.c:646-815 | on every octet string the machine delivers the data and ends with the error of the one-shot parser |
| DataStreamFrames.AcceptedIffLegal | src/h3zero_common.c:699-740 | frames are accepted exactly when they are HEADERS, DATA, at most one trailer HEADERS behind DATA, unknown frames anywhere, and header blocks parse; the data delivered is the DATA payloads in order |
| DataStreamFrames.WebTransportTail | src/h3zero_common.c:717-731 | behind a leading 0x41 header every octet is delivered unchanged |
| DataStreamErrors.RefusedAtHeader | src/h3zero_common.c:689-740 | behind legal frames, a frame that may not come ends the stream at the last octet of its header, whatever follows, with 0x0101 for CANCEL_PUSH, GOAWAY and MAX_PUSH_ID, 0x0105 for SETTINGS, for frames out of order and for a late WebTransport header, 0x0102 for HEADERS above 0x10000 octets; the data before it was delivered |
| DataStreamErrors.RefusedBlock | src/h3zero_common.c:772-791 | a HEADERS frame whose block does not parse ends the stream with 0x0106, whatever follows |
| DataStreamErrors.WebTransportStart | src/h3zero_common.c:717-731 | a stream that starts with 0x41 and a session, in any chunks, is bound to that session, and all octets behind are data |
| EndToEnd.BlockEndToEnd | src/h3zero_common.c:756-792 | a header block of at most 0x10000 octets in a HEADERS frame, in any chunks, leaves header_found and the fields, with no error |
| EndToEnd.RequestEndToEnd | src/h3zero.c:900-929 | the fields of a request arrive at the other end, in any chunks |
| EndToEnd.PostEndToEnd | src/h3zero.c:859-891 | so do those of a POST request |
| EndToEnd.ConnectEndToEnd | src/h3zero.c:824-857 | so do those of a CONNECT request |
| EndToEnd.ResponseEndToEnd | src/h3zero.c:938-963 | so do status and content type of a response |
| EndToEnd.ErrorEndToEnd | src/h3zero.c:971-1003 | so does the number of the three digits of an error response, when it is 404 or the builder had eight octets of room |
| EndToEnd.ReservedLengthIsVarint | src/h3zero_common.c:1127-1130 | the two-octet length that is filled in behind a header block has that value |
| Settings.ComponentEncode | src/h3zero_common.c:1923-1931 | a component is written unless it has its default value |
| Settings.SettingsEncode | src/h3zero_common.c:1933-1964 | NULL exactly when the reserved form does not fit; otherwise type, length and components, the length field equal to the octets behind it after the move |
| Settings.ComponentsDecode | src/h3zero_common.c:1966-1995 | NULL exactly when the octets do not end with a component; otherwise the settings they carry |
| Settings.SettingsDecode | src/h3zero_common.c:1997-2018 | the frame at the head of the octets, or NULL |
| Settings.ComponentsRoundTrip | src/h3zero_common.c:1966-1995 | decoding the components of any settings gives them back |
| Settings.DecodesPairs | src/h3zero_common.c:1966-1995 | any components, in any encoding, order and number: each of the five settings has the value of its last component, the two flags the low bit, and no other key changes anything |
| Settings.UnknownKeyIsIgnored | src/h3zero_common.c:1966-1995 | a component with another key may stand anywhere |
| Settings.DefaultFrame | src/h3zero.c:1106-1113 | the frame that is sent by default decodes to no dynamic table, no blocked streams, CONNECT and datagrams; its last key is unknown to the decoder |
| Settings.FrameRoundTrip | src/h3zero_common.c:1997-2018 | decoding the frame gives the settings back and takes exactly its octets, whatever follows |
| Settings.FrameExample | src/h3zero_common.c:1933-1964 | the octets of a frame with every component, and of one with none |
| UnidirStream.FeedAppend | src/h3zero_common.c:437-511 | feeding a then b is feeding a ++ b: state, settings, data, error |
| UnidirStream.ChunkingNeverMatters | src/h3zero_common.c:572-613 | the same for any list of chunks |
| UnidirStream.TakeKeepsInv | src/h3zero_common.c:450-470 | every octet keeps: the ignore flag is set only after SETTINGS were received and never cleared, so a SETTINGS frame is never skipped; a SETTINGS frame in progress means none was received; buffer and counters agree |
| UnidirStream.FeedKeepsInv | src/h3zero_common.c:437-511 | so does every run, and received settings stay received |
| UnidirStream.EveryRunKeepsInv | src/h3zero_common.c:437-511 | every run from the start of a stream, in any chunks, keeps the invariant |
| UnidirStream.FrameThrough | src/h3zero_common.c:437-511 | a whole frame has exactly the effect of FrameEffect, whatever follows it |
| UnidirStream.FramesThrough | src/h3zero_common.c:437-511 | a list of frames has their effects one after the other |
| UnidirStream.AcceptedIffLegal | src/h3zero_common.c:450-505 | a control stream is accepted exactly when SETTINGS comes first, not empty and decodable, and no frame behind it is SETTINGS or belongs to another stream kind |
| UnidirStream.FirstFrame | src/h3zero_common.c:452-505 | the first frame: 0x010A unless it is SETTINGS, 0x0109 if it is empty or does not decode, 0x0102 above 0x10000 octets, otherwise its settings |
| UnidirStream.LaterFrame | src/h3zero_common.c:447-470 | behind SETTINGS the types 0x0, 0x1, 0x5 and 0x41 end with 0x0102 and 0x4 with 0x0105; every other type is passed over and changes nothing |
| UnidirStream.ControlStreamError | src/h3zero_common.c:437-511 | in any chunks, the first frame that is not legal decides the error, whatever follows it |
| UnidirStream.ControlStream | src/h3zero_common.c:437-511 | in any chunks: accepted exactly when legal, and the settings are those of the one SETTINGS frame |
| UnidirStream.WebTransportStream | src/h3zero_common.c:513-540 | type 0x54 and a declared session, in any chunks: every later octet is the application's; an undeclared session is refused |
| UnidirStream.FeedDropped | src/h3zero_common.c:591-611 | push, QPACK and unknown streams swallow everything |
| UnidirStream.OtherStream | src/h3zero_common.c:572-613 | a stream of any type but 0x0 and 0x54, in any chunks, gives nothing to anyone |
| UnidirParser.StreamState.VarintFromStream | src/h3zero.c:1036-1062 | a varint over several chunks: all of the chunk is taken while it is incomplete, then its value acts on the rest |
| UnidirParser.StreamState.AcceptType | src/h3zero_common.c:444-470 | the type check with its three errors and the ignore flag |
| UnidirParser.StreamState.LoadFrame | src/h3zero_common.c:366-393 | the octets the frame still takes are stored, or a frame above 0x10000 is refused |
| UnidirParser.StreamState.SkipFrame | src/h3zero_common.c:395-407 | the octets the frame still takes are passed over |
| UnidirParser.StreamState.FinishFrame | src/h3zero_common.c:493-507 | a complete SETTINGS frame changes the settings or is refused; the state is reset |
| UnidirParser.StreamState.ParseControlStream | src/h3zero_common.c:437-511 | the loop computes the machine on the chunk, settings and error included |
| UnidirParser.StreamState.ParseControlStreamId | src/h3zero_common.c:513-540 | binds the stream to a declared session or returns NULL |
| UnidirParser.StreamState.ParseRemoteUnidirStream | src/h3zero_common.c:572-613 | one call computes the machine on the chunk; what is behind the returned cursor is the data of the application |
| Capsule.FeedAppend | src/h3zero_common.c:2033-2111 | accumulating a then b is accumulating a ++ b |
| Capsule.ChunkingNeverMatters | src/h3zero_common.c:2033-2111 | the same for any list of chunks |
| Capsule.CapsuleIsStored | src/h3zero_common.c:2033-2111 | from a released accumulator a capsule with a value, in any chunks, is stored with its type, length and value at its last octet, not before and not later |
| Capsule.EmptyCapsuleIsRefused | src/h3zero_common.c:2081-2096 | a capsule without a value ends in NULL |
| Capsule.Accumulator.ReadHeader | src/h3zero_common.c:2043-2080 | type and length over several chunks |
| Capsule.Accumulator.StoreValue | src/h3zero_common.c:2081-2108 | value octets go behind those stored, no more than the capsule takes |
| Capsule.Accumulator.Accumulate | src/h3zero_common.c:2033-2111 | one call computes the machine: more, stored with the cursor behind the last octet, or NULL |
| Capsule.Accumulator.Release | src/h3zero_common.c:2025-2031 | nothing is left of an earlier capsule |
| SessionCapsule.SendCloseSession | src/pico_webtransport.c:144-164 | fails exactly when the capsule does not fit 1024 octets; otherwise sends the close capsule of code and message |
| SessionCapsule.SendDrainSession | src/pico_webtransport.c:166-174 | sends the drain capsule |
| SessionCapsule.ReceiveCapsule | src/pico_webtransport.c:177-210 | -1 exactly when type, length or value is incomplete or a close has no code; otherwise code and message |
| SessionCapsule.CloseRoundTrip | src/pico_webtransport.c:144-210 | code and message of a close capsule come back through picowt_receive_capsule and, in any chunks, through the accumulator |
| SessionCapsule.MeaningOfCapsule | src/pico_webtransport.c:177-210 | any capsule, whatever encodings its type and length have: a close gives its first four octets as code in network order and the rest as message, a shorter close is an error, every other type is passed over |
| SessionCapsule.TruncatedIsBad | src/pico_webtransport.c:177-210 | a capsule of which octets are missing is an error |
| SessionCapsule.WireExamples | src/pico_webtransport.c:144-174 | the octets of a close with code 0x01020304 and message hi, and of a drain |
| SessionCapsule.DrainIsNotStored | src/pico_webtransport.c:166-174 | the drain capsule is understood by picowt_receive_capsule and refused by the accumulator |
| PrefixTable.FindAsMap | src/h3zero_common.c:171-183 | finding in the list is lookup in the map |
| PrefixTable.DeclaredAsMap | src/h3zero_common.c:185-214 | declaring adds one binding at the end or changes nothing |
| PrefixTable.DeletedAsMap | src/h3zero_common.c:216-251 | deleting removes exactly one binding |
| PrefixTable.DeletedIsOthers | src/h3zero_common.c:216-251 | deleting leaves the entries of the other prefixes in their order |
| PrefixTable.DeregisteredIs | src/h3zero_common.c:232-263 | the callbacks told of a deletion are those of exactly the entries with a callback and a known stream, each once, in the order of the list |
| PrefixTable.RunRefines | src/h3zero_common.c:171-251 | over any declarations and deletions the prefixes stay distinct and the list stands for the map |
| PrefixList.Context.FindStreamPrefix | src/h3zero_common.c:171-183 | the node of the prefix, NULL exactly when there is none |
| PrefixList.Context.DeclareStreamPrefix | src/h3zero_common.c:185-214 | -1 and no change for a known prefix, otherwise a new last entry; links stay inverse, ends stay right |
| PrefixList.Context.DeleteStreamPrefix | src/h3zero_common.c:216-251 | the entry is gone, the others and their order stay; links stay inverse, ends stay right; its callback is called if its stream is known |
| PrefixList.Context.Unlink | src/h3zero_common.c:219-230 | taking out one node, first, last or in between, keeps both chains |
| PrefixList.Context.DeleteAllStreamPrefixes | src/h3zero_common.c:253-263 | ends, with an empty list; the callbacks of entries whose stream is known are called once each, in the order of the list |
| PrefixList.Context.PollInContext | src/h3zero_common.c:1692-1726 | one poll changes one flag and, if it sends, the last sender |
| PrefixList.Context.PrepareDatagram | src/h3zero_common.c:1728-1774 | a call computes Call on the entries, and the value for picoquic_mark_datagram_ready says whether any prefix is still ready |
| Datagram.ScanFacts | src/h3zero_common.c:1737-1761 | a scan polls in order up to the first sender and changes nothing else |
| Datagram.AskedAtMostOnce | src/h3zero_common.c:1728-1774 | a call asks no application twice, and the sender is the last one asked |
| Datagram.CallFacts | src/h3zero_common.c:1728-1774 | a call polls by turns, counted from behind the last sender, up to the first that sends; if none sends all were polled |
| Datagram.CallAnswers | src/h3zero_common.c:1692-1774 | in terms of the answers: asked are exactly the ready prefixes with a callback and room whose turn came; each is ready afterwards if and only if its answer said so or it marked itself; the sender is the one whose answer has octets; a prefix that had its turn without room is not ready; all others are as before |
| Datagram.MoreKeepsActive | src/h3zero_common.c:1717-1772 | if an application that was asked has more, the value for picoquic_mark_datagram_ready is true |
| Datagram.OneRound | src/h3zero_common.c:1728-1774 | a waiting prefix sends in this call, or stays ready and moves forward |
| Datagram.Fair | src/h3zero_common.c:1728-1774 | with room, a ready and willing prefix among N is served within N calls, whatever the others do |
| Datagram.ServedOnceARound | src/h3zero_common.c:1728-1774 | a prefix whose application always has more is served once in every N calls, over any number of rounds |
| Datagram.CallWithoutRoom | src/h3zero_common.c:1692-1774 | a call without room for any ready prefix asks nobody, sends nothing and forgets every interest; only prefixes without a callback stay ready |
| Datagram.DatagramRoundTrip | src/h3zero_common.c:1622-1690 | an application that keeps to its room gets a buffer, and its datagram is routed back to its prefix if and only if that is a client-initiated bidirectional stream |
| DoubleBuffer.InitialInv | src/quic_server.c:502-505 | the start satisfies the invariant |
| DoubleBuffer.StepKeepsInv | src/quic_server.c:198-361 | every step of either thread keeps the invariant |
| DoubleBuffer.RunKeepsInv | src/quic_server.c:198-361 | so does every interleaving |
| DoubleBuffer.OverwritesIffOddDrops | src/quic_server.c:198-351 | in every interleaving, while a frame is captured and another is sent: the camera writes the buffer that is being sent if and only if an odd number of frames was dropped since the pop |
| DoubleBuffer.NoTornFrameWithoutDrop | src/quic_server.c:225-267 | in particular, if the camera writes the buffer that is being sent, a frame was dropped since that one was popped |
| DoubleBuffer.SentFramesAreCaptured | src/quic_server.c:325-351 | a send without a drop since its pop gave exactly the captured octets, a prefix of them if the streamer was stopped |
| CameraLog.PublishedArePictures | src/quic_server.c:249-264 | in every interleaving the frames published are the pictures read off the camera's actions alone: the first size octets of what was written, nothing for a size of 0 or less or above the buffer |
| CameraLog.SentArePictures | src/quic_server.c:325-351 | a send without a drop since its pop gave exactly such a picture, a prefix of it if the streamer was stopped |
| DoubleBuffer.WritesAreFull | src/quic_server.c:338-351 | a write of payload takes 16 KiB, or what is left if it is less |
| DoubleBuffer.SendStaysInBounds | src/quic_server.c:338-351 | the send loop can always go on or end and never reads behind the buffer |
| DoubleBuffer.QueueIsSafe | src/quic_server.c:198-267 | the indices are the two buffers, the one being filled holds no frame, popped frames are a strictly increasing choice of the published ones, and each published frame is popped, dropped or waiting |
| DoubleBuffer.DropsArePatient | src/quic_server.c:230-241 | a frame is dropped only after it has waited more than 200 ms |
| DoubleBuffer.RunningIff | src/quic_server.c:325-361 | in every interleaving the streamer runs exactly as long as it was not told to stop and no write failed |
| TornFrame.DropTearsAFrame | src/quic_server.c:230-267 | with buffers of any size and any captures that fill them there is a run in which, after a drop, another capture is sent in place of the popped frame |
| FrameBuffers.FrameBuffers.PopReadyFrame | src/quic_server.c:198-215 | pops exactly when a frame is ready and empties its buffer |
| FrameBuffers.FrameBuffers.DropBacklog | src/quic_server.c:236-239 | empties the ready buffer |
| FrameBuffers.FrameBuffers.PublishFrame | src/quic_server.c:255-264 | hands a buffer over and swaps the indices |
| FrameBuffers.FrameBuffers.CheckBacklog | src/quic_server.c:226-248 | captures exactly when no frame waits or the backlog is too old, which it then drops |
| Jpeg.ExtractAppend | client/wt_client.c:167-189 | extracting, appending and extracting again gives the pictures and the residue of extracting once |
| Jpeg.ChunkingNeverMatters | client/wt_client.c:339-357 | the same for any list of chunks |
| Jpeg.FirstPicture | client/wt_client.c:173-187 | no picture is taken exactly when there is none; otherwise the leftmost SOI up to its first EOI is, and extraction goes on behind it |
| Jpeg.AllPictures | client/wt_client.c:167-189 | every frame runs from an SOI to the first EOI behind it; the residue holds no complete picture |
| Jpeg.ResidueIs | client/wt_client.c:167-189 | without a complete picture everything from the first SOI on stays, or the last 65536 octets if there is none |
| Jpeg.Example | client/wt_client.c:167-189 | an example with octets in front of and behind a picture |
| Jpeg.ExtractJpegs | client/wt_client.c:167-189 | the in-place moves and the cut to 64 KiB compute Extract |
| LengthFraming.SendFrame | src/quic_server.c:325-351 | whatever writes fail and whenever the streamer is stopped, the writes of one frame are its length and a prefix of its octets in pieces of 16 KiB, the last one shorter; all of them unless a write failed or the streamer was found stopped |
| LengthFraming.TakeAppend | client/client_main.c:90-145 | two chunks act like one unless the first one ends inside a length |
| LengthFraming.CutDrops | client/client_main.c:95-99 | octets are dropped exactly when a chunk ends inside a length |
| LengthFraming.Accounted | client/client_main.c:90-145 | frames, held octets and dropped octets never exceed what came in |
| LengthFraming.RebuiltIffNoLengthIsSplit | client/client_main.c:90-145 | for every list of non-empty frames and every cut into chunks: the client rebuilds exactly these frames if and only if no chunk ends inside a length |
| LengthFraming.TakeWireWithEmpty | client/client_main.c:90-145 | frames of length zero are passed over |
| FrameReceiver.AppContext.OnStreamData | client/client_main.c:90-145 | one call computes Take on the chunk; frames are counted, and the client is stopped exactly when a frame was completed and the limit is reached |
| WtFrames.SendStreamHeader | src/quic_server.c:165-172 | the header is type 0x54 and the session |
| WtStream.HandleAppend | client/wt_client.c:220-360 | a chunk that is used as it was meant and the next one act like one chunk |
| WtFrames.TakeFrame | client/wt_client.c:257-337 | a frame with length and time stamp is saved as its payload |
| WtFrames.CutIsClean | client/wt_client.c:257-308 | a chunk of frames is used as it was meant exactly when it does not end inside a length and time stamp |
| WtFrames.RebuiltWhenVarintsArriveTogether | client/wt_client.c:220-360 | every octet is used as it was meant exactly when no chunk ends inside the stream header or inside a length and its time stamp; then the payloads are saved in order and nothing else |
| WtFrames.NothingBeforeTheSession | client/wt_client.c:228-255 | nothing is saved before a chunk starts with the type and the session of the client |
| WtFrames.ForeignHeader | client/wt_client.c:228-255 | a first chunk with the header of another type or session returns -1 and leaves nothing |
| WtFrames.PicturesWithoutLengths | client/wt_client.c:264-289 | on a stream whose chunks do not start with what could be a length (0 or above 32 MiB), or after a length without payload: the frames saved are the pictures of the whole stream, in order, however it is cut; the client is told to stop exactly when they reach the limit |
| WtFrames.UsedUpLength | client/wt_client.c:309-316 | a length that its own time stamp uses up: the octets behind the stamp are searched for pictures |
| WtFrames.LastFrameStops | client/wt_client.c:311-337 | the last wanted frame is saved, the client is told to stop, the octets behind it are left |
| WtFrames.LastFrameIsSavedAgain | client/wt_client.c:311-337 | after the limit every later chunk saves the last frame again |
| WtCuts.SavedForAnyCut | client/wt_client.c:220-360 | for any frames, any frame limit and any chunks none of which ends inside the stream header or the length of a wanted frame: each wanted frame is saved, with its time stamp in front if a chunk ended between its length and the end of the stamp and without it otherwise; so the payloads are saved if and only if no chunk ends there; behind the limit the last frame is saved again and nothing else |
| WtCuts.SavedAsWanted | client/wt_client.c:293-308 | the frames saved are the payloads if and only if no wanted frame has its stamp cut off |
| WtCuts.WantedAreFirst | client/wt_client.c:327-331 | the wanted frames are the first ones, as many as the limit says |
| WtCuts.FrameCutAnywhere | client/wt_client.c:257-337 | one frame cut at any octet behind its length: saved as its payload if and only if the stamp arrived with the length, otherwise with the stamp in front; the stream stays in step |
| WtCuts.ServerFrameCutAnywhere | client/wt_client.c:293-308 | a frame as this server sends it, without a stamp, cut at any octet: the octets that parse as a stamp are lost if and only if all of them arrive with the length |
| WtCuts.ServerPictureCutAnywhere | client/wt_client.c:293-308 | a picture of this server, cut at any octet: it is saved whole if and only if fewer than eight of its octets arrive with the length, otherwise without the first eight |
| WtCuts.OneFrameIsSavedTwice | client/wt_client.c:327-331 | a run: a limit of one frame, one frame, one more chunk, and the frame is saved twice |
| WtCuts.LengthCutCanBeHarmless | client/wt_client.c:261-265 | a chunk can end inside a length, whose octets are then lost, and the frame may still be saved as it was sent |
| WtClient.StreamContext.OpenStream | client/wt_client.c:228-255 | both varints of the header in one chunk, or nothing is used |
| WtClient.StreamContext.DetectLength | client/wt_client.c:257-308 | a length with the time stamp behind it, a fallback for 0 and above 32 MiB; the buffer has room for the payload |
| WtClient.StreamContext.ReceivePayload | client/wt_client.c:311-337 | payload octets and complete frames; keeps got <= payload_need <= cap |
| WtClient.StreamContext.SearchPictures | client/wt_client.c:339-357 | what stayed and the chunk, searched for pictures |
| WtClient.StreamContext.HandleStreamData | client/wt_client.c:220-360 | one call computes Handle on the chunk: state, saved frames, return value, stop |

## Left out

- Remote bidirectional streams: the test at src/h3zero_common.c:557 looks at the frame type, so a split 0x41 varint is rejected.
- Capsule.Accumulator.Accumulate: is for an accumulator that holds no stored capsule; the reset at src/h3zero_common.c:2035-2042 leaves the length and the octet count of the old value in place, so a new capsule needs a release first.
- Static table index 99: the guards at src/h3zero.c:566 and src/h3zero.c:633 let it through to the octets behind the table; ParseBlock says OffTable there and nothing about the fields.
- The fields of a header block that is rejected, and what is in `settings` of a connection that was closed besides the values decoded so far.
- Strictness of RFC 7541: the decoder takes EOS for the end of a string (HuffmanTable.StopsAtEos) and accepts padding of more than seven bits and output that is cut at the room; the model does what it does.
- Overflow of the status number: a value of more than nine digits can exceed an int of C; the model goes on counting.
- Blocks written by qpack_min_status_200 and client/h3zero_qpack.c: their first octets are rejected by this parser.
- DataStreamParser.StreamState.Drive: does not model what the callbacks do with the data (path lookup, files, flow control), only the loop around the parser.
- PrefixList.Context.DeleteStreamPrefix: says which callback is called, but not what a callback does that declares or deletes prefixes itself.
- PrefixList.Context.DeleteAllStreamPrefixes: the same; its loop is written for callbacks that delete prefixes.
- PrefixList.Context.PollInContext: does not model the buffer of picoquic; what is put in it is in Datagram.DatagramRoundTrip, and an answer above the room counts as sent, as in the code.
- PrefixList.Context.PrepareDatagram: the same.
- Allocation failures everywhere; realloc and malloc succeed.
- DoubleBuffer.StepKeepsInv: does not split the copy of one 16 KiB chunk into the stream; lock sections, clock readings, captures and chunk writes are atomic steps, and a capture may write any octets any number of times between its begin and its end.
- Which path a frame is sent on, stream creation per path, keep-alive writes, FIN, pacing and the frame limit of the server.
- The list of streams of the WebTransport client: one stream is modelled, with the count of saved frames.
- WtFrames.RebuiltWhenVarintsArriveTogether: is about octets used as they were meant; which frames are saved, also with stamps cut off and behind the limit, is in WtCuts.SavedForAnyCut.
- WtCuts.SavedForAnyCut: does not say what is saved when a chunk ends inside the header or a length. Octets are lost then (WtFrames.CutIsClean), and what follows is read as whatever it looks like, which depends on the octets and not on the ends of chunks alone (WtCuts.LengthCutCanBeHarmless).
- Path selection (src/path_algo.c), the HTTP server (request handling, file serving, HTTP/0.9), TLS, logging, camera and command line.
- picoquic, its stream tree and its varint functions: library code that is not part of this model beyond the encoding it is taken to implement.
