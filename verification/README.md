# Protocol code of the Stability Link app: a verified model

The app itself is view controllers. What has to be right underneath is protocol code it carries along in its `Pods`
tree: the nanopb codec for Protocol Buffers, and the BoringSSL library for TLS and DTLS. This project models the parts
of the two where a mistake would be hardest to see, and proves what they are for.

Each part comes in two forms. Functions on values say what the code computes, and the laws are proved of them. Where the
C and C++ code works in place - streams with a cursor, a bitmap, a ring of slots, a write buffer, a loop - a class or a
loop does the same steps and is proved to compute those functions.

## The nanopb codec

- `Schema`, `Encoding`, `Decoding`: field tables, messages as one slot a row, what `pb_encode` writes and what `pb_decode`
  makes of any bytes, errors included. Submessages nest to any depth.
- `Varint`: the integer codecs and their round trips. `Bits`: C's bitwise operators on numbers.
- `WireFormat`, `Varint32`: what bytes a varint, a key and a skipped field are, independently of readers and writers, and what
  both readers make of any bytes. `DecodingLaws`, `FieldLaws`: what becomes of numbers, blobs, unions, arrays, two occurrences of
  a field, and that nothing is stored past its room. `Omission`, `Encodable`: what the encoder leaves out, and what it refuses.
- `UnknownFields`: whatever a writer with other fields puts in is passed over.
- `Pieces`, `Merging`, `RoundTrip`, `Concat`: the laws. Encoding and decoding is the identity; decoding on top of an
  existing message is a merge; one call on a concatenation is two calls; a field with an unknown tag changes nothing;
  delimited messages come off a stream one at a time.
- `InputStream`, `FieldIter`, `RequiredBits`, `Decoder`: the decoder as the C code does it, over a cursor with substreams,
  the cyclic field iterator and the two-word bitmap of required fields. `Shortfall`,
  `DelimitedReading`: where it leaves the stream if it fails, and what is read then.
- `OutputStream`, `Encoder`: the encoder as the C code does it, in two passes over each submessage.

The constants are those of the build the app uses: `pb_size_t` has 32 bits, the header of a bytes field has 4, at most 64
required fields are tracked. A few edge cases that the laws run into:

- A message whose encoding has some inner length of 2^32 or more is written, and cannot be read back: the reader takes
  32-bit lengths. `MessageRoundTrip` says that this is the only such case, and `LongMessageLost` has a message of the kind.
- A packed array that is given up with bytes unread is not closed: its bytes are off the count of what is left and have not
  been passed over. Every stream around it then ends that much too early, so that after a delimited message that fails
  this way the next one is looked for inside it. `Decoder.DecodeDelimited` says that this is the only way to lose the place,
  and by how much; `DelimitedReading.FullArrayStopsShort` has an input of five bytes.
- In an empty field table the terminator row answers to tag 0, so a key with tag 0 and a wire type other than 0 fails there
  and is skipped everywhere else. A key that is 0 altogether ends a message.
- A submessage that is an alternative of a union is reset before it is decoded into; other submessages are merged into.
- The 32-bit varint reader keeps its bit position in 8 bits, and it wraps: of a varint of 38 bytes the last digit comes in again
  at the bottom. `Reads32Spelled` says what is read of shorter ones, and `WrappedPosition` has a longer one.
- Except for choosing between a packed array and an item the decoder does not look at the wire type of a known field.

## DTLS handshake messages

- `Fragments`, `FragmentFormat`: the fragment header, written and parsed, byte by byte, and when a fragment is refused. `Reassembly`: the bitmap of `hm_fragment`, bit by bit, and the
  message it completes. `Receiver`, `Ring`: what a record of fragments does to the window of messages, on values and in
  the ring of seven slots.
- `Flight`, `FlightSender`: a flight cut into packets of at most the MTU, with restarts, blocked writes and ciphers that fail.
- `Transport`: sender, network and receiver together. The network may drop, repeat and reorder packets, and the sender
  may cut the same flight again and again with different MTUs, flight after flight.
- `Replay`, `DtlsRecords`: the 64-entry window of an epoch, and what is let through over all epochs. The 16-bit epoch
  wraps; `NoReplay` says that records repeat exactly if it does.

One edge of the window is as the code has it: a fragment seven ahead of the next message is an error, while one eight or
more ahead is ignored.

## TLS handshakes and records

- `HandshakeScript`, `HandshakeClient`, `HandshakeServer`, `HandshakeRun`, `HandshakeProgress`, `HandshakeDriver`: the client's
  and the server's states for TLS 1.0-1.2, with every choice of resumption, key exchange, certificate request, ticket, NPN,
  Channel ID and OCSP, run against each other in every interleaving, with calls that block and are taken up again.
  `HandshakeMessages`: the lists of the messages each side sends and hashes, and what each refuses.
- `SslBuffer`, `TlsWriter`: one ordered stream of sealed records through short and blocked writes. Two things can spoil it, and
  the contracts say when: a write buffer of 65530 to 65535 bytes at an unlucky address, whose 16-bit offset wraps
  (`OffsetFollows`), and a retry with fewer bytes than are done, after which the next call starts again (`ShortRetry`).
- `CipherChoice`: the server's choice of cipher with groups of equal preference.
- `Premaster`: taking the RSA premaster secret out of a block with masks only.
- `Refcount`: shared reference counts with compare-and-swap, under every interleaving.

## Model

| member | source | states |
|---|---|---|
| `Varint.VarintRoundTrip` | StabilityLink12/Pods/nanopb/pb_encode.c:574-594 | every 64-bit value takes one to ten bytes and `pb_decode_varint` reads it back, whatever follows |
| `Varint.Varint32RoundTrip` | StabilityLink12/Pods/nanopb/pb_decode.c:182-242 | `pb_decode_varint32` reads back every value below 2^32 |
| `Varint.SignExtendedRoundTrip` | StabilityLink12/Pods/nanopb/pb_decode.c:182-242 | a negative 32-bit value written with 64 bits comes back as its low word |
| `Varint.Varint32Rejects` | StabilityLink12/Pods/nanopb/pb_decode.c:213-236 | numbers from 2^32 up to 2^63 are refused by the 32-bit reader |
| `Varint.ZigzagInverse` | StabilityLink12/Pods/nanopb/pb_decode.c:1240-1252 | zigzag is one to one, both ways |
| `Varint.FixedRoundTrip` | StabilityLink12/Pods/nanopb/pb_decode.c:1254-1286 | little-endian words of any width come back |
| `Varint.FixedUnique` | StabilityLink12/Pods/nanopb/pb_encode.c:607-632 | and no other bytes stand for the same word |
| `WireFormat.VarintSpells` | StabilityLink12/Pods/nanopb/pb_encode.c:574-594 | the bytes written for a number spell it, seven bits a byte from the low end, with no empty byte at the end |
| `WireFormat.ReadsSpelled` | StabilityLink12/Pods/nanopb/pb_decode.c:250-271 | `pb_decode_varint` on any bytes: the number they spell, in 64 bits, exactly if it ends within ten bytes |
| `Varint32.Reads32Spelled` | StabilityLink12/Pods/nanopb/pb_decode.c:182-242 | `pb_decode_varint32` on any bytes: a number below 2^32 however it is padded; and of up to 37 bytes nothing but the low word of the number |
| `Varint32.WrappedPosition` | StabilityLink12/Pods/nanopb/pb_decode.c:201-231 | 37 empty bytes and a 1 are read as 8 |
| `WireFormat.KeySpells` | StabilityLink12/Pods/nanopb/pb_encode.c:635-672 | a key spells eight times the tag and the number of the wire type: 0, 1, 2 or 5 |
| `WireFormat.SkipFieldIs` | StabilityLink12/Pods/nanopb/pb_decode.c:316-327 | what is passed over for each number of a wire type, to the end of the varint, string or word, and that all others fail |
| `WireFormat.SkipsAsRead` | StabilityLink12/Pods/nanopb/pb_decode.c:272-281 | a varint is skipped to where reading it goes on |
| `DecodingLaws.NumberIs` | StabilityLink12/Pods/nanopb/pb_decode.c:1289-1389 | a number is decoded exactly if its varint is read, its size is one of four and it is in range; it is the word in two's complement of 32 or 64 bits, in zigzag, or itself |
| `DecodingLaws.FixedIs` | StabilityLink12/Pods/nanopb/pb_decode.c:1254-1286 | fixed-width numbers are their bytes, least significant first |
| `DecodingLaws.NumberSpells` | StabilityLink12/Pods/nanopb/pb_encode.c:734-808 | a number is written exactly in the four sizes, and what is written spells it in 64 bits |
| `DecodingLaws.BlobIs` | StabilityLink12/Pods/nanopb/pb_decode.c:1391-1508 | bytes, strings and fixed-length bytes are decoded exactly if they are all there and fit their storage |
| `DecodingLaws.ZeroKeyEnds` | StabilityLink12/Pods/nanopb/pb_decode.c:302-307 | a zero byte in place of a key ends the message |
| `DecodingLaws.TagZero` | StabilityLink12/Pods/nanopb/pb_decode.c:933-961 | a key with tag 0 is skipped with its field, and fails in an empty table |
| `DecodingLaws.WireTypeIgnored` | StabilityLink12/Pods/nanopb/pb_decode.c:401-480 | the wire type of a known field matters for packed arrays only |
| `DecodingLaws.RequiredIndexCounts` | StabilityLink12/Pods/nanopb/pb_decode.c:1006-1046 | the index of a required row is the number of required rows before it |
| `DecodingLaws.EmptyMessage` | StabilityLink12/Pods/nanopb/pb_decode.c:1006-1046 | no bytes are a message exactly if no row is required |
| `DecodingLaws.RunStaysInside` | StabilityLink12/Pods/nanopb/pb_decode.c:919-998 | whatever the bytes, no value is longer than its storage and no array longer than its room, at any depth |
| `Encodable.MessageEncodes` | StabilityLink12/Pods/nanopb/pb_encode.c:494-516 | a message is encoded exactly if every number written has one of the four sizes, bytes fit their storage and arrays their room, at any depth |
| `Omission.ScalarLeftOut` | StabilityLink12/Pods/nanopb/pb_encode.c:215-305 | a proto3 number is left out exactly if it is 0, bytes and strings exactly if they are empty |
| `Omission.MessageLeftOut` | StabilityLink12/Pods/nanopb/pb_encode.c:215-305 | a proto3 submessage is left out exactly if it is the default message of a table every field of which can be left out |
| `Pieces.KeyRoundTrip` | StabilityLink12/Pods/nanopb/pb_decode.c:293-314 | a field key comes back as tag and wire type |
| `Pieces.ScalarRoundTrip` | StabilityLink12/Pods/nanopb/pb_decode.c:1289-1389 | a scalar of any type and width that the encoder accepts decodes to itself |
| `Pieces.BlobRoundTrip` | StabilityLink12/Pods/nanopb/pb_decode.c:1391-1461 | bytes, strings and fixed-length bytes that fit their storage decode to themselves |
| `Pieces.DelimitedRoundTrip` | StabilityLink12/Pods/nanopb/pb_decode.c:367-380 | a length-prefixed run of bytes comes back, and what follows is left |
| `Pieces.DelimitedRejects` | StabilityLink12/Pods/nanopb/pb_decode.c:367-380 | with a length of 2^32 or more it is refused |
| `Pieces.PackedRoundTrip` | StabilityLink12/Pods/nanopb/pb_decode.c:419-447 | the body of a packed array gives its items back, in order, after those already there |
| `Schema.DefaultTyped` | StabilityLink12/Pods/nanopb/pb_decode.c:812-899 | the default message is a well-typed message of the schema |
| `Merging.DefaultValueSound` | StabilityLink12/Pods/nanopb/pb_encode.c:215-305 | a proto3 field is left out only when it holds what the decoder starts from, down through submessages |
| `Merging.MergeDefault` | StabilityLink12/Pods/nanopb/pb_decode.c:884-899 | merging a message into the defaults gives that message |
| `Merging.ValueStep` | StabilityLink12/Pods/nanopb/pb_decode.c:1463-1485 | decoding an encoded value on top of another is their merge, or fails, exactly as the merge says |
| `Merging.PackedStep` | StabilityLink12/Pods/nanopb/pb_decode.c:419-447 | the same for one packed array field |
| `Merging.ItemsStep` | StabilityLink12/Pods/nanopb/pb_decode.c:448-458 | the same for an unpacked array, item by item, with the bound on the count |
| `Merging.TaggedStep` | StabilityLink12/Pods/nanopb/pb_decode.c:401-480 | the same for a single field behind its key |
| `Merging.RowStep` | StabilityLink12/Pods/nanopb/pb_encode.c:307-394 | the same for whatever a row of the table writes |
| `Merging.MessageStep` | StabilityLink12/Pods/nanopb/pb_decode.c:901-1049 | `pb_decode_noinit` of an encoded message on top of any message gives their merge with nothing left, or fails, exactly if the merge exists |
| `FieldLaws.MergeIsJoined` | StabilityLink12/Pods/nanopb/pb_decode.c:401-480 | the merge row by row: submessages of required and optional rows are merged, arrays joined, unions and other values replaced, what is absent kept |
| `FieldLaws.OptionalMerges` | StabilityLink12/Pods/nanopb/pb_decode.c:414-417 | two submessages of an optional row are merged, neither replaces the other |
| `FieldLaws.TwoOccurrences` | StabilityLink12/Pods/nanopb/pb_decode.c:1463-1485 | the second of two encoded occurrences of an optional submessage is decoded over the first, or the message fails as the merge says |
| `FieldLaws.AlternativeReplaces` | StabilityLink12/Pods/nanopb/pb_decode.c:460-473 | an alternative that is decoded puts out whatever its union held, a submessage of the same row included |
| `FieldLaws.UnpackedItems` | StabilityLink12/Pods/nanopb/pb_decode.c:448-458 | items that come one by one, numbers too, are added to the array in order, exactly if there is room |
| `RoundTrip.MessageRoundTrip` | StabilityLink12/Pods/nanopb/pb_decode.c:1051-1063 | `pb_decode` of what `pb_encode` wrote gives the same message and leaves no byte, for every schema and message, exactly unless some length inside needs more than 32 bits |
| `RoundTrip.FitsMerges` | StabilityLink12/Pods/nanopb/pb_decode.c:367-380 | merging into the defaults exists exactly if all lengths fit in 32 bits |
| `RoundTrip.ConcatenationIsMerge` | StabilityLink12/Pods/nanopb/pb_decode.h:74-76 | decoding two encodings in one call is `pb_decode` and then `pb_decode_noinit`, with success, failure and result the same: the merge if there is one, and a failure of both if the first alone cannot be read |
| `RoundTrip.LongMessageLost` | StabilityLink12/Pods/nanopb/pb_decode.c:367-380 | a well-typed message that is written and cannot be read back: its inner message has 2^32 bytes and more |
| `Merging.MessageRun` | StabilityLink12/Pods/nanopb/pb_decode.c:919-998 | an encoded message in front of any bytes is merged in and the run goes on with those bytes, or it fails as the merge says |
| `Concat.SequentialIsConcatenated` | StabilityLink12/Pods/nanopb/pb_decode.c:901-1049 | the same for any bytes, not only encodings: two calls that succeed are one call on the concatenation |
| `Concat.RunExtends` | StabilityLink12/Pods/nanopb/pb_decode.c:919-998 | decoding a prefix that ends between fields and going on is decoding the whole |
| `Concat.SeenIsPassive` | StabilityLink12/Pods/nanopb/pb_decode.c:988-1046 | the record of fields met has no influence on what is decoded |
| `Concat.UnknownFieldTransparent` | StabilityLink12/Pods/nanopb/pb_decode.c:933-961 | a key with an unknown tag and what is skipped for it, between top-level fields, never change the result |
| `UnknownFields.ValueSkipped` | StabilityLink12/Pods/nanopb/pb_decode.c:272-327 | what an encoder writes for any value is skipped exactly |
| `UnknownFields.UnknownBetween` | StabilityLink12/Pods/nanopb/pb_decode.c:933-961 | an encoded field with an unknown tag may stand between any fields: the result is what it is without it |
| `UnknownFields.OlderReader` | StabilityLink12/Pods/nanopb/pb_decode.c:933-961 | a message of a table with fields added, read with the table as it was, is decoded as if the known fields had been written alone |
| `RoundTrip.DecodeDelimited` | StabilityLink12/Pods/nanopb/pb_decode.c:1080-1093 | of a delimited message that decodes what its decoder left unread is skipped: the rest is what follows the declared length |
| `Shortfall.MessageShortFails` | StabilityLink12/Pods/nanopb/pb_decode.c:419-447 | a run that stops short of its end, at a packed array given up with bytes unread, has failed |
| `DelimitedReading.FullArrayStopsShort` | StabilityLink12/Pods/nanopb/pb_decode.c:441-444 | a delimited message at which it happens: two packed numbers for an array of one, and the stream goes on at the numbers, two bytes early |
| `DelimitedReading.ReadOnInStep` | StabilityLink12/Pods/nanopb/pb_decode.c:1080-1093 | reading message after message, decodable or not, decodes each from its own bytes as long as none stops short |
| `RoundTrip.DelimitedMessage` | StabilityLink12/Pods/nanopb/pb_encode.c:518-521 | one delimited message comes back, and what follows it is left |
| `RoundTrip.DelimitedStream` | StabilityLink12/Pods/nanopb/pb_decode.c:1065-1093 | any number of delimited messages written back to back come out one at a time, in order |
| `Decoding.DecFields` | StabilityLink12/Pods/nanopb/pb_decode.c:919-998 | decoding is a total function of the bytes, ends with the bytes left, and keeps the message well typed |
| `Decoding.Decode` | StabilityLink12/Pods/nanopb/pb_decode.c:1051-1063 | a decoded message is well typed: within its storage and with at most one alternative a union |
| `Decoding.FindTag` | StabilityLink12/Pods/nanopb/pb_common.c:78-95 | the search by tag finds the row with the tag if there is one |
| `FieldIter.FieldIterator.Begin` | StabilityLink12/Pods/nanopb/pb_common.c:8-18 | the iterator starts on the first row |
| `FieldIter.FieldIterator.Next` | StabilityLink12/Pods/nanopb/pb_common.c:20-76 | the next row, cyclically, and says whether it has wrapped; data position and required index are functions of the row alone |
| `FieldIter.FieldIterator.Find` | StabilityLink12/Pods/nanopb/pb_common.c:78-95 | from any row: finds a row with the tag exactly if there is one, and otherwise is back where it was |
| `FieldIter.IteratorFindsMember` | StabilityLink12/Pods/nanopb/pb_common.c:37-73 | for tables written by the layout macros the running position is the offset of the member |
| `FieldIter.IteratorFindsSize` | StabilityLink12/Pods/nanopb/pb_common.c:37-73 | and so for the place of the presence flag or count; the alternatives of a union share one |
| `RequiredBits.AllMarked` | StabilityLink12/Pods/nanopb/pb_decode.c:1027-1044 | word by word with the partial last word: true exactly if all bits below the count are set |
| `RequiredBits.MarkReflects` | StabilityLink12/Pods/nanopb/pb_decode.c:988-993 | setting the bit of a required row records exactly that row |
| `RequiredBits.MarkedMeansSeen` | StabilityLink12/Pods/nanopb/pb_decode.c:1006-1046 | all bits set means that each of the first 64 required fields was met |
| `Decoder.CountRequired` | StabilityLink12/Pods/nanopb/pb_decode.c:1007-1022 | walking the iterator to its end counts the required fields |
| `Decoder.CheckRequired` | StabilityLink12/Pods/nanopb/pb_decode.c:1006-1046 | the final check passes exactly if each of the first 64 required fields was met |
| `InputStream.Stream.Read` | StabilityLink12/Pods/nanopb/pb_decode.c:100-132 | reads exactly the next bytes, or nothing and fails |
| `InputStream.Stream.ReadVarint32` | StabilityLink12/Pods/nanopb/pb_decode.c:182-248 | the loop computes the function `DecVarint32`, bit position and end of stream included |
| `InputStream.Stream.ReadVarint` | StabilityLink12/Pods/nanopb/pb_decode.c:250-271 | the loop computes `DecVarint` |
| `InputStream.Stream.ReadFixed32` | StabilityLink12/Pods/nanopb/pb_decode.c:1254-1266 | four bytes shifted together are the little-endian word |
| `InputStream.Stream.ReadFixed64` | StabilityLink12/Pods/nanopb/pb_decode.c:1269-1286 | eight bytes shifted together are the little-endian word |
| `InputStream.Stream.SkipUnknown` | StabilityLink12/Pods/nanopb/pb_decode.c:316-327 | skips exactly the field its wire type says, or fails |
| `InputStream.Stream.ReadKey` | StabilityLink12/Pods/nanopb/pb_decode.c:293-314 | computes `DecKey`, end of message included |
| `InputStream.Stream.OpenSubstream` | StabilityLink12/Pods/nanopb/pb_decode.c:367-380 | the substream is exactly the declared bytes, and the parent keeps only what follows them |
| `InputStream.Stream.CloseSubstream` | StabilityLink12/Pods/nanopb/pb_decode.c:382-395 | what is left of the substream is skipped, and the parent goes on where the substream ends by then; the contracts of `Decoder` say when that is not the declared end any more |
| `Decoder.DecodeScalar` | StabilityLink12/Pods/nanopb/pb_decode.c:1289-1389 | computes `DecScalar`, and how many bytes are unread if it fails |
| `Decoder.DecodeBlob` | StabilityLink12/Pods/nanopb/pb_decode.c:1391-1508 | computes `DecBlob`: bounds, NUL and padding |
| `Decoder.DecodeSubmessage` | StabilityLink12/Pods/nanopb/pb_decode.c:1463-1485 | computes `DecValue` for a submessage; terminates because the substream is shorter; the stream stops short by as much as the submessage does |
| `Decoder.DecodePacked` | StabilityLink12/Pods/nanopb/pb_decode.c:419-447 | computes `DecPacked`: items until the bytes or the room run out; the stream stops short by the array's length exactly if bytes are unread then |
| `Decoder.DecodeStaticField` | StabilityLink12/Pods/nanopb/pb_decode.c:401-480 | computes `DecField` for each kind of row |
| `Decoder.DecodeNext` | StabilityLink12/Pods/nanopb/pb_decode.c:919-998 | one turn of the loop is one step of `DecFields` |
| `Decoder.DecodeNoinit` | StabilityLink12/Pods/nanopb/pb_decode.c:901-1049 | the loop computes the function `DecodeNoinit`, for all bytes, and terminates; whether it fails or not the end of the stream moves by exactly `MessageShort` |
| `Decoder.Decode` | StabilityLink12/Pods/nanopb/pb_decode.c:1051-1063 | `pb_decode` computes `Decode` |
| `Decoder.DecodeDelimited` | StabilityLink12/Pods/nanopb/pb_decode.c:1080-1093 | `pb_decode_delimited` computes `DecodeDelimited`; whether the message decodes or not the stream is right after it exactly if no packed array in it is given up with bytes unread, and otherwise stops short by that array's length |
| `OutputStream.Stream.Write` | StabilityLink12/Pods/nanopb/pb_encode.c:101-122 | writes all of the bytes and nothing else, exactly if they fit; a sizing stream only counts |
| `OutputStream.Stream.WriteVarint` | StabilityLink12/Pods/nanopb/pb_encode.c:574-594 | writes `EncVarint`, or fails without room |
| `OutputStream.VarintBytes` | StabilityLink12/Pods/nanopb/pb_encode.c:582-593 | the loop over a ten-byte buffer makes `EncVarint` |
| `OutputStream.View.PlusTwice` | StabilityLink12/Pods/nanopb/pb_encode.c:101-122 | two writes are one write of both |
| `Encoder.EncodeScalar` | StabilityLink12/Pods/nanopb/pb_encode.c:734-808 | writes `EncScalar`, or fails where it does |
| `Encoder.EncodeBlob` | StabilityLink12/Pods/nanopb/pb_encode.c:810-855 | writes `EncValue` of bytes and strings, or fails without storage |
| `Encoder.EncodePackedItems` | StabilityLink12/Pods/nanopb/pb_encode.c:173-181 | the loop over the items of a packed array writes them one behind the other, without keys |
| `Encoder.EncodePackedBody` | StabilityLink12/Pods/nanopb/pb_encode.c:145-181 | a packed array's length, counted or from a first pass, and then its items |
| `Encoder.EncodePackedArray` | StabilityLink12/Pods/nanopb/pb_encode.c:139-181 | a packed array behind the length its first pass counted |
| `Encoder.EncodeArray` | StabilityLink12/Pods/nanopb/pb_encode.c:126-211 | writes `EncArray`: packed with either way of finding the length, or unpacked with each item behind a key |
| `Encoder.CheckDefaultValue` | StabilityLink12/Pods/nanopb/pb_encode.c:215-305 | decides `IsDefaultValue`, through submessages |
| `Encoder.EncodeField` | StabilityLink12/Pods/nanopb/pb_encode.c:307-394 | writes `EncSlot` for each kind of row |
| `Encoder.EncodeMessage` | StabilityLink12/Pods/nanopb/pb_encode.c:494-516 | writes exactly `EncMessage` into the stream, if it fits, and otherwise fails; a sizing stream counts exactly its length |
| `Encoder.EncodeSubmessage` | StabilityLink12/Pods/nanopb/pb_encode.c:682-730 | writes the message behind the length that the first pass counted, or counts both in a sizing stream |
| `Encoder.EncodeAgain` | StabilityLink12/Pods/nanopb/pb_encode.c:709-727 | the second pass counts the same bytes as the first, so "submsg size changed" is not reachable |
| `Encoder.GetEncodedSize` | StabilityLink12/Pods/nanopb/pb_encode.c:533-542 | succeeds exactly if the message can be encoded, with the exact size |
| `Encoder.EncodeToBuffer` | StabilityLink12/Pods/nanopb/pb_encode.c:494-516 | encoding into a buffer succeeds exactly if sizing does and the size fits; the rest of the buffer is untouched, and `pb_decode` gives the message back |
| `Fragments.FragmentRoundTrip` | StabilityLink12/Pods/BoringSSL-GRPC/ssl/d1_both.cc:459-473 | a fragment written and parsed comes back, with what follows it |
| `Fragments.ParsedIsWritten` | StabilityLink12/Pods/BoringSSL-GRPC/ssl/d1_both.cc:459-473 | and only what was written so is parsed so |
| `FragmentFormat.HeaderIs` | StabilityLink12/Pods/BoringSSL-GRPC/ssl/d1_both.cc:459-473 | the header's bytes are type, length, sequence number, offset and fragment length, most significant byte first |
| `FragmentFormat.FragmentVerdict` | StabilityLink12/Pods/BoringSSL-GRPC/ssl/d1_both.cc:352-403 | exactly when a fragment is refused and with which alert, and that then, or out of the window, nothing changes |
| `FragmentFormat.FragmentKept` | StabilityLink12/Pods/BoringSSL-GRPC/ssl/d1_both.cc:385-401 | a fragment that is kept adds its bytes at their places to its message and touches no other |
| `Reassembly.BitRangeBits` | StabilityLink12/Pods/BoringSSL-GRPC/ssl/d1_both.cc:203-205 | `bit_range` sets exactly the bits of the range |
| `Reassembly.MarkBits` | StabilityLink12/Pods/BoringSSL-GRPC/ssl/d1_both.cc:211-237 | the bitmap after marking is the set of bytes marked before and the range, bit for bit, nothing past the end |
| `Reassembly.AllMarkedBits` | StabilityLink12/Pods/BoringSSL-GRPC/ssl/d1_both.cc:239-247 | the check of whole bytes and the partial last one is true exactly if every byte of the message is marked |
| `Reassembly.Incoming.constructor` | StabilityLink12/Pods/BoringSSL-GRPC/ssl/d1_both.cc:152-199 | a new message has nothing received; an empty one is complete |
| `Reassembly.Incoming.Mark` | StabilityLink12/Pods/BoringSSL-GRPC/ssl/d1_both.cc:211-251 | marking adds exactly the range, and the bitmap is released exactly when every byte is there |
| `Reassembly.Incoming.Take` | StabilityLink12/Pods/BoringSSL-GRPC/ssl/d1_both.cc:399-402 | a slice is copied to its place and marked; everything else stays |
| `Reassembly.Incoming.CompleteMessage` | StabilityLink12/Pods/BoringSSL-GRPC/ssl/d1_both.cc:255-259 | the bitmap is gone exactly if every byte has arrived, and then the buffer is header and body |
| `Reassembly.SlicesOfOneMessage` | StabilityLink12/Pods/BoringSSL-GRPC/ssl/d1_both.cc:387-403 | after any slices of one body in any order: a byte has arrived exactly if some slice covers it, the message is complete exactly if all are, and then it is that body |
| `Receiver.TakeFragment` | StabilityLink12/Pods/BoringSSL-GRPC/ssl/d1_both.cc:353-403 | one fragment keeps the window of messages within its seven numbers |
| `Receiver.StoreInRing` | StabilityLink12/Pods/BoringSSL-GRPC/ssl/d1_both.cc:276-294 | writing slot `seq % 7` is writing message `seq` and no other |
| `Receiver.AdvanceRing` | StabilityLink12/Pods/BoringSSL-GRPC/ssl/d1_both.cc:426-433 | clearing the front slot and counting on is moving the window by one |
| `Receiver.WrapRing` | StabilityLink12/Pods/BoringSSL-GRPC/ssl/d1_both.cc:426-433 | also where the 16-bit counter wraps |
| `Ring.MessageRing.SlotOf` | StabilityLink12/Pods/BoringSSL-GRPC/ssl/d1_both.cc:276-281 | in every state the slot of a number holds that message or nothing; the assertion on the stored number never fails |
| `Ring.MessageRing.IsComplete` | StabilityLink12/Pods/BoringSSL-GRPC/ssl/d1_both.cc:255-259 | whether the next message can be read |
| `Ring.MessageRing.GetMessage` | StabilityLink12/Pods/BoringSSL-GRPC/ssl/d1_both.cc:408-424 | the next message, header and body, exactly if it is complete |
| `Ring.MessageRing.NextMessage` | StabilityLink12/Pods/BoringSSL-GRPC/ssl/d1_both.cc:426-433 | the front message is dropped and the window moves, in the ring as in the window |
| `Ring.MessageRing.GetIncoming` | StabilityLink12/Pods/BoringSSL-GRPC/ssl/d1_both.cc:265-295 | finds or makes the message of a fragment, or gives the right alert and changes nothing |
| `Ring.MessageRing.TakeOne` | StabilityLink12/Pods/BoringSSL-GRPC/ssl/d1_both.cc:352-403 | one turn of the loop does to the ring what `TakeFragment` does to the window |
| `Ring.MessageRing.TakeAll` | StabilityLink12/Pods/BoringSSL-GRPC/ssl/d1_both.cc:350-405 | a whole record does to the ring what `TakeRecord` does to the window, up to the first error |
| `Flight.FlightIsPartitioned` | StabilityLink12/Pods/BoringSSL-GRPC/ssl/d1_both.cc:644-733 | what is sent of each message is contiguous, without overlap, and all of it; an empty message and a ChangeCipherSpec get exactly one record |
| `Flight.RecordsAreSlices` | StabilityLink12/Pods/BoringSSL-GRPC/ssl/d1_both.cc:694-724 | every handshake record is a slice of a message of the flight |
| `Flight.RecordWith` | StabilityLink12/Pods/BoringSSL-GRPC/ssl/d1_both.cc:644-733 | every byte of every message is in some record |
| `Flight.AdvanceThen` | StabilityLink12/Pods/BoringSSL-GRPC/ssl/d1_both.cc:739-780 | a walk through the flight can be cut anywhere |
| `FlightSender.Sender.Add` | StabilityLink12/Pods/BoringSSL-GRPC/ssl/d1_both.cc:555-594 | queues a message, or starts a new flight when the last one has been flushed; at most seven |
| `FlightSender.Sender.NextWriteEpoch` | StabilityLink12/Pods/BoringSSL-GRPC/ssl/dtls_method.cc:97-109 | messages queued before a change of epoch are still sealed with the old cipher |
| `FlightSender.Sender.SealNextMessage` | StabilityLink12/Pods/BoringSSL-GRPC/ssl/d1_both.cc:644-733 | a record is the next slice, as long as the room allows, and fits with the most that sealing may add; without progress or on an error nothing moves; with a cipher that seals there is no error in the two epochs being written |
| `FlightSender.Sender.EnoughRoom` | StabilityLink12/Pods/BoringSSL-GRPC/ssl/d1_both.cc:644-733 | with 26 bytes and the overhead of the cipher every flight of the current epoch can be sent |
| `FlightSender.RoomIs` | StabilityLink12/Pods/BoringSSL-GRPC/ssl/d1_both.cc:644-733 | the room that a record needs, in bytes |
| `FlightSender.Sender.SealNextPacket` | StabilityLink12/Pods/BoringSSL-GRPC/ssl/d1_both.cc:739-780 | a packet is a nonempty stretch of the walk within the MTU; the pair (messages left, bytes left) gets smaller |
| `FlightSender.Sender.SendFlight` | StabilityLink12/Pods/BoringSSL-GRPC/ssl/d1_both.cc:782-827 | the walk from the old position to the new one is what the transport has taken and then the records sealed for a packet that could not be completed; the position fits what was sent exactly if there are none, and there are some only when sealing fails; done means all of the flight; the loop terminates, and with a cipher that seals and a transport that takes everything it is done |
| `FlightSender.Sender.Flush` | StabilityLink12/Pods/BoringSSL-GRPC/ssl/d1_both.cc:829-834 | flushing a flight sends it from where it was, as `SendFlight`, and closes it |
| `FlightSender.Sender.Retransmit` | StabilityLink12/Pods/BoringSSL-GRPC/ssl/d1_both.cc:836-845 | a retransmission, finished or not, is the walk from the start to where the next call goes on, less the records lost when sealing fails |
| `FlightSender.PacketIsWalk` | StabilityLink12/Pods/BoringSSL-GRPC/ssl/d1_both.cc:793-813 | each packet of a flight is a walk from some position |
| `Transport.SliceMeetsWindow` | StabilityLink12/Pods/BoringSSL-GRPC/ssl/d1_both.cc:352-403 | a slice of message k is refused exactly if it is too long or, in epoch 1, not of the current message; otherwise it is kept unless it is old |
| `Transport.StepKeeps` | StabilityLink12/Pods/BoringSSL-GRPC/ssl/d1_both.cc:297-438 | every step of sender, network and receiver keeps the invariant |
| `Transport.DeliveredInOrder` | StabilityLink12/Pods/BoringSSL-GRPC/ssl/d1_both.cc:408-438 | over every run with losses, repeats, reordering and retransmissions at any MTU, what has been read is exactly the first messages sent, in order, each once, byte for byte |
| `Transport.NothingRefused` | StabilityLink12/Pods/BoringSSL-GRPC/ssl/d1_both.cc:361-395 | outside epoch 1 nothing the network can bring makes the receiver fail |
| `Transport.HeardIsReadable` | StabilityLink12/Pods/BoringSSL-GRPC/ssl/d1_both.cc:782-827 | once the records of some complete sending have been heard, in any order, the next message can be read |
| `Replay.TestBit` | StabilityLink12/Pods/BoringSSL-GRPC/ssl/dtls_record.cc:151 | the mask test is true exactly if the bit is set |
| `Replay.Bitmap.ShouldDiscard` | StabilityLink12/Pods/BoringSSL-GRPC/ssl/dtls_record.cc:140-152 | a number is refused exactly if it was recorded or is 64 or more below the highest |
| `Replay.Bitmap.Record` | StabilityLink12/Pods/BoringSSL-GRPC/ssl/dtls_record.cc:155-175 | the window slides and records exactly that number |
| `DtlsRecords.ToU64` | StabilityLink12/Pods/BoringSSL-GRPC/ssl/dtls_record.cc:128-136 | eight bytes shifted together are the number they spell |
| `DtlsRecords.SequenceNumber` | StabilityLink12/Pods/BoringSSL-GRPC/ssl/dtls_record.cc:225-227 | the number is epoch and sequence number |
| `DtlsRecords.RecordReader.Open` | StabilityLink12/Pods/BoringSSL-GRPC/ssl/dtls_record.cc:225-262 | a record is let through exactly if its epoch is the reader's, its number is not recorded nor 64 or more below the highest, it opens and it has at most 16384 bytes; its number is recorded then, and otherwise nothing changes |
| `DtlsRecords.AcceptedIsGenuine` | StabilityLink12/Pods/BoringSSL-GRPC/ssl/dtls_record.cc:225-262 | every number let through over a run is that of a record that opened, was not too long, and was of the epoch at that point |
| `DtlsRecords.ForgeriesChangeNothing` | StabilityLink12/Pods/BoringSSL-GRPC/ssl/dtls_record.cc:237-249 | a run lets the same numbers through as without its records that do not open |
| `DtlsRecords.RecordReader.NextEpoch` | StabilityLink12/Pods/BoringSSL-GRPC/ssl/dtls_method.cc:88-91 | a change of epoch forgets the numbers of the last |
| `DtlsRecords.AcceptedAreNew` | StabilityLink12/Pods/BoringSSL-GRPC/ssl/dtls_record.cc:177-262 | until the epoch wraps, a run accepts no pair of epoch and sequence number twice |
| `DtlsRecords.WrapRepeats` | StabilityLink12/Pods/BoringSSL-GRPC/ssl/dtls_method.cc:88 | after 65536 changes of epoch the same record is accepted again |
| `DtlsRecords.NoReplay` | StabilityLink12/Pods/BoringSSL-GRPC/ssl/dtls_record.cc:177-262 | no record passes twice in any run, exactly if there are fewer than 65536 changes of epoch |
| `HandshakeScript.NothingTwice` | StabilityLink12/Pods/BoringSSL-GRPC/ssl/handshake.cc:176-182 | what a side has queued at any place has no repetition |
| `HandshakeScript.ReadOn` | StabilityLink12/Pods/BoringSSL-GRPC/ssl/handshake.cc:165-174 | the message in the buffer is the one the place calls for, and Finished has hashed what the reader has |
| `HandshakeClient.ClientNeverRejects` | StabilityLink12/Pods/BoringSSL-GRPC/ssl/handshake_client.cc:1707-1789 | in each state: the message in the buffer is accepted, and the client moves on along the common script |
| `HandshakeClient.DoReadStatus` | StabilityLink12/Pods/BoringSSL-GRPC/ssl/handshake_client.cc:821-869 | CertificateStatus is taken where it is due |
| `HandshakeClient.DoReadKeyExchange` | StabilityLink12/Pods/BoringSSL-GRPC/ssl/handshake_client.cc:891-1071 | ServerKeyExchange is taken where it is due, and otherwise the next message is left for the next state |
| `HandshakeClient.DoReadRequest` | StabilityLink12/Pods/BoringSSL-GRPC/ssl/handshake_client.cc:1073-1143 | CertificateRequest is taken where it is due, and otherwise ServerHelloDone is left for the next state |
| `HandshakeClient.DoSendFinished` | StabilityLink12/Pods/BoringSSL-GRPC/ssl/handshake_client.cc:1457-1515 | the last flight is ChangeCipherSpec, NextProto and ChannelID if agreed, Finished |
| `HandshakeClient.DoReadFinished` | StabilityLink12/Pods/BoringSSL-GRPC/ssl/handshake_client.cc:1658-1672 | the server's Finished matches the client's transcript |
| `HandshakeClient.ClientNext` | StabilityLink12/Pods/BoringSSL-GRPC/ssl/handshake_client.cc:1707-1789 | a waiting client waits for something the server is to send next |
| `HandshakeServer.ServerNeverRejects` | StabilityLink12/Pods/BoringSSL-GRPC/ssl/handshake_server.cc:1539-1621 | in each state: the message in the buffer is accepted, and the server moves on along the common script |
| `HandshakeServer.DoSendCertificate` | StabilityLink12/Pods/BoringSSL-GRPC/ssl/handshake_server.cc:754-840 | Certificate and CertificateStatus exactly if the cipher and the agreement call for them |
| `HandshakeServer.DoSendDone` | StabilityLink12/Pods/BoringSSL-GRPC/ssl/handshake_server.cc:914-947 | CertificateRequest if one is due, then ServerHelloDone |
| `HandshakeServer.DoReadVerify` | StabilityLink12/Pods/BoringSSL-GRPC/ssl/handshake_server.cc:1269-1363 | CertificateVerify is read exactly if there was a client certificate |
| `HandshakeServer.DoReadFinished` | StabilityLink12/Pods/BoringSSL-GRPC/ssl/handshake_server.cc:1439-1461 | the client's Finished matches the server's transcript |
| `HandshakeServer.DoSendFinished` | StabilityLink12/Pods/BoringSSL-GRPC/ssl/handshake_server.cc:1463-1509 | NewSessionTicket if agreed, ChangeCipherSpec, Finished |
| `HandshakeServer.ServerNext` | StabilityLink12/Pods/BoringSSL-GRPC/ssl/handshake_server.cc:1539-1621 | a waiting server waits for something the client is to send next |
| `HandshakeRun.NextKeeps` | StabilityLink12/Pods/BoringSSL-GRPC/ssl/handshake.cc:491-626 | every step of either side keeps the invariant, with any flush cut short and any operation put off |
| `HandshakeRun.HandshakeIsCompatible` | StabilityLink12/Pods/BoringSSL-GRPC/ssl/handshake.cc:491-626 | for every agreement and every interleaving: no message type is rejected, no Finished fails, and no side queues anything twice |
| `HandshakeMessages.EachSendsItsList` | StabilityLink12/Pods/BoringSSL-GRPC/ssl/handshake.cc:491-626 | in every run each side has sent a beginning of one explicit list, and all of it when it is done, ServerKeyExchange exactly under ECDHE or a PSK with a hint and so on; what both have hashed in the end is one explicit list too |
| `HandshakeMessages.WireMeets` | StabilityLink12/Pods/BoringSSL-GRPC/ssl/handshake.cc:494-611 | a message where a ChangeCipherSpec is due, or the other way round, ends the handshake; what is due is taken off the wire and nothing else |
| `HandshakeMessages.ClientMeets` | StabilityLink12/Pods/BoringSSL-GRPC/ssl/handshake_client.cc:535-1672 | a client fails exactly on the messages that its state is to refuse, takes and hashes those it is to take, and leaves the others |
| `HandshakeMessages.ServerMeets` | StabilityLink12/Pods/BoringSSL-GRPC/ssl/handshake_server.cc:432-1461 | the same on the server's side |
| `HandshakeMessages.ClientPutOff` | StabilityLink12/Pods/BoringSSL-GRPC/ssl/handshake_client.cc:871-1564 | a client is put off exactly where it waits for the application: to verify or choose a certificate, to sign, for a Channel ID, and under False Start |
| `HandshakeMessages.ServerPutOff` | StabilityLink12/Pods/BoringSSL-GRPC/ssl/handshake_server.cc:432-1267 | a server is put off exactly where it does: for a ClientHello, to choose a certificate or a session, to sign, to verify, and to decrypt |
| `HandshakeRun.TranscriptsAgree` | StabilityLink12/Pods/BoringSSL-GRPC/ssl/handshake.cc:380-429 | one transcript is always the beginning of the other; at both Finished checks they are equal, and at the end |
| `HandshakeRun.StopsOnlyWhenDone` | StabilityLink12/Pods/BoringSSL-GRPC/ssl/handshake.cc:491-626 | when nothing can happen any more both sides are done and nothing is left on the wire |
| `HandshakeProgress.StepDecreases` | StabilityLink12/Pods/BoringSSL-GRPC/ssl/handshake.cc:491-626 | a step that does something makes what is left smaller |
| `HandshakeProgress.HandshakeEnds` | StabilityLink12/Pods/BoringSSL-GRPC/ssl/handshake.cc:491-626 | a run in which nothing is put off has at most 376 steps |
| `HandshakeDriver.Driver.Run` | StabilityLink12/Pods/BoringSSL-GRPC/ssl/handshake.cc:491-626 | in either role: the loop is a run of such steps by this side and ends, done or held up for the first time; held up means that its last step ended the wait of an operation put off, or was a flush that the transport did not finish, or that there is nothing to read where it is to read |
| `HandshakeDriver.Driver.ResolveWait` | StabilityLink12/Pods/BoringSSL-GRPC/ssl/handshake.cc:494-611 | resolving a wait is a step unless there is nothing to read; the loop goes on if the wait is over and it was no operation put off, and otherwise the side is held up as `HeldAt` says |
| `HandshakeDriver.OwnStepsAreSteps` | StabilityLink12/Pods/BoringSSL-GRPC/ssl/handshake.cc:491-626 | the steps of one side are steps of the run of both |
| `SslBuffer.OffsetFollows` | StabilityLink12/Pods/BoringSSL-GRPC/ssl/ssl_buffer.cc:47-97 | what is left of the queue is right at every address and after any consuming exactly if the capacity asked for is at most 65529 |
| `SslBuffer.UnluckyBuffer` | StabilityLink12/Pods/BoringSSL-GRPC/ssl/ssl_buffer.cc:90-97 | a buffer of 65535 bytes from offset 7: with all but the last byte consumed it holds a different byte |
| `SslBuffer.Buffer.EnsureCap` | StabilityLink12/Pods/BoringSSL-GRPC/ssl/ssl_buffer.cc:47-81 | room is made, for any capacity up to 65535, and the bytes queued stay; above it nothing changes |
| `SslBuffer.Buffer.Append` | StabilityLink12/Pods/BoringSSL-GRPC/ssl/ssl_buffer.cc:83-88 | bytes are added behind the queue |
| `SslBuffer.Buffer.Consume` | StabilityLink12/Pods/BoringSSL-GRPC/ssl/ssl_buffer.cc:90-97 | the bookkeeping in 16 bits; in a block below 2^16 the bytes are taken off the front and the rest stays |
| `SslBuffer.Buffer.Clear` | StabilityLink12/Pods/BoringSSL-GRPC/ssl/ssl_buffer.cc:39-45 | the queue is empty |
| `TlsWriter.Connection.FlushBuffer` | StabilityLink12/Pods/BoringSSL-GRPC/ssl/ssl_buffer.cc:239-252 | the buffer goes to the transport from its front, as far as it is taken |
| `TlsWriter.Connection.AddRecord` | StabilityLink12/Pods/BoringSSL-GRPC/ssl/s3_both.cc:135-165 | a record is sealed behind the flight |
| `TlsWriter.Connection.AddMessage` | StabilityLink12/Pods/BoringSSL-GRPC/ssl/s3_both.cc:184-205 | a message is sealed whole, in order, in at least one record even if it is empty, and none longer than the limit |
| `TlsWriter.Connection.FlushFlight` | StabilityLink12/Pods/BoringSSL-GRPC/ssl/s3_both.cc:231-279 | what is left of an earlier record goes first, then the flight; success means that all that was sealed is on the wire, and with a transport that takes everything it succeeds |
| `TlsWriter.Connection.WritePending` | StabilityLink12/Pods/BoringSSL-GRPC/ssl/s3_pkt.cc:202-218 | only the same call finishes a record, and does if the transport takes everything; a wrong retry fails and leaves the wire and the buffer as they were |
| `TlsWriter.Connection.DoWrite` | StabilityLink12/Pods/BoringSSL-GRPC/ssl/s3_pkt.cc:221-289 | the flight goes into the buffer ahead of the record; the bytes are sealed by the first call for the record and by no repetition of it |
| `TlsWriter.Connection.WriteAppData` | StabilityLink12/Pods/BoringSSL-GRPC/ssl/s3_pkt.cc:129-200 | a call seals the caller's bytes from where the blocked calls had come to, up to what it reports or to where the next call takes up; a caller with fewer bytes than are done has nothing sealed and the count is cleared; with a cipher that seals and a transport that takes everything a right call that fits the buffer succeeds |
| `TlsWriter.PerformSend` | StabilityLink12/Pods/BoringSSL-GRPC/ssl/s3_pkt.cc:129-200 | the records carry what has been reported and then what is still to be, each byte once and in order, after a call exactly if it has no fewer bytes than are done |
| `TlsWriter.ShortRetry` | StabilityLink12/Pods/BoringSSL-GRPC/ssl/s3_pkt.cc:154-157 | after a call with fewer, a right one has bytes sealed again that had been |
| `TlsWriter.Session` | StabilityLink12/Pods/BoringSSL-GRPC/ssl/s3_pkt.cc:129-289 | over every run, up to the first call to write that has fewer bytes than are done or meets an unlucky block: the wire is a prefix of the records in seal order, no record is too long, and the application bytes in them are a prefix of what was queued, none lost, repeated or out of order, the front of them reported |
| `CipherChoice.Search` | StabilityLink12/Pods/BoringSSL-GRPC/ssl/handshake_server.cc:389-421 | the one-pass search finds the best acceptable place by groups, and none exactly if there is none |
| `CipherChoice.ChooseCipher` | StabilityLink12/Pods/BoringSSL-GRPC/ssl/handshake_server.cc:357-424 | by the server's groups with the client's ranks inside them, or the first of the client's list; none exactly if no common cipher is usable |
| `CipherChoice.UsableIs` | StabilityLink12/Pods/BoringSSL-GRPC/ssl/handshake_server.cc:394-401 | a cipher is usable exactly if the version is one of its own and the server shares one of its ways of key exchange and of authentication |
| `CipherChoice.GroupsOfTwo` | StabilityLink12/Pods/BoringSSL-GRPC/ssl/handshake_server.cc:389-421 | of two ciphers in one group the other side's first is best, of two in groups of their own one's own first |
| `CipherChoice.BestIsUnique` | StabilityLink12/Pods/BoringSSL-GRPC/ssl/internal.h:1860-1888 | the order of preference determines the cipher |
| `CipherChoice.BestIsFirst` | StabilityLink12/Pods/BoringSSL-GRPC/ssl/internal.h:1872-1874 | without groups the best is the first acceptable |
| `Premaster.MsbW` | StabilityLink12/Pods/BoringSSL-GRPC/crypto/internal.h:244-246 | the top bit in every position |
| `Premaster.IsZeroW` | StabilityLink12/Pods/BoringSSL-GRPC/crypto/internal.h:303-316 | all ones exactly for zero |
| `Premaster.EqW` | StabilityLink12/Pods/BoringSSL-GRPC/crypto/internal.h:325-328 | all ones exactly for equal words |
| `Premaster.IsZero8` | StabilityLink12/Pods/BoringSSL-GRPC/crypto/internal.h:320-322 | the same, as a byte |
| `Premaster.Eq8` | StabilityLink12/Pods/BoringSSL-GRPC/crypto/internal.h:332-334 | the same, as a byte |
| `Premaster.Select8` | StabilityLink12/Pods/BoringSSL-GRPC/crypto/internal.h:359-362 | with a full mask the first, with an empty one the second |
| `Premaster.CheckPadding` | StabilityLink12/Pods/BoringSSL-GRPC/ssl/handshake_server.cc:1157-1171 | the mask is full exactly if padding and version are right at every place |
| `Premaster.GoodHolds` | StabilityLink12/Pods/BoringSSL-GRPC/ssl/handshake_server.cc:1156-1171 | the places are right exactly if decoding the block by section 7.2.2 of RFC 3447 gives 48 bytes that begin with the version |
| `Premaster.UnpadIs` | StabilityLink12/Pods/BoringSSL-GRPC/ssl/handshake_server.cc:1146-1171 | a block decodes to a message exactly if it is the message padded as in section 7.2.1 of RFC 3447, with at least eight nonzero bytes |
| `Premaster.HoldsIs` | StabilityLink12/Pods/BoringSSL-GRPC/ssl/handshake_server.cc:1146-1171 | what the block is to hold: 48 bytes that begin with the version, padded |
| `Premaster.SelectPremaster` | StabilityLink12/Pods/BoringSSL-GRPC/ssl/handshake_server.cc:1146-1178 | the premaster is what the block holds exactly then, and otherwise the random bytes stay as they were |
| `Refcount.LockCount.Inc` | StabilityLink12/Pods/BoringSSL-GRPC/crypto/refcount_lock.c:29-35 | one more, unless saturated |
| `Refcount.LockCount.DecAndTestZero` | StabilityLink12/Pods/BoringSSL-GRPC/crypto/refcount_lock.c:37-51 | one less, unless saturated, and whether it is zero; abort at zero |
| `Refcount.StepRefines` | StabilityLink12/Pods/BoringSSL-GRPC/crypto/refcount_c11.c:37-65 | each step of a thread ends no operation and touches nothing, or is one whole operation of the lock version |
| `Refcount.CasRefinesLock` | StabilityLink12/Pods/BoringSSL-GRPC/crypto/refcount_c11.c:37-65 | under every interleaving with failing swaps the operations are a sequence of lock operations with the same results and count |
| `Refcount.CountIsBalance` | StabilityLink12/Pods/BoringSSL-GRPC/crypto/internal.h:402-416 | unless it saturates, the count is the start plus increments minus decrements |
| `Refcount.SaturatedStays` | StabilityLink12/Pods/BoringSSL-GRPC/crypto/internal.h:402-416 | a saturated count stays, and no decrement of it is told zero |
| `Refcount.ZeroOnce` | StabilityLink12/Pods/BoringSSL-GRPC/crypto/internal.h:408-416 | in a history of whole operations none of which meets the count 0: no abort, and zero is told exactly once, by the last operation, exactly if the decrements match the start and the increments |
| `Refcount.BalancedIsFreedOnce` | StabilityLink12/Pods/BoringSSL-GRPC/crypto/refcount_c11.c:49-65 | the same for the history of the compare-and-swap version, under every interleaving |
| `Refcount.HoldersHold` | StabilityLink12/Pods/BoringSSL-GRPC/crypto/internal.h:402-416 | when every operation is called by a thread that holds a reference, and references may be handed on: the count is the number of references held, and no operation meets the count 0 |
| `Refcount.FreedOnce` | StabilityLink12/Pods/BoringSSL-GRPC/crypto/refcount_c11.c:37-65 | then, for the compare-and-swap version under every interleaving: no abort, and zero is told exactly once, by the last operation, exactly if no thread holds a reference or is still giving one up |

## Left out

- nanopb callbacks, extension fields, pointer and malloc fields, fixed-count arrays: user code, heap aliasing and special
  cases outside the round trip. A field table here has static storage only.
- nanopb `pb_decode_nullterminated`, `pb_release`, error strings, and C structure layout beyond the offsets of `FieldIter`.
- nanopb messages that break C's own rules: strings without a NUL in their storage, counts above the array size, more than
  one alternative of a union, null submessage pointers. Storage of an absent optional counts as absent.
- nanopb destinations after a decoder has failed: the C code leaves a partly written structure; here there is no result.
- RoundTrip.MessageRoundTrip: for encodings below 2^63 bytes; longer ones fit no memory, and their length could be taken for
  a sign-extended number.
- Varint.Varint32RoundTrip: says nothing of encodings that `pb_encode_varint` does not write; the check of the fifth byte
  applies only where that byte is the last, and `DecVarint32` has it so.
- Concat.UnknownFieldTransparent: for tags of 1 and more; with tag 0 an empty table behaves differently, as described above.
- DTLS timers, the choice of MTU, HelloVerifyRequest, cookies, alerts, application data, and the dispatch on the record type
  in `dtls1_open_handshake`; a ChangeCipherSpec is a record without content for the receiver.
- AEADs and BIOs: sealing adds at most its overhead and may fail, opening is a parameter, a transport takes what it likes.
- FlightSender.Sender.SendFlight: a connection that has been shut down for writing is not modelled.
- Transport.HeardIsReadable: that a network brings every packet in the end is not assumed and not proved.
- Transport.DeliveredInOrder: a handshake has fewer than 65536 messages, and a flight is begun when the last one has been read.
- TlsWriter.Session: says nothing of what comes after a call that would seal into a block of 65530 to 65535 bytes, where the
  bytes may be lost or not as the address has it, or after a retry with fewer bytes than are done; the application passes
  the front of what it has queued, as the interface asks.
- TlsWriter.Connection.DoWrite: like `WriteAppData`, requires that the record does not go into such a block.
- TlsWriter.Connection.WriteAppData: early data, KeyUpdate and alerts among the application data are not modelled.
- TLS 1.3, SSL 3.0, renegotiation, handoff, early data and warning alerts. A server that agrees on a status and then sends none,
  or sends an empty ticket, is not this server.
- HandshakeClient.ClientNeverRejects: rejects no message for its type or place; whether certificates, signatures and
  parameters inside are good is outside. The state functions are functions on values; the loop that runs them is a class.
- HandshakeRun.HandshakeIsCompatible: a message counts as one item on the connection; one cut into several records takes
  several reads of the same kind.
- Refcount.FreedOnce: fewer than 2^32 - 1 references are held at any time; what holds once the count has saturated is
  `SaturatedStays`.
- CipherChoice.ChooseCipher: the last cipher of a preference list ends its group, as the structure demands.
- Premaster.SelectPremaster: says what is selected; that the time it takes tells nothing is beyond a model of values.
- Swift sources, certificates, sessions, hashes and everything else in the tree.
