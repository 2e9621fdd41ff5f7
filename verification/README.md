# Verified models of two vendored libraries

This project models the two libraries with the hardest behaviour in the application's
dependencies and proves properties of the models with Dafny 4.11:

* **nanopb** (`nanopb/`): a Protocol Buffers encoder and decoder driven by descriptor
  tables.  `Wire` holds varints, zig-zag and fixed fields; `Message` the descriptors,
  structs and their slots; `Encode` and `Decode` what the two directions mean; `OutStream`,
  `InStream`, `FieldIter` and `RequiredFields` the streams, the circular iterator and the
  bit array as they run, proved to do what `Encode` and `Decode` say.  The laws are in
  `RoundTrip`, `Capacity`, `Unchanged` and `Composition`; in `WireFormat`, the bytes of each
  kind of value and what is made of other bytes; in `Merging`, fields that occur more than
  once; in `Presence`, which fields reach the receiver; in `Evolution`, descriptors that
  grow; and in `Truncation`, input that is cut short.
* **BoringSSL's DTLS** (`dtls/`): `Reassembly`, `Incoming`, `Handshake` and `Delivery` are the
  receiving side, from one fragment's bitmask through the ring of seven messages to whole
  runs against a network that reorders, repeats and loses; `Outgoing` and `Sending` the
  flights that are sent; `Verdicts` says which records end the connection; `EndToEnd` has
  both sides together; `ReplayWindow`, `RecordReading` and `RecordWriting` are the record
  numbers, and `Datagrams` the records on the wire.
* **BoringSSL's TLS up to 1.2** (`tls/`): `HandshakeFlow` says which message flows are allowed
  and what the handshake hash must be; `Channel`, `ClientHandshake` and `ServerHandshake` are
  the resumable state machines, step by step; `Scripts` writes the complete handshakes out,
  `ClientOrder` and `ServerOrder` prove that the allowed flows are exactly these, and
  `BothOrders` that the two sides fit together; `AeadContext`, `CipherChoice` and `AppWrite`
  are the nonces and additional data, the choice of a cipher and the resumable write.
* **BoringSSL's crypto** (`crypto/`): the branch-free removal of RSA padding and the
  compare-and-swap reference count.

`words/` holds what they share: machine words as numbers and as sets of bits, and big-endian
integers.  `dafny verify dfyconfig.toml` checks everything.

Objects that the source updates in place are classes with the same fields; their methods are
proved against specification functions, and the laws are lemmas about those.  The outcomes of
callbacks, parsers, cryptography, memory allocation and transports are arbitrary values or
parameters.  What a run is, in each module, is a sequence of events of any length.

## Where the model decides something

* A descriptor with exactly 32 required fields makes the decoder shift a 32-bit word by 32
  (pb_decode.c:947), which C leaves undefined.  The constant `Decode.SHIFT_BY_32` stands for
  what the platform makes of it, and nothing is assumed of it: such a message can be decoded
  exactly when it is 0, and the round trip says so.
* The check for default contents of an implicit-presence submessage (pb_encode.c:205-267)
  reads storage, not values: it ignores `has_` flags and sees an array's first entry only.
  `Presence.HiddenExactly` says exactly what it hides, by what can be seen in the value,
  `RoundTrip.HiddenByFirstEntry` is an input that is lost, and `Unchanged.DecodedUnchanged`
  says exactly which decoded messages survive encoding and decoding.  Storage beyond a value
  (an empty array, the rest of a union) is taken to be zeros there.
* Repeated occurrences of a submessage merge only if each brings all required fields of its
  own, because the check at the end of `pb_decode_noinit` (pb_decode.c:919-951) runs for each
  occurrence; `Merging.OccurrencesMerge` says exactly so.
* A truncated last tag ends a message instead of failing it (pb_decode.c:258-264), and a
  descriptor without fields answers to tag 0; both are kept.
* A fragment exactly seven messages ahead is an error and one further ahead is ignored
  (d1_both.cc:267-271 and 380-385), as in the source.
* A seal error inside a packet leaves the position past records that were never written
  (d1_both.cc:739-815).  `Sending.Flight` calls the flight lost until it is started again;
  `SendFlight` says exactly when that happens and `Outgoing.Gap` what is then missing.
* Overlapping fragments of one incomplete message overwrite each other (d1_both.cc:398-402):
  `Delivery.NeverReplaced` says which bytes can change, `Delivery.LastByteWins` is an input.
* The counter of early data has 16 bits and its limit 32 (internal.h:1507).
  `AppWrite.EarlyLimitHolds` proves that the limit is kept on every run exactly when it is
  below 2^16; a limit of 2^16 lets 2^16 + 1 single bytes through.
* A configured cipher list never ends inside a group (ssl_cipher.cc:1041-1048 closes a group
  and 1196-1199 refuses an open one).  `CipherChoice.Walk` is stated for any flags: a cipher is
  chosen exactly when some match is followed by the end of a group.

## Model

| member | source | states |
|---|---|---|
| Words.SetBit | dumpsite/Pods/nanopb/pb_decode.c:910-914 | setting bit b of a word adds b to the set of positions the word stands for |
| Words.BitTest | dumpsite/Pods/BoringSSL/ssl/dtls_record.cc:148-149 | testing bit b of a word decides membership in that set |
| Words.ShiftMoves | dumpsite/Pods/BoringSSL/ssl/dtls_record.cc:161-168 | shifting a word left moves its whole set of bits up and drops those past the width |
| Words.BeInverse | dumpsite/Pods/BoringSSL/ssl/d1_both.cc:463-468 | reading a big-endian integer undoes writing it, for every value of the width |
| Words.BeValueInjective | dumpsite/Pods/BoringSSL/ssl/dtls_record.cc:128-136 | big-endian byte strings of one width with one value are the same |
| Words.XorByteBits | dumpsite/Pods/BoringSSL/ssl/ssl_aead_ctx.cc:279-284 | a bit of the exclusive or of two bytes is set exactly when the two bits differ |
| Wire.VarintRoundTrip | dumpsite/Pods/nanopb/pb_decode.c:209-229 | every value below 2^width comes back from its varint, whatever follows it |
| Wire.Varint32RoundTrip | dumpsite/Pods/nanopb/pb_decode.c:173-207 | the same for the 32-bit reader |
| Wire.Varint64RoundTrip | dumpsite/Pods/nanopb/pb_encode.c:494-514 | the same for the 64-bit writer and reader |
| Wire.DecVarintMeaning | dumpsite/Pods/nanopb/pb_decode.c:209-229 | exactly which byte strings a varint reader accepts, and that it yields the little-endian base-128 value modulo the word, or stops after the word is full |
| Wire.DecVarintAccepts | dumpsite/Pods/nanopb/pb_decode.c:209-229 | an accepted varint, however padded, yields its value modulo the word |
| Wire.DecVarintBound | dumpsite/Pods/nanopb/pb_decode.c:173-207 | a decoded varint fits its word |
| Wire.DecVarintFromExtend | dumpsite/Pods/nanopb/pb_decode.c:209-229 | a successful read does not depend on what follows |
| Wire.ZigZagValue | dumpsite/Pods/nanopb/pb_encode.c:516-525 | zig-zag interleaves negative and non-negative numbers |
| Wire.ZigZagBijection | dumpsite/Pods/nanopb/pb_decode.c:1118-1130 | zig-zag and its inverse are mutually inverse on all 64-bit words |
| Wire.FixedRoundTrip | dumpsite/Pods/nanopb/pb_decode.c:1132-1163 | little-endian fixed fields come back |
| Message.SlotIndexCount | dumpsite/Pods/nanopb/pb_common.c:45-58 | every field's slot lies inside the struct |
| Message.SharedExactly | dumpsite/Pods/nanopb/pb_common.c:45-58 | two fields share a slot exactly when an unbroken run of members of one union joins them |
| Message.PutElsewhere | dumpsite/Pods/nanopb/pb_common.c:45-58 | storing into a field is seen through the fields of its own union and through no others |
| Message.DefaultsOk | dumpsite/Pods/nanopb/pb_decode.c:763-846 | the defaults of a well-formed descriptor are a well-formed message |
| Message.PutOk | dumpsite/Pods/nanopb/pb_decode.c:356-429 | storing a well-formed slot keeps the message well-formed |
| Encode.EncodeSucceeds | dumpsite/Pods/nanopb/pb_encode.c:451-473 | for every well-formed descriptor, whatever its required fields and implicit-presence submessages, encoding succeeds exactly when every count and byte count at every nesting level is within its capacity |
| OutStream.Stream.FromBuffer | dumpsite/Pods/nanopb/pb_encode.c:74-89 | a stream over a buffer |
| OutStream.Stream.Sizing | dumpsite/Pods/nanopb/pb_encode.c:480-489 | the sizing stream |
| OutStream.Stream.Sub | dumpsite/Pods/nanopb/pb_encode.c:627-637 | the substream of a submessage, limited to the size found before |
| OutStream.Stream.Write | dumpsite/Pods/nanopb/pb_encode.c:62-109 | appends exactly the given bytes, or fails without touching what is past the limit, exactly when a writing stream lacks room |
| OutStream.Stream.CopyTo | dumpsite/Pods/nanopb/pb_encode.c:62-72 | the bytes go to the position and nowhere else |
| OutStream.Stream.EncodeVarint | dumpsite/Pods/nanopb/pb_encode.c:494-514 | emits the canonical varint |
| OutStream.Stream.EncodeTag | dumpsite/Pods/nanopb/pb_encode.c:553-557 | emits a tag |
| OutStream.Stream.EncodeString | dumpsite/Pods/nanopb/pb_encode.c:592-598 | emits a length-prefixed string |
| OutStream.Stream.EncodeFixed32 | dumpsite/Pods/nanopb/pb_encode.c:527-536 | emits four bytes, least significant first |
| OutStream.Stream.EncodeFixed64 | dumpsite/Pods/nanopb/pb_encode.c:538-551 | emits eight bytes, least significant first |
| OutStream.Stream.EncodeScalar | dumpsite/Pods/nanopb/pb_encode.c:652-716 | emits a number by the field's type and size, or refuses an unknown size |
| OutStream.Stream.WriteNull | dumpsite/Pods/nanopb/pb_encode.c:140-151 | counts bytes on a sizing stream without data |
| OutStream.Stream.EncodeValue | dumpsite/Pods/nanopb/pb_encode.c:718-776 | emits one payload by the field's type, or refuses one over its capacity |
| OutStream.Stream.EncodeTagged | dumpsite/Pods/nanopb/pb_encode.c:559-590 | emits a tag and a payload |
| OutStream.Stream.EncodeItem | dumpsite/Pods/nanopb/pb_encode.c:159-197 | one entry of an array, with its tag unless packed |
| OutStream.Stream.EncodeLength | dumpsite/Pods/nanopb/pb_encode.c:150-155 | the length of a packed array or a submessage; a sizing stream counts what follows without writing it |
| OutStream.Stream.EncodeItems | dumpsite/Pods/nanopb/pb_encode.c:176-198 | emits the entries of an array, each with its tag unless packed |
| OutStream.Stream.EncodeArray | dumpsite/Pods/nanopb/pb_encode.c:116-201 | emits an array packed or not, or refuses one over its capacity |
| OutStream.Stream.EncodePacked | dumpsite/Pods/nanopb/pb_encode.c:126-174 | the size found first is the size of what is then written, also on a sizing stream that skips the data |
| OutStream.Stream.CheckDefault | dumpsite/Pods/nanopb/pb_encode.c:205-267 | whether a value passes for its default, by the recursive walk over a submessage's storage |
| OutStream.Stream.CheckSlot | dumpsite/Pods/nanopb/pb_encode.c:232-243 | the same for the storage of one field inside a submessage: no has_ flag is asked for, and of an array the first entry is seen |
| OutStream.Stream.HasValue | dumpsite/Pods/nanopb/pb_encode.c:280-303 | whether there is anything to encode for a field, by its kind of presence |
| OutStream.Stream.EncodeField | dumpsite/Pods/nanopb/pb_encode.c:271-349 | emits a field if presence calls for it |
| OutStream.Stream.EncodeMessage | dumpsite/Pods/nanopb/pb_encode.c:451-473 | emits all fields in descriptor order |
| OutStream.Stream.EncodeFields | dumpsite/Pods/nanopb/pb_encode.c:451-473 | the loop over the fields |
| OutStream.Stream.EncodeSubmessage | dumpsite/Pods/nanopb/pb_encode.c:600-648 | sizes, writes the length and writes the submessage; the size cannot have changed, at any nesting level |
| OutStream.Stream.WriteBody | dumpsite/Pods/nanopb/pb_encode.c:627-648 | writes the body of a submessage, or fails exactly for lack of room; it always has the size found before |
| OutStream.GetEncodedSize | dumpsite/Pods/nanopb/pb_encode.c:480-489 | the sizing pass succeeds exactly when there is an encoding, and reports exactly its length |
| OutStream.EncodeInto | dumpsite/Pods/nanopb/pb_encode.c:451-473 | encoding into a buffer of a given size succeeds exactly when sizing does and reports at most that size; nothing past the size is touched |
| Decode.DecMessageFits | dumpsite/Pods/nanopb/pb_decode.c:852-953 | whatever the input, a decoded message has every value of its descriptor's type, every number in its range, and the struct laid out as it was |
| Decode.DecFieldFits | dumpsite/Pods/nanopb/pb_decode.c:356-429 | the same for one field; a union then holds that field |
| Capacity.DecFieldInRoom | dumpsite/Pods/nanopb/pb_decode.c:356-429 | decoding a field never overfills its array or buffer, packed or not |
| Capacity.DecMessageInRoom | dumpsite/Pods/nanopb/pb_decode.c:852-953 | whatever the input, at every nesting level every array of a decoded message has at most array_size entries, every byte string fits its buffer with its size field and every text with its NUL |
| Capacity.DecodedReencodes | dumpsite/Pods/nanopb/pb_decode.c:955-967 | every message that was decoded can be encoded, and, unless a descriptor has exactly 32 required fields, decoding those bytes succeeds and yields the canonical message; for at most 63 required fields in each |
| Unchanged.DecMessageTidy | dumpsite/Pods/nanopb/pb_decode.c:852-953 | whatever the input, at every nesting level an absent optional field of a decoded message holds its default and a union a member of its own |
| Unchanged.CanonSame | dumpsite/Pods/nanopb/pb_encode.c:271-349 | a message with nothing in its absent fields is its own canonical form exactly when, at every level, no field of implicit presence passes for its default without being it |
| Unchanged.DecodedUnchanged | dumpsite/Pods/nanopb/pb_decode.c:955-967 | a decoded message that is encoded and decoded again comes back unchanged exactly under that condition, unless a descriptor has exactly 32 required fields; for at most 63 required fields in each |
| FieldIter.Iter.constructor | dumpsite/Pods/nanopb/pb_common.c:8-18 | the iterator starts at the first field |
| FieldIter.Iter.Next | dumpsite/Pods/nanopb/pb_common.c:20-76 | the iterator's slot and required-field number are functions of its position, through oneof members and wrap-around |
| FieldIter.Iter.Find | dumpsite/Pods/nanopb/pb_common.c:78-95 | the field found does not depend on where the search starts; a miss restores the position; an empty descriptor answers to tag 0 |
| InStream.Stream.ReadByte | dumpsite/Pods/nanopb/pb_decode.c:127-143 | reads one byte or fails at the end |
| InStream.Stream.Read | dumpsite/Pods/nanopb/pb_decode.c:76-123 | reads exactly the bytes asked for or fails |
| InStream.Stream.DecodeVarint | dumpsite/Pods/nanopb/pb_decode.c:173-229 | the loop over bytes yields what the varint denotes, for both widths |
| InStream.Stream.SkipVarint | dumpsite/Pods/nanopb/pb_decode.c:231-240 | skips to the last byte of a varint |
| InStream.Stream.SkipString | dumpsite/Pods/nanopb/pb_decode.c:242-249 | skips a length-prefixed string |
| InStream.Stream.SkipField | dumpsite/Pods/nanopb/pb_decode.c:277-287 | skips a payload by wire type or refuses the type |
| InStream.Stream.DecodeTag | dumpsite/Pods/nanopb/pb_decode.c:251-275 | a tag, the end of the message, or an error; a truncated last tag and a zero tag count as the end |
| InStream.Stream.MakeSubstream | dumpsite/Pods/nanopb/pb_decode.c:322-335 | carves a length-limited substream that fits |
| InStream.Stream.CloseSubstream | dumpsite/Pods/nanopb/pb_decode.c:337-350 | the parent goes on after the substream |
| InStream.Stream.DecodeFixed | dumpsite/Pods/nanopb/pb_decode.c:1132-1163 | reads a fixed field |
| InStream.Stream.DecodeScalar | dumpsite/Pods/nanopb/pb_decode.c:1165-1260 | reads a number, clamped to the field's size or refused |
| InStream.Stream.DecodeBuffer | dumpsite/Pods/nanopb/pb_decode.c:1262-1332 | reads bytes or a string that fits, NUL included |
| InStream.Stream.DecodeFixedLength | dumpsite/Pods/nanopb/pb_decode.c:1358-1379 | reads bytes of the declared length, or none as zeros |
| InStream.Stream.DecodeValue | dumpsite/Pods/nanopb/pb_decode.c:1165-1379 | reads one payload by type |
| InStream.Stream.DecodeSubmessage | dumpsite/Pods/nanopb/pb_decode.c:1334-1356 | reads a nested message into the struct, with defaults only for array elements |
| InStream.Stream.DecodeNested | dumpsite/Pods/nanopb/pb_decode.c:1349-1354 | the message in a substream, after which the parent goes on behind it |
| InStream.Stream.DecodePacked | dumpsite/Pods/nanopb/pb_decode.c:376-403 | reads a packed array up to its capacity |
| InStream.Stream.DecodeEntries | dumpsite/Pods/nanopb/pb_decode.c:385-393 | the loop over packed entries |
| InStream.Stream.DecodeField | dumpsite/Pods/nanopb/pb_decode.c:356-429 | reads a field and updates presence, count or oneof choice |
| InStream.Stream.DecodeLoop | dumpsite/Pods/nanopb/pb_decode.c:863-917 | the loop over the input: struct, required fields seen, and what is unread when it ends |
| InStream.Stream.DecodeOne | dumpsite/Pods/nanopb/pb_decode.c:863-917 | one turn of that loop |
| InStream.LoopSteps | dumpsite/Pods/nanopb/pb_decode.c:863-917 | the loop is its tag, the field it announces, skipped or decoded, and the loop on what is left |
| InStream.Stream.DecodeTagged | dumpsite/Pods/nanopb/pb_decode.c:878-917 | the field a tag announces, decoded or skipped; an empty descriptor answers to tag 0 and then fails |
| InStream.Stream.DecodeKnown | dumpsite/Pods/nanopb/pb_decode.c:905-917 | a field that was found, its required bit set |
| InStream.Stream.Note | dumpsite/Pods/nanopb/pb_decode.c:908-914 | the bit of a required field that was found, and no other |
| InStream.Stream.DecodeNoinit | dumpsite/Pods/nanopb/pb_decode.c:852-953 | decoding succeeds exactly when the loop does, every required field was seen and, for exactly 32 required fields at any level, the undefined shift yields zero |
| InStream.Stream.DecodeInit | dumpsite/Pods/nanopb/pb_decode.c:955-967 | decoding into defaults |
| RequiredFields.Mark | dumpsite/Pods/nanopb/pb_decode.c:908-914 | sets the bit of one required field and no other |
| RequiredFields.Complete | dumpsite/Pods/nanopb/pb_decode.c:920-950 | for fewer than 64 required fields the check is exact, except that for 32 it also needs an undefined shift to yield zero |
| RequiredFields.NumbersComplete | dumpsite/Pods/nanopb/pb_common.c:65-70 | numbering required fields consecutively loses nothing: all bits are set exactly when all required fields were seen |
| Composition.DecodeConcat | dumpsite/Pods/nanopb/pb_decode.c:863-917 | decoding a complete field sequence and what follows is decoding the two in turn into one struct |
| Composition.SeenAccumulates | dumpsite/Pods/nanopb/pb_decode.c:908-914 | the required fields seen never steer decoding |
| Composition.UnknownFieldIsInert | dumpsite/Pods/nanopb/pb_decode.c:277-287 | a complete unknown field at any field boundary changes nothing |
| Composition.TruncatedTagEnds | dumpsite/Pods/nanopb/pb_decode.c:251-275 | a last tag cut short after at most five bytes ends the message without an error; a longer one fails it |
| RoundTrip.TagRoundTrip | dumpsite/Pods/nanopb/pb_decode.c:251-275 | tags below 2^29 come back |
| RoundTrip.ScalarRoundTrip | dumpsite/Pods/nanopb/pb_decode.c:1165-1260 | numbers of every type come back |
| RoundTrip.PackedRoundTrip | dumpsite/Pods/nanopb/pb_decode.c:376-403 | packed arrays come back |
| RoundTrip.FieldsRoundTrip | dumpsite/Pods/nanopb/pb_decode.c:863-917 | each field sequence comes back in turn, unless a string lacks room for its NUL or a submessage's descriptor cannot be checked; for at most 63 required fields in each descriptor this is what the decoder does |
| RoundTrip.DecodeAfterEncode | dumpsite/Pods/nanopb/pb_decode.c:955-967 | for every well-formed nested descriptor and message with an encoding below 2^32 bytes, decoding what was encoded succeeds exactly when every emitted string is NUL-terminated in its buffer and no descriptor in use has exactly 32 required fields (or the undefined shift yields zero); it then consumes everything and yields the canonical message; for at most 63 required fields in each descriptor this is what the decoder does |
| RoundTrip.CanonMeaning | dumpsite/Pods/nanopb/pb_encode.c:271-349 | the canonical message is the original in every field that was emitted, at every level; a slot for which none was, a field's or a union's, holds its default |
| RoundTrip.ImplicitPresence | dumpsite/Pods/nanopb/pb_encode.c:285-289 | a field of implicit presence comes back exactly when the default check does not hide it, or its contents are the default anyway |
| RoundTrip.HiddenByFirstEntry | dumpsite/Pods/nanopb/pb_encode.c:225-266 | the check can hide more than defaults: a submessage with the array 0, 5 is not sent and comes back empty |
| WireFormat.VarintBytes | dumpsite/Pods/nanopb/pb_encode.c:494-514 | a varint has seven bits of the value a byte, lowest first, in as few bytes as it takes |
| WireFormat.TagOnWire | dumpsite/Pods/nanopb/pb_encode.c:553-590 | a tag is the varint of eight times the field number and the type's wire type, by number |
| WireFormat.VarintOnWire | dumpsite/Pods/nanopb/pb_encode.c:652-686 | a number that is not zig-zagged is sent as itself or, if negative, as its 64-bit two's complement |
| WireFormat.ZigZagOnWire | dumpsite/Pods/nanopb/pb_encode.c:688-704 | a zig-zag number is sent as twice its magnitude, less one if negative |
| WireFormat.BytesFit | dumpsite/Pods/nanopb/pb_decode.c:1262-1297 | a byte string is sent, and taken, exactly when it fits its buffer with four bytes of size |
| WireFormat.TextReads | dumpsite/Pods/nanopb/pb_decode.c:1299-1332 | a text is taken exactly when what was sent fits with a NUL, and ends at its first NUL |
| WireFormat.FixedLengthReads | dumpsite/Pods/nanopb/pb_decode.c:1358-1379 | bytes of fixed length are taken with that length or with none, which stands for zeros, and with no other |
| WireFormat.Fixed32Reads | dumpsite/Pods/nanopb/pb_decode.c:1132-1144 | four bytes are read least significant first |
| WireFormat.Fixed64Reads | dumpsite/Pods/nanopb/pb_decode.c:1146-1163 | eight bytes are the low four and the high four |
| WireFormat.UnsignedReads | dumpsite/Pods/nanopb/pb_decode.c:1202-1224 | an unsigned field takes exactly the words below the end of its range |
| WireFormat.SignedReads | dumpsite/Pods/nanopb/pb_decode.c:1165-1200 | a signed field of up to 32 bits reads a number from any word that is the number modulo 2^32, sign-extended or not, one of 64 bits from the whole word; either takes exactly what fits it |
| WireFormat.ZigZagReads | dumpsite/Pods/nanopb/pb_decode.c:1226-1248 | a zig-zag field reads even words as 0 and up, odd ones as -1 and down, and takes exactly what fits it |
| WireFormat.ZeroTagEnds | dumpsite/Pods/nanopb/pb_decode.c:266-270 | a tag word of zero, however long, ends the message where it stands and leaves the rest unread |
| WireFormat.FieldNumberZero | dumpsite/Pods/nanopb/pb_decode.c:863-905 | a field number of zero with a nonzero wire type is skipped, except that a descriptor without fields takes it for its terminator and fails |
| Merging.SubmessageStep | dumpsite/Pods/nanopb/pb_decode.c:1334-1356 | a required, optional or implicit-presence submessage is decoded into what its field holds, and flagged |
| Merging.OccurrencesMerge | dumpsite/Pods/nanopb/pb_decode.c:1346-1351 | two occurrences of such a submessage, each complete in its turn, leave what one occurrence with both payloads leaves; if either is not complete in its turn, decoding fails |
| Merging.SubmessageInParts | dumpsite/Pods/nanopb/pb_decode.c:852-966 | in a whole message, at any place: sending a submessage in two parts decodes to what sending it at once does |
| Merging.EntryStartsAfresh | dumpsite/Pods/nanopb/pb_decode.c:403-413 | a new entry of an array of submessages is its payload decoded into the defaults, if there is room, whatever the array holds |
| Merging.MemberStartsAfresh | dumpsite/Pods/nanopb/pb_decode.c:415-424 | a union member that is a submessage is its payload decoded into the defaults, whatever the union held |
| Merging.ValueReplaces | dumpsite/Pods/nanopb/pb_decode.c:364-372 | a number, byte string or text replaces what its field or union held |
| Merging.LastValueStays | dumpsite/Pods/nanopb/pb_decode.c:356-429 | of several occurrences of such a value the last one stays |
| Merging.PackedOccurrencesAppend | dumpsite/Pods/nanopb/pb_decode.c:374-402 | packed entries may come in several occurrences and are appended in order |
| Merging.UnpackedAppends | dumpsite/Pods/nanopb/pb_decode.c:403-413 | an unpacked number of a repeated field is appended, too |
| Presence.SilentIffNoBytes | dumpsite/Pods/nanopb/pb_encode.c:272-347 | a field contributes no bytes exactly when the encoder leaves it out |
| Presence.OnlyNothingIsHidden | dumpsite/Pods/nanopb/pb_encode.c:207-267 | a number, byte string or text of implicit presence contributes no bytes exactly when it is zero or empty |
| Presence.ImplicitValueComesBack | dumpsite/Pods/nanopb/pb_encode.c:285-289 | after encoding and decoding it is what was stored, unless that was zero or empty: then it is the default |
| Presence.EveryValueComesBack | dumpsite/Pods/nanopb/pb_encode.c:203-206 | so with a default of zero every value comes back |
| Presence.BlankExactly | dumpsite/Pods/nanopb/pb_encode.c:220-226 | storage of zeros passes the check exactly when the descriptor has no byte string of fixed length in it, at any depth |
| Presence.HiddenExactly | dumpsite/Pods/nanopb/pb_encode.c:227-245 | nothing is sent for a field of implicit presence exactly when no path through first entries and present members leads to anything but zeros and empty strings, and there is no byte string of fixed length |
| Presence.ImplicitMessageComesBack | dumpsite/Pods/nanopb/pb_encode.c:227-245 | a submessage of implicit presence comes back as its defaults exactly then, and otherwise with what reaches the receiver of its fields |
| Presence.ExplicitComesBack | dumpsite/Pods/nanopb/pb_encode.c:305-344 | a required field always comes back, an optional one with its flag, an array with all its entries in order, a union with the member it held |
| Evolution.SkipsValue | dumpsite/Pods/nanopb/pb_decode.c:277-291 | every payload the encoder writes is skipped to its last byte by its wire type |
| Evolution.ForeignFieldIsSkipped | dumpsite/Pods/nanopb/pb_decode.c:898-906 | everything the encoder may write for a field the reader does not list, arrays included, changes nothing |
| Truncation.CutValue | dumpsite/Pods/nanopb/pb_decode.c:56-70 | no proper prefix of a payload is a payload of the same type |
| Truncation.CutIsRefused | dumpsite/Pods/nanopb/pb_decode.c:914-916 | a message that is cut inside the payload of a field is refused |
| Truncation.CutForeignIsRefused | dumpsite/Pods/nanopb/pb_decode.c:902-905 | so is one cut inside a field the reader does not list |
| Truncation.UnknownWireType | dumpsite/Pods/nanopb/pb_decode.c:277-287 | a field the reader does not list is refused if its wire type is none of the four that can be skipped |
| Evolution.NewerWriter | dumpsite/Pods/nanopb/pb_decode.c:898-906 | a reader with the older descriptor makes of a newer writer's message what it makes of the message without the additional fields |
| Reassembly.BitRangeBits | dumpsite/Pods/BoringSSL/ssl/d1_both.cc:203-205 | bit_range has exactly the bits from start to end |
| Reassembly.ScanIsExact | dumpsite/Pods/BoringSSL/ssl/d1_both.cc:238-251 | the completeness scan succeeds exactly when every byte of the message is marked |
| Reassembly.MarkedMasks | dumpsite/Pods/BoringSSL/ssl/d1_both.cc:226-236 | the assignments of a mark add exactly its byte range to the mask |
| Reassembly.Fragment.constructor | dumpsite/Pods/BoringSSL/ssl/d1_both.cc:152-199 | a new message has no bytes; an empty one is complete at once |
| Reassembly.Fragment.Mark | dumpsite/Pods/BoringSSL/ssl/d1_both.cc:211-251 | after any marks the mask is the union of their ranges, with no bit past the message, and disappears exactly at the mark that completes it |
| Reassembly.Scan | dumpsite/Pods/BoringSSL/ssl/d1_both.cc:238-247 | the loop that looks for a bit not yet set finds none exactly when the mask is full |
| Reassembly.SetBits | dumpsite/Pods/BoringSSL/ssl/d1_both.cc:226-236 | the in-place update of the mask |
| Reassembly.SetFrom | dumpsite/Pods/BoringSSL/ssl/d1_both.cc:226-236 | the same by byte and bit: each byte of the mask becomes what marking the range makes of it |
| Handshake.ParseSerialize | dumpsite/Pods/BoringSSL/ssl/d1_both.cc:459-473 | parsing a fragment undoes serializing it, whatever follows in the record |
| Incoming.CopyBytes | dumpsite/Pods/BoringSSL/ssl/d1_both.cc:399-401 | copies a fragment's bytes to their offset and nothing else |
| Incoming.StoreBytes | dumpsite/Pods/BoringSSL/ssl/d1_both.cc:399-402 | a fragment adds exactly its bytes to the message under reassembly |
| Incoming.Queue.constructor | dumpsite/Pods/BoringSSL/ssl/internal.h:2464-2475 | an empty ring, to which nothing has happened |
| Incoming.Queue.GetIncoming | dumpsite/Pods/BoringSSL/ssl/d1_both.cc:265-295 | finds or creates the ring slot of a fragment, or refuses a mismatch, a message seven or more ahead, or one for which there is no memory |
| Incoming.Queue.Insert | dumpsite/Pods/BoringSSL/ssl/d1_both.cc:288-294 | a new message enters its own slot only |
| Incoming.Queue.Fill | dumpsite/Pods/BoringSSL/ssl/d1_both.cc:398-402 | storing a fragment disturbs no other slot |
| Incoming.Queue.Take | dumpsite/Pods/BoringSSL/ssl/d1_both.cc:392-403 | a complete message ignores a further fragment, any other takes its bytes; the other slots stay as they are |
| Incoming.Queue.OpenFragment | dumpsite/Pods/BoringSSL/ssl/d1_both.cc:346-403 | one fragment is one event: rejected, ignored or stored as the specification says; without memory it is rejected and nothing has happened |
| Incoming.Queue.Arrives | dumpsite/Pods/BoringSSL/ssl/d1_both.cc:346-403 | what a fragment does to the ring; seven ahead is an error, more is ignored |
| Incoming.Queue.OpenFirst | dumpsite/Pods/BoringSSL/ssl/d1_both.cc:346-403 | the first fragment of what is left of a record |
| Incoming.Queue.OpenHandshake | dumpsite/Pods/BoringSSL/ssl/d1_both.cc:344-406 | a record's fragments one by one until one is bad or finds no memory; nothing else has happened |
| Incoming.Queue.OpenCcs | dumpsite/Pods/BoringSSL/ssl/d1_both.cc:319-337 | a ChangeCipherSpec is noted, unless it is encrypted or not the single byte 1 |
| Incoming.Queue.TakeCcs | dumpsite/Pods/BoringSSL/ssl/d1_both.cc:486-490 | a ChangeCipherSpec that has arrived is used up once |
| Incoming.Queue.GetMessage | dumpsite/Pods/BoringSSL/ssl/d1_both.cc:408-424 | the current message, exactly when it is complete; it has then been looked at |
| Incoming.Queue.WhenComplete | dumpsite/Pods/BoringSSL/ssl/d1_both.cc:255-259 | what is complete in the ring is the current message with its bytes |
| Incoming.Queue.NextMessage | dumpsite/Pods/BoringSSL/ssl/d1_both.cc:426-438 | dropping the current message is one event: no other message changes and the 16-bit sequence number advances |
| Incoming.Queue.Drop | dumpsite/Pods/BoringSSL/ssl/d1_both.cc:429-430 | emptying a slot disturbs no other |
| Incoming.Queue.HasUnprocessed | dumpsite/Pods/BoringSSL/ssl/d1_both.cc:440-457 | whether anything but the current message, or a ChangeCipherSpec, is waiting |
| Incoming.Queue.SetReadState | dumpsite/Pods/BoringSSL/ssl/dtls_method.cc:81-95 | a cipher change is refused exactly when something is unprocessed, and otherwise advances the 16-bit epoch |
| Delivery.RecordDelivers | dumpsite/Pods/BoringSSL/ssl/d1_both.cc:344-406 | a record of several fragments has the effect of those fragments in turn, up to the first that is rejected |
| Delivery.RingInvariant | dumpsite/Pods/BoringSSL/ssl/d1_both.cc:265-295 | on every run each occupied slot holds a message of its own index within seven of the next one, across the 16-bit wrap, and a message looked at is still complete |
| Delivery.OccupantIsSame | dumpsite/Pods/BoringSSL/ssl/d1_both.cc:276 | the sequence-number assertion never fails |
| Delivery.NeverReplaced | dumpsite/Pods/BoringSSL/ssl/d1_both.cc:274-294 | a message in the ring stays until it is handed out complete: it keeps its identity and every position it had; a complete one does not change at all, and in an incomplete one a byte changes only where the new fragment covers it again |
| Delivery.LastByteWins | dumpsite/Pods/BoringSSL/ssl/d1_both.cc:398-402 | overlapping fragments need not agree: in a message still incomplete the byte that arrives last stays |
| Delivery.FaithfulRun | dumpsite/Pods/BoringSSL/ssl/d1_both.cc:344-438 | after any honest events each slot holds exactly the bytes that arrived in its window, and they are right |
| Delivery.HandedIsPrefix | dumpsite/Pods/BoringSSL/ssl/d1_both.cc:408-438 | the messages handed out are an exact prefix of those sent, under any reordering, duplication, loss and refragmentation |
| Delivery.CurrentIffArrived | dumpsite/Pods/BoringSSL/ssl/d1_both.cc:255-259 | the next message is available exactly when its byte ranges have all arrived, and then is the one sent |
| Verdicts.PassedOver | dumpsite/Pods/BoringSSL/ssl/d1_both.cc:380-385 | a fragment of a message handed out or too far ahead is as if it were not in the record |
| Verdicts.Refused | dumpsite/Pods/BoringSSL/ssl/d1_both.cc:364-391 | a fragment out of bounds, out of turn in the encrypted epoch, exactly seven ahead, or at odds with the message there is an error, and nothing in the record is stored from there on |
| Verdicts.CutShort | dumpsite/Pods/BoringSSL/ssl/d1_both.cc:353-362 | a fragment cut short by the end of its record is an error, and nothing of it is stored |
| Verdicts.Taken | dumpsite/Pods/BoringSSL/ssl/d1_both.cc:387-403 | every other fragment puts its bytes, and nothing else, into its message unless that is complete, and the record goes on |
| Verdicts.GenuineVerdict | dumpsite/Pods/BoringSSL/ssl/d1_both.cc:364-391 | on every run, a genuine fragment is refused exactly when its message is too long, it is out of turn in the encrypted epoch, or exactly seven ahead |
| Verdicts.RecordVerdict | dumpsite/Pods/BoringSSL/ssl/d1_both.cc:353-406 | a record of genuine fragments, old ones included, is refused exactly when it has such a fragment in it |
| Verdicts.HandedWasLookedAt | dumpsite/Pods/BoringSSL/ssl/d1_both.cc:426-438 | no message is handed out before the handshake has looked at it |
| Verdicts.UnprocessedExactly | dumpsite/Pods/BoringSSL/ssl/d1_both.cc:440-457 | the read cipher may change exactly when no ChangeCipherSpec is pending and no part of any message but the one looked at is waiting |
| Outgoing.Partition | dumpsite/Pods/BoringSSL/ssl/d1_both.cc:644-780 | the records sent so far carry each byte behind the position exactly once and no other byte |
| Outgoing.Announced | dumpsite/Pods/BoringSSL/ssl/d1_both.cc:683-733 | every message behind the position, even an empty one, has had a record |
| Outgoing.Gap | dumpsite/Pods/BoringSSL/ssl/d1_both.cc:739-780 | when the position is ahead of the records, the byte they stopped at was never sent, or, where that is an empty message or a ChangeCipherSpec, nothing of it |
| Outgoing.FollowNonEmpty | dumpsite/Pods/BoringSSL/ssl/d1_both.cc:694-714 | a fragment without bytes is sent only for a message without any |
| Outgoing.FollowTogether | dumpsite/Pods/BoringSSL/ssl/d1_both.cc:739-780 | runs of records that follow the flight compose |
| Outgoing.FollowHonest | dumpsite/Pods/BoringSSL/ssl/d1_both.cc:683-719 | every fragment that follows the flight is a true piece of a message sent |
| Outgoing.RecentMessage | dumpsite/Pods/BoringSSL/ssl/d1_both.cc:555-580 | a flight always has the last messages sent, all of them and no others |
| Sending.Flight.constructor | dumpsite/Pods/BoringSSL/ssl/internal.h:2443-2490 | an empty flight |
| Sending.Flight.Clear | dumpsite/Pods/BoringSSL/ssl/d1_both.cc:500-509 | forgets the flight |
| Sending.Flight.NoteReply | dumpsite/Pods/BoringSSL/ssl/d1_both.cc:433-437 | a message from the peer is noted as the reply exactly when the flight is complete |
| Sending.Flight.OnHandshakeComplete | dumpsite/Pods/BoringSSL/ssl/dtls_method.cc:71-79 | the final flight is forgotten if it had a reply, and otherwise kept, whole, to be sent again |
| Sending.Flight.AddMessage | dumpsite/Pods/BoringSSL/ssl/d1_both.cc:511-594 | a message joins the flight with the next sequence number, or starts a new one after a complete flight; at most seven |
| Sending.Flight.AddCcs | dumpsite/Pods/BoringSSL/ssl/d1_both.cc:555-602 | the same for a ChangeCipherSpec |
| Sending.Flight.SetWriteState | dumpsite/Pods/BoringSSL/ssl/dtls_method.cc:97-107 | a new 16-bit epoch keeps the previous cipher |
| Sending.Flight.SealNextMessage | dumpsite/Pods/BoringSSL/ssl/d1_both.cc:644-734 | seals the next fragment under the message's own epoch, as long as the room allows, or reports that there is no room |
| Sending.Flight.SealNextPacket | dumpsite/Pods/BoringSSL/ssl/d1_both.cc:739-780 | a packet fits the MTU, is not empty, follows the flight, strictly advances, and is as full as it can be; it fails only on a seal error or when the MTU is too small |
| Sending.Flight.UpdateMtu | dumpsite/Pods/BoringSSL/ssl/d1_both.cc:615-632 | an MTU below 228 is replaced unless queries are disabled |
| Sending.Flight.SetMtu | dumpsite/Pods/BoringSSL/ssl/ssl_lib.cc:1676-1682 | an MTU below 228 is refused |
| Sending.Flight.SendFlight | dumpsite/Pods/BoringSSL/ssl/d1_both.cc:782-827 | whatever writes fail and are taken back, the records written follow the flight up to the position, unless a seal error has lost part of a packet: then the position is ahead of them and what lies between was never written; every packet fits the MTU; with an MTU of 228 and 215 bytes of overhead it only stops for the transport or a seal error; the loop ends by the position's lexicographic order |
| Sending.Flight.SendPacket | dumpsite/Pods/BoringSSL/ssl/d1_both.cc:797-812 | one packet: written, taken back whole when the transport refuses it, or, after a seal error, lost exactly when records of it had been sealed |
| Sending.Flight.WritePacket | dumpsite/Pods/BoringSSL/ssl/d1_both.cc:806-815 | a packet that the transport takes extends the pass |
| Sending.Flight.FlushFlight | dumpsite/Pods/BoringSSL/ssl/d1_both.cc:829-834 | when it succeeds without an earlier seal error, the pass covers the whole flight |
| Sending.Flight.Retransmit | dumpsite/Pods/BoringSSL/ssl/d1_both.cc:836-845 | a successful retransmission covers the whole flight from its start; after a failed one the pass reaches the position exactly unless a seal error lost part of a packet |
| EndToEnd.PrefixDelivered | dumpsite/Pods/BoringSSL/ssl/d1_both.cc:344-438 | a running receiver that gets nothing but records a running sender has written hands out an exact prefix of the messages added to the sender's flights |
| EndToEnd.RecordTaken | dumpsite/Pods/BoringSSL/ssl/d1_both.cc:353-406 | a record of any fragments the sender ever wrote, however late, is refused exactly when one in it is of a message too long, out of turn in the encrypted epoch, or exactly seven ahead |
| EndToEnd.MessageArrives | dumpsite/Pods/BoringSSL/ssl/d1_both.cc:644-827 | for a running sender without losses, once each fragment of the current pass that carries part of a message has been received in its window, in any order and among others, all of the message has arrived |
| EndToEnd.FlightArrives | dumpsite/Pods/BoringSSL/ssl/d1_both.cc:408-424 | such a message, when it is its turn, is what a running receiver gets, with the bytes that were added to the flight |
| EndToEnd.OfferedIsReceived | dumpsite/Pods/BoringSSL/ssl/d1_both.cc:364-385 | a fragment of a message less than seven ahead that is not refused is received in its window, or its message has been handed out already |
| EndToEnd.FlightComplete | dumpsite/Pods/BoringSSL/ssl/d1_both.cc:344-438 | once each fragment of a pass was offered to a receiver that had reached the flight's first message, every message not yet handed out has arrived whole |
| EndToEnd.WholeFlight | dumpsite/Pods/BoringSSL/ssl/d1_both.cc:344-438 | one pass over a flight of at most seven messages is enough: as long as the running receiver has not handed out everything ever sent, the next message is there for it to get |
| EndToEnd.PassOfferedOn | dumpsite/Pods/BoringSSL/ssl/d1_both.cc:344-438 | and that stays so, whatever the receiver does and whatever else reaches it |
| ReplayWindow.ToU64 | dumpsite/Pods/BoringSSL/ssl/dtls_record.cc:128-136 | eight bytes read as a big-endian integer |
| ReplayWindow.Raise | dumpsite/Pods/BoringSSL/ssl/dtls_record.cc:160-168 | raising the top of the window shifts the map, or clears it past its width |
| ReplayWindow.Window.constructor | dumpsite/Pods/BoringSSL/ssl/internal.h:734-741 | an empty window |
| ReplayWindow.Window.Reset | dumpsite/Pods/BoringSSL/ssl/dtls_method.cc:90 | the window is cleared |
| ReplayWindow.Window.ShouldDiscard | dumpsite/Pods/BoringSSL/ssl/dtls_record.cc:140-150 | a number is discarded exactly when it was recorded or is 64 or more below the top |
| ReplayWindow.Window.Record | dumpsite/Pods/BoringSSL/ssl/dtls_record.cc:155-175 | recording adds exactly that number; bit i still says whether top - i was recorded |
| RecordReading.Reader.constructor | dumpsite/Pods/BoringSSL/ssl/internal.h:2458-2462 | reading starts in epoch 0 without a cipher |
| RecordReading.Reader.OpenRecord | dumpsite/Pods/BoringSSL/ssl/dtls_record.cc:177-272 | malformed headers drop the datagram, other refusals one record; only an authentic record of the current epoch that is new and short enough is recorded |
| RecordReading.Reader.SetReadState | dumpsite/Pods/BoringSSL/ssl/dtls_method.cc:88-93 | a new epoch starts an empty window |
| RecordReading.AcceptedOnce | dumpsite/Pods/BoringSSL/ssl/dtls_record.cc:225-259 | over a whole run no epoch and sequence number is accepted twice |
| RecordReading.AcceptedIffFresh | dumpsite/Pods/BoringSSL/ssl/dtls_record.cc:225-259 | a well-formed record is accepted exactly when it is of the epoch, authentic, short enough, not accepted before, and in or above the window |
| RecordReading.TopIsHighest | dumpsite/Pods/BoringSSL/ssl/dtls_record.cc:160-169 | the top of the window is the highest number accepted in the epoch |
| RecordReading.ForgeriesChangeNothing | dumpsite/Pods/BoringSSL/ssl/dtls_record.cc:235-249 | records that fail authentication change neither the window nor what is accepted |
| RecordWriting.SuccessorValue | dumpsite/Pods/BoringSSL/ssl/tls_record.cc:154-163 | the carry loop adds one modulo the width |
| RecordWriting.SequenceUpdate | dumpsite/Pods/BoringSSL/ssl/tls_record.cc:154-163 | increments in place, fails exactly on all ones and touches nothing else |
| RecordWriting.Writer.constructor | dumpsite/Pods/BoringSSL/ssl/internal.h:2458-2469 | writing starts at epoch 0, number 0 |
| RecordWriting.Writer.SealRecord | dumpsite/Pods/BoringSSL/ssl/dtls_record.cc:294-351 | a seal spends the next number of the current or the previous epoch, even when advancing the counter then fails or the ciphertext turns out to have 2^16 bytes or more |
| RecordWriting.Writer.CountOn | dumpsite/Pods/BoringSSL/ssl/tls_record.cc:154-163 | the six bytes after an epoch's two count on by one modulo 2^48 and report exactly a wrap |
| RecordWriting.Writer.SetWriteState | dumpsite/Pods/BoringSSL/ssl/dtls_method.cc:97-107 | the counter becomes the previous epoch's and starts at zero |
| RecordWriting.SealedNumber | dumpsite/Pods/BoringSSL/ssl/dtls_record.cc:304-336 | a record's number is its epoch and how many were sealed in that epoch before it, modulo 2^48 |
| RecordWriting.SameNumberIff | dumpsite/Pods/BoringSSL/ssl/dtls_record.cc:304-336 | two seals share a number exactly when they are in one epoch and a multiple of 2^48 apart |
| RecordWriting.NeverReused | dumpsite/Pods/BoringSSL/ssl/dtls_record.cc:304-336 | no number is reused while no epoch seals more than 2^48 records, retransmissions in the previous epoch included |
| RecordWriting.Wraps | dumpsite/Pods/BoringSSL/ssl/tls_record.cc:154-163 | one record more and the first number comes back |
| Datagrams.ParseWritten | dumpsite/Pods/BoringSSL/ssl/dtls_record.cc:193-207 | reading a record undoes the layout that sealing gives it, and leaves the rest of the datagram; bodies that are too long are not read |
| Datagrams.ParsedIsWritten | dumpsite/Pods/BoringSSL/ssl/dtls_record.cc:193-207 | only what is laid out like a record is read as one |
| Datagrams.NumberParts | dumpsite/Pods/BoringSSL/ssl/dtls_record.cc:315-330 | a number is two bytes of epoch and six of count |
| Datagrams.NumberValue | dumpsite/Pods/BoringSSL/ssl/dtls_record.cc:128-136 | within an epoch numbers are ordered as their counts |
| Datagrams.FreshIffNew | dumpsite/Pods/BoringSSL/ssl/dtls_record.cc:138-149 | on every run the window discards a count exactly when it was accepted before or is 64 or more behind one that was |
| Datagrams.RecordOpens | dumpsite/Pods/BoringSSL/ssl/dtls_record.cc:178-285 | what becomes of a datagram that starts with a record, by the record's own type, version, epoch and count: the outcome, and that it is consumed to its last byte unless its version is wrong or it is too long |
| Datagrams.GarbageDropped | dumpsite/Pods/BoringSSL/ssl/dtls_record.cc:193-207 | a datagram that starts with nothing laid out like a record is dropped whole |
| AeadContext.CreateSound | dumpsite/Pods/BoringSSL/ssl/ssl_aead_ctx.cc:58-149 | every context made has nonces of the AEAD's length and meets the assertions of sealing and opening |
| AeadContext.NonceInjective | dumpsite/Pods/BoringSSL/ssl/ssl_aead_ctx.cc:325-369 | distinct variable parts give distinct nonces, prepended or XORed |
| AeadContext.NoncesNeverRepeat | dumpsite/Pods/BoringSSL/ssl/ssl_aead_ctx.cc:325-369 | over a run of seals no nonce taken from the sequence number is used twice |
| AeadContext.NonceLayout | dumpsite/Pods/BoringSSL/ssl/ssl_aead_ctx.cc:97-135 | how a created context makes up its nonce: fixed part combined with the number at its end, fixed part in front, or all random |
| AeadContext.AdditionalDataLayout | dumpsite/Pods/BoringSSL/ssl/ssl_aead_ctx.cc:202-223 | what a created context authenticates beside the plaintext: 13 bytes for the AEADs of TLS 1.2, 11 for the older suites, 9 in SSL 3.0, none in TLS 1.3, and which |
| AeadContext.AdditionalDataBinds | dumpsite/Pods/BoringSSL/ssl/ssl_aead_ctx.cc:202-223 | before TLS 1.3, additional data is equal exactly when number and type are, the version except in SSL 3.0, and, for the AEADs of TLS 1.2, the length in 16 bits |
| AeadContext.RecordLayout | dumpsite/Pods/BoringSSL/ssl/ssl_aead_ctx.cc:112-135 | which created contexts put the variable part of the nonce in front of the sealed plaintext |
| AeadContext.FillNonce | dumpsite/Pods/BoringSSL/ssl/ssl_aead_ctx.cc:250-284 | the in-place assembly, with its XOR loop, yields the nonce |
| AeadContext.SealWith | dumpsite/Pods/BoringSSL/ssl/ssl_aead_ctx.cc:319-405 | sealing by a context with a cipher succeeds exactly when the record fits and randomness, if needed, is there, with the nonce and additional data of the number |
| AeadContext.Seal | dumpsite/Pods/BoringSSL/ssl/ssl_aead_ctx.cc:379-405 | the same, and the null cipher copies what fits |
| AeadContext.OpenWith | dumpsite/Pods/BoringSSL/ssl/ssl_aead_ctx.cc:234-294 | opening by a context with a cipher, with its length checks |
| AeadContext.Open | dumpsite/Pods/BoringSSL/ssl/ssl_aead_ctx.cc:225-294 | the same, and the null cipher copies |
| AeadContext.OpenUndoesSeal | dumpsite/Pods/BoringSSL/ssl/ssl_aead_ctx.cc:225-377 | opening rebuilds the nonce and additional data of sealing and recovers the plaintext, given a fixed overhead where the length is authenticated |
| HandshakeFlow.HashedOnce | dumpsite/Pods/BoringSSL/ssl/handshake.cc:215-222 | without a HelloVerifyRequest every message is in the hash as often as it was sent or received |
| HandshakeFlow.HashedAfterVerify | dumpsite/Pods/BoringSSL/ssl/handshake_client.cc:517-525 | a HelloVerifyRequest and what came before it are dropped from the hash |
| HandshakeFlow.OneFinishedEach | dumpsite/Pods/BoringSSL/ssl/handshake.cc:380-476 | every complete message flow has exactly one Finished sent and one verified |
| HandshakeFlow.InOrderThroughout | dumpsite/Pods/BoringSSL/ssl/handshake_client.cc:1707-1789 | a log that is in order has been so after every event |
| HandshakeFlow.VerifiedBeforeKeyExchange | dumpsite/Pods/BoringSSL/ssl/handshake_client.cc:871-889 | in every client log that is in order the certificate was verified before a ClientKeyExchange was sent, unless the cipher has none |
| HandshakeFlow.KeyExchangeSigned | dumpsite/Pods/BoringSSL/ssl/handshake_client.cc:997-1068 | in every client log that is in order the signature on the server's key exchange was checked immediately before it was taken, unless the cipher has no certificate |
| HandshakeFlow.ServerDoneProved | dumpsite/Pods/BoringSSL/ssl/handshake_server.cc:1269-1363 | in every complete server log in which a client key came in, its certificate and CertificateVerify were checked |
| HandshakeFlow.AuthenticAt | dumpsite/Pods/BoringSSL/ssl/handshake.cc:391-404 | every Finished is the MAC of the hash just before it |
| HandshakeFlow.Agreement | dumpsite/Pods/BoringSSL/ssl/handshake.cc:391-404 | if one side verified the Finished the other sent, and the MAC has no collisions, both hashed the same messages |
| ClientOrder.Exactly | dumpsite/Pods/BoringSSL/ssl/handshake_client.cc:1707-1789 | a client's handshake is complete exactly when its log is one of the scripts: the messages, cipher changes and checks of figures 1 and 2 of RFC 5246, in order, by the choices made |
| ServerOrder.Exactly | dumpsite/Pods/BoringSSL/ssl/handshake_server.cc:1539-1621 | a server's handshake is complete exactly when its log is one of the scripts |
| BothOrders.ScriptsMatch | dumpsite/Pods/BoringSSL/ssl/handshake_client.cc:1707-1789 | with the same choices the client's script and the server's are one conversation |
| BothOrders.ServerFollows | dumpsite/Pods/BoringSSL/ssl/handshake_server.cc:1539-1621 | a server can complete whatever exchange of messages completed a client's handshake, without a HelloVerifyRequest, after the same negotiation |
| BothOrders.ClientFollows | dumpsite/Pods/BoringSSL/ssl/handshake_client.cc:1707-1789 | and a client whatever exchange completed a server's |
| Channel.Channel.constructor | dumpsite/Pods/BoringSSL/ssl/handshake.cc:156-163 | an empty hash |
| Channel.Channel.Add | dumpsite/Pods/BoringSSL/ssl/d1_both.cc:555-594 | a message sent enters the hash once, as it is queued |
| Channel.Channel.Queue | dumpsite/Pods/BoringSSL/ssl/d1_both.cc:555-594 | a message sent enters hash and log once, at the same time |
| Channel.Channel.AddFinished | dumpsite/Pods/BoringSSL/ssl/handshake.cc:431-476 | the Finished sent is the MAC of the hash before it |
| Channel.Channel.Hash | dumpsite/Pods/BoringSSL/ssl/handshake.cc:215-222 | hashing the current message, unless it is a V2ClientHello |
| Channel.Channel.Next | dumpsite/Pods/BoringSSL/ssl/d1_both.cc:426-438 | dropping a hashed message |
| Channel.Channel.Take | dumpsite/Pods/BoringSSL/ssl/handshake_client.cc:1150-1165 | a message that was found good is hashed and dropped |
| Channel.Channel.Read | dumpsite/Pods/BoringSSL/ssl/handshake_client.cc:783-815 | a message of the expected type is hashed, parsed and then dropped; it enters the hash and the log once |
| Channel.Channel.CheckFinished | dumpsite/Pods/BoringSSL/ssl/handshake.cc:387-408 | the expected MAC is taken before the message enters the hash, and compared after |
| Channel.Channel.Restart | dumpsite/Pods/BoringSSL/ssl/handshake_client.cc:517-525 | a HelloVerifyRequest is dropped and the hash starts afresh |
| Channel.Channel.GetFinished | dumpsite/Pods/BoringSSL/ssl/handshake.cc:380-429 | a Finished that matches the MAC of the hash before it is verified, hashed and dropped |
| Channel.Channel.VerifyPeerCert | dumpsite/Pods/BoringSSL/ssl/handshake.cc:285-360 | the log says verified exactly when verification accepted; a retry leaves no trace |
| Channel.Channel.VerifySignature | dumpsite/Pods/BoringSSL/ssl/handshake_server.cc:1320-1351 | the log says so exactly when the signature was good; the hash does not change |
| Channel.Channel.Receive | dumpsite/Pods/BoringSSL/ssl/handshake.cc:508-548 | a V2ClientHello is hashed as it arrives, and only as the first message to a server |
| ClientHandshake.Client.DoStartConnect | dumpsite/Pods/BoringSSL/ssl/handshake_client.cc:385-452 | sends the ClientHello and flushes |
| ClientHandshake.Client.DoEnterEarlyData | dumpsite/Pods/BoringSSL/ssl/handshake_client.cc:454-489 | goes on to HelloVerifyRequest over DTLS, else to ServerHello; exactly when early data was offered there, a ChangeCipherSpec is sent first and the handshake returns early, and nothing is hashed |
| ClientHandshake.Client.BeginEarlyData | dumpsite/Pods/BoringSSL/ssl/handshake_client.cc:467-478 | the ChangeCipherSpec of early data, after which only TLS 1.3 goes on |
| ClientHandshake.Client.Regreet | dumpsite/Pods/BoringSSL/ssl/handshake_client.cc:517-532 | the hash starts afresh with the same hello once more |
| ClientHandshake.Client.DoReadHelloVerify | dumpsite/Pods/BoringSSL/ssl/handshake_client.cc:491-533 | after a HelloVerifyRequest the hash holds the repeated ClientHello alone; without one nothing happens |
| ClientHandshake.Client.DoReadServerHello | dumpsite/Pods/BoringSSL/ssl/handshake_client.cc:535-759 | goes to TLS 1.3, to a resumption if a session was offered, or to the certificate; in the last two the hello is in the log with what it settled |
| ClientHandshake.Client.AcceptServerHello | dumpsite/Pods/BoringSSL/ssl/handshake_client.cc:691-758 | the parameters are fixed, then the ServerHello is hashed, parsed and dropped |
| ClientHandshake.Client.TakeServerHello | dumpsite/Pods/BoringSSL/ssl/handshake_client.cc:695-750 | the hello and what it settled move the flow to where a resumption or a full handshake begins |
| ClientHandshake.Client.DoReadServerCertificate | dumpsite/Pods/BoringSSL/ssl/handshake_client.cc:771-819 | takes exactly a Certificate, for certificate ciphers only |
| ClientHandshake.Client.DoReadCertificateStatus | dumpsite/Pods/BoringSSL/ssl/handshake_client.cc:821-869 | takes a CertificateStatus, only if one was negotiated, or nothing |
| ClientHandshake.Client.DoVerifyServerCertificate | dumpsite/Pods/BoringSSL/ssl/handshake_client.cc:871-889 | goes on only with a verified certificate, for certificate ciphers; a retry has done nothing |
| ClientHandshake.Client.DoReadServerKeyExchange | dumpsite/Pods/BoringSSL/ssl/handshake_client.cc:891-1071 | takes the key exchange, or nothing where the cipher does not need one |
| ClientHandshake.Client.TakeKeyExchange | dumpsite/Pods/BoringSSL/ssl/handshake_client.cc:910-1068 | the message is hashed, and with a certificate cipher dropped only after a good signature |
| ClientHandshake.Client.DoReadCertificateRequest | dumpsite/Pods/BoringSSL/ssl/handshake_client.cc:1073-1143 | takes a request, for certificate ciphers only, or nothing |
| ClientHandshake.Client.TakeRequest | dumpsite/Pods/BoringSSL/ssl/handshake_client.cc:1094-1141 | the request is hashed, parsed and dropped |
| ClientHandshake.Client.DoReadServerHelloDone | dumpsite/Pods/BoringSSL/ssl/handshake_client.cc:1145-1167 | takes exactly a ServerHelloDone |
| ClientHandshake.Client.DoSendClientCertificate | dumpsite/Pods/BoringSSL/ssl/handshake_client.cc:1169-1215 | sends a Certificate exactly when asked for one and, in SSL 3.0, having one; a retry has done nothing |
| ClientHandshake.Client.AnswerRequest | dumpsite/Pods/BoringSSL/ssl/handshake_client.cc:1192-1212 | a Certificate, unless there is none in SSL 3.0 |
| ClientHandshake.Client.DoSendClientKeyExchange | dumpsite/Pods/BoringSSL/ssl/handshake_client.cc:1220-1371 | sends exactly a ClientKeyExchange |
| ClientHandshake.Client.DoSendCertificateVerify | dumpsite/Pods/BoringSSL/ssl/handshake_client.cc:1373-1455 | sends a CertificateVerify exactly when a certificate was asked for and sent; a retry has done nothing |
| ClientHandshake.Client.DoSendClientFinished | dumpsite/Pods/BoringSSL/ssl/handshake_client.cc:1457-1512 | sends the last flight and flushes, after the only point that may be retried |
| ClientHandshake.Client.SendExtensions | dumpsite/Pods/BoringSSL/ssl/handshake_client.cc:1475-1500 | NextProto and Channel ID, each exactly if negotiated, in that order |
| ClientHandshake.Client.DoFinishFlight | dumpsite/Pods/BoringSSL/ssl/handshake_client.cc:1538-1564 | ends a resumption or goes on to the ticket, perhaps with false start; nothing is sent or hashed |
| ClientHandshake.Client.DoReadSessionTicket | dumpsite/Pods/BoringSSL/ssl/handshake_client.cc:1566-1647 | takes a NewSessionTicket exactly when one is expected, then waits for the ChangeCipherSpec |
| ClientHandshake.Client.TakeTicket | dumpsite/Pods/BoringSSL/ssl/handshake_client.cc:1578-1646 | the ticket message is hashed and dropped; an empty ticket is no longer expected |
| ClientHandshake.Client.DoProcessCcs | dumpsite/Pods/BoringSSL/ssl/handshake_client.cc:1649-1656 | changes the read cipher only after the ChangeCipherSpec; nothing is sent or hashed |
| ClientHandshake.Client.DoReadServerFinished | dumpsite/Pods/BoringSSL/ssl/handshake_client.cc:1658-1672 | goes on only with a Finished that is the MAC of the hash before it |
| ClientHandshake.Client.DoFinishHandshake | dumpsite/Pods/BoringSSL/ssl/handshake_client.cc:1674-1705 | completes; nothing is sent or hashed |
| ClientHandshake.Client.constructor | dumpsite/Pods/BoringSSL/ssl/handshake.cc:156-163 | a client before its first message |
| ClientHandshake.Client.SendLastFlight | dumpsite/Pods/BoringSSL/ssl/handshake_client.cc:1470-1505 | ChangeCipherSpec, NextProto and Channel ID where negotiated, and Finished, in that order |
| ClientHandshake.Client.Turn | dumpsite/Pods/BoringSSL/ssl/handshake.cc:493-626 | one turn: what was waited for, then the state machine; an error is final |
| ClientHandshake.Client.DoStep | dumpsite/Pods/BoringSSL/ssl/handshake_client.cc:1712-1774 | every state's step keeps the invariant and makes progress, suspends without effect, or fails |
| ClientHandshake.Client.Handshake | dumpsite/Pods/BoringSSL/ssl/handshake_client.cc:1707-1789 | the loop ends, by a rank on state and resumption, complete or waiting |
| ClientHandshake.Client.Resolve | dumpsite/Pods/BoringSSL/ssl/handshake.cc:493-548 | what was waited for has happened |
| ClientHandshake.Client.Arrives | dumpsite/Pods/BoringSSL/ssl/handshake.cc:496-618 | the handshake goes on exactly when what it waited for has happened or a callback's wait has been reported |
| ClientHandshake.Client.RunHandshake | dumpsite/Pods/BoringSSL/ssl/handshake.cc:491-628 | over any calls, suspensions and retries: a completed client handshake hashed each message exactly once, sent one Finished and verified one, in an allowed order; unless the cipher has no certificate it verified the server's before sending a ClientKeyExchange and the signature on its key exchange before taking that; an error is final |
| ServerHandshake.Server.DoStartAccept | dumpsite/Pods/BoringSSL/ssl/handshake_server.cc:426-430 | goes on to the ClientHello |
| ServerHandshake.Server.DoReadClientHello | dumpsite/Pods/BoringSSL/ssl/handshake_server.cc:432-510 | looks at the ClientHello, which stays where it is and out of the hash |
| ServerHandshake.Server.DoSelectCertificate | dumpsite/Pods/BoringSSL/ssl/handshake_server.cc:512-560 | goes to TLS 1.3 or to the parameters; nothing is hashed, so a retry repeats nothing |
| ServerHandshake.Server.DoSelectParameters | dumpsite/Pods/BoringSSL/ssl/handshake_server.cc:572-684 | hashes the ClientHello, once, after the session lookup needs no retry; a request is for full handshakes with certificate ciphers |
| ServerHandshake.Server.SettleHello | dumpsite/Pods/BoringSSL/ssl/handshake_server.cc:599-681 | the session is settled, then the hello is taken |
| ServerHandshake.Server.TakeHello | dumpsite/Pods/BoringSSL/ssl/handshake_server.cc:669-680 | the hello, unless it is a V2ClientHello, enters the hash once, and what it settled is on record |
| ServerHandshake.Server.DoSendServerHello | dumpsite/Pods/BoringSSL/ssl/handshake_server.cc:686-752 | sends exactly a ServerHello; a resumption goes to the Finished, else to the certificate |
| ServerHandshake.Server.SayHello | dumpsite/Pods/BoringSSL/ssl/handshake_server.cc:715-744 | a ServerHello, after which the flow is a resumption's, or a certificate's or a key exchange's |
| ServerHandshake.Server.DoSendServerCertificate | dumpsite/Pods/BoringSSL/ssl/handshake_server.cc:754-840 | sends certificate and, if negotiated, status, for certificate ciphers only |
| ServerHandshake.Server.QueueCertificate | dumpsite/Pods/BoringSSL/ssl/handshake_server.cc:758-782 | the Certificate, then the CertificateStatus if that was negotiated |
| ServerHandshake.Server.DoSendServerKeyExchange | dumpsite/Pods/BoringSSL/ssl/handshake_server.cc:842-912 | sends a ServerKeyExchange exactly when there are parameters for one; a retry has done nothing |
| ServerHandshake.Server.SendKey | dumpsite/Pods/BoringSSL/ssl/handshake_server.cc:853-905 | the ServerKeyExchange; its parameters are used up |
| ServerHandshake.Server.DoSendServerHelloDone | dumpsite/Pods/BoringSSL/ssl/handshake_server.cc:914-947 | sends a request exactly when wanted, then ServerHelloDone, and flushes |
| ServerHandshake.Server.EndHello | dumpsite/Pods/BoringSSL/ssl/handshake_server.cc:918-943 | CertificateRequest, if wanted, then ServerHelloDone |
| ServerHandshake.Server.DoReadClientCertificate | dumpsite/Pods/BoringSSL/ssl/handshake_server.cc:949-1040 | takes a Certificate if one was asked for, or, in SSL 3.0, nothing; a key is held only after a certificate with one |
| ServerHandshake.Server.TakeCertificate | dumpsite/Pods/BoringSSL/ssl/handshake_server.cc:985-1037 | the message is hashed and parsed; an empty chain fails in SSL 3.0 or when a certificate is required |
| ServerHandshake.Server.DoVerifyClientCertificate | dumpsite/Pods/BoringSSL/ssl/handshake_server.cc:1042-1056 | with a client key goes on only with a verified certificate |
| ServerHandshake.Server.DoReadClientKeyExchange | dumpsite/Pods/BoringSSL/ssl/handshake_server.cc:1058-1267 | hashes the key exchange after a decryption that may be retried |
| ServerHandshake.Server.TakeKeyExchange | dumpsite/Pods/BoringSSL/ssl/handshake_server.cc:1070-1262 | the key exchange enters the hash once |
| ServerHandshake.Server.DoReadClientCertificateVerify | dumpsite/Pods/BoringSSL/ssl/handshake_server.cc:1269-1363 | with a client key goes on only with a good signature, else takes nothing |
| ServerHandshake.Server.TakeSignature | dumpsite/Pods/BoringSSL/ssl/handshake_server.cc:1320-1360 | the signature is checked before the message that carries it enters the hash |
| ServerHandshake.Server.DoReadChangeCipherSpec | dumpsite/Pods/BoringSSL/ssl/handshake_server.cc:1365-1368 | waits for the ChangeCipherSpec; nothing is sent or hashed |
| ServerHandshake.Server.DoProcessCcs | dumpsite/Pods/BoringSSL/ssl/handshake_server.cc:1370-1377 | changes the read cipher only after it; nothing is sent or hashed |
| ServerHandshake.Server.DoReadNextProto | dumpsite/Pods/BoringSSL/ssl/handshake_server.cc:1379-1413 | takes NextProto exactly when it was negotiated |
| ServerHandshake.Server.TakeNextProto | dumpsite/Pods/BoringSSL/ssl/handshake_server.cc:1386-1409 | the message enters the hash once |
| ServerHandshake.Server.DoReadChannelId | dumpsite/Pods/BoringSSL/ssl/handshake_server.cc:1415-1437 | takes Channel ID exactly when it was negotiated, after its signature was checked |
| ServerHandshake.Server.TakeChannelId | dumpsite/Pods/BoringSSL/ssl/handshake_server.cc:1421-1434 | the signature is checked, then the message enters the hash once |
| ServerHandshake.Server.DoReadClientFinished | dumpsite/Pods/BoringSSL/ssl/handshake_server.cc:1439-1461 | goes on only with a Finished that is the MAC of the hash before it |
| ServerHandshake.Server.TakeFinished | dumpsite/Pods/BoringSSL/ssl/handshake_server.cc:1441-1461 | the Finished is the MAC of the hash before it, and enters the hash |
| ServerHandshake.Server.DoSendServerFinished | dumpsite/Pods/BoringSSL/ssl/handshake_server.cc:1463-1509 | sends the last flight and flushes; a resumption then waits for the client's ChangeCipherSpec |
| ServerHandshake.Server.DoFinishHandshake | dumpsite/Pods/BoringSSL/ssl/handshake_server.cc:1511-1537 | completes; nothing is sent or hashed |
| ServerHandshake.Server.constructor | dumpsite/Pods/BoringSSL/ssl/handshake.cc:156-163 | a server before the ClientHello |
| ServerHandshake.Server.SendLastFlight | dumpsite/Pods/BoringSSL/ssl/handshake_server.cc:1466-1500 | a ticket if one is due, ChangeCipherSpec and Finished, in that order |
| ServerHandshake.Server.SendFinished | dumpsite/Pods/BoringSSL/ssl/handshake_server.cc:1494-1500 | ChangeCipherSpec, then Finished |
| ServerHandshake.Server.Turn | dumpsite/Pods/BoringSSL/ssl/handshake.cc:493-626 | one turn: what was waited for, then the state machine; an error is final |
| ServerHandshake.Server.DoStep | dumpsite/Pods/BoringSSL/ssl/handshake_server.cc:1544-1606 | every state's step keeps the invariant and makes progress, suspends without effect, or fails |
| ServerHandshake.Server.Handshake | dumpsite/Pods/BoringSSL/ssl/handshake_server.cc:1539-1621 | the loop ends, by a rank on state and resumption, complete or waiting |
| ServerHandshake.Server.Resolve | dumpsite/Pods/BoringSSL/ssl/handshake.cc:493-548 | what was waited for has happened |
| ServerHandshake.Server.Arrives | dumpsite/Pods/BoringSSL/ssl/handshake.cc:496-618 | the handshake goes on exactly when what it waited for has happened or a callback's wait has been reported |
| ServerHandshake.Server.RunHandshake | dumpsite/Pods/BoringSSL/ssl/handshake.cc:491-628 | over any calls, suspensions and retries: a completed server handshake hashed each message exactly once, sent one Finished and verified one, in an allowed order; if it holds a client's key it verified the certificate and the client's signature; an error is final |
| CipherChoice.Find | dumpsite/Pods/BoringSSL/crypto/stack/stack.c:231-242 | the first position of a cipher in a list |
| CipherChoice.Matches | dumpsite/Pods/BoringSSL/ssl/handshake_server.cc:392-401 | whether a cipher could be chosen |
| CipherChoice.Turn | dumpsite/Pods/BoringSSL/ssl/handshake_server.cc:391-422 | one turn of the walk: chosen, or the least place in the group so far is kept |
| CipherChoice.Walk | dumpsite/Pods/BoringSSL/ssl/handshake_server.cc:388-423 | chooses the client's favourite within the first closed group that has a match; it chooses exactly when some match is followed by the end of a group |
| CipherChoice.ChooseCipher | dumpsite/Pods/BoringSSL/ssl/handshake_server.cc:357-424 | with closed groups a cipher is chosen exactly when one is compatible and in both lists, by the server's groups or the client's order |
| CipherChoice.AloneIsFirst | dumpsite/Pods/BoringSSL/ssl/internal.h:1876-1879 | without groups the choice is the first match of the priority list |
| CipherChoice.ChosenUnique | dumpsite/Pods/BoringSSL/ssl/internal.h:1860-1893 | the preference rule determines the cipher |
| CipherChoice.ClosedReaches | dumpsite/Pods/BoringSSL/ssl/ssl_cipher.cc:1041-1048 | when the last group is closed, as it is in every configured list, a match is within reach exactly when some compatible cipher is in both lists |
| CipherChoice.MatchAllows | dumpsite/Pods/BoringSSL/ssl/handshake_server.cc:392-401 | a match is in both lists, its range has the version, and its key exchange and authentication are each of a kind this handshake can do |
| CipherChoice.AllowsMatch | dumpsite/Pods/BoringSSL/ssl/handshake_server.cc:392-401 | and that is all a match takes |
| AppWrite.EarlyLimitHolds | dumpsite/Pods/BoringSSL/ssl/s3_pkt.cc:164-168 | every run of early records that the guard lets through stays within the limit exactly when the limit is below 2^16 |
| AppWrite.LimitHolds | dumpsite/Pods/BoringSSL/ssl/s3_pkt.cc:164-168 | below 2^16 the total of early data never passes the limit |
| AppWrite.NeverCloses | dumpsite/Pods/BoringSSL/ssl/s3_pkt.cc:164-178 | from 2^16 on the guard never closes: any total of single bytes goes through |
| AppWrite.NextEarly | dumpsite/Pods/BoringSSL/ssl/s3_pkt.cc:181-189 | writing or flushing a record keeps the early records a run that the guard let through |
| AppWrite.NextCount | dumpsite/Pods/BoringSSL/ssl/s3_pkt.cc:187-189 | and the 16-bit counter their total, less a record still to be flushed |
| AppWrite.Writer.constructor | dumpsite/Pods/BoringSSL/ssl/internal.h:2219-2223 | a writer with nothing under way |
| AppWrite.Writer.WritePending | dumpsite/Pods/BoringSSL/ssl/s3_pkt.cc:202-218 | flushes the sealed record or blocks; refuses a shorter write and, unless the buffer may move, another address |
| AppWrite.Writer.DoWrite | dumpsite/Pods/BoringSSL/ssl/s3_pkt.cc:221-289 | seals the data once, or flushes what is pending |
| AppWrite.Writer.Limit | dumpsite/Pods/BoringSSL/ssl/s3_pkt.cc:164-174 | a record is limited by the fragment size and by the early data that is left |
| AppWrite.Writer.WriteOne | dumpsite/Pods/BoringSSL/ssl/s3_pkt.cc:163-198 | one record, accounted for once |
| AppWrite.Writer.WriteCounted | dumpsite/Pods/BoringSSL/ssl/s3_pkt.cc:181-189 | the record, and the counter of early bytes |
| AppWrite.Writer.WriteRecord | dumpsite/Pods/BoringSSL/ssl/s3_pkt.cc:173-182 | one record, sealed once or flushed: what has been sealed is still what was sealed before the write and its first bytes |
| AppWrite.Writer.WriteRest | dumpsite/Pods/BoringSSL/ssl/s3_pkt.cc:159-199 | the loop over records |
| AppWrite.Writer.Continue | dumpsite/Pods/BoringSSL/ssl/s3_pkt.cc:155-200 | the write goes on; what it returns is what it has sealed, and what is left is noted for the next call |
| AppWrite.Writer.WriteAppData | dumpsite/Pods/BoringSSL/ssl/s3_pkt.cc:129-200 | under any blocking, repeated calls with the same bytes, at the same address unless the buffer may move, seal exactly the bytes reported written, once each, in records within the fragment limit; the early records are a run that the guard let through |
| AppWrite.Writer.WithinLimit | dumpsite/Pods/BoringSSL/ssl/s3_pkt.cc:164-178 | after any writes, the early data sealed is within a limit below 2^16 |
| ConstantTime.Msb | dumpsite/Pods/BoringSSL/crypto/internal.h:244-246 | all ones exactly when the top bit is set |
| ConstantTime.IsZero | dumpsite/Pods/BoringSSL/crypto/internal.h:303-316 | all ones exactly for zero |
| ConstantTime.Eq | dumpsite/Pods/BoringSSL/crypto/internal.h:325-328 | all ones exactly for equal words |
| ConstantTime.Select | dumpsite/Pods/BoringSSL/crypto/internal.h:351-355 | selects by a full mask |
| ConstantTime.IsZero8 | dumpsite/Pods/BoringSSL/crypto/internal.h:320-322 | the byte mask for a word that is zero |
| ConstantTime.Eq8 | dumpsite/Pods/BoringSSL/crypto/internal.h:332-346 | the byte mask for equal words |
| ConstantTime.Select8 | dumpsite/Pods/BoringSSL/crypto/internal.h:359-362 | selects bytes by a full mask |
| ConstantTime.LtIsLess | dumpsite/Pods/BoringSSL/crypto/internal.h:249-277 | the comparison by XOR, OR and subtraction is all ones exactly when the first word is less |
| ConstantTime.CheckPadding | dumpsite/Pods/BoringSSL/ssl/handshake_server.cc:1157-1171 | the branch-free mask is all ones exactly for 00 02, padding without zeros, 00 and the offered version |
| ConstantTime.SelectPremaster | dumpsite/Pods/BoringSSL/ssl/handshake_server.cc:1142-1178 | the premaster is the last 48 bytes exactly when the padding and version are right, and otherwise the random one; shorter buffers are errors |
| Refcount.LockedCount.constructor | dumpsite/Pods/BoringSSL/crypto/refcount_lock.c:27 | a count |
| Refcount.LockedCount.Increment | dumpsite/Pods/BoringSSL/crypto/refcount_lock.c:29-35 | the locked increment stops at the maximum |
| Refcount.LockedCount.DecrementAndTestZero | dumpsite/Pods/BoringSSL/crypto/refcount_lock.c:37-51 | the locked decrement, its result and its abort |
| Refcount.OneEffect | dumpsite/Pods/BoringSSL/crypto/refcount_c11.c:37-65 | at each atomic step at most one call takes effect, exactly when it ends, and otherwise the count does not change |
| Refcount.EffectIsLocked | dumpsite/Pods/BoringSSL/crypto/refcount_c11.c:37-65 | the step at which a call takes effect does what the locked code does |
| Refcount.Linearizes | dumpsite/Pods/BoringSSL/crypto/refcount_c11.c:37-65 | under every interleaving with spurious failures the count and all results are those of the locked calls in the order they took effect |
| Refcount.Outcomes | dumpsite/Pods/BoringSSL/crypto/refcount_lock.c:29-51 | under every interleaving each call adds one, takes one away and returns 1 exactly for the last, aborts exactly at zero, and leaves the maximum alone |
| Refcount.MaxAbsorbs | dumpsite/Pods/BoringSSL/crypto/refcount_c11.c:41 | 0xffffffff is never left |
| Refcount.LastDecrement | dumpsite/Pods/BoringSSL/crypto/refcount_c11.c:49-65 | from one reference, with callers that hold what they use and no saturation, no call aborts and exactly one decrement returns 1: the last call of all |

## Left out

- Encode.IsZero: the storage of an empty array and of a union beside its member is taken to be zeros; the source reads whatever is there.
- RoundTrip.DecodeAfterEncode: encodings of 2^32 bytes or more are not covered, because the decoder reads lengths as 32-bit words; for 64 or more required fields in a descriptor the running decoder is not what `DecodeMessage` describes, as it reads past its bit array.
- RequiredFields.Complete: at most 63 required fields in a descriptor, on the decoding side only; for 64 and more the source reads past its bit array, which C leaves undefined.
- Capacity.DecMessageInRoom: the defaults written in the descriptors are taken to fit their own buffers, as the generator makes them.
- InStream.Stream.DecodeInit: what a failed decode leaves in the struct is not stated.
- Delivery.HandedIsPrefix: for connections of fewer than 2^16 handshake messages; with more, a 16-bit sequence number would name two messages.
- Sending.Flight.SendFlight: sealing, its failures and the transport's answers are arbitrary; what a flight that has lost records sends after that, until it is started again, is only known to be true pieces of its messages.
- RecordReading.AcceptedOnce: for fewer than 2^16 cipher changes, as the epoch has 16 bits.
- RecordWriting.NeverReused: for fewer than 2^16 cipher changes, as the epoch has 16 bits.
- ClientHandshake.Client.RunHandshake: message contents are abstract; the run stops where TLS 1.3 takes over, and renegotiation is not modelled.
- ServerHandshake.Server.RunHandshake: message contents are abstract; the run stops where TLS 1.3 takes over.
- AppWrite.Writer.WriteAppData: alerts that share the write buffer and unflushed handshake data in front of it are not modelled.
- Refcount.Linearizes: the loops are steps of a state machine, because a weak exchange may fail for ever.
- nanopb with dynamic allocation, callbacks, extensions and custom streams; error texts; `size_t` overflow; string bytes after the NUL, array elements past the count and inactive union members.
- C memory: pointer casts and aliasing; streams and structs are typed values.
- Record types in `dtls1_open_handshake` other than handshake and ChangeCipherSpec; alerts, timers, message callbacks and the error queue.
- TLS 1.3, with the extra input it seals (`SealScatter`), session tickets, extension parsing, certificate parsing, and the primitives: AEADs, hashes, signatures, RSA and key agreement.
- Logging, CPU feature detection, thread wrappers and the application's own Swift code: glue without hard properties.
