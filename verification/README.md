# Verified models of the ClipPic pods

A Dafny model of three parts of the libraries that ClipPic is built on, with proofs of what they promise. Run
`dafny verify dfyconfig.toml` in this directory.

**nanopb, the protobuf codec.** Encoder and decoder work on a table of field descriptors. `EncodeSpec` and
`DecodeSpec` say what bytes a struct is written as and what bytes are read as, as functions; `Encoder` and `Decoder`
are the loops over streams (`OutputStream`, `InputStream`), the circular field iterator (`Iterator`) and the bitmap of
required fields (`Bitmap`), proved against them. About these functions the laws are proved: the round trip
(`RoundTrip`, `Normal`), decoders that know fewer fields (`Projection`), field order and packed arrays (`Order`),
concatenation (`Merge`), that a struct stays within its storage whatever comes in (`Storage`), and what becomes of
what was in it (`Leftovers`, `Settled`). What the bytes are and what they mean is also written out in numbers, without
these functions: varints, fixed-width numbers and skipping (`Wire`), the bytes of records (`Records`) and what is left
out (`Omission`), the values that are stored or rejected (`Scalars`, `Arrays`), submessages that come in pieces
(`Submerge`), and fields that are not in the input (`Absent`). A struct is a map from the fields and unions of its table to slots: a value,
a value with its has_ flag, the elements of an array with what lies behind them, or a union with its selector. Field
sizes are 32 bits wide, as the app sets them; beyond that the model fixes 64-bit integers, streams over buffers, and
static allocation of all fields.

**Alamofire's AuthenticationInterceptor.** `AuthState` has the state under the lock and the locked sections, as
functions and as methods of a class. `AuthRuns` is the system: any number of calls on any threads, one locked section
or one item of the serial queue at a time, and an environment that sets the clock, answers each refresh once and may
set the credential at any moment. `AuthSafety` has what every run keeps, `AuthAnswers` and `AuthSteps` which answer
each call gets and when a refresh begins, and `AuthProgress` why no call is forgotten.

**Alamofire's MultipartFormData.** `Multipart` has the format, a receiver after section 5.1.1 of RFC 2046, and the
exact condition under which it gets the parts back. `MultipartEncoder` has both encoders, on input streams that
deliver what they like and an output stream that takes what it likes.

## What the proofs showed

- The 32-bit varint reader accepts more than 32-bit numbers and sign-extended ones: groups above bit 34 that are all
  zero are taken for padding, so 2^63 + 2^31 reads as 2^31. `Varint.Varint32OnEncoded` has the exact set. Its bit counter
  wraps around on runs of 37 and more bytes, so the padded encoding of 2^259 reads as 8 (`Wire.CounterWrapsAround`).
- A proto3 submessage is left out exactly if its own encoding has no bytes (`Omission.EmptyIsLeftOut`).
- A submessage may come in two records with the same result as in one, unless the first holds an end marker, which in
  one record would hide the second, or fills the fixed-count array with which the second begins, which in one record
  would be too many elements (`Submerge.TwoRecordsAreOne`).
- `pb_decode` does not initialise fixed-count arrays. One that does not occur in the input keeps what was in memory, and
  the struct may then be one that cannot be encoded (`Settled.OldContentsShow`). `Leftovers.DecodedFits` says exactly
  when the result fits; clearing the struct first is always enough.
- "Decoding a and then b equals decoding their concatenation" (`pb_decode.h:74-75`) fails exactly when b is not empty
  and either a ends in a varint that is read as zero, which is an end marker, or the last fixed-count array of a is the
  first one of b, whose counter is not reset (`Merge.ConcatIsMerge`). What the encoder writes has no end marker.
- A multipart boundary is safe for all forms exactly if its delimiter has no border (`Multipart.SafeIsUnbordered`).
- The round trip gives back the normal form of a struct: a string is cut at its first NUL, and a field whose has_ flag
  is off returns to its default. Canonical structs, and only those, come back unchanged.
- The streamed multipart encoder neither compares the announced length of a body with what it writes nor reports that
  the output stream ran out of space; `WriteEncodedData` states exactly when what it writes is complete, and
  `MultipartEncoder.WriteTruncated` has a stream for which it is not.
- A form without parts is encoded as empty data.

## Model

| member | source | states |
|---|---|---|
| Normal.EncodeDecode | ClipPic/Pods/nanopb/pb_decode.c:928-1090 | every struct that fits its table encodes, and decoding those bytes (below 2^32 of them) into any struct succeeds, consumes them all and gives back the normal form: what was present as it was, what was absent at its default |
| RoundTrip.MessageRoundTrip | ClipPic/Pods/nanopb/pb_encode.c:528-550 | decoding inverts encoding through nested submessages, optional, singular, repeated, packed, fixed-count and oneof fields |
| RoundTrip.ProjectionRoundTrip | ClipPic/Pods/nanopb/pb_decode.c:960-989 | a decoder whose table drops any fields, in the message or in submessages at any depth, decodes the same bytes, consumes them all and gets the message that its own fields make up |
| Projection.UnknownFieldsAreTransparent | ClipPic/Pods/nanopb/pb_decode.c:960-989 | unknown fields are transparent: what that decoder gets is what a decoder with the whole table gets, with the dropped fields taken out at every level |
| Projection.NormalProjected | ClipPic/Pods/nanopb/pb_decode.c:960-989 | dropping fields and the round trip commute, whatever lay in the struct |
| Projection.DefaultProjected | ClipPic/Pods/nanopb/pb_decode.c:839-922 | dropping fields and setting defaults commute |
| Normal.OmittedIsDefault | ClipPic/Pods/nanopb/pb_encode.c:240-337 | a proto3 field left out as zero decodes to that same zero, through all levels of submessages |
| Normal.CanonicalStays | ClipPic/Pods/nanopb/pb_encode.c:341-426 | a message is its own normal form if and only if it is canonical: no NUL inside a string, absent optional fields at their defaults, behind the elements of arrays what lay there |
| Normal.CanonicalRoundTrip | ClipPic/Pods/nanopb/pb_decode.c:1078-1090 | a message comes back exactly as it was if and only if it is canonical |
| Normal.InnerNulIsCut | ClipPic/Pods/nanopb/pb_encode.c:890-898 | a string with a NUL inside does not: it is cut there |
| Normal.ClearedFlagForgets | ClipPic/Pods/nanopb/pb_encode.c:387-396 | nor does the value of an optional field whose has_ flag is off |
| Normal.MessageEncodes | ClipPic/Pods/nanopb/pb_encode.c:528-550 | no struct that fits its table makes the encoder fail |
| Storage.MessageFits | ClipPic/Pods/nanopb/pb_decode.c:406-483 | decoding into a struct whose storage fits leaves one, for every input: counts within arrays, strings and bytes within buffers, integers within their types, unions on a member of the table |
| Leftovers.DecodedFits | ClipPic/Pods/nanopb/pb_decode.c:839-1090 | what pb_decode leaves fits its table if and only if each fixed-count array that does not occur in the input held something that fits, taken once its zero count is written; the input alone says which those are |
| Leftovers.MergedFits | ClipPic/Pods/nanopb/pb_decode.c:928-1076 | the same for pb_decode_noinit |
| Leftovers.DecodeFills | ClipPic/Pods/nanopb/pb_decode.c:839-1090 | decoding into any struct, taken once its zero counts are written, is decoding into an unknown one and filling in what was there; success and what is consumed do not depend on the struct |
| Leftovers.MessageFills | ClipPic/Pods/nanopb/pb_decode.c:928-1076 | that holds from every state that decoding reaches |
| Leftovers.FillDefault | ClipPic/Pods/nanopb/pb_decode.c:839-922 | and for setting defaults, the zero counts apart |
| Settled.UnsetIsAbsent | ClipPic/Pods/nanopb/pb_decode.c:994-1031 | beyond its zero count, a fixed-count array is left as it was if and only if its number does not occur in the input: all of it, or nothing |
| Settled.SettledIsEnough | ClipPic/Pods/nanopb/pb_decode.c:1078-1090 | what a caller can see to: in a struct whose fixed-count arrays hold what fits, the result fits for every input |
| Settled.ZeroIsSettled | ClipPic/Pods/nanopb/pb_decode.c:839-909 | a struct of zero bytes is such a struct |
| Settled.NothingToSettle | ClipPic/Pods/nanopb/pb_decode.c:839-909 | for a table without fixed-count arrays, every struct is |
| Settled.OldContentsShow | ClipPic/Pods/nanopb/pb_decode.c:865-872 | the exception exists: from no bytes at all, a struct is decoded that cannot be encoded |
| Leftovers.DecodeEncode | ClipPic/Pods/nanopb/pb_decode.c:1078-1090 | under that condition, whatever any bytes decode to can be encoded again and decodes from that, into any struct, to its normal form |
| RoundTrip.ValueRoundTrip | ClipPic/Pods/nanopb/pb_decode.c:1519-1541 | a single value, submessages included, is read back from the front of any further bytes, by a decoder that may know fewer fields of it |
| RoundTrip.NumberRoundTrip | ClipPic/Pods/nanopb/pb_decode.c:1328-1439 | each numeric type is read back exactly |
| RoundTrip.TagRoundTrip | ClipPic/Pods/nanopb/pb_decode.c:298-319 | number and wire type are read back for every legal field number |
| RoundTrip.DelimitedRoundTrip | ClipPic/Pods/nanopb/pb_encode.c:709-715 | a length-prefixed payload is cut out exactly |
| RoundTrip.SkipComplete | ClipPic/Pods/nanopb/pb_decode.c:321-331 | what a payload is skipped by does not depend on the bytes behind it, for every wire type |
| RoundTrip.PackedSlot | ClipPic/Pods/nanopb/pb_decode.c:425-453 | a packed record gives the elements back, in an empty or a fixed-count array |
| Submerge.RecordAdds | ClipPic/Pods/nanopb/pb_decode.c:1519-1541 | a record of a required, optional or selected oneof submessage is decoded into the submessage that is there |
| Submerge.TwoRecordsAreOne | ClipPic/Pods/nanopb/pb_decode.c:416-422 | so it may come in two records, which leave the same state as one record with the bytes of both, but for an end marker or a clash of fixed-count arrays |
| Submerge.EmptyRecordKeeps | ClipPic/Pods/nanopb/pb_decode.c:1531-1536 | a record without bytes leaves the submessage that was there, and marks it as present |
| Submerge.PiecesComeTogether | ClipPic/Pods/nanopb/pb_decode.c:416-422 | two pieces of a submessage with a field each give a submessage with both |
| Submerge.SelectedStartsAnew | ClipPic/Pods/nanopb/pb_decode.c:466-476 | a union member that becomes the selected one starts from zero bytes and its defaults, whatever its predecessor left |
| Submerge.ElementStartsAnew | ClipPic/Pods/nanopb/pb_decode.c:1531-1536 | an array element starts from its defaults in the storage behind the elements that are there, and is rejected when the array is full |
| Absent.AbsentIsDefault | ClipPic/Pods/nanopb/pb_decode.c:839-909 | a field that is not in the input, nor in a union with one that is, is left with flag, count or selector off and the default of its descriptor, else 0, no bytes or zeros, through all levels of submessages |
| Absent.AbsentValue | ClipPic/Pods/nanopb/pb_decode.c:880-889 | for numbers and byte strings, the value itself, type by type |
| Absent.AbsentArray | ClipPic/Pods/nanopb/pb_decode.c:865-872 | an array that is not in the input keeps its storage, and without a count its elements |
| Absent.AbsentStays | ClipPic/Pods/nanopb/pb_decode.c:928-1031 | pb_decode_noinit leaves a slot alone of which no field occurs |
| Absent.NetworkTypeIsNone | ClipPic/Pods/GoogleDataTransport/GoogleDataTransport/GDTCCTLibrary/Protogen/nanopb/cct.nanopb.c:44-48 | a table of the app whose default is not zero: a network type that is not in the input is -1 |
| Absent.ZerosAre | ClipPic/Pods/nanopb/pb_decode.c:466-476 | the storage that a union member starts from holds zeros only, written out type by type |
| Absent.RecordEnds | ClipPic/Pods/nanopb/pb_decode.c:946-1024 | where an accepted record ends depends on its number, wire type and field type alone |
| Absent.RequiredOccurs | ClipPic/Pods/nanopb/pb_decode.c:1033-1073 | a message is accepted only if each required field occurs that has fewer than 64 required ones before it; from the 65th on none is missed |
| Omission.LeftOut | ClipPic/Pods/nanopb/pb_encode.c:341-426 | what is not written: nothing required, an optional field exactly when its has_ flag is off or, without one, its value is zero, an array exactly when it is empty, a union member exactly when it is not selected |
| Omission.ZeroIsLeftOut | ClipPic/Pods/nanopb/pb_encode.c:318-335 | a proto3 singular field is left out if and only if it is the number 0, no bytes, a string that is empty or begins with NUL, or a submessage all of whose fields are absent or zero |
| Omission.EmptyIsLeftOut | ClipPic/Pods/nanopb/pb_encode.c:240-337 | which for a submessage is to say that its own encoding has no bytes |
| Records.FieldsInOrder | ClipPic/Pods/nanopb/pb_encode.c:528-550 | fields are written in the order of the table |
| Records.FieldIsWritten | ClipPic/Pods/nanopb/pb_encode.c:675-707 | the bytes of a field that is written, type by type: eight times its number plus 0, 1, 2 or 5, and its value |
| Records.ArrayIsWritten | ClipPic/Pods/nanopb/pb_encode.c:147-236 | the bytes of an array, numbers in one record of wire type 2 and other elements in a record each; exactly when the number of elements is an error |
| Records.TooLongFails | ClipPic/Pods/nanopb/pb_encode.c:852-913 | a byte string is not written exactly if it is larger than its buffer, one of fixed length if it is not just as long |
| Records.AnyBoolIsOne | ClipPic/Pods/nanopb/pb_encode.c:769-774 | a bool that is not 0 is written as 1, whatever byte it is |
| Records.OneSecond | ClipPic/Pods/nanopb/pb_encode.c:318-335 | a timestamp of one second is the bytes 8, 1 |
| Records.OneDouble | ClipPic/Pods/nanopb/pb_encode.c:653-667 | a double of 1.0 in field 1 is the byte 9 and its eight bytes, lowest first |
| Scalars.ReadsBool | ClipPic/Pods/nanopb/pb_decode.c:1328-1337 | a bool is stored as whether the number that came in is not 0 |
| Scalars.ReadsUnsigned | ClipPic/Pods/nanopb/pb_decode.c:1376-1398 | an unsigned number of any 64 bits is stored exactly if it is below 2 to the width of its field, else rejected |
| Scalars.ReadsSigned | ClipPic/Pods/nanopb/pb_decode.c:1339-1374 | a signed one is read from 64 bits, or for smaller fields from the low 32, and stored exactly if its field holds it |
| Scalars.ReadsZigZag | ClipPic/Pods/nanopb/pb_decode.c:1400-1422 | a zigzag number is stored exactly if its field holds it |
| Scalars.ReadsFixed | ClipPic/Pods/nanopb/pb_decode.c:1424-1439 | fixed-width numbers are stored from four or eight bytes, lowest first |
| Scalars.ReadsData | ClipPic/Pods/nanopb/pb_decode.c:1441-1564 | byte strings are stored exactly if they fit: behind a four-byte count, with a NUL, or just as long, where none at all means zeros |
| Arrays.ElementIsAppended | ClipPic/Pods/nanopb/pb_decode.c:455-464 | an element is appended to an array with a count while there is room, else rejected |
| Arrays.ElementIsPlaced | ClipPic/Pods/nanopb/pb_decode.c:994-1013 | in an array without a count it goes to the next place; after another such array the first place is the next one |
| Arrays.OneArrayAtATime | ClipPic/Pods/nanopb/pb_decode.c:1000-1006 | unless that other one is not full, which is an error |
| Arrays.TwoBools | ClipPic/Pods/nanopb/pb_decode.c:1025-1031 | an array without a count takes all of its elements and no more |
| Arrays.NumberZero | ClipPic/Pods/nanopb/pb_common.c:24-29 | in a table without fields a record numbered 0 takes up a varint, whatever its wire type |
| Order.OrderIsIrrelevant | ClipPic/Pods/nanopb/pb_decode.c:946-1031 | two arrangements of records that agree on the order within each field and each union, and bring fixed-count arrays one at a time, decode alike, result or failure |
| Order.SwapNeighbours | ClipPic/Pods/nanopb/pb_decode.c:946-1024 | swapping neighbouring records of different fields is such a rearrangement |
| Order.EncodingIsFramed | ClipPic/Pods/nanopb/pb_encode.c:528-550 | the law covers everything the encoder writes |
| Order.EncodingIsInBlocks | ClipPic/Pods/nanopb/pb_encode.c:528-550 | whose fixed-count arrays come one at a time |
| Order.BlocksWithout | ClipPic/Pods/nanopb/pb_decode.c:994-1013 | without fixed-count arrays every arrangement does |
| Order.RunsBySlot | ClipPic/Pods/nanopb/pb_decode.c:946-1031 | a run succeeds exactly when the run of each slot does, with every fixed-count array filled, and each slot ends as its own records make it |
| Order.FramedIsUnmarked | ClipPic/Pods/nanopb/pb_decode.c:946-958 | no end marker is met in records with legal numbers |
| Order.EncodingsMerge | ClipPic/Pods/nanopb/pb_decode.c:928-1031 | what the encoder wrote, followed by any buffer, decodes like one after the other, but for the clash of fixed-count arrays |
| Order.PackedIsUnpacked | ClipPic/Pods/nanopb/pb_decode.c:424-464 | one packed record and one record an element leave the same state, and both are accepted exactly if current count plus number of elements is at most the array size |
| Order.PackedForms | ClipPic/Pods/nanopb/pb_decode.c:425-453 | a packed record appends all its elements or is rejected |
| Order.UnpackedForms | ClipPic/Pods/nanopb/pb_decode.c:455-464 | so do unpacked records, one by one |
| Order.PackedFits | ClipPic/Pods/nanopb/pb_decode.c:425-453 | packed elements that fit are appended in order |
| Order.PackedOverflow | ClipPic/Pods/nanopb/pb_decode.c:436-448 | packed elements that do not fit are rejected |
| Merge.ConcatIsMerge | ClipPic/Pods/nanopb/pb_decode.c:928-1031 | decoding a concatenation equals decoding the second buffer after the first if and only if the first does not end in a varint that is read as zero, and its last fixed-count array is not the first one of the second; or if the second is empty |
| Merge.ConcatIs | ClipPic/Pods/nanopb/pb_decode.c:928-1031 | in the first of these cases the first buffer is all that is decoded, in the other decoding fails |
| Merge.LoopLeftFull | ClipPic/Pods/nanopb/pb_decode.c:994-1013 | the counter of a full array does not matter unless the same array comes next |
| Merge.FullAgain | ClipPic/Pods/nanopb/pb_decode.c:994-1031 | if it does, its records do not fit any more |
| Merge.SecondArrayOverflows | ClipPic/Pods/nanopb/pb_decode.c:994-1013 | a message of one fixed-count array cannot be followed by itself |
| Merge.LoopConcat | ClipPic/Pods/nanopb/pb_decode.c:946-1024 | the same for the decoding loop, whose whole state carries over |
| Merge.MarkerHidesTheRest | ClipPic/Pods/nanopb/pb_decode.c:298-319 | the exception exists: a lone zero byte hides what is appended to it |
| Varint.VarintRoundTrip | ClipPic/Pods/nanopb/pb_decode.c:255-275 | the 64-bit reader inverts the encoder for every 64-bit number |
| Varint.VarintLength | ClipPic/Pods/nanopb/pb_encode.c:608-628 | an encoding has at most n bytes exactly if the number is below 2^(7n) |
| Varint.VarintFitsTenBytes | ClipPic/Pods/nanopb/pb_encode.c:608-628 | so the ten-byte buffer of the encoder suffices |
| Varint.Varint32OnEncoded | ClipPic/Pods/nanopb/pb_decode.c:187-247 | which 64-bit numbers the 32-bit reader accepts, exactly, and that it returns their low 32 bits |
| Varint.Varint32Cases | ClipPic/Pods/nanopb/pb_decode.c:187-247 | 32-bit numbers and sign-extended negative ones are read, the rest below 2^63 are rejected |
| Varint.Varint32AcceptsMore | ClipPic/Pods/nanopb/pb_decode.c:221-230 | it also accepts a number that is not the sign extension of any 32-bit number |
| Varint.SkipEncoded | ClipPic/Pods/nanopb/pb_decode.c:278-287 | skipping a varint consumes exactly its encoding |
| Varint.ZigZagBijection | ClipPic/Pods/nanopb/pb_encode.c:630-639 | zigzag is a bijection between signed and unsigned 64-bit numbers |
| NegativeVarint.NegativeVarintBytes | ClipPic/Pods/nanopb/pb_encode.c:583-605 | the 32-bit encoder of negative numbers emits the ten bytes of the 64-bit sign extension |
| NegativeVarint.CompensatedVarint | ClipPic/Pods/nanopb/pb_encode.c:583-605 | its loop, for any register and any number of missing ones that it passes through |
| NegativeVarint.NextGroup | ClipPic/Pods/nanopb/pb_encode.c:589-601 | one round of the loop writes the low group of what remains and leaves that divided by 128 |
| NegativeVarint.Compensate | ClipPic/Pods/nanopb/pb_encode.c:593-599 | moving ones into the register by exclusive or makes up for the 32 bits that are not held |
| NegativeVarint.EncodeNegativeVarint | ClipPic/Pods/nanopb/pb_encode.c:583-605 | the same bytes go through the stream, all or none |
| NegativeVarint.NegativeIsExtended | ClipPic/Pods/nanopb/pb_encode.c:789-796 | they are the bytes that the 64-bit encoder has for the same negative number |
| Wire.EncodedInBase128 | ClipPic/Pods/nanopb/pb_encode.c:608-628 | the encoder writes a number in base 128, lowest group first, with a continuation bit in all bytes but the last, which is not an empty group |
| Wire.Varint64Meaning | ClipPic/Pods/nanopb/pb_decode.c:255-275 | the 64-bit reader takes any varint of up to ten bytes, padded or not, for its number modulo 2^64, and rejects longer ones |
| Wire.Varint32Meaning | ClipPic/Pods/nanopb/pb_decode.c:187-247 | the 32-bit reader takes any varint of up to 37 bytes for the low 32 bits of its first five groups exactly if the rest is padding, and a fifth last byte has no more than four bits |
| Wire.CounterWrapsAround | ClipPic/Pods/nanopb/pb_decode.c:207-234 | beyond that its counter wraps around: 37 empty groups and a 1 read as 8 |
| Wire.EndlessIsRejected | ClipPic/Pods/nanopb/pb_decode.c:187-287 | bytes without an end of a varint are rejected by all three readers |
| Wire.ZigZagIs | ClipPic/Pods/nanopb/pb_encode.c:630-639 | zigzag numbers are 0, -1, 1, -2 and so on |
| Wire.LittleEndianIs | ClipPic/Pods/nanopb/pb_encode.c:641-667 | the four and eight bytes of a fixed-width number, one by one |
| Wire.FromLittleEndianIs | ClipPic/Pods/nanopb/pb_decode.c:1293-1326 | and the number that they are read as |
| Wire.SkippedBytes | ClipPic/Pods/nanopb/pb_decode.c:321-331 | skipping takes eight bytes for wire type 1, four for 5, a length and as many for 2, a varint for 0, and fails for all others |
| Wire.UnknownIsSkipped | ClipPic/Pods/nanopb/pb_decode.c:960-989 | so the loop goes on behind a field that it does not know, or fails |
| InputStream.IStream.Read | ClipPic/Pods/nanopb/pb_decode.c:102-137 | takes a count of bytes, all or none; the end of the window stays |
| InputStream.IStream.ReadByte | ClipPic/Pods/nanopb/pb_decode.c:141-157 | takes the first byte, if there is one; the end of the window stays |
| InputStream.IStream.DecodeVarint32Eof | ClipPic/Pods/nanopb/pb_decode.c:187-247 | refines the 32-bit reader, with its wrapping 8-bit bit counter, and tells an empty stream from a cut-off varint |
| InputStream.IStream.DecodeVarint32 | ClipPic/Pods/nanopb/pb_decode.c:249-253 | refines the 32-bit reader |
| InputStream.IStream.DecodeVarint | ClipPic/Pods/nanopb/pb_decode.c:255-275 | refines the 64-bit reader |
| InputStream.IStream.SkipVarint | ClipPic/Pods/nanopb/pb_decode.c:278-287 | refines skipping; the end of the window stays |
| InputStream.IStream.SkipString | ClipPic/Pods/nanopb/pb_decode.c:289-296 | refines skipping of a length-delimited payload |
| InputStream.IStream.DecodeTag | ClipPic/Pods/nanopb/pb_decode.c:298-319 | number, wire type, end marker, end of stream or error, as the bytes say |
| InputStream.IStream.SkipField | ClipPic/Pods/nanopb/pb_decode.c:321-331 | skips eight bytes for wire type 1, four for 5, a length-delimited payload for 2, a varint for 0; all others fail |
| InputStream.IStream.MakeStringSubstream | ClipPic/Pods/nanopb/pb_decode.c:372-385 | the window covers exactly the payload and is shorter than what was left; the bytes left of the parent are those behind it |
| InputStream.IStream.CloseStringSubstream | ClipPic/Pods/nanopb/pb_decode.c:387-400 | however much of the window was read, the parent stands at its end, with its own bytes left unchanged |
| OutputStream.OStream.Write | ClipPic/Pods/nanopb/pb_encode.c:103-124 | writes all bytes or none, exactly as there is room; with no writer it counts them |
| OutputStream.OStream.BufWrite | ClipPic/Pods/nanopb/pb_encode.c:74-84 | appends to what is in the buffer and leaves what lies behind alone |
| OutputStream.OStream.WriteVarint | ClipPic/Pods/nanopb/pb_encode.c:608-628 | puts the encoding of a 64-bit number on the stream |
| OutputStream.VarintBytes | ClipPic/Pods/nanopb/pb_encode.c:613-627 | the groups in the ten-byte array are the encoding |
| OutputStream.OStream.Window | ClipPic/Pods/nanopb/pb_encode.c:743-748 | a stream that goes on where another stands, with a limit of its own |
| OutputStream.OStream.Adopt | ClipPic/Pods/nanopb/pb_encode.c:755-756 | taking over position and count of a window continues the log of its parent |
| Iterator.FieldIterator.Begin | ClipPic/Pods/nanopb/pb_common.c:8-18 | stands on the first field; tells whether there is one |
| Iterator.FieldIterator.Next | ClipPic/Pods/nanopb/pb_common.c:20-76 | after a step, data address, size address and required index are functions of the position alone; it wraps around at the end |
| Iterator.FieldIterator.Find | ClipPic/Pods/nanopb/pb_common.c:78-95 | from any position, true exactly if a non-extension field with the tag exists, and then standing on it; else back where it was |
| Iterator.UnionSharesStorage | ClipPic/Pods/nanopb/pb_common.c:46-58 | members of a union have one address and one selector |
| Iterator.StorageIsDisjoint | ClipPic/Pods/nanopb/pb_common.c:46-73 | fields of different storage do not overlap |
| Iterator.SlotsAreHomes | ClipPic/Pods/nanopb/pb_common.c:44-50 | in a table as generated, fields have one slot of the message if and only if they share their storage |
| Iterator.SlotsAreStorage | ClipPic/Pods/nanopb/pb_common.c:44-73 | so slots are parts of the struct: one slot lies at one address, different slots do not overlap |
| Bitmap.MarkSeen | ClipPic/Pods/nanopb/pb_decode.c:1015-1020 | sets just the bit of a required field |
| Bitmap.AllSeen | ClipPic/Pods/nanopb/pb_decode.c:1054-1072 | comparing whole words and a shifted mask asks for exactly the first count bits |
| Bitmap.WordIsFull | ClipPic/Pods/nanopb/pb_decode.c:1063-1071 | a masked comparison of one word |
| Bitmap.BitsAreFields | ClipPic/Pods/nanopb/pb_decode.c:1051-1072 | the bits say exactly whether each of the first min(count, 64) required fields occurred |
| Bitmap.RequiredFieldOf | ClipPic/Pods/nanopb/pb_common.c:65-70 | each number below the count is the number of some required field |
| Bitmap.MarkRecords | ClipPic/Pods/nanopb/pb_decode.c:1015-1020 | marking by number records the tag of the field |
| Iterator.AddressesAreOffsets | ClipPic/Pods/nanopb/pb.h:388-409 | for any struct that a table describes by the distances between its members, the addresses are those of the members and of their flags, counts and selectors |
| Decoder.DecVarint | ClipPic/Pods/nanopb/pb_decode.c:1339-1374 | comparing a cast with the original rejects exactly the values out of range |
| Decoder.DecUVarint | ClipPic/Pods/nanopb/pb_decode.c:1376-1398 | the same for unsigned fields |
| Decoder.DecSVarint | ClipPic/Pods/nanopb/pb_decode.c:1400-1422 | the same for zigzag fields |
| Decoder.CastKeeps | ClipPic/Pods/nanopb/pb_decode.c:1358-1371 | a cast keeps a number exactly if the type can hold it |
| Decoder.DecFixed | ClipPic/Pods/nanopb/pb_decode.c:1293-1326 | or-ing shifted bytes reads a little-endian number |
| Decoder.OrOfBytes | ClipPic/Pods/nanopb/pb_decode.c:1293-1326 | for any number of bytes |
| Decoder.DecData | ClipPic/Pods/nanopb/pb_decode.c:1441-1564 | bytes, string and fixed-length-bytes fields: length, storage check and contents |
| Decoder.DecPacked | ClipPic/Pods/nanopb/pb_decode.c:436-448 | the elements of a window, or its rejection |
| Decoder.DecSubmessage | ClipPic/Pods/nanopb/pb_decode.c:1519-1541 | decodes the payload into what is there, or for an element of an array after setting that to its defaults |
| Decoder.DecSlot | ClipPic/Pods/nanopb/pb_decode.c:406-483 | what a record does to the slot of its field, for each repetition rule; a value that is there is decoded into |
| Decoder.DecodeOneRecord | ClipPic/Pods/nanopb/pb_decode.c:946-1024 | one turn of the loop: find, skip, mark and decode |
| Decoder.DecodeFound | ClipPic/Pods/nanopb/pb_decode.c:991-1023 | a record of a known field, with the local counter of a fixed-count array |
| Decoder.CountRequired | ClipPic/Pods/nanopb/pb_decode.c:1038-1049 | the number of required fields is recovered from wherever the iterator stopped |
| Decoder.RequiredPresent | ClipPic/Pods/nanopb/pb_decode.c:1033-1073 | passes exactly if each of the first 64 required fields occurred |
| Decoder.DecodeRecords | ClipPic/Pods/nanopb/pb_decode.c:946-1024 | the loop refines its specification and takes at least one byte a turn |
| Decoder.DecodeNoInit | ClipPic/Pods/nanopb/pb_decode.c:928-1076 | succeeds exactly when the specification does, with its result and its rest; the stream keeps its end |
| Decoder.DecodeFresh | ClipPic/Pods/nanopb/pb_decode.c:1078-1090 | the same after the struct was set to its defaults, whatever it held once its zero counts are written |
| Decoder.SetToDefaults | ClipPic/Pods/nanopb/pb_decode.c:911-922 | the walk through the table sets each slot to its default, the value in its descriptor or zero, given what was there once the zero counts are written |
| Decoder.SetFieldToDefault | ClipPic/Pods/nanopb/pb_decode.c:839-909 | flags off and the value of the descriptor or zero; of an array only the count is set, of a union only the selector; a fixed-count array is taken once its zero count is written |
| Decoder.FixedCountIsKept | ClipPic/Pods/nanopb/pb_decode.c:865-872 | beyond the zero count written at its start, setting defaults does not initialise a fixed-count array |
| Encoder.EncNumber | ClipPic/Pods/nanopb/pb_encode.c:769-850 | numbers are written exactly as specified, and fail exactly for an odd size or lack of room |
| Encoder.FixedBytes | ClipPic/Pods/nanopb/pb_encode.c:641-666 | the bytes cut out by shifts are the little-endian ones |
| Encoder.EncData | ClipPic/Pods/nanopb/pb_encode.c:852-912 | bytes, strings up to their NUL and fixed-length bytes |
| Encoder.StringSize | ClipPic/Pods/nanopb/pb_encode.c:890-895 | finds the NUL, or the end of the buffer |
| Encoder.CheckDefaultValue | ClipPic/Pods/nanopb/pb_encode.c:240-337 | decides whether a value is zero: 0, no bytes, an empty string, or a submessage that is absent or zero field by field |
| Encoder.EncPackedPayload | ClipPic/Pods/nanopb/pb_encode.c:169-204 | the computed or counted size of a packed array is that of the elements written |
| Encoder.PackedSize | ClipPic/Pods/nanopb/pb_encode.c:169-189 | four or eight bytes an element, or a counting pass: exactly the size of the elements |
| Encoder.FixedSizes | ClipPic/Pods/nanopb/pb_encode.c:170-177 | fixed-width arrays take four or eight bytes an element |
| Encoder.EncArray | ClipPic/Pods/nanopb/pb_encode.c:147-236 | packed or one record an element; too many elements fail |
| Encoder.EncField | ClipPic/Pods/nanopb/pb_encode.c:341-426 | a field is left out, written or rejected by its repetition rule |
| Encoder.EncodeSubmessage | ClipPic/Pods/nanopb/pb_encode.c:717-765 | the counting pass and the writing pass agree on the size; fails exactly if the message cannot be encoded or the whole does not fit |
| Encoder.WriteWindow | ClipPic/Pods/nanopb/pb_encode.c:740-764 | inside a window of the counted size the second pass fits exactly, so the check for a changed size never fires |
| Encoder.Encode | ClipPic/Pods/nanopb/pb_encode.c:528-550 | succeeds exactly if the message can be encoded and there is room for all of it, and then that is what went through the stream, written or counted |
| Encoder.GetEncodedSize | ClipPic/Pods/nanopb/pb_encode.c:567-576 | the counted size is the size of the encoding |
| Encoder.EncodeInto | ClipPic/Pods/nanopb/pb_encode.c:86-101 | a buffer is filled with the encoding exactly if it is large enough, and left alone behind the limit |
| AuthState.Interceptor.AdaptLocked | ClipPic/Pods/Alamofire/Source/AuthenticationInterceptor.swift:251-274 | the locked section of adapt, on the fields |
| AuthState.Interceptor.RetryLocked | ClipPic/Pods/Alamofire/Source/AuthenticationInterceptor.swift:319-325 | the locked section of retry |
| AuthState.Interceptor.StartOrRefuse | ClipPic/Pods/Alamofire/Source/AuthenticationInterceptor.swift:330-353 | a refresh is recorded and dispatched, or the waiting calls are let go with an error |
| AuthState.Interceptor.IsRefreshExcessive | ClipPic/Pods/Alamofire/Source/AuthenticationInterceptor.swift:355-368 | counts the timestamps of the window |
| AuthState.Interceptor.HandleRefreshSuccess | ClipPic/Pods/Alamofire/Source/AuthenticationInterceptor.swift:370-386 | the waiting calls leave as one batch, under the new credential |
| AuthState.Interceptor.HandleRefreshFailure | ClipPic/Pods/Alamofire/Source/AuthenticationInterceptor.swift:388-402 | the waiting calls leave as one batch, with the error |
| AuthSafety.EveryRun | ClipPic/Pods/Alamofire/Source/AuthenticationInterceptor.swift:250-402 | over every interleaving: each call is in exactly one place, waiting calls are served in order of arrival, each call is answered in kind and about its own request, isRefreshing holds exactly while one refresh is out, nobody waits without one, and each start left one timestamp |
| AuthSafety.RefreshRate | ClipPic/Pods/Alamofire/Source/AuthenticationInterceptor.swift:330-368 | no closed interval of the length of the window holds more than maximumAttempts started refreshes, though the clock is read twice |
| AuthSafety.NeverTwice | ClipPic/Pods/Alamofire/Source/AuthenticationInterceptor.swift:276-289 | no call is answered twice, nor while a thread still works on it |
| AuthSafety.IdleMeansAnswered | ClipPic/Pods/Alamofire/Source/AuthenticationInterceptor.swift:370-402 | when nothing is left to do, every call was answered exactly once |
| AuthSafety.NewCredentialIsUsed | ClipPic/Pods/Alamofire/Source/AuthenticationInterceptor.swift:370-386 | after a refresh, requests are adapted with the new credential until it changes again |
| AuthSafety.FlightKept | ClipPic/Pods/Alamofire/Source/AuthenticationInterceptor.swift:319-402 | every step keeps the flag, the outstanding refresh and the waiting calls in agreement, refused refreshes included |
| AuthSafety.OwnAnswersKept | ClipPic/Pods/Alamofire/Source/AuthenticationInterceptor.swift:276-325 | every step keeps each request with its call, and answers of the kind that the call asks for |
| AuthSafety.RateKept | ClipPic/Pods/Alamofire/Source/AuthenticationInterceptor.swift:330-368 | every step keeps the bound on the refreshes |
| AuthSafety.LimitedAgain | ClipPic/Pods/Alamofire/Source/AuthenticationInterceptor.swift:330-368 | a check that comes before the timestamp is on the safe side |
| AuthSafety.LimitedWithin | ClipPic/Pods/Alamofire/Source/AuthenticationInterceptor.swift:355-368 | looking back at each start bounds every interval |
| AuthRuns.FifoKept | ClipPic/Pods/Alamofire/Source/AuthenticationInterceptor.swift:370-402 | every step keeps the order of arrival |
| AuthRuns.BalanceKept | ClipPic/Pods/Alamofire/Source/AuthenticationInterceptor.swift:250-402 | every step keeps each call in one place |
| AuthProgress.ForwardWorks | ClipPic/Pods/Alamofire/Source/AuthenticationInterceptor.swift:250-402 | each step that brings a call forward leaves less to do |
| AuthProgress.SuccessWorks | ClipPic/Pods/Alamofire/Source/AuthenticationInterceptor.swift:370-386 | a successful refresh adds at most five steps for each call |
| AuthProgress.FewWait | ClipPic/Pods/Alamofire/Source/AuthenticationInterceptor.swift:251-274 | as a call waits at most once |
| AuthProgress.NeverStuck | ClipPic/Pods/Alamofire/Source/AuthenticationInterceptor.swift:250-402 | while anything is left to do, such a step is possible |
| AuthProgress.ForwardEnds | ClipPic/Pods/Alamofire/Source/AuthenticationInterceptor.swift:250-402 | while no more calls come, the steps forward are at most the work there was and five for each call and each successful refresh |
| AuthProgress.AllAnswered | ClipPic/Pods/Alamofire/Source/AuthenticationInterceptor.swift:250-402 | and where they end, every call has exactly one answer, however many refreshes have succeeded |
| AuthAnswers.EveryAnswer | ClipPic/Pods/Alamofire/Source/AuthenticationInterceptor.swift:250-402 | in every run, each answer in the log is the one that a section of the call decided, or the end of the refresh that it waited for, and no other section decided another |
| AuthAnswers.WaitingRetry | ClipPic/Pods/Alamofire/Source/AuthenticationInterceptor.swift:370-402 | a retry that waited is answered retry after a successful refresh, and with just that error after a failed or refused one |
| AuthAnswers.WaitingAdapt | ClipPic/Pods/Alamofire/Source/AuthenticationInterceptor.swift:388-402 | a deferred adaptation fails with just the error of a failed or refused refresh |
| AuthAnswers.PromptAdapt | ClipPic/Pods/Alamofire/Source/AuthenticationInterceptor.swift:251-289 | one that does not wait is adapted with the credential of the moment, or fails for want of one |
| AuthAnswers.PromptRetry | ClipPic/Pods/Alamofire/Source/AuthenticationInterceptor.swift:294-317 | a retry that never waits is not retried exactly if the failure was not one of authentication, fails exactly if there was no credential, and is retried exactly if the request carried another one |
| AuthAnswers.ExcessiveIsTooMany | ClipPic/Pods/Alamofire/Source/AuthenticationInterceptor.swift:355-368 | a refresh is refused exactly if the number of timestamps in the window is at least the maximum |
| AuthSteps.RefreshBegins | ClipPic/Pods/Alamofire/Source/AuthenticationInterceptor.swift:330-353 | a refresh begins exactly when one is asked for, none is out and the window is not full, with the credential of that section and its time recorded |
| AuthSteps.RefreshEnds | ClipPic/Pods/Alamofire/Source/AuthenticationInterceptor.swift:341-352 | the answer of the authenticator clears the flag, and only a success or the owner changes the credential |
| AuthSteps.BatchIsServed | ClipPic/Pods/Alamofire/Source/AuthenticationInterceptor.swift:382-401 | a batch is served one call at a time, the adaptations first, when the one before is through |
| Multipart.EncodingBytes | ClipPic/Pods/Alamofire/Source/MultipartFormData.swift:64-77 | the bytes of a form: its opening, parts with a line break and the opening between them, and its closing |
| Multipart.ContentBytes | ClipPic/Pods/Alamofire/Source/MultipartFormData.swift:394-400 | the bytes of a part: name, colon, space, value and line break for each header, an empty line, the body |
| Multipart.ReadsBackClear | ClipPic/Pods/Alamofire/Source/MultipartFormData.swift:322-400 | whatever the boundary, a form with parts and header lines without line breaks is read back as the same list of headers and bodies if and only if the first delimiter behind each part is its own |
| Multipart.ReadsBack | ClipPic/Pods/Alamofire/Source/MultipartFormData.swift:322-400 | with a delimiter that has no border, that is if and only if the delimiter occurs in no part, the line break before it included |
| Multipart.SafeIsUnbordered | ClipPic/Pods/Alamofire/Source/MultipartFormData.swift:64-77 | the boundaries for which every form with no delimiter in its parts is read back are exactly those whose delimiter has no border, no end that is also a beginning of it |
| Multipart.BorderedIsUnsafe | ClipPic/Pods/Alamofire/Source/MultipartFormData.swift:64-77 | for any other boundary, the part that ends with the delimiter up to its border is a form that is not read back |
| Multipart.PlainBoundary | ClipPic/Pods/Alamofire/Source/MultipartFormData.swift:55-62 | a boundary without a carriage return, as the generated ones, is safe |
| Multipart.HarmlessReturn | ClipPic/Pods/Alamofire/Source/MultipartFormData.swift:64-77 | but so are some with one |
| Multipart.FirstIsBehind | ClipPic/Pods/Alamofire/Source/MultipartFormData.swift:64-77 | where it is so, the first delimiter found is the one behind the part |
| Multipart.NoStraddling | ClipPic/Pods/Alamofire/Source/MultipartFormData.swift:64-77 | no delimiter without a border straddles the end of a part and the delimiter behind it |
| Multipart.StraddlingIsBorder | ClipPic/Pods/Alamofire/Source/MultipartFormData.swift:64-77 | one that does shows a border |
| Multipart.PartIsCut | ClipPic/Pods/Alamofire/Source/MultipartFormData.swift:375-392 | a form with a part that has a delimiter before its own is not read back |
| Multipart.HeadersReadBack | ClipPic/Pods/Alamofire/Source/MultipartFormData.swift:394-400 | header lines and body are told apart |
| Multipart.HeaderIsReadable | ClipPic/Pods/Alamofire/Source/MultipartFormData.swift:394-400 | name and value are told apart if the name has no colon |
| Multipart.Unambiguous | ClipPic/Pods/Alamofire/Source/MultipartFormData.swift:322-400 | with a safe boundary, two forms with the same bytes are the same to the receiver |
| Multipart.StraddlingDelimiter | ClipPic/Pods/Alamofire/Source/MultipartFormData.swift:64-77 | an unsafe boundary, and a form that it breaks |
| Multipart.EmptyFormIsUnreadable | ClipPic/Pods/Alamofire/Source/MultipartFormData.swift:322-339 | a form without parts is empty data, not a multipart message |
| MultipartEncoder.DeliveredIs | ClipPic/Pods/Alamofire/Source/MultipartFormData.swift:408-423 | an input stream delivers its chunks up to its end or the first round that finds nothing, and nothing if an error comes before |
| MultipartEncoder.FlaggedIsEncoding | ClipPic/Pods/Alamofire/Source/MultipartFormData.swift:329-337 | with the two flags at the ends, the parts make up the form |
| MultipartEncoder.MultipartFormData.Encode | ClipPic/Pods/Alamofire/Source/MultipartFormData.swift:322-339 | in memory: succeeds exactly if every stream delivers as many bytes as announced, with the form; else the error of the first part that does not |
| MultipartEncoder.MultipartFormData.EncodePart | ClipPic/Pods/Alamofire/Source/MultipartFormData.swift:375-392 | boundary, headers, body and final boundary of one part |
| MultipartEncoder.EncodeHeaders | ClipPic/Pods/Alamofire/Source/MultipartFormData.swift:394-400 | the header lines and the empty line |
| MultipartEncoder.EncodeBodyStream | ClipPic/Pods/Alamofire/Source/MultipartFormData.swift:402-431 | collects the chunks and compares the length |
| MultipartEncoder.MultipartFormData.WriteEncodedData | ClipPic/Pods/Alamofire/Source/MultipartFormData.swift:347-371 | into a stream: when it succeeds, the form was written completely if and only if the stream had space in every round |
| MultipartEncoder.WriteComplete | ClipPic/Pods/Alamofire/Source/MultipartFormData.swift:347-371 | a stream that always has space gets the form as it is |
| MultipartEncoder.WriteTruncated | ClipPic/Pods/Alamofire/Source/MultipartFormData.swift:493-509 | a stream that has no space in its first round gets less than the form, and success is reported |
| MultipartEncoder.EncodeBothWays | ClipPic/Pods/Alamofire/Source/MultipartFormData.swift:402-476 | the bodies that only the streamed encoder accepts are those delivered, but not at the announced length |
| MultipartEncoder.MultipartFormData.WritePart | ClipPic/Pods/Alamofire/Source/MultipartFormData.swift:435-484 | the same four pieces as in memory |
| MultipartEncoder.WriteBodyStream | ClipPic/Pods/Alamofire/Source/MultipartFormData.swift:452-476 | passes on exactly what the input stream delivers, whatever length was announced |
| MultipartEncoder.OutputStream.Write | ClipPic/Pods/Alamofire/Source/MultipartFormData.swift:493-509 | what is written is the part that the stream takes, round by round; when there is no space the rest is dropped without an error, and that is the only way to lose bytes |
| MultipartEncoder.OfferEnds | ClipPic/Pods/Alamofire/Source/MultipartFormData.swift:493-509 | all bytes are taken unless the last round finds no space, or an error |
| MultipartEncoder.MultipartFormData.MarkEnds | ClipPic/Pods/Alamofire/Source/MultipartFormData.swift:329-330 | sets the two flags and no others |
| MultipartEncoder.MultipartFormData.Append | ClipPic/Pods/Alamofire/Source/MultipartFormData.swift:307-310 | adds a part without flags at the end |
| MultipartEncoder.MultipartFormData.SetBodyPartError | ClipPic/Pods/Alamofire/Source/MultipartFormData.swift:539-542 | keeps the first error |

## Left out

- nanopb: callbacks, extensions, streams other than buffers, pointer fields and `pb_release`, error strings, the
  delimited and null-terminated variants of the entry points.
- nanopb: byte counts of streams are unbounded, so a `size_t` that wraps around is not modelled; lengths on the wire
  are 32 and 64 bits wide as in the source.
- nanopb: struct memory is modelled as slots. Decoding returns a new struct or fails; the partly written struct after a
  failure and the bytes of a union that is not selected are not modelled. Addresses are modelled in the iterator only.
- Decoder.FixedCountIsKept: when defaults are set, the source writes a zero count over the first four bytes of such an
  array. The struct that was there is given as it is once these are written; how they change an element is not
  modelled, nor that they run past an array of fewer than four bytes, such as two bools.
- nanopb: for a message type without fields, a record numbered 0 is read into memory in front of the struct by the
  source; the model keeps its effect on the stream.
- Order.OrderIsIrrelevant: does not say what happens when the records of one fixed-count array are divided by those of
  another; the decoder then begins the first one anew.
- RoundTrip.MessageRoundTrip: encodings of 2^32 bytes and more are not covered, as the decoder reads lengths in 32 bits.
- NegativeVarint.EncodeNegativeVarint: covers negative numbers only, the ones that the source passes to it.
- Interceptor: URL requests, responses, sessions and the authenticator's own logic are parameters of the steps; clock
  readings are real numbers, without rounding.
- Multipart: file checks, MIME types, random boundaries, opening and closing of streams. Text is bytes already.
- MultipartEncoder.MultipartFormData.Encode: relates its result to a well-formed form for the first encoding only; a
  second one after further appends finds the flags of the first still set.
- MultipartEncoder.OutputStream.Write: a stream that has space accepts at least one byte of each write, so a stream that
  accepts none for ever is not modelled.
