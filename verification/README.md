# Verified models of the media application's vendored components

The application's repository carries three components whose correctness can be read off their source
alone, and this project models them in Dafny and proves what they promise.

**The nanopb protobuf codec** (`app/ios/Pods/nanopb`). `pb_encode` writes a message, described by a
field table, to a bounded or a sizing stream; `pb_decode` reads it back. `EncodeSpec` and `DecodeSpec`
say what the two compute, as functions of the descriptor, the struct and the bytes. `Encoder` and
`Decoder` are the code itself, with its streams, its iterator, its required-field bitmap, its loops and
its two-pass submessages, and each routine is proved to do what the functions say and nothing else.
The properties are then proved of the functions: the round trip, with its exact condition; the projection to
an older reader; merging by concatenation; framing; canonical re-encoding; and how often each scalar's encoder runs.
`WireFormat` and `ScalarValues` say what bytes and values the functions stand for, on any input; `Presence` which
fields are left out and come back; `PackedForms`, `Repeats` and `MessageEnds` what arrays in mixed form, repeated
records and the checks at the end amount to.
The repository builds nanopb with `PB_FIELD_32BIT` and `PB_ENABLE_MALLOC`. The width of `pb_size_t` is a
parameter (`Message.SIZE_BYTES`) over which every result holds. `Ownership` models the decoder with heap
blocks, refused allocations included, and lists the storage that a run gives up. `ReleaseBlocks`, `StoredBlocks`,
`DefaultBlocks`, `DecodeBlocks` and `BlockBalance` account for the blocks; `SafeBlocks` and `LoneArray` say which descriptors
never lose one, and `FixedCountLeak` has runs that do. `OwnershipAgrees` ties this decoder to the codec.

**The in-memory file system** of the Emscripten glue (`app/assets/js/ffmpeg-core.js`, a minified file;
the names in the table are its own). `NodeTable` is the chained hash table that is the only way to a
directory entry, `TreeSpec`, `FileTree` and `FileRuns` the operations on paths and runs of them, `PathView` what callers see
of these, a map from paths to what is there, `MemFile` the growable storage and its streams, `Paths` and `PathLaws` the path functions, `Utf8` the string conversions. Each is a fast form, proved to agree with a
simple one: the directory maps, a tree of paths, a byte sequence, a stack of components, a sequence of code points.

**The SwiftyGif scheduler** (`app/ios/Pods/SwiftyGif`). `GifSchedule` resamples frame delays to display
ticks over exact reals, `GifPlayer` steps the loop-count state machine.

Where the code does not do what one would expect, the code is kept, the exact condition is proved and
a lemma gives the input:

- A string that fills its char array encodes but is not decoded again, and an embedded length of 2^32 or more is not read:
  `DecodeIffReadable` says exactly which encodings decode.
- `pb_decode_varint32` ignores bits 4 to 6 of the fifth byte when more bytes follow, so it reads some
  values above 32 bits: `Varint32OnEncoding` says which.
- Setting defaults over an item of a fixed-count array that is already filled overwrites pointers that `pb_decode` has not
  freed, and a count of `PB_SIZE_MAX` wraps to zero: decoding and releasing balances every block if and only if the run gives
  up no storage with a pointer in it and leaves none beyond a count (`BalancesIffClean`; `FixedCountLeaks` and `LongArrayLeaks` are runs that do not balance).
- A concatenation overflows a fixed-count array if and only if the second message starts with the array that the first
  filled last (`ConcatIsMerge`, `FixedCountOverflows`).
- `rename` breaks the tree in three cases: the target exists (the replaced node stays hashed), the target's parent
  is a file (if it is empty the write throws after the old entry is gone, otherwise the node ends up below the file),
  or the target lies below the moved directory and the next component starts with a dot (`FileSystem.Rename`, `LeadingDotFoolsCheck`).
- A directory in which the name `__proto__` was ever written cannot be removed, even without entries (`MadeAndUnlinked`).
- The relative path between equal places is empty and does not resolve (`RelativeInverts`).
- A loop count of 0 plays on, as -1, if and only if the GIF has one image of one tick (`ZeroLoopsOfOneTick`).

## Model

| member | source | states |
|---|---|---|
| Varint.VarintAtMostTen | app/ios/Pods/nanopb/pb_encode.c:608-628 | A 64-bit varint fits the encoder's ten-byte buffer. |
| Varint.Varint64RoundTrip | app/ios/Pods/nanopb/pb_decode.c:255-276 | The 64-bit reader gives back every value the encoder wrote and stops after it. |
| Varint.Varint32OnEncoding | app/ios/Pods/nanopb/pb_decode.c:187-253 | Exactly which encodings the 32-bit reader accepts, and that it returns the low word and stops after the varint. |
| Varint.VarintReadersAgree | app/ios/Pods/nanopb/pb_decode.c:187-276 | On any bytes that both readers accept they consume the same and agree on the low 32 bits. |
| WireFormat.VarintForm | app/ios/Pods/nanopb/pb_encode.c:608-628 | A byte list is the encoder's varint of v if and only if its seven-bit groups add up to v, all bytes but the last have the top bit set, and the last of several is not zero. |
| WireFormat.Reader64 | app/ios/Pods/nanopb/pb_decode.c:255-276 | The 64-bit reader on any bytes: a varint in whatever form is accepted exactly if it ends within ten bytes, with its value modulo 2^64. |
| WireFormat.Reader32 | app/ios/Pods/nanopb/pb_decode.c:187-247 | The 32-bit reader on any varint of up to 36 bytes, overlong ones included: which it accepts, that it gives the low word, and where it stops. |
| Wire.ZigZagBijective | app/ios/Pods/nanopb/pb_encode.c:630-639 | Zigzag and its inverse cancel both ways over 64 bits, and small magnitudes get small codes. |
| Wire.FixedRoundTrip | app/ios/Pods/nanopb/pb_decode.c:1299-1332 | The four- and eight-byte readers give back every word from its little-endian bytes. |
| WireFormat.Fixed32Is | app/ios/Pods/nanopb/pb_decode.c:1299-1312 | The four bytes of a word, least significant first, one by one, written and read. |
| WireFormat.Fixed64Is | app/ios/Pods/nanopb/pb_decode.c:1314-1332 | Eight bytes are the low word and then the high word. |
| Wire.TagRoundTrip | app/ios/Pods/nanopb/pb_decode.c:298-319 | A field key is split into the tag and wire type it was made of. |
| WireFormat.KeyIs | app/ios/Pods/nanopb/pb_decode.c:298-319 | Any 32-bit key is a tag and three bits of wire type; the key zero alone ends a message. |
| WireFormat.SkipIs | app/ios/Pods/nanopb/pb_decode.c:278-331 | How many bytes of any input are skipped for each wire type; for wire types 3, 4, 6 and 7 skipping fails. |
| Wire.StringRoundTrip | app/ios/Pods/nanopb/pb_encode.c:709-715 | A length-delimited record is read back exactly when its length is below 2^32. |
| ScalarTrip.ScalarRoundTrip | app/ios/Pods/nanopb/pb_decode.c:1334-1523 | Every encoded scalar decodes to its normal form, except a string without room for its terminator, which is refused. |
| WireFormat.ValueBytes | app/ios/Pods/nanopb/pb_encode.c:769-911 | The bytes of every type of value, down to the ten bytes of any negative int32 and the single byte of a bool. |
| WireFormat.Writable | app/ios/Pods/nanopb/pb_encode.c:769-911 | Exactly which values each type of field can write; a full char array needs no terminator. |
| ScalarValues.ScalarIs | app/ios/Pods/nanopb/pb_decode.c:1334-1570 | On any bytes, a scalar decoder accepts exactly the numbers in its field's range and the records that fit its storage, and gives the value they stand for. |
| ScalarTrip.SkipValue | app/ios/Pods/nanopb/pb_decode.c:321-331 | Skipping by wire type consumes exactly the bytes written for a value of any type. |
| RoundTrip.SkipWholeField | app/ios/Pods/nanopb/pb_decode.c:966-995 | The records of a field that the reader does not know leave its state as it was. |
| RoundTrip.MessageTrip | app/ios/Pods/nanopb/pb_decode.c:934-1019 | Decoding an encoded message from the defaults, at any depth, reaches the same state as having read all its fields, and goes on with what follows. |
| RoundTrip.FinalIsFinished | app/ios/Pods/nanopb/pb_decode.c:1021-1078 | After a whole message the required-field and fixed-count tests pass and the struct is the normal form. |
| RoundTrip.DecodeProjects | app/ios/Pods/nanopb/pb_decode.c:278-331 | A reader that knows any subset of the writer's fields, at any depth, decodes the encoding to the message restricted to its fields, consuming all of it. |
| RoundTrip.DecodeInvertsEncode | app/ios/Pods/nanopb/pb_encode.c:341-426 | Decoding what was encoded gives the normalised message and consumes exactly those bytes. |
| Presence.ScalarAbsentIffZero | app/ios/Pods/nanopb/pb_encode.c:240-363 | An implicit scalar is left out if and only if the reader would read zero, false or an empty value; any other is written behind its key. |
| Presence.SubmessageAbsentIff | app/ios/Pods/nanopb/pb_encode.c:285-304 | An implicit submessage is left out if and only if its encoding is empty, it has no fixed-count array and none of its unions has a member. |
| Presence.SingularComesBack | app/ios/Pods/nanopb/pb_encode.c:341-426 | On the round trip no value of an implicit field is lost, but for a scalar zero where the reader's own default is something else. |
| Presence.FieldComesBack | app/ios/Pods/nanopb/pb_encode.c:368-423 | What the reader holds for a field of any presence rule after the round trip, in terms of what the writer held. |
| WireFormat.ArrayBytes | app/ios/Pods/nanopb/pb_encode.c:147-236 | An array exists on the wire exactly if it is within its size and all its items can be written; numbers share one key and length, other items have a key each. |
| WireFormat.MessageBytes | app/ios/Pods/nanopb/pb_encode.c:528-550 | A message is the concatenation of its fields' bytes in descriptor order, and exists exactly if every field's do. |
| PackedForms.UnpackedItems | app/ios/Pods/nanopb/pb_decode.c:454-463 | The items of an array of any type, each with its key, are appended in order from any state, and refused exactly when there is no room. |
| PackedForms.MixtureDecodes | app/ios/Pods/nanopb/pb_decode.c:420-464 | Numbers sent in any mixture of packed records and single items are appended in order, counted or fixed-count array alike, and refused exactly when they do not fit. |
| PackedForms.MixturesInMessage | app/ios/Pods/nanopb/pb_decode.c:420-464 | Anywhere in a message, two mixtures of the same items decode to the same message. |
| PackedForms.FixedSizeIsMet | app/ios/Pods/nanopb/pb_decode.c:997-1026 | A fixed-count array ends a message well exactly if its records hold as many items as it has, and then holds those items. |
| PackedForms.OtherInterrupts | app/ios/Pods/nanopb/pb_decode.c:997-1007 | A fixed-count array that is not full may not be left for another. |
| Repeats.LastStands | app/ios/Pods/nanopb/pb_decode.c:416-423 | An earlier record of a scalar, or of any field by pointer, makes no difference, even if the last one is malformed. |
| Repeats.MemberReplaces | app/ios/Pods/nanopb/pb_decode.c:466-479 | A record for another member of a union replaces what the union held and starts afresh. |
| Repeats.PartsMerge | app/ios/Pods/nanopb/pb_decode.c:1525-1547 | An embedded submessage sent in two records is the one whose encoding is the two joined, unless they clash over a fixed-count array. |
| MessageEnds.MessageIff | app/ios/Pods/nanopb/pb_decode.c:1021-1082 | Bytes are a message exactly if every record decodes, the last fixed-count array is full and each of the first 64 required fields has a record. |
| MessageEnds.NoBytes | app/ios/Pods/nanopb/pb_decode.c:934-1096 | The empty input is a message exactly if nothing is required, and gives the defaults. |
| MessageEnds.DefaultsAbsent | app/ios/Pods/nanopb/pb_decode.c:845-927 | In the defaults no optional value, array item or union member is present. |
| MessageEnds.EmptyTable | app/ios/Pods/nanopb/pb_decode.c:966-995 | A table without fields skips every record, but reads one of tag zero as a 32-bit varint. |
| Unreadable.MessageFails | app/ios/Pods/nanopb/pb_decode.c:1487-1523 | An encoding with an unterminated string for a known field, or a length of 2^32 or more, makes the decoder fail. |
| Unreadable.DecodeIffReadable | app/ios/Pods/nanopb/pb_decode.c:934-1096 | An encoding decodes if and only if its strings are terminated and its lengths fit, and then to the normal form. |
| Merge.RunConcat | app/ios/Pods/nanopb/pb_decode.c:954-1019 | Decoding x followed by y is decoding y from the state that x leaves. |
| Merge.ConcatIsMerge | app/ios/Pods/nanopb/pb_decode.c:934-1082 | Decoding a concatenation equals decoding the second part into the result of the first if and only if the second part's first fixed-count record is not for the (non-empty) array that the first part filled last; otherwise it is refused. A required field may come from either part. |
| Merge.FixedCountOverflows | app/ios/Pods/nanopb/pb_decode.c:997-1019 | The smallest such clash: a record that decodes on top of itself overflows its array when concatenated. |
| Framing.DelimitedTrip | app/ios/Pods/nanopb/pb_decode.c:1113-1126 | A delimited message is read back and what follows is left. |
| Framing.StreamTrip | app/ios/Pods/nanopb/pb_encode.c:552-555 | A list of delimited messages is read back in order, leaving exactly the remaining bytes. |
| Framing.NullTerminatedTrip | app/ios/Pods/nanopb/pb_encode.c:557-565 | A null-terminated message followed by any bytes decodes to the message and stops just after the zero. |
| Canonical.RunGood | app/ios/Pods/nanopb/pb_decode.c:934-1019 | Whatever the bytes, decoding keeps a struct within its field types, array sizes and union members. |
| Canonical.GoodReadable | app/ios/Pods/nanopb/pb_encode.c:341-426 | The encoding of such a struct meets the reader's conditions. |
| Canonical.NormEnc | app/ios/Pods/nanopb/pb_encode.c:240-426 | Normalising a struct does not change its encoding, proto3 implicit defaults included. |
| Canonical.DecodedEncodes | app/ios/Pods/nanopb/pb_encode.c:147-236 | Anything that decodes can be encoded. |
| Canonical.ReencodingIsCanonical | app/ios/Pods/nanopb/pb_encode.c:528-550 | For any bytes that decode: decoding the encoding and encoding again reproduces it, exactly when it can be read back at all, as any encoding below 2^32 bytes can. |
| EncoderRuns.ArrayRunsWeigh | app/ios/Pods/nanopb/pb_encode.c:162-205 | A packed item runs once more than a single value in the same place, and exactly once if its width is fixed. |
| EncoderRuns.RunsWeigh | app/ios/Pods/nanopb/pb_encode.c:717-765 | In the writing pass a scalar at submessage depth d runs d + 1 times; a sizing pass runs everything once. |
| OutputStream.OStream.Write | app/ios/Pods/nanopb/pb_encode.c:103-124 | All the bytes are stored or none; the position stays start plus count within the limit, and memory outside is kept. |
| OutputStream.OStream.Store | app/ios/Pods/nanopb/pb_encode.c:74-84 | The bytes go to the current position, which moves past them; nothing else changes. |
| OutputStream.OStream.Count | app/ios/Pods/nanopb/pb_encode.c:103-124 | A sizing stream counts bytes that it is not given. |
| OutputStream.StreamFullTest | app/ios/Pods/nanopb/pb_encode.c:107-114 | The test for a full stream, with size_t wrap-around, is the comparison of the unbounded sum. |
| Encoder.VarintBytes | app/ios/Pods/nanopb/pb_encode.c:608-628 | The buffer loop produces the varint. |
| Encoder.EncodeVarint | app/ios/Pods/nanopb/pb_encode.c:608-628 | Writes the varint or nothing. |
| Encoder.EncodeSvarint | app/ios/Pods/nanopb/pb_encode.c:630-639 | Writes the zigzag code's varint. |
| Encoder.EncodeFixed32 | app/ios/Pods/nanopb/pb_encode.c:641-650 | Writes the four little-endian bytes. |
| Encoder.EncodeFixed64 | app/ios/Pods/nanopb/pb_encode.c:653-667 | Writes the eight little-endian bytes. |
| Encoder.EncodeTagForField | app/ios/Pods/nanopb/pb_encode.c:675-707 | Writes the key with the wire type of the field's type. |
| Encoder.EncodeString | app/ios/Pods/nanopb/pb_encode.c:709-715 | Writes the length and the bytes. |
| Encoder.StringLength | app/ios/Pods/nanopb/pb_encode.c:873-897 | The scan for the terminator finds the C string within the array. |
| Encoder.EncodeScalar | app/ios/Pods/nanopb/pb_encode.c:769-911 | Each scalar encoder writes its value's data, or fails on a value its field cannot hold. |
| Encoder.EncodeSubmessage | app/ios/Pods/nanopb/pb_encode.c:717-765 | The length found by the sizing pass and then the fields are written; the two passes always agree. |
| Encoder.EncodeThrough | app/ios/Pods/nanopb/pb_encode.c:740-764 | The writing pass fills a substream of exactly the size found and hands its position back, so "submsg size changed" cannot occur. |
| Encoder.PackedSize | app/ios/Pods/nanopb/pb_encode.c:162-190 | The size of a packed array, by multiplication or by a sizing stream, is the size of its payload. |
| Encoder.EncodePacked | app/ios/Pods/nanopb/pb_encode.c:162-205 | Writes the payload behind its length. |
| Encoder.EncodeArray | app/ios/Pods/nanopb/pb_encode.c:147-236 | An array is left out if empty, refused if over its size, else packed or tagged item by item. |
| Encoder.EncodeBasicField | app/ios/Pods/nanopb/pb_encode.c:341-426 | A field is written by its presence rule: required, optional, implicit, repeated, fixed count or union member. |
| Encoder.PbEncode | app/ios/Pods/nanopb/pb_encode.c:528-550 | The fields are written in descriptor order, in a stream that keeps its bounds throughout. |
| Encoder.GetEncodedSize | app/ios/Pods/nanopb/pb_encode.c:567-576 | The size is that of what pb_encode writes, for any nesting and packing; each scalar runs once. |
| Encoder.EncodeToBuffer | app/ios/Pods/nanopb/pb_encode.c:86-101 | Encoding to a buffer succeeds exactly when the encoding exists and fits, touches nothing behind it, and runs a scalar at depth d exactly d + 1 times. |
| Encoder.EncodeDelimited | app/ios/Pods/nanopb/pb_encode.c:552-555 | Writes the message behind its length. |
| Encoder.EncodeNullTerminated | app/ios/Pods/nanopb/pb_encode.c:557-565 | Writes the message and a zero. |
| InputStream.IStream.Read | app/ios/Pods/nanopb/pb_decode.c:87-137 | Reads are confined to the stream: the next bytes, or a failure that moves nothing outside. |
| InputStream.IStream.ReadByte | app/ios/Pods/nanopb/pb_decode.c:141-156 | One byte, or the end of the stream. |
| FieldIterator.FieldIter.Begin | app/ios/Pods/nanopb/pb_common.c:8-27 | The pointers and the required index are those of the first field. |
| FieldIterator.FieldIter.Next | app/ios/Pods/nanopb/pb_common.c:29-85 | The stepped pointers equal the closed-form offsets of the new position, unions, arrays and pointers included, and the required index counts the required fields before it. |
| FieldIterator.FieldsApart | app/ios/Pods/nanopb/pb_common.c:48-80 | A field ends before every later one that is not joined to it in a union. |
| FieldIterator.FieldIter.Find | app/ios/Pods/nanopb/pb_common.c:87-104 | From any position the cyclic search ends, and succeeds exactly when a field has the tag. |
| RequiredBits.MaskTest | app/ios/Pods/nanopb/pb_decode.c:1054-1075 | A word equals the mask of n ones exactly when its first n bits and no others are set. |
| RequiredBits.RemainderMask | app/ios/Pods/nanopb/pb_decode.c:1066-1074 | The shifted all-ones word is the mask of the remaining bits. |
| RequiredBits.FieldsSeen.Mark | app/ios/Pods/nanopb/pb_decode.c:1008-1013 | Sets one bit of the bitmap and no other. |
| RequiredBits.FieldsSeen.AllSeen | app/ios/Pods/nanopb/pb_decode.c:1054-1075 | The word-and-remainder test passes exactly when every counted field was seen. |
| Decoder.DecodeVarint32Eof | app/ios/Pods/nanopb/pb_decode.c:187-247 | Reads what the function says, and reports the end of the stream only before the first byte. |
| Decoder.DecodeVarint | app/ios/Pods/nanopb/pb_decode.c:255-276 | Reads a 64-bit varint or fails, within the stream. |
| Decoder.DecodeTag | app/ios/Pods/nanopb/pb_decode.c:298-319 | Reads a key, or the end of the message. |
| Decoder.SkipFieldData | app/ios/Pods/nanopb/pb_decode.c:321-331 | Skips a record by its wire type, within the stream. |
| Decoder.MakeSubstream | app/ios/Pods/nanopb/pb_decode.c:372-385 | The substream is the delimited record, and the parent keeps the bytes behind it. |
| Decoder.CloseSubstream | app/ios/Pods/nanopb/pb_decode.c:387-400 | However much was read of it, the parent continues just behind the declared length. |
| Decoder.DecodeScalar | app/ios/Pods/nanopb/pb_decode.c:1334-1523 | Each scalar decoder returns the value the bytes say, with its range and size tests. |
| Decoder.MessageSetToDefaults | app/ios/Pods/nanopb/pb_decode.c:845-927 | The struct becomes the defaults of its descriptor, recursively. |
| Decoder.DecodeSubmessage | app/ios/Pods/nanopb/pb_decode.c:1525-1547 | A submessage is decoded in its own substream on top of what the field holds, and the bytes left decrease. |
| Decoder.DecodePacked | app/ios/Pods/nanopb/pb_decode.c:424-452 | The packed loop fills the array up to its size and fails if bytes are left over. |
| Decoder.ReleaseUnionField | app/ios/Pods/nanopb/pb_decode.c:1137-1168 | A union may change member when the old tag is zero, the same or known; the iterator returns to the new field. |
| Decoder.DecodeFixedCount | app/ios/Pods/nanopb/pb_decode.c:997-1019 | Items of a fixed-count array go to the position tracked for it. |
| Decoder.DecodeStaticField | app/ios/Pods/nanopb/pb_decode.c:406-483 | A known field's record changes the struct as its presence rule says. |
| Decoder.DecodeRecord | app/ios/Pods/nanopb/pb_decode.c:954-1019 | One record is decoded or skipped, whatever the iterator's position and the extension bound were. |
| Decoder.CheckRequired | app/ios/Pods/nanopb/pb_decode.c:1028-1078 | The final test passes exactly when all of the first 64 required fields were met. |
| Decoder.DecodeNoInit | app/ios/Pods/nanopb/pb_decode.c:934-1082 | The field loop computes the decoding function and ends, reading inside its stream only. |
| Decoder.PbDecode | app/ios/Pods/nanopb/pb_decode.c:1084-1096 | Decodes on top of the defaults. |
| Decoder.DecodeDelimited | app/ios/Pods/nanopb/pb_decode.c:1113-1126 | Decodes one delimited message and leaves what follows. |
| Ownership.SizeAcceptedIffFits | app/ios/Pods/nanopb/pb_decode.c:490-521 | The overflow test that avoids the division accepts exactly the non-empty sizes whose product fits in size_t. |
| ReleaseBlocks.AllocateLive | app/ios/Pods/nanopb/pb_decode.c:490-533 | An allocation replaces the old block by the new one, or changes nothing if it is refused. |
| ReleaseBlocks.ReleaseFrees | app/ios/Pods/nanopb/pb_decode.c:1170-1278 | pb_release frees every block the struct holds, as often as it holds it, and leaves none. |
| ReleaseBlocks.ReleaseNothing | app/ios/Pods/nanopb/pb_decode.c:1261-1278 | On a struct that holds no block, pb_release frees nothing. |
| StoredBlocks.ReleaseLeaves | app/ios/Pods/nanopb/pb_decode.c:1170-1278 | What pb_release finds within the counts is gone from the storage afterwards; pointers beyond a count stay behind, or vanish with a freed block. |
| DefaultBlocks.SetDefaultsOwns | app/ios/Pods/nanopb/pb_decode.c:845-932 | Setting the defaults, with the zero count that goes over the first item of a fixed-count array, adds no pointer to the storage. |
| DefaultBlocks.CutLoses | app/ios/Pods/nanopb/pb_decode.c:871-878 | Where such a count leaves part of a pointer, the storage has lost a block. |
| DefaultBlocks.DefaultLeaves | app/ios/Pods/nanopb/pb_decode.c:845-915 | Which of a field's blocks its defaults leave: none of a pointer or union, all of an embedded array though none is counted, and of a fixed-count array all but what the count overwrites. |
| DefaultBlocks.OverlayLeaves | app/ios/Pods/nanopb/pb_decode.c:871-878 | Which blocks a zero count over the start of a struct leaves, for each kind of first field. |
| DecodeBlocks.DropMemberKeeps | app/ios/Pods/nanopb/pb_decode.c:1137-1168 | Before a union changes member, what pb_release finds of the old one is freed; whatever else its storage holds is accounted as given up. |
| DecodeBlocks.DecodePointerKeeps | app/ios/Pods/nanopb/pb_decode.c:553-588 | A duplicated pointer field releases or reallocates its block; what the released target held beyond its counts is accounted as given up. |
| DecodeBlocks.DecodeVecKeeps | app/ios/Pods/nanopb/pb_decode.c:590-676 | A growing pointer array accounts for its own block and its items', whichever allocation fails. |
| DecodeBlocks.MergeKeeps | app/ios/Pods/nanopb/pb_decode.c:934-1082 | Over pb_decode_noinit, blocks live minus pointers stored grows by exactly the pointers given up with storage on the way, summed along the run, on success and on every error. |
| DecodeBlocks.DecodeKeeps | app/ios/Pods/nanopb/pb_decode.c:1084-1096 | The same for pb_decode, whose defaults and whose release after an error give up storage; an error return leaves nothing that pb_release would find. |
| BlockBalance.FixedItemLoses | app/ios/Pods/nanopb/pb_decode.c:845-915 | Decoding into a filled fixed-count item loses exactly the blocks whose pointers the defaults overwrite, a nested array's first item included, besides those lost after that. |
| BlockBalance.DecodeThenRelease | app/ios/Pods/nanopb/pb_decode.c:1084-1278 | After decoding any bytes into a struct of zeros and releasing it, exactly the blocks given up with storage, and those in arrays beyond their counts, stay live; after a failure this holds already; a second release frees nothing. |
| BlockBalance.BalancesIffClean | app/ios/Pods/nanopb/pb_decode.c:934-1278 | Every block is balanced if and only if the run gives up no storage with a pointer in it and leaves none beyond the count of an array; such a run cuts no pointer. |
| BlockBalance.EachBlockFreedOnce | app/ios/Pods/nanopb/pb_decode.c:1084-1278 | No block is freed twice unless a pointer was cut, and the calls to free are exactly the blocks obtained, each once, under the same condition and only then. |
| SafeBlocks.SafeNeverLoses | app/ios/Pods/nanopb/pb_decode.c:438-464 | The condition holds for every input if no fixed-count item, and no item of an embedded array of PB_SIZE_MAX items, can contain a pointer. |
| LoneArray.LoneArrayNeverLoses | app/ios/Pods/nanopb/pb_decode.c:997-1019 | It also holds for every input if the struct has a single fixed-count array, whatever pointers its items contain. |
| FixedCountLeak.FixedCountLeaks | app/ios/Pods/nanopb/pb_decode.c:997-1019 | A message that decodes and is released with a block never freed, because a fixed-count item that holds a pointer is decoded twice. |
| FixedCountLeak.LongArrayLeaks | app/ios/Pods/nanopb/pb_decode.c:454-464 | One record too many for a full array of PB_SIZE_MAX items wraps its count to zero, and none of the PB_SIZE_MAX blocks is ever freed. |
| FixedCountLeak.CountOverlaysPointer | app/ios/Pods/nanopb/pb_decode.c:871-878 | Exactly when the count that the defaults write for a nested fixed-count array changes the pointer at its start, and when it cuts it. |
| FixedCountLeak.StoredBlockIsFound | app/ios/Pods/nanopb/pb_decode.c:454-464 | A record that brings an item beyond the count of an array back within it finds a block there again. |
| OwnershipAgrees.DecodeAgrees | app/ios/Pods/nanopb/pb_decode.c:934-1096 | For any descriptor, pointers included, pb_decode with allocation accepts nothing that the codec refuses and stops where it stops; and it accepts the same bytes if no allocation is refused and the arrays' sizes fit in a size_t. |
| OwnershipAgrees.BlobReads | app/ios/Pods/nanopb/pb_decode.c:1447-1523 | A string or bytes by pointer is accepted exactly if its record is whole, its block's size does not wrap and the allocation is granted; then it is in a new block and exactly the record has been read. |
| OwnershipAgrees.PackedItemsAgree | app/ios/Pods/nanopb/pb_decode.c:594-654 | The packed loop with its guessed allocations takes exactly the items that fit a count, as the codec does, and fails otherwise only on an allocation. |
| OwnershipAgrees.FixedWidthOneBlock | app/ios/Pods/nanopb/pb_decode.c:611-627 | The guess of the remaining entries is right for items of the array's own width: a packed record of them takes one allocation. |
| OwnershipAgrees.WideIsRoomy | app/ios/Pods/nanopb/pb_decode.c:490-521 | With a 64-bit size_t no array that a descriptor and a count can describe is too large. |
| Paths.ScanIsWalk | app/assets/js/ffmpeg-core.js:789-800 | The backward scan with a pending counter equals forward evaluation with a stack, for all component lists. |
| Paths.NormalizeArray | app/assets/js/ffmpeg-core.js:789-800 | `Pb`, splicing its list in place, returns the normal form. |
| Paths.NormalizeIdempotent | app/assets/js/ffmpeg-core.js:801-814 | Normalising a path twice is normalising it once. |
| PathLaws.SplitIs | app/assets/js/ffmpeg-core.js:801-814 | The parts of a string are the only ones without slashes that joined give it back. |
| PathLaws.NormalLaws | app/assets/js/ffmpeg-core.js:789-800 | A dot means nothing, two dots undo the name before them and lead nowhere from the root, anywhere in a path. |
| PathLaws.NormalizeKeeps | app/assets/js/ffmpeg-core.js:801-814 | Normalising keeps whether a path is absolute and whether it ends in a slash, and leads to the same place. |
| Paths.BaseName | app/assets/js/ffmpeg-core.js:825-831 | `Sb` is the last component of the normalised path: empty above the root, and `.` or `..` for a place that the path does not name. |
| Paths.ResolvePath | app/assets/js/ffmpeg-core.js:857-873 | `Vb` resolves from its last absolute argument, or from the working directory. |
| PathLaws.ResolveStep | app/assets/js/ffmpeg-core.js:857-873 | Resolving is changing directory argument by argument: an absolute one starts at the root, a relative one where the others lead. |
| PathLaws.ResolveEnds | app/assets/js/ffmpeg-core.js:857-873 | Without arguments the working directory is resolved; an empty last argument makes the result empty. |
| Paths.ResolvedEndsInBase | app/assets/js/ffmpeg-core.js:825-873 | A path whose `Sb` is a name resolves to a place with that name. |
| Paths.RelativePath | app/assets/js/ffmpeg-core.js:874-893 | `Wb` goes up out of the first path to the common directory and down to the second. |
| Paths.RelativeInverts | app/assets/js/ffmpeg-core.js:857-893 | For any two path strings, resolving the relative path leads back to the target if and only if the two are different places; an empty string is reached from the root only, and nothing else is from it. |
| MemFile.WriteThenRead | app/assets/js/ffmpeg-core.js:1151-1174 | A byte sequence gives back what was written, and its other bytes, with gaps as zeros. |
| MemFile.WritesJoin | app/assets/js/ffmpeg-core.js:1159-1174 | Writing two pieces one after the other is writing them joined. |
| MemFile.ReadIs | app/assets/js/ffmpeg-core.js:1151-1158 | A read at any position delivers as many bytes as were asked for and are there, and these are the file's bytes from there on. |
| MemFile.DrainedIsRest | app/assets/js/ffmpeg-core.js:1151-1158 | Reading in pieces of any size until a read delivers nothing gives the rest of the file. |
| MemFile.SizedIs | app/assets/js/ffmpeg-core.js:1064-1077 | A resized file has the new size, its old bytes and zeros behind them; extending never cuts. |
| MemFile.File.Expand | app/assets/js/ffmpeg-core.js:1055-1063 | Growing keeps the contents, adds zeros only, and its copying is paid for by the new capacity. |
| MemFile.File.Write | app/assets/js/ffmpeg-core.js:1159-1174 | A write is a write to the byte sequence; slack stays zero, and all copying so far is at most nine times the capacity. |
| MemFile.File.Read | app/assets/js/ffmpeg-core.js:1151-1158 | A read returns the sequence's bytes and touches only the target range. |
| MemFile.File.SetSize | app/assets/js/ffmpeg-core.js:1064-1077 | Truncating cuts or zero-fills the sequence. |
| MemFile.File.Allocate | app/assets/js/ffmpeg-core.js:1182-1185 | Allocating extends the sequence with zeros. |
| MemFile.GrowthPays | app/assets/js/ffmpeg-core.js:1055-1063 | Each growth multiplies the capacity enough to pay ninefold for its copy. |
| MemFile.Stream.Close | app/assets/js/ffmpeg-core.js:1855-1869 | Closes a stream once; a second call fails. |
| MemFile.Stream.Seek | app/assets/js/ffmpeg-core.js:1870-1877 | The new position by origin, with the errors of a closed or unseekable stream, a wrong origin and a position below zero. |
| MemFile.Stream.Read | app/assets/js/ffmpeg-core.js:1878-1890 | Reads at the position, which moves on, or at an explicit offset, when it stays; the codes for a negative length or offset, a closed or write-only stream and an offset on an unseekable one, in that order. |
| MemFile.Stream.Write | app/assets/js/ffmpeg-core.js:1891-1914 | The same for writes; in append mode the position first moves to the end, even if an explicit offset is then used. |
| MemFile.Stream.Allocate | app/assets/js/ffmpeg-core.js:1915-1922 | Extends the file with zeros up to the end of the range, with its error codes in order. |
| MemFile.Stream.Truncate | app/assets/js/ffmpeg-core.js:1775-1790 | Resizes an open file, with its error codes; a closed stream is refused first. |
| MemFile.Serve | app/assets/js/ffmpeg-core.js:1775-1922 | Any list of calls on a stream, seeks and closing included, gets the replies, and leaves the contents and position, of a byte sequence with a position. |
| MemFile.WriteBackRead | app/assets/js/ffmpeg-core.js:1870-1914 | Whatever was written at the position is read again after going back by its length, in append mode too. |
| MemFile.AppendsFollow | app/assets/js/ffmpeg-core.js:1891-1914 | In append mode writes follow one another at the end, wherever the position was moved. |
| MemFile.WhyCallsFail | app/assets/js/ffmpeg-core.js:1775-1922 | Exactly when each error number is returned, and that a failing call changes nothing. |
| MemFile.Perform | app/assets/js/ffmpeg-core.js:1055-1185 | Any list of writes, reads, truncations and allocations leaves and returns what the same list on a plain byte sequence does; without truncations all copying together is at most nine times the final capacity. |
| Utf8.UnitsOfPoints | app/assets/js/ffmpeg-core.js:240-249 | A well-formed UTF-16 string is recovered from its code points. |
| Utf8.RecoveredIffWellFormed | app/assets/js/ffmpeg-core.js:240-249 | No other string is recovered from its code points. |
| Utf8.SurrogateSwallows | app/assets/js/ffmpeg-core.js:244-249 | A lone surrogate makes one code point with the unit behind it, whatever that is. |
| Utf8.FittingIsLongest | app/assets/js/ffmpeg-core.js:240-273 | The prefix that the writer stops at is the longest one of whole code points that fits. |
| Utf8.ByteLength | app/assets/js/ffmpeg-core.js:277-286 | `Ma` is the length of the UTF-8 encoding. |
| Utf8.Store | app/assets/js/ffmpeg-core.js:240-273 | `La` writes that prefix and a NUL within the limit, and nothing else; what falls behind the end of the heap is ignored. |
| Utf8.Load | app/assets/js/ffmpeg-core.js:211-236 | `Ja` decodes up to the count, a NUL or the end of the heap. |
| Utf8.LoadAll | app/assets/js/ffmpeg-core.js:211-236 | Encoded code points without NUL are read back one for one. |
| Utf8.AnyBytes | app/assets/js/ffmpeg-core.js:215-233 | How bytes that are not UTF-8 are read: how many the first one takes and which bits of the others count. |
| Utf8.ZerosFollow | app/assets/js/ffmpeg-core.js:211-236 | Sequences cut off by the end of the heap read as if zeros followed. |
| Utf8.BeyondPlanes | app/assets/js/ffmpeg-core.js:228-233 | Values beyond the last code point become two units that read back as another. |
| Utf8.StoreLoad | app/assets/js/ffmpeg-core.js:211-273 | A well-formed string without NUL, stored with room anywhere in a heap, is loaded back unchanged. |
| NodeTable.BucketIsExact | app/assets/js/ffmpeg-core.js:1296-1300 | 32-bit wrap-around does not disturb the bucket: it is the one of exact arithmetic. |
| NodeTable.HashOf | app/assets/js/ffmpeg-core.js:1296-1300 | `Sg` computes that bucket. |
| NodeTable.Table.Add | app/assets/js/ffmpeg-core.js:1301-1305 | `zh` puts a node at the front of its chain; afterwards every node is in exactly one chain, the one for its parent and name. |
| NodeTable.Table.Remove | app/assets/js/ffmpeg-core.js:1306-1317 | `Ah` takes exactly this node out of its chain. |
| NodeTable.Table.Find | app/assets/js/ffmpeg-core.js:1318-1326 | The search returns the first node of the chain with this parent and name. |
| TreeSpec.IndexAgrees | app/assets/js/ffmpeg-core.js:1318-1326 | The hash lookup finds a node exactly when it is among the directory's entries; a prototype that a removed `__proto__` entry leaves in the map is not one. |
| TreeSpec.DescendIffPath | app/assets/js/ffmpeg-core.js:1251-1284 | A walk from the root finds exactly the node with that path. |
| TreeSpec.InsertKeeps | app/assets/js/ffmpeg-core.js:1023-1040 | A new node keeps the directories in agreement and the nodes a tree. |
| TreeSpec.MadeNode | app/assets/js/ffmpeg-core.js:1023-1040 | The new node is found by its path, of the kind asked for and without entries, and every other node keeps its kind, name, parent and entries, but for the new entry in the directory. |
| TreeSpec.DeleteKeeps | app/assets/js/ffmpeg-core.js:1125-1133 | So does taking away a node without entries. |
| TreeSpec.MoveAgrees | app/assets/js/ffmpeg-core.js:1113-1124 | So does moving a node to a free name in another directory. |
| TreeSpec.MoveRooted | app/assets/js/ffmpeg-core.js:1113-1124 | The whole subtree has its paths moved, and stays a tree unless moved below itself. |
| FileTree.DescendantCheck | app/assets/js/ffmpeg-core.js:1614-1617 | What the relative-path test of rename finds out, exactly. |
| FileTree.LeadingDotFoolsCheck | app/assets/js/ffmpeg-core.js:1614-1617 | It lets a directory be moved below itself when a component starts with a dot. |
| FileTree.OrdinaryNamesStayOutside | app/assets/js/ffmpeg-core.js:1614-1617 | Without leading dots it does what it is for. |
| FileTree.FileSystem.LookupNode | app/assets/js/ffmpeg-core.js:1318-1326 | `Bf` answers as the directory's map does, with its error codes. |
| FileTree.FileSystem.Walk | app/assets/js/ffmpeg-core.js:1251-1284 | The component loop of `ff` is the walk through the directory maps. |
| FileTree.FileSystem.GetPath | app/assets/js/ffmpeg-core.js:1285-1295 | `If` ends at the root and returns the node's path. |
| FileTree.FileSystem.LookupPath | app/assets/js/ffmpeg-core.js:1251-1284 | For any path string, `ff` fails or finds a node as the walk along the resolved path does: exactly the node with that path. |
| FileTree.FileSystem.GoAndReturn | app/assets/js/ffmpeg-core.js:1251-1295 | `ff(If(n))` is n, for every node. |
| FileTree.FileSystem.Make | app/assets/js/ffmpeg-core.js:1561-1575 | create and mkdir add one node at a free name of a directory, or fail with the exact code and change nothing; here for normalised components. |
| FileTree.FileSystem.MakeAt | app/assets/js/ffmpeg-core.js:1561-1575 | The same for any path string: the parent is looked up by the resolved path, and a path that does not end in a name gets code 28 after that. |
| FileTree.FileSystem.Truncate | app/assets/js/ffmpeg-core.js:1775-1784 | truncate by path gives a file contents or takes them away and changes no path, or fails with the exact code. |
| FileTree.FileSystem.Unlink | app/assets/js/ffmpeg-core.js:1698-1725 | unlink removes one file, or fails with the exact code. |
| FileTree.FileSystem.Rmdir | app/assets/js/ffmpeg-core.js:1662-1692 | rmdir removes one directory without entries that is neither the root nor the working directory and never held the name `__proto__`, or fails with the exact code. |
| FileTree.FileSystem.MayDelete | app/assets/js/ffmpeg-core.js:1411-1423 | The checks of `xg`. |
| FileTree.FileSystem.Relocate | app/assets/js/ffmpeg-core.js:1640-1647 | Unhashing around the mutation of the key keeps the table consistent, and the moved node is found first under its new name. |
| FileTree.FileSystem.PlanRename | app/assets/js/ffmpeg-core.js:1602-1626 | The lookups and checks of rename, in their order. |
| FileTree.RenameOutcome | app/assets/js/ffmpeg-core.js:1602-1661 | After a rename the nodes are a tree with everything under the old path now under the new one, if and only if the target was absent, its parent a directory and not below the source. |
| FileTree.FileSystem.Rename | app/assets/js/ffmpeg-core.js:1602-1661 | rename's exact code, new nodes and new paths, and exactly when the file system stays valid. |
| FileRuns.MadeAndUnlinked | app/assets/js/ffmpeg-core.js:1113-1133 | A file made in an empty directory and unlinked again leaves the nodes as they were, unless its name is `__proto__`: then rmdir of that directory fails with 55 from there on. |
| FileRuns.OrdinaryIsNotExceptional | app/assets/js/ffmpeg-core.js:1602-1661 | A rename to a free name in a directory, without leading dots, is never one of those that break the tree. |
| FileRuns.Perform | app/assets/js/ffmpeg-core.js:1561-1790 | Any list of create, mkdir, unlink, rmdir, truncate and rename calls, up to the first rename that breaks the tree, has the codes and nodes of the operations on the maps, and leaves a valid file system in which every node is found by its own path. |
| PathView.WalkAgrees | app/assets/js/ffmpeg-core.js:1251-1284 | The code of a walk is decided by the first component that is not found: missing from a directory, or looked for in a file. |
| PathView.MakeAgrees | app/assets/js/ffmpeg-core.js:1561-1575 | The code of create and mkdir, in terms of which paths exist and what is there. |
| PathView.MakeAtAgrees | app/assets/js/ffmpeg-core.js:1561-1575 | The same for any path string, with code 28 in its place. |
| PathView.UnlinkAgrees | app/assets/js/ffmpeg-core.js:1698-1725 | The code of unlink in these terms. |
| PathView.RmdirAgrees | app/assets/js/ffmpeg-core.js:1662-1692 | The code of rmdir in these terms; a directory is occupied if some path lies in it or `__proto__` was ever written there. |
| PathView.TruncateAgrees | app/assets/js/ffmpeg-core.js:1775-1784 | The code of truncate in these terms. |
| PathView.PlanAgrees | app/assets/js/ffmpeg-core.js:1602-1661 | The code of rename in these terms, every check in its order. |
| PathView.MadeShows | app/assets/js/ffmpeg-core.js:1023-1040 | create and mkdir add their path with the kind asked for, and change no other. |
| PathView.RemovedShows | app/assets/js/ffmpeg-core.js:1125-1133 | Removing a node takes away its path and changes no other. |
| PathView.RefilledShows | app/assets/js/ffmpeg-core.js:1775-1784 | truncate changes the contents of one path and no other. |
| PathView.MovedShows | app/assets/js/ffmpeg-core.js:1113-1124 | An ordinary rename carries everything under the old path to the new one, with its kind, and changes nothing else. |
| PathView.EffectAgrees | app/assets/js/ffmpeg-core.js:1561-1790 | Every operation has the code and the effect that follow from a map of paths to what is there, unless it is a rename that breaks the tree, which that map tells too. |
| PathView.RunsAgree | app/assets/js/ffmpeg-core.js:1561-1790 | The same for every run. |
| PathView.Run | app/assets/js/ffmpeg-core.js:1023-1326 | The same for the file system itself, with its hash table: any list of calls up to a rename that breaks the tree. |
| PathView.MakeThenRemove | app/assets/js/ffmpeg-core.js:1561-1725 | create, then unlink succeeds and rmdir fails with 54; mkdir, then rmdir succeeds, or fails with 10 for the working directory, and unlink fails with 31; all is then as before, but for the mark of `__proto__`. |
| GifSchedule.DelayTimeIsFactor | app/ios/Pods/SwiftyGif/SwiftyGif/UIImage+SwiftyGif.swift:208-234 | At 60 and at 120 frames per second a factor f stands for f sixtieths of a second. |
| GifSchedule.FactorsAre | app/ios/Pods/SwiftyGif/SwiftyGif/UIImage+SwiftyGif.swift:208-234 | The candidates are exactly the divisors of sixty, in descending order, and 120 before them on the faster display. |
| GifSchedule.PositionIs | app/ios/Pods/SwiftyGif/SwiftyGif/UIImage+SwiftyGif.swift:236-243 | A frame's position is the number of whole images that fit in the time of all frames up to it, towards zero for negative times. |
| GifSchedule.PositionsAscend | app/ios/Pods/SwiftyGif/SwiftyGif/UIImage+SwiftyGif.swift:236-243 | For non-negative delays the positions do not decrease. |
| GifSchedule.OrderAscends | app/ios/Pods/SwiftyGif/SwiftyGif/UIImage+SwiftyGif.swift:259-270 | The schedule never goes back and names frames only. |
| GifSchedule.ShownIff | app/ios/Pods/SwiftyGif/SwiftyGif/UIImage+SwiftyGif.swift:245-270 | A frame is scheduled exactly when it ends in a later slot than its predecessor. |
| GifSchedule.LostIsNeverShown | app/ios/Pods/SwiftyGif/SwiftyGif/UIImage+SwiftyGif.swift:245-254 | The loss count is the number of frames never shown. |
| GifSchedule.BudgetEnds | app/ios/Pods/SwiftyGif/SwiftyGif/UIImage+SwiftyGif.swift:208-257 | Full integrity allows no loss, none allows any, and a higher level never allows more. |
| GifSchedule.CountLost | app/ios/Pods/SwiftyGif/SwiftyGif/UIImage+SwiftyGif.swift:245-254 | The counting loop counts the frames that end where their predecessor ends, or before the first slot. |
| GifSchedule.BuildOrder | app/ios/Pods/SwiftyGif/SwiftyGif/UIImage+SwiftyGif.swift:259-270 | The merge loop gives every slot the first frame with position at least its number. |
| GifSchedule.GifImage.CalculateFrameDelay | app/ios/Pods/SwiftyGif/SwiftyGif/UIImage+SwiftyGif.swift:208-274 | The coarsest factor whose losses are within the budget is chosen, or the finest, with its image count and schedule. |
| GifPlayer.ImageView.UpdateIndex | app/ios/Pods/SwiftyGif/SwiftyGif/UIImageView+SwiftyGif.swift:348-372 | Steps the tick, the image, the loop count and the reports. |
| GifPlayer.ImageView.UpdateCurrentImage | app/ios/Pods/SwiftyGif/SwiftyGif/UIImageView+SwiftyGif.swift:268-285 | One tick: shows a frame, steps, and stops or starts displaying. |
| GifPlayer.PlaysThenStops | app/ios/Pods/SwiftyGif/SwiftyGif/UIImageView+SwiftyGif.swift:268-372 | A loop count n stops the view after exactly n loops of ticks with n - 1 loop reports and one stop, the due frame shown at every tick. |
| GifPlayer.PlaysForever | app/ios/Pods/SwiftyGif/SwiftyGif/UIImageView+SwiftyGif.swift:268-372 | A loop count of -1 never stops and reports every loop. |
| GifPlayer.InterruptionsSkipNothing | app/ios/Pods/SwiftyGif/SwiftyGif/UIImageView+SwiftyGif.swift:268-285 | However a view that loops for ever is taken off screen, paused and resumed, it shows the due frames in order, skipping and repeating none. |
| GifPlayer.StandsStill | app/ios/Pods/SwiftyGif/SwiftyGif/UIImageView+SwiftyGif.swift:348-356 | A GIF without a positive factor or image count stays at its image and ends no loop. |
| GifPlayer.NegativeCountPlaysOn | app/ios/Pods/SwiftyGif/SwiftyGif/UIImageView+SwiftyGif.swift:348-372 | A loop count below -1 never stops the view, but counts down and reports a stop at the end of every loop. |
| GifPlayer.ZeroLoopsOfOneTick | app/ios/Pods/SwiftyGif/SwiftyGif/UIImageView+SwiftyGif.swift:358-370 | With a loop count of 0, every playable view shows one frame and stops without a report, except exactly those of one image of one tick: they turn the count into -1 and play on for ever after one stop report. |
| GifPlayer.SchedulePlays | app/ios/Pods/SwiftyGif/SwiftyGif/UIImageView+SwiftyGif.swift:302-311 | A computed schedule is indexed within its bounds at every tick. |

## Left out

- nanopb callback fields, extension lists, custom stream callbacks, `PB_WITHOUT_64BIT`, `PB_BUFFER_ONLY` and error texts: user code or build variants that the files do not determine.
- nanopb struct layout: a struct is the contents of its fields' storage and bytes after a string's NUL are not kept; only the iterator's offsets are modelled.
- A struct whose storage does not have the shape of its descriptor is an error in the models; in C the generated types exclude it.
- Fields allocated by pointer: `DecodeSpec` says what is decoded, `Ownership` what becomes of the blocks, on values without the in-place memory; `Decoder` and the encoder have static fields only.
- BlockBalance.EachBlockFreedOnce: that no block is freed twice is claimed for runs in which no count cuts a pointer (`Whole`); what bytes a cut pointer has depends on the address, and using it is undefined in C. The model takes it as NULL, its block as lost.
- Whether a block's address has zeros in the bytes that a count covers, or in all others, is a parameter (`INTACT`, `CLEARED`). Struct members are taken to be naturally aligned, and the first one to be that of the first field.
- Canonical.ReencodingIsCanonical: excludes fixed-count arrays, whose contents the defaults do not initialise, and needs proto3 implicit defaults to be zero; that what cannot be read back fails is claimed below 2^63 bytes.
- Encoder.EncodeSubmessage: sizes are unbounded numbers, with encodings assumed shorter than 2^64 bytes.
- An encoder's struct with a union tag that names no member encodes as an empty submessage inside an implicit field; the canonical property therefore starts from decoded structs.
- MemFile.File.Write: the copying bound holds while nine eighths of the capacity are below 2^32, where the growth computation does not wrap; writes that take over the caller's buffer and contents that are not typed arrays are left out.
- Paths.ResolvePath: takes the working directory to be an absolute path, as changing directory keeps it.
- FileTree: symbolic links, mounts beyond the root, permissions, devices and tracking callbacks; the operations other than `MakeAt` and `LookupPath` take the normalised components of absolute paths; of a file's contents only whether there are any is kept.
- FileTree.FileSystem.Rename: after a target was replaced, or another exceptional case, only the table's consistency and the moved node's lookup are claimed; the regular expression that finds the directory of a path string (`Rb`) is left out, as are paths that it treats unlike their normal form.
- FileTree.FileSystem.Make: takes components, so that code 28 for a path without a name cannot occur; `MakeAt` has it.
- ffmpeg-core.js outside the file system and UTF-8 functions: WASM loading, graphics wrappers, threads, sockets, IndexedDB, mmap.
- Names and paths are sequences of characters below the surrogates, compared one by one; `Utf8` alone works on 16-bit units.
- SwiftyGif drawing, image sources, caches, downloads and timers; floating-point rounding of the delays.
- The cloud functions, web code, application delegate and declaration-only pods: network calls and UI.
