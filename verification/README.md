# Verified model of the RINA stack's codec, allocators and queues

This project models, in Dafny, the parts of a RINA stack for microcontrollers that carry state or
recursion, and proves what they promise for all inputs, all runs and all interleavings.

**The CDAP wire codec (nanopb).** `Varint`, `Schema` and `Codec` give the wire format as functions on byte
strings: the base-128 varints with both readers, message descriptors and structs of any nesting depth,
what `pb_encode` writes, and what `pb_decode_inner` does with any bytes. `CodecLaws`, `RoundTrip` and `Tidy`
prove the laws of that codec. `WireFormat` is the format once more, as a grammar in plain numbers that the encoder is proved
to write; `Records` says what any bytes come to as a list of records, field by field, and which required fields they must
hold; `Evolution` what peers with different descriptors make of each other's messages. `InputStream`, `FieldIter`,
`FieldTable`, `Decoder` and `Encoder` are the C code in its own form (streams with a cursor, substreams, the wrapping field
iterator over packed descriptor words, the varint loops, the two-pass submessage encoder); every method is proved to
compute exactly the function that specifies it. `Storage` says what the bytes of a struct mean. `Utf8` is the UTF-8
validator.

**The buffer allocator.** `Semaphore` and `Buffers` are machines whose steps (decrement, take, timeout,
increment, give, pool allocation, pool free) any number of threads may interleave; `Rsrc` is the resource
pool, with the lemmas of `Lists` about two lists that share out a set of blocks and, in `PoolCounts`, what its arguments
decide about every run.

**Indexes and lifecycles.** `HashTable` (with its iterator), `MessageQueues` and `NumMgr`.

**The DTP sender and receiver.** `Dtp`.

Verify everything with `dafny verify dfyconfig.toml`.

## How the code is modelled

- Sizes and widths are those of the 32-bit target: `size_t` and `unsigned` are 32 bits, `pb_size_t` and the pool counters 16
  bits, each with its wrap-around written out where the code can reach it. Masks and shifts are written as
  quotients, remainders and products.
- A descriptor carries its table layout: each row is packed in one, two, four or eight words, in any mixture, and says where
  the field and its count or has-flag are. `FieldTable.LaidOut` is what the generator's assertions and the 16-bit word index
  demand of it; the codec's laws do not depend on it.
- A struct is the sequence of its fields' slots. Static fields with the rules REQUIRED, OPTIONAL and
  REPEATED are covered. Memory that a failed `malloc` would give, the clock and the kernel's scheduling are
  parameters or free choices; a timeout may happen at any moment.
- The interleaved machines make one step of every section under a mutex and of every atomic or kernel call. A
  run is a sequence of steps each of which can be taken when its turn comes.

## What the code does that one might not expect

Each of these is proved, with the exact condition where there is one.

- A timed-out wait never gives back what it took from the semaphore counter. Conservation still holds
  (`Semaphore.RunKeeps`), until the counter wraps: the counter is initial + posts - waits, so with n buffers all held, the
  get after 2^31 + n gets wraps it (`Buffers.OneGetMore`) and the one after that goes on with a NULL descriptor
  (`Buffers.PollingCrashes`).
- A pool of a single descriptor has no free list: its descriptor goes back to the heap when it is released, the release
  still posts, and the second get goes on with NULL (`Buffers.SingleDescriptorCrashes`). With two descriptors or more, and
  only then, every run of up to 2^31 + n gets is safe (`Buffers.SafeExactly`).
- `ulNumMgrAllocate` passes over `lastAllocated` when it is at least 2 and reports exhaustion although that
  id may be free; with `lastAllocated == 1` and every id held it never returns (`NumMgr.SearchEnds`).
- A pool refuses once free plus in-use blocks reach the limit, even if blocks are free; it never hands out anything exactly
  if it starts at its limit (`PoolCounts.UselessExactly`). It grows by whole increments, so the limit is kept in every run
  exactly if these lead from the initial allocation to it (`PoolCounts.LimitExactly`); a pool of 2 that grows by 2 with a
  limit of 3 comes to 4. The arguments also decide for which pools the 16-bit counters are exact in every run
  (`PoolCounts.FreeCounterExactly`, `PoolCounts.InUseCounterExactly`). A pool for variable sizes made with one initial
  block, and no other, hands out a block that is too small (`Rsrc.InitialBlockIsTooSmall`, `Rsrc.BlocksFit`).
- A repeated field that overflows its array is rejected with its count already raised past the array
  (`CodecLaws.CountAfter`).
- The iterator's word index has 16 bits: a table whose last entry starts beyond them is not walked correctly
  (`FieldIter.WalkIsExact`).
- A message queue whose last descriptor is closed while a send is under way can be deleted under it
  (`MessageQueues.UseAfterUnlink`); a step is free of such consequences exactly if callers hold their descriptors open as
  they should (`MessageQueues.StepSafeExactly`).
- Closing the last descriptor of a message queue marks it for unlinking although nobody unlinked it, so it
  cannot be opened again (`MessageQueues.LastCloseUnlinks`, `MessageQueues.ReopensExactly`). The header limits names to `NAME_MAX` characters; the code accepts
  one more (`MessageQueues.NameLength`).
- The DTP receiver posts a PDU ahead of the edge each time it arrives, and stops for good when the
  sequence number wraps (`Dtp.AheadIsPostedTwice`, `Dtp.WrapStopsDelivery`).
- The header says that the set functions of the hash table return the number of entries added; the code
  returns 1 for an overwrite too, and writes through NULL when a new key finds no room (`HashTable.Table.AddVal`).
- The 32-bit varint reader also accepts some numbers that do not fit 32 bits: exactly those from 2^63 on with bit 31 set
  whose groups of bits 35 to 62 are each all zeros or all ones (`Varint.Decode32Exactly`). Sign-extended negative numbers
  are among them (`Varint.SignExtensionPasses`), but not only these (`Varint.PassesWithoutExtension`).

## Model

| member | source | states |
|---|---|---|
| Varint.EncodeShape | components/CdapProto/pb_encode.c:574-606 | The reference encoding ends with its only byte below 128, spells the number it encodes, has no zero last group, and is found whatever follows it |
| Varint.EncodeLength | components/CdapProto/pb_encode.c:574-606 | Exactly the numbers below 128^k have an encoding of at most k bytes |
| Varint.EncodeIsShortest | components/CdapProto/pb_encode.c:574-606 | No byte string that spells the same number is shorter |
| Varint.Decode64Inverts | components/CdapProto/pb_decode.c:240-260 | The 64-bit reader returns every 64-bit number from its encoding, consuming exactly that, whatever bytes follow; at most ten bytes |
| Varint.ReadersAgree | components/CdapProto/pb_decode.c:170-260 | On every byte string, what the 32-bit reader accepts the 64-bit reader accepts, with the same length and the same low 32 bits |
| Varint.Decode32Canonical | components/CdapProto/pb_decode.c:170-232 | On reference encodings the 32-bit reader returns every number below 2^32 and rejects every number from 2^32 to 2^63 - 1 |
| Varint.Decode32Exactly | components/CdapProto/pb_decode.c:170-232 | For every number: the 32-bit reader accepts its encoding if and only if it fits 32 bits, or it has bits 63 and 31 set and groups 5 to 8 each all zeros or all ones; it returns the low 32 bits |
| Varint.EncodeGroups | components/CdapProto/pb_encode.c:574-606 | The i-th byte of the encoding holds the i-th group of seven bits, and announces another exactly if there is one |
| Varint.SignExtensionPasses | components/CdapProto/pb_decode.c:196-212 | Every negative 32-bit number sign-extended to 64 bits is read as its 32-bit pattern |
| Varint.PassesWithoutExtension | components/CdapProto/pb_decode.c:196-212 | 2^63 + 2^31 is accepted as 2^31 although bits 32 to 62 are zero |
| Varint.FifthByte | components/CdapProto/pb_decode.c:222-226 | The test on the fifth byte is the test that five groups fit 32 bits, both ways |
| Varint.ZigZagInverts | components/CdapProto/pb_decode.c:1348-1360 | Zigzag is undone by its inverse, and maps exactly the 64-bit signed range into the 64-bit unsigned range |
| Varint.TwosComplementInverts | components/CdapProto/pb_decode.c:1457-1469 | A signed number survives as a 64-bit pattern, and a 32-bit one also from the low half alone |
| Varint.FixedInverts | components/CdapProto/pb_decode.c:1362-1410 | Little-endian bytes give back every number that fits them |
| CodecLaws.DecodeConcat | components/CdapProto/pb_decode.c:989-1111 | For any byte strings: if the first decodes and the second decodes on top of the result, their concatenation decodes to the same struct, as NOINIT promises |
| CodecLaws.DecodeConcatFails | components/CdapProto/pb_decode.c:989-1151 | Once the first decodes, the concatenation fails exactly if the second has a record the decoder rejects; required fields it lacks are made up for |
| CodecLaws.UnknownFieldsIgnored | components/CdapProto/pb_decode.c:1041-1076 | Any records with unknown nonzero tags between the records of a message change nothing in the result; a record is a key and one payload: a varint of any length, 8 bytes, a length and as many bytes, or 4 bytes, for the wire types 0, 1, 2 and 5 |
| CodecLaws.UnknownIsSkipped | components/CdapProto/pb_decode.c:263-320 | Such a record is consumed whole and leaves the struct and the seen required fields alone |
| CodecLaws.SkipExactly | components/CdapProto/pb_decode.c:263-320 | Skipping consumes n bytes if and only if the first n bytes are one payload of the wire type, as written in plain numbers |
| Records.Cut | components/CdapProto/pb_decode.c:1012-1110 | Whatever bytes are accepted, with whatever descriptor, are a list of records |
| Records.CutUnique | components/CdapProto/pb_decode.c:288-320 | No bytes are two lists of records: where records begin and end is decided by the bytes alone |
| Records.FieldByField | components/CdapProto/pb_decode.c:1012-1110 | A list of records is accepted if and only if no tag is zero and every field accepts its own records; each field ends up with what its own records make of it, whatever is between them |
| Records.OrderBetweenFields | components/CdapProto/pb_decode.c:1012-1110 | Two lists of records that give every field the same records in the same order decode alike, however the fields are interleaved and whatever unknown records are between |
| Records.RequiredFieldsDecide | components/CdapProto/pb_decode.c:1119-1148 | If all records are accepted, the message is accepted if and only if each of the first 64 required fields has a record with its tag among them |
| Records.NoBytes | components/CdapProto/pb_decode.c:1119-1148 | No bytes at all decode, to the default struct, if and only if no field is required |
| Records.AcceptedTypes | components/CdapProto/pb_decode.c:400-469 | A field accepts only wire type 0 for booleans and varints, 1 for 64-bit, 5 for 32-bit, 2 for bytes, strings and submessages, and 2 for a packed array |
| Records.NumberExactly | components/CdapProto/pb_decode.c:1419-1489 | On any bytes: a varint is accepted, as the number i, if and only if i is of the field's type and is the unsigned value, the zigzag inverse, or congruent to it modulo 2^64 (2^32 for a narrow signed field) |
| Records.BytesExactly | components/CdapProto/pb_decode.c:1491-1529 | On any bytes: a bytes payload is accepted if and only if it fits with its two bytes of size |
| Records.StringExactly | components/CdapProto/pb_decode.c:1531-1579 | On any bytes: a string payload is accepted if and only if it fits with its terminator, and is cut at its first NUL |
| Records.FixedBytesExactly | components/CdapProto/pb_decode.c:1633-1655 | On any bytes: fixed-length bytes are accepted if and only if they have the length, or are missing, which means zeros |
| WireFormat.EncoderWritesTheFormat | components/CdapProto/pb_encode.c:419-535 | A grammar of the format in plain numbers (8 * tag + 0, 1, 2 or 5; groups of seven bits; little-endian bytes; length and contents; packed arrays; fields in order) holds of a string and a message of any depth if and only if the string is the encoding |
| WireFormat.SpellsOnly | components/CdapProto/pb_encode.c:574-606 | The grammar's varint, given by its groups of bits and its length, is met by the reference encoding and by nothing else |
| WireFormat.FirstByte | components/CdapProto/pb_encode.c:675-714 | For a tag below 16 the first byte of a record is 8 * tag plus 0 for booleans and varints, 1 for 64-bit, 2 for bytes, strings and submessages, 5 for 32-bit |
| WireFormat.FiveInField1 | components/CdapProto/pb_encode.c:783-829 | The number 5 in field 1 is 08 05 |
| WireFormat.Number150 | components/CdapProto/pb_encode.c:783-829 | The number 150 in field 1 is 08 96 01 |
| WireFormat.StringTesting | components/CdapProto/pb_encode.c:877-928 | The string "testing" in field 2 is 12 07 and its seven characters |
| WireFormat.PackedNumbers | components/CdapProto/pb_encode.c:143-199 | The packed array 3, 270, 86942 in field 4 is 22 06 03 8E 02 9E A7 05 |
| Evolution.RecordIs | components/CdapProto/pb_encode.c:363-404 | What the encoder writes for a value of any type is one record, with its tag, its wire type and its payload |
| Evolution.RecordIsUnknown | components/CdapProto/pb_decode.c:1041-1076 | The record of any value of any field is one that a descriptor without its tag passes over |
| Evolution.ForeignFieldIgnored | components/CdapProto/pb_decode.c:1041-1076 | The encoding of any field that the descriptor lacks, of whatever type, rule and contents, between any records, changes nothing |
| Evolution.PeersUnderstand | components/CdapProto/pb_decode.c:989-1151 | A reader decodes what a writer with another descriptor encoded if and only if it finds its first 64 required fields in it, at every depth; it gets exactly the part it knows, and its other fields keep their defaults |
| CodecLaws.DecodeStaysInBounds | components/CdapProto/pb_decode.c:1491-1655 | Whatever bytes arrive, an accepted message has the right C types, and counts, bytes and strings stay within their storage at every depth |
| CodecLaws.CountAfter | components/CdapProto/pb_decode.c:479-528 | The count that a repeated field is left with: the number of elements if accepted; past the array, by one, exactly if a single element arrived for a full array |
| RoundTrip.DecodeMerges | components/CdapProto/pb_decode.c:400-558 | Decoding an encoding on top of any struct merges it in (later scalars win, submessages merge, arrays append), or fails because an array would overflow; no third outcome |
| RoundTrip.DecodeInvertsEncode | components/CdapProto/pb_decode.c:989-1151 | Every storable message of any nesting depth decodes from its encoding to itself, absent optional fields coming back absent |
| RoundTrip.DecodeTwoEncodings | components/CdapProto/pb_decode.c:1581-1631 | Two encodings one after the other decode to the merge of the two messages exactly if the arrays have room |
| RoundTrip.AnySplitAppends | components/CdapProto/pb_decode.c:471-523 | A repeated scalar field gets the same elements in the same order however they were split into packed and single records, exactly if the array has room |
| RoundTrip.NumberInverts | components/CdapProto/pb_decode.c:1419-1489 | Every value of every signed, unsigned and zigzag field width survives |
| RoundTrip.ScalarInverts | components/CdapProto/pb_encode.c:776-953 | Every scalar of every type survives, whatever bytes follow |
| RoundTrip.PackedInverts | components/CdapProto/pb_encode.c:143-192 | A packed payload appends exactly its elements, or overflows the array |
| Tidy.RoundTripIsExact | components/CdapProto/pb_decode.c:868-987 | The round trip returns the very struct exactly if only defaults are behind its absent optional fields |
| Tidy.CleanEncodes | components/CdapProto/pb_encode.c:419-472 | What is behind absent optional fields is never sent: the decoded struct encodes to the same bytes |
| InputStream.IStream.constructor | components/CdapProto/pb_decode.c:141-164 | A stream over a stretch of memory |
| InputStream.IStream.Read | components/CdapProto/pb_decode.c:84-119 | Succeeds exactly if that many bytes are left; returns them in order; state + bytes_left is kept |
| InputStream.IStream.ReadByte | components/CdapProto/pb_decode.c:123-139 | The next byte, or failure with nothing changed exactly at the end |
| InputStream.IStream.DecodeVarint | components/CdapProto/pb_decode.c:240-260 | The shift-and-or loop accepts, consumes and returns exactly what the 64-bit reader's definition says |
| InputStream.IStream.DecodeVarint32 | components/CdapProto/pb_decode.c:170-232 | The same for the 32-bit reader with its overflow and sign-extension tests; eof exactly on an empty stream |
| InputStream.IStream.DecodeTag | components/CdapProto/pb_decode.c:288-303 | Tag and wire type of a 32-bit varint |
| InputStream.IStream.SkipField | components/CdapProto/pb_decode.c:305-320 | Consumes exactly one payload of its wire type, or fails; what a payload is, `CodecLaws.SkipExactly` says |
| InputStream.IStream.MakeStringSubstream | components/CdapProto/pb_decode.c:365-378 | The substream is exactly the announced payload; the parent's count excludes it, its cursor waits |
| InputStream.IStream.CloseStringSubstream | components/CdapProto/pb_decode.c:380-394 | However much of the payload was read, the parent is past it and state + bytes_left is what it was |
| FieldIter.UnpackInvertsPack | components/CdapProto/include/pb.h:750-798 | The one-, two-, four- and eight-word descriptor formats give back every entry that passes its width's assertion |
| FieldIter.FirstWordBits | components/CdapProto/include/pb.h:721-766 | The first word of an entry, bit by bit as the format table says: width code, low tag bits, type, and the upper half of each format |
| FieldIter.LaterWordBits | components/CdapProto/include/pb.h:721-766 | The other words of the two-, four- and eight-word formats |
| FieldIter.TableAt | components/CdapProto/include/pb.h:750-766 | The k-th entry lies where the word index of the k-th field says, for any mixture of widths |
| FieldIter.WalkIsExact | components/CdapProto/pb_common.c:145-152 | The 16-bit word index is at every entry's own words exactly if the last entry starts within 16 bits |
| FieldIter.Iter.Load | components/CdapProto/pb_common.c:8-120 | The loaded values are those of the field the indices name: tag, type, sizes, the field and count pointers and the submessage index |
| FieldIter.Iter.Advance | components/CdapProto/pb_common.c:122-154 | Word, required and submessage index, cast to 16 bits, agree on the next field, or on the first after the last |
| FieldIter.Iter.Next | components/CdapProto/pb_common.c:188-193 | False exactly when the walk has come round |
| FieldIter.Iter.Find | components/CdapProto/pb_common.c:195-244 | From any position it terminates and finds a tag exactly if some field has it, with all indices consistent; otherwise the iterator is where it was |
| FieldIter.Iter.SearchFrom | components/CdapProto/pb_common.c:221-243 | The wrapping search meets every field once and stops where it started |
| FieldTable.NewIter | components/CdapProto/pb_common.c:156-164 | The iterator over a descriptor packed in any mixture of widths starts on its first field |
| Decoder.SetToDefaults | components/CdapProto/pb_decode.c:950-983 | The walk over the fields leaves exactly the default struct, whatever was there |
| Decoder.SetFieldToDefault | components/CdapProto/pb_decode.c:886-908 | Flag, count and data of one field become the defaults |
| Decoder.InitData | components/CdapProto/pb_decode.c:906-928 | Nested submessages are walked recursively, any other storage is zeroed, and the result reads as the default |
| Storage.ZeroValue | components/CdapProto/pb_decode.c:924-928 | Zeroed storage of a field of any type and depth, read at its offsets, is the default of the type |
| Decoder.TruncateKeeps | components/CdapProto/pb_decode.c:1471-1485 | Casting to the field's width and comparing is a range test, both ways |
| Decoder.DecodeNumber | components/CdapProto/pb_decode.c:1419-1489 | Accepts exactly the varints whose value fits the field, and stores that value |
| Decoder.DecodeText | components/CdapProto/pb_decode.c:1491-1655 | Bytes, strings and fixed-length bytes with their size tests, as the codec's function says |
| Decoder.DecodeScalar | components/CdapProto/pb_decode.c:400-469 | Every scalar type, as the codec's function says |
| Decoder.DecodeBasic | components/CdapProto/pb_decode.c:1581-1631 | A submessage is decoded through a substream on top of what the struct holds, repeated elements on top of defaults, and the parent ends right after it |
| Decoder.DecodePackedArray | components/CdapProto/pb_decode.c:490-507 | The packed loop, writing each element to its place in the array, fails exactly if an element is bad or the array overflows; its count is exact and the elements that were there are kept, also on failure |
| Decoder.DecodeElement | components/CdapProto/pb_decode.c:515-525 | The count goes up before it is tested; an element is written only to a place the array has, and the others are kept |
| Decoder.DecodeStatic | components/CdapProto/pb_decode.c:471-558 | The wire-type test, has-flag, count and packed handling of the three rules, as the codec's function says, with the count, the has-flag and the kept elements also on failure |
| Decoder.SetBit | components/CdapProto/pb_decode.c:1101-1105 | Or-ing one bit into a word of fields_seen marks exactly that required field |
| Decoder.WordTest | components/CdapProto/pb_decode.c:1129-1146 | Comparing a word with a run of ones is looking at each of its bits |
| Decoder.AllRequiredSeen | components/CdapProto/pb_decode.c:1119-1148 | The tests on whole words and on the rest of the last one succeed exactly if the first 64 required fields at most have been seen; `Records.RequiredFieldsDecide` says what that means for the bytes |
| Decoder.FindField | components/CdapProto/pb_decode.c:1041-1050 | The iterator's search is lookup by tag, with the number of required fields before it |
| Decoder.DecodeRecord | components/CdapProto/pb_decode.c:1012-1110 | One pass of the loop is one record of the codec, known or skipped |
| Decoder.DecodeInner | components/CdapProto/pb_decode.c:989-1151 | Terminates because every pass consumes a byte; accepts exactly what the codec accepts (`Records.FieldByField`, `Records.RequiredFieldsDecide`), stores exactly that struct, and consumes the whole stream |
| Decoder.DecodeMessage | components/CdapProto/pb_decode.c:1181-1195 | The same from a buffer |
| Encoder.OStream.constructor | components/CdapProto/pb_encode.c:64-83 | A stream over a stretch of a buffer |
| Encoder.OStream.BufWrite | components/CdapProto/pb_encode.c:52-62 | Copies the bytes at the cursor and changes no other byte |
| Encoder.OStream.Write | components/CdapProto/pb_encode.c:85-106 | Succeeds exactly if there is room, with the 32-bit overflow test; then adds exactly the data |
| Encoder.VarintBytes | components/CdapProto/pb_encode.c:574-606 | The encoder on two 32-bit halves writes exactly the shortest form of the 64-bit number and never overruns its ten bytes |
| Encoder.OStream.EncodeVarint | components/CdapProto/pb_encode.c:608-624 | Writes exactly the reference encoding |
| Encoder.OStream.EncodeSvarint | components/CdapProto/pb_encode.c:626-635 | Shift and complement in 64 bits are zigzag for every signed number |
| Encoder.OStream.EncodeFixed | components/CdapProto/pb_encode.c:637-672 | Writes the little-endian bytes |
| Encoder.OStream.EncodeTag | components/CdapProto/pb_encode.c:675-679 | Writes the varint of tag and wire type |
| Encoder.OStream.EncodeString | components/CdapProto/pb_encode.c:716-722 | Writes length and data, or fails without room |
| Encoder.EncodeNumber | components/CdapProto/pb_encode.c:783-829 | Every width and sign goes out as the codec says |
| Encoder.EncodeCString | components/CdapProto/pb_encode.c:877-928 | Sends the bytes before the terminator; fails exactly if there is none inside the array |
| Encoder.EncodeScalar | components/CdapProto/pb_encode.c:363-404 | Every scalar type, failing exactly on bytes and strings beyond their storage or without room |
| Encoder.EncodeSubmessage | components/CdapProto/pb_encode.c:724-772 | Sizing pass, length and writing pass give length-prefixed encoding, exactly if the submessage is storable and all of it fits |
| Encoder.WriteSubstream | components/CdapProto/pb_encode.c:744-771 | The second pass always succeeds in the room the first asked for: the size never changes |
| Encoder.PackedSize | components/CdapProto/pb_encode.c:150-173 | The size announced for a packed array is the size of what is then written |
| Encoder.EncodePackedArray | components/CdapProto/pb_encode.c:143-199 | Tag, size and elements of a packed array, or failure without room |
| Encoder.EncodeRecords | components/CdapProto/pb_encode.c:203-238 | One record per element, stopping at the first that is not storable |
| Encoder.EncodeField | components/CdapProto/pb_encode.c:419-472 | Nothing for absent optional and empty repeated fields; refuses a count beyond the array |
| Encoder.EncodeMessage | components/CdapProto/pb_encode.c:513-535 | Succeeds if and only if the struct is storable and its encoding fits; then writes exactly the encoding, which is the one string that `WireFormat.Message` allows, and touches no other byte |
| Encoder.GetEncodedSize | components/CdapProto/pb_encode.c:558-567 | Succeeds exactly for storable structs and returns exactly the number of bytes an encode writes |
| Encoder.EncodeToNewBuffer | components/CdapProto/pb_encode.c:513-567 | A buffer of the computed size is filled exactly, and decodes to the message |
| Utf8.StartsIsPoint | components/CdapProto/pb_common.c:343-377 | Each byte-range production of RFC 3629 section 4 (less U+FFFE and U+FFFF) spells one allowed code point |
| Utf8.PointStarts | components/CdapProto/pb_common.c:343-377 | Every allowed code point is spelled by a production, and read back from it |
| Utf8.AfterPoint | components/CdapProto/pb_common.c:337-382 | Well-formedness of a string is that of the rest after its first code point |
| Utf8.Scan | components/CdapProto/pb_common.c:339-381 | The mask tests advance by exactly one production, or stop exactly if none starts here, reading nothing past the terminator |
| Utf8.Validate | components/CdapProto/pb_common.c:334-385 | Accepts a C string if and only if it is the encoding of code points up to U+10FFFF, no surrogates, no U+FFFE or U+FFFF; never reads past the terminator |
| Semaphore.StepKeeps | components/FreeRTOS-Plus-POSIX/FreeRTOS-Plus-POSIX/source/FreeRTOS_POSIX_semaphore.c:112-182 | A step keeps conservation and pairing exactly if it does not leave the range of the counter or the kernel semaphore |
| Semaphore.RunKeeps | components/FreeRTOS-Plus-POSIX/FreeRTOS-Plus-POSIX/source/FreeRTOS_POSIX_semaphore.c:112-182 | In every interleaving the invariant holds all along exactly if no step overflows |
| Semaphore.EveryRun | components/FreeRTOS-Plus-POSIX/FreeRTOS-Plus-POSIX/source/FreeRTOS_POSIX_semaphore.c:76-182 | grants + max(value, 0) + kernel count + gives in flight = initial + posts; kernel units match waiters, present and timed out; a waiter without a unit means every unit is granted |
| Semaphore.GrantsExactly | components/FreeRTOS-Plus-POSIX/FreeRTOS-Plus-POSIX/source/FreeRTOS_POSIX_semaphore.c:76-182 | In every run without overflow, by the calls made: grants = waits - timeouts - blocked, never more than initial + posts, and the counter is initial + posts - waits |
| Semaphore.ThreadStep | components/FreeRTOS-Plus-POSIX/FreeRTOS-Plus-POSIX/source/FreeRTOS_POSIX_semaphore.c:112-182 | A wait blocks exactly if the counter is not positive, a post gives to the kernel exactly if it is negative, and a thread leaves its call only by its own step |
| Semaphore.WaiterProceeds | components/FreeRTOS-Plus-POSIX/FreeRTOS-Plus-POSIX/source/FreeRTOS_POSIX_semaphore.c:112-182 | Wherever a unit is in the kernel or on its way there, any waiter can have it in at most two steps |
| Semaphore.KernelBounded | components/FreeRTOS-Plus-POSIX/FreeRTOS-Plus-POSIX/source/FreeRTOS_POSIX_semaphore.c:76-110 | In any run at all the kernel semaphore stays within 0x7FFF |
| Semaphore.CounterEquation | components/FreeRTOS-Plus-POSIX/FreeRTOS-Plus-POSIX/source/FreeRTOS_POSIX_semaphore.c:112-137 | The counter is initial + posts - waits, whoever got or gave up waiting |
| Semaphore.OverflowNeeds | components/FreeRTOS-Plus-POSIX/FreeRTOS-Plus-POSIX/source/FreeRTOS_POSIX_semaphore.c:112-137 | A wait overflows exactly after 2^31 more waits than units; upwards it takes more than SEM_VALUE_MAX units |
| Semaphore.ModestIsClean | components/FreeRTOS-Plus-POSIX/FreeRTOS-Plus-POSIX/source/FreeRTOS_POSIX_semaphore.c:76-182 | A run with at most 2^31 more waits than initial units that never has more than SEM_VALUE_MAX units never overflows |
| Semaphore.CounterMeans | components/FreeRTOS-Plus-POSIX/FreeRTOS-Plus-POSIX/source/FreeRTOS_POSIX_semaphore.c:112-182 | The counter is the units to be had less the waiters if and only if no wait has timed out |
| Semaphore.CounterIsNotTheFreeUnits | components/FreeRTOS-Plus-POSIX/FreeRTOS-Plus-POSIX/source/FreeRTOS_POSIX_semaphore.c:132-182 | A timeout leaves the counter negative with nobody waiting |
| Buffers.StepGood | components/Rina-manager/BufferManagement/BufferManagement.c:234-388 | With a standing free list, a step of any get or release keeps the invariant exactly if it is not the wait that wraps the counter |
| Buffers.RunGood | components/Rina-manager/BufferManagement/BufferManagement.c:234-388 | In every interleaving the invariant holds all along exactly if no get comes when 2^31 more gets than units have waited |
| Buffers.EveryInterleaving | components/Rina-manager/BufferManagement/BufferManagement.c:234-388 | With n >= 2 descriptors, in every interleaving of up to 2^31 + n gets: free descriptors = tokens + gets between wait and alloc + releases between free and post; no descriptor in two places; none lost; the alloc after a grant never returns NULL |
| Buffers.HeldExactly | components/Rina-manager/BufferManagement/BufferManagement.c:301-313 | In every run a descriptor is held exactly as often as it was given a payload more than it was released; one whose payload failed is on its way back to the pool |
| Buffers.SafeExactly | components/Rina-manager/BufferManagement/BufferManagement.c:118-125 | All runs of up to 2^31 + n gets are free of the NULL descriptor if and only if n >= 2 |
| Buffers.SingleDescriptorCrashes | components/Rina-manager/Common/rsrc.c:315-323 | With one descriptor, get, release, get ends in NULL, because the pool frees on free |
| Buffers.OnePlaceEach | components/Rina-manager/BufferManagement/BufferManagement.c:258-262 | Conservation of descriptors means each is free, held or in a call, exactly once |
| Buffers.OneGetMore | components/FreeRTOS-Plus-POSIX/FreeRTOS-Plus-POSIX/source/FreeRTOS_POSIX_semaphore.c:132-182 | A run of 2^31 + n + 1 gets after which the counter promises descriptors that do not exist |
| Buffers.PollingCrashes | components/FreeRTOS-Plus-POSIX/FreeRTOS-Plus-POSIX/source/FreeRTOS_POSIX_semaphore.c:132-182 | A run of 2^31 + n + 2 gets that ends in a get going on with NULL |
| Rsrc.AlignUpIsLeast | components/Rina-manager/Common/rsrc.c:67-73 | The least multiple of the alignment not below the size |
| Rsrc.Pool.constructor | components/Rina-manager/Common/rsrc.c:163-187 | Empty lists, marks as initialised, free-on-free exactly for variable and one-at-a-time pools |
| Rsrc.Pool.FreeTail | components/Rina-manager/Common/rsrc.c:276-286 | The block is first in the free list and counted |
| Rsrc.Pool.Add2Pool | components/Rina-manager/Common/rsrc.c:340-370 | All blocks or none; new blocks are distinct from all others; low water restarts only on an empty pool |
| Rsrc.Pool.VarAlloc | components/Rina-manager/Common/rsrc.c:207-246 | Succeeds exactly as its tests say; lists stay disjoint and counted, in-use within a nonzero limit, hi-water the highest in-use ever (up to 65535), low-water goes down with the free count and restarts only on an empty pool, in every run; the block has the requested size exactly if it is new or the pool is fixed |
| Rsrc.Pool.Free | components/Rina-manager/Common/rsrc.c:297-328 | Aborts exactly on a block that is free already; otherwise the block leaves the active list, for the free list exactly if the pool gets blocks several at a time, else for the heap; the marks stay, and the invariant is kept |
| Rsrc.NewPool | components/Rina-manager/Common/rsrc.c:89-120 | Abort, NULL or a pool with the invariant, exactly by the arguments and memory |
| Rsrc.NewVarPool | components/Rina-manager/Common/rsrc.c:132-135 | Aborts exactly above 64K; otherwise a valid variable pool without initial block |
| Rsrc.VarPoolHasNoFreeList | components/Rina-manager/Common/rsrc.c:132-135 | Between calls the free list of such a pool is empty, so every block was sized for its own request |
| Rsrc.BlocksFit | components/Rina-manager/Common/rsrc.c:215-225 | With a fixed size or without an initial block, every block handed out has the size that was asked for |
| Rsrc.InitialBlockIsTooSmall | components/Rina-manager/Common/rsrc.c:182-185 | Every other pool that hands out blocks at all hands out one smaller than the request |
| Rsrc.FullFromTheStart | components/Rina-manager/Common/rsrc.c:211-214 | A pool that starts with as many blocks as its limit refuses every request in every state it can reach, and none of its blocks is ever in use |
| Rsrc.LimitKept | components/Rina-manager/Common/include/common/rsrc.h:74-74 | In-use plus free blocks stay within the limit in every state, if whole increments lead to it |
| Rsrc.LimitPassed | components/Rina-manager/Common/rsrc.c:211-223 | Every other limited pool is driven past its limit by requests alone |
| Rsrc.CountersAreLengths | components/Rina-manager/Common/include/common/rsrc.h:75-76 | A 16-bit counter is the length of its list exactly while that fits, and so in every state for arguments that bound it |
| Rsrc.CounterOutgrown | components/Rina-manager/Common/rsrc.c:229-232 | A reachable unlimited pool with 65536 blocks in use and a counter of zero |
| PoolCounts.StageNext | components/Rina-manager/Common/rsrc.c:207-246 | A pool with a standing free list has its initial blocks and whole increments, the last of them taken below the limit |
| PoolCounts.ReleaseReturns | components/Rina-manager/Common/rsrc.c:315-327 | A released block joins the free list if and only if the initial allocation or the increment is more than one |
| PoolCounts.LimitExactly | components/Rina-manager/Common/rsrc.c:211-223 | The limit is kept in every run if and only if the initial allocation is within it and whole increments lead from there exactly to it |
| PoolCounts.FreeCounterExactly | components/Rina-manager/Common/rsrc.c:276-286 | The free counter is exact in every run if and only if the pool is dynamic, cannot grow, or has a limit that rounded up to whole increments fits 16 bits |
| PoolCounts.InUseCounterExactly | components/Rina-manager/Common/rsrc.c:229-232 | The in-use counter is exact in every run if and only if the pool has a limit or cannot grow |
| PoolCounts.UselessExactly | components/Rina-manager/Common/rsrc.c:211-214 | A pool never hands out a block if and only if it starts at its limit or beyond |
| HashTable.Table.constructor | components/Rina-manager/Common/hashtab.c:306-337 | An empty table with an odd number of buckets |
| HashTable.Table.MoreFree | components/Rina-manager/Common/hashtab.c:48-70 | Adds fresh entries to the free list exactly if limit and memory allow; chained + free are all the entries ever made and stay within the limit |
| HashTable.Table.LookupCom | components/Rina-manager/Common/hashtab.c:115-136 | Finds a key exactly if the map has it, at its first place in the bucket its hash names |
| HashTable.Table.GetVal | components/Rina-manager/Common/hashtab.c:157-172 | The value the map gives, or none |
| HashTable.Table.AddVal | components/Rina-manager/Common/hashtab.c:175-216 | Map update, or nothing for an existing key that is not overwritten; a new key takes exactly one entry, from the free list or from a fresh allotment; crashes exactly for a new key without room |
| HashTable.Table.Insert | components/Rina-manager/Common/hashtab.c:190-199 | A free entry becomes the head of its chain and the map gains the key |
| HashTable.Table.Delete | components/Rina-manager/Common/hashtab.c:219-231 | Map removal; exactly the removed entry goes to the front of the free list, no entry is lost, and there is room for another key whatever the heap does; the number deleted |
| HashTable.Replace | components/Rina-manager/Common/hashtab.c:72-95 | In any table, full or not and without memory, a new key can take the place of a deleted one |
| HashTable.NewIntTable | components/Rina-manager/Common/hashtab.c:306-340 | A valid empty table for integer keys with its initial free entries, an odd number of buckets, and its increment capped at 65535 |
| HashTable.WalkIsMap | components/Rina-manager/Common/hashtab.c:245-275 | A walk over all chains meets every key of the map exactly once, with its value |
| HashTable.DeleteBehind | components/Rina-manager/Common/include/common/hashtab.h:96-101 | Deleting an entry that has been passed changes nothing for the rest of the walk |
| HashTable.Seek | components/Rina-manager/Common/hashtab.c:245-260 | The loop stops on the first entry at or after a place, or at the end |
| HashTable.Iterator.constructor | components/Rina-manager/Common/hashtab.c:261-268 | A new iterator has the whole table before it |
| HashTable.Iterator.Next | components/Rina-manager/Common/hashtab.c:269-275 | Returns the first of what remains and has already passed it |
| HashTable.Collect | components/Rina-manager/Common/hashtab.c:245-275 | The iterator yields each live entry exactly once, as many as the map has keys |
| HashTable.DeleteAll | components/Rina-manager/Common/include/common/hashtab.h:93-101 | A walk that deletes every entry it is given leaves the table empty |
| MessageQueues.StepKeeps | components/FreeRTOS-Plus-POSIX/FreeRTOS-Plus-POSIX/source/FreeRTOS_POSIX_mqueue.c:416-475 | A section under the mutex or a queue call keeps the invariant exactly if its caller holds a descriptor open as it should |
| MessageQueues.RunKeeps | components/FreeRTOS-Plus-POSIX/FreeRTOS-Plus-POSIX/source/FreeRTOS_POSIX_mqueue.c:512-913 | In every interleaving the invariant holds all along exactly if every step is disciplined |
| MessageQueues.StepSafeExactly | components/FreeRTOS-Plus-POSIX/FreeRTOS-Plus-POSIX/source/FreeRTOS_POSIX_mqueue.c:416-475 | A step is disciplined if and only if no disciplined continuation deletes a queue under a call |
| MessageQueues.RunSafeExactly | components/FreeRTOS-Plus-POSIX/FreeRTOS-Plus-POSIX/source/FreeRTOS_POSIX_mqueue.c:512-913 | A run is disciplined if and only if it is safe to go on from each of its states |
| MessageQueues.UseAfterUnlink | components/FreeRTOS-Plus-POSIX/FreeRTOS-Plus-POSIX/source/FreeRTOS_POSIX_mqueue.c:797-823 | Open, begin to send, close, unlink: the queue leaves the list with the send still to use it |
| MessageQueues.NameLength | components/FreeRTOS-Plus-POSIX/FreeRTOS-Plus-POSIX/source/FreeRTOS_POSIX_mqueue.c:383-412 | A slash and at most 64 more characters, one more than the header says |
| MessageQueues.EveryRun | components/FreeRTOS-Plus-POSIX/FreeRTOS-Plus-POSIX/source/FreeRTOS_POSIX_mqueue.c:512-913 | In every interleaving of disciplined calls: listed names distinct; no descriptors means pending unlink; storage deleted at most once, at count zero and empty; messages leave in FIFO order; every copy freed exactly once; nothing in use is deleted |
| MessageQueues.OpenListed | components/FreeRTOS-Plus-POSIX/FreeRTOS-Plus-POSIX/source/FreeRTOS_POSIX_mqueue.c:561-587 | Opening a listed queue: refused exactly with bad attributes or O_EXCL in a creating call, or if it is pending unlink; otherwise only its count goes up |
| MessageQueues.OpenNew | components/FreeRTOS-Plus-POSIX/FreeRTOS-Plus-POSIX/source/FreeRTOS_POSIX_mqueue.c:544-623 | Opening a name that is not listed makes a queue exactly with O_CREAT, a valid name, positive attributes or none, and memory; it has one descriptor and room for the messages and size asked for, or 10 of 128 bytes |
| MessageQueues.ExclusiveCreate | components/FreeRTOS-Plus-POSIX/FreeRTOS-Plus-POSIX/source/FreeRTOS_POSIX_mqueue.c:561-570 | Creating with O_EXCL succeeds if and only if the name is not listed |
| MessageQueues.AttributesGovern | components/FreeRTOS-Plus-POSIX/FreeRTOS-Plus-POSIX/source/FreeRTOS_POSIX_mqueue.c:241-274 | After any run and in every run from its creation: a send to the queue starts exactly if the message is within the size asked for, a receive exactly if its buffer is not below it, and a message can be put exactly while fewer than asked for are inside |
| MessageQueues.LeavesExactly | components/FreeRTOS-Plus-POSIX/FreeRTOS-Plus-POSIX/source/FreeRTOS_POSIX_mqueue.c:430-457 | A listed queue leaves the list if and only if it is unlinked with no descriptor open or loses its last one when pending; it becomes pending, and its count moves, exactly as opens, closes and unlinks say |
| MessageQueues.DeletionCompletes | components/FreeRTOS-Plus-POSIX/FreeRTOS-Plus-POSIX/source/FreeRTOS_POSIX_mqueue.c:291-308 | The deletion of a queue off the list can be completed, and then every message that was inside has been freed |
| MessageQueues.ReceivingStep | components/FreeRTOS-Plus-POSIX/FreeRTOS-Plus-POSIX/source/FreeRTOS_POSIX_mqueue.c:679-745 | A receive is in progress exactly from where it passes the mutex until it gets a message or fails |
| MessageQueues.SendingStep | components/FreeRTOS-Plus-POSIX/FreeRTOS-Plus-POSIX/source/FreeRTOS_POSIX_mqueue.c:775-845 | A copy is being sent exactly from where its send passes the mutex until it is put or given up |
| MessageQueues.ItemsStep | components/FreeRTOS-Plus-POSIX/FreeRTOS-Plus-POSIX/source/FreeRTOS_POSIX_mqueue.c:709-823 | What enters a listed queue is put at its end by a send to it, and what leaves it is its first message, taken by a receive from it |
| MessageQueues.RunAges | components/FreeRTOS-Plus-POSIX/FreeRTOS-Plus-POSIX/source/FreeRTOS_POSIX_mqueue.c:571-585 | Over any run name, attributes and contents of messages stay, a pending queue never gains a descriptor or loses the mark, removal from the list is final, what was put and what has left only grow at the end |
| MessageQueues.CountStep | components/FreeRTOS-Plus-POSIX/FreeRTOS-Plus-POSIX/source/FreeRTOS_POSIX_mqueue.c:731-844 | A step moves message copies between send, queue, receive and freed; only the start of a send makes one |
| MessageQueues.BecomesOk | components/FreeRTOS-Plus-POSIX/FreeRTOS-Plus-POSIX/source/FreeRTOS_POSIX_mqueue.c:430-457 | What open, close, unlink, send, receive and deletion make of one queue keeps its lifecycle and its order |
| MessageQueues.LastCloseUnlinks | components/FreeRTOS-Plus-POSIX/FreeRTOS-Plus-POSIX/source/FreeRTOS_POSIX_mqueue.c:438-456 | After the last close no flags open the queue again, although nobody unlinked it |
| MessageQueues.ReopensExactly | components/FreeRTOS-Plus-POSIX/FreeRTOS-Plus-POSIX/source/FreeRTOS_POSIX_mqueue.c:438-456 | After a close the queue can be opened if and only if another descriptor is open and nobody has unlinked it |
| MessageQueues.FindQueue | components/FreeRTOS-Plus-POSIX/FreeRTOS-Plus-POSIX/source/FreeRTOS_POSIX_mqueue.c:312-349 | Finds a listed queue with the name exactly if there is one |
| NumMgr.SearchEnds | components/Rina-manager/Common/num_mgr.c:58-85 | The search ends if and only if it does not start from 1 or some id is free |
| NumMgr.SearchNeverEnds | components/Rina-manager/Common/num_mgr.c:68-82 | From 1 with every id held it is still looking after any number of passes |
| NumMgr.FindFree | components/Rina-manager/Common/num_mgr.c:64-84 | The first free id going round from the last; exhaustion exactly if last is 2 or more and every other id is held |
| NumMgr.Manager.constructor | components/Rina-manager/Common/num_mgr.c:31-41 | Nothing held |
| NumMgr.Manager.Allocate | components/Rina-manager/Common/num_mgr.c:58-85 | The bitmap is the set of held ids plus the new one, which was free and first in cyclic order; UINT_MAX changes nothing |
| NumMgr.Manager.Release | components/Rina-manager/Common/num_mgr.c:87-97 | Removes the id from the held set; true exactly if it was held |
| NumMgr.Manager.IsAllocated | components/Rina-manager/Common/num_mgr.c:99-104 | Membership in the held set, false out of range |
| Dtp.StateVector.constructor | components/Ipcp/Modules/dtp.c:20-52 | Initial numbering and receiver state |
| Dtp.StateVector.Number | components/Ipcp/Modules/dtp.c:148-190 | Numbers count up from 1 in 32 bits, the data run flag always set |
| Dtp.StateVector.ReceivePdu | components/Ipcp/Modules/dtp.c:333-423 | Posts or drops, and moves the edge, as the receiver function says |
| Dtp.NumberMany | components/Ipcp/Modules/dtp.c:148-190 | A fresh sender numbers its SDUs 1, 2, 3, ... |
| Dtp.EdgeNeverDecreases | components/Ipcp/Modules/dtp.c:394-416 | After the first data run the left edge never goes back |
| Dtp.EdgeIsPosted | components/Ipcp/Modules/dtp.c:411-418 | Every number up to the edge has been posted |
| Dtp.NeverBelowEdge | components/Ipcp/Modules/dtp.c:394-406 | Nothing at or below the edge is posted again |
| Dtp.FirstDataRun | components/Ipcp/Modules/dtp.c:360-377 | Until a data run begins nothing is posted and nothing changes; its first PDU is posted and sets the edge |
| Dtp.InOrderExactlyOnce | components/Ipcp/Modules/dtp.c:333-423 | Delivery is in order and exactly once if and only if no PDU arrives more than one ahead of the edge |
| Dtp.ReplaysAreHarmless | components/Ipcp/Modules/dtp.c:333-423 | If first arrivals come in order, whatever old PDUs come again, exactly 1, 2, ..., highest are posted |
| Dtp.DeliveredExactly | components/Ipcp/Modules/dtp.c:333-423 | For PDUs as a sender numbers them, in any order and with any replays: a fresh receiver posts exactly 1, 2, ..., highest if and only if first arrivals come in order |
| Dtp.AheadIsPostedTwice | components/Ipcp/Modules/dtp.c:411-418 | A PDU ahead of the edge can be posted twice |
| Dtp.LateStartLoses | components/Ipcp/Modules/dtp.c:360-377 | Numbers below the first arrival are never posted |
| Dtp.WrapStopsDelivery | components/Ipcp/Modules/dtp.c:394-406 | With the edge at the last number nothing is ever posted again |

## Left out

- Encoder.EncodeMessage: requires that written + size stays below 2^32, because a sizing stream counts modulo 2^32 and the room test of pb_encode_submessage adds without an overflow guard
- RoundTrip.DecodeInvertsEncode: requires an encoding below 2^32 bytes, the largest length a size_t and the 32-bit length reader can hold
- HashTable.Table.AddVal: the 32-bit wrap of the entry count is not modelled, and nothing is said of the table after a crash
- NumMgr.Manager.Allocate: covers the states in which the search returns (NumMgr.SearchEnds says which), and for a manager of no ids the calls before the 32-bit counter wraps
- Decoder.DecodeStatic: of what a rejected field leaves behind, the count, the has-flag and the elements that were there are stated, not the contents of the element or value that was rejected
- Destination structs are passed and returned as values; padding and aliasing inside a struct are not modelled (an array is copied in and out of the struct around the writes to it), and the default_value stream of a descriptor is taken to be empty
- The bit positions of the id bitmap, which is kept as a sequence of flags
- nanopb callbacks, extensions, oneofs, pointer fields, fixed-count arrays, proto3 singular fields, float conversion and streams with I/O callbacks
- pb_decode_ex and pb_encode_ex with delimited or null-terminated framing: one length prefix or one zero byte around what is modelled
- String hashing (prvHashedName): the table is proved for any hash function
- The payload pool behind the network buffers, the rounding of payload sizes, and memory already returned to the heap being freed again
- The order of the list of message queues, mq_getattr, errno values and timeouts as times
- A failed hand-over of a posted PDU to the layer above, and a PDU that is numbered and then dropped before it is sent
- Error message strings, logging, statistics and print helpers
- Evolution.PeersUnderstand: fields of the same tag have the same type and rule on both sides, and the reader at least the writer's storage; changes of type or rule between versions are not covered
- Radio, WiFi and sensor drivers, applications, ARP, enrollment, the RIB daemon, the flow allocator and relaying
