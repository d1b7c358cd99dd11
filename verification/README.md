# Verified models of iguana, frozen and ormpp

The repository holds a reflection-based serialization library (`iguana`), compile-time containers
(`frozen`) and a database layer (`ormpp`).  This project models the algorithms in them that are
hard to get right by reading, and proves what callers rely on.  `dafny verify dfyconfig.toml`
checks everything.

**Protocol Buffers codec.**  `Wire` is the byte layer, `Schema` the message types, values and the
encoding of a value in one pass.  `PbWriter` is the serializer as it runs: pass one pushes message
sizes into a table, pass two consumes it while it writes; `Sizes` says exactly when pass one predicts
the size, `TwoPass` and `TwoPassProof` exactly when the two stay in step.  `PbReader` is the recursive
reader with its cursor, recursion counter and look-ahead loops, proved against the functions of
`PbParse`; `UnknownFields` and `RoundTrip` prove what reading keeps, `KnownValues` what it returns,
`PbCodec` runs both.  `WireMeaning` says what the bytes mean without writing or reading them: groups
of seven bits, the number that each kind of member puts on the wire, and the bytes of sample fields.
`Widening` reads with wider types what was written with narrower ones, `MergeLaw` reads into targets
that are not empty, and `ReadingRules` reads what the writer does not write.  Wire format as in the
Protocol Buffers "Encoding" specification.

**Frozen containers.**  `PerfectHash`, `Sorting`, `Bits`, `SortedMap` and `Kmp`: every fast index is
proved to answer as a linear scan does.

**Connection pool.**  `ConnectionPool` cuts every coroutine at its suspension points.  A run is any
interleaving of the pieces; `connect`, `ping` and the clock may answer anything.  `PoolHistory` reads
off a run what `ping` and `connect` have answered about each connection and proves that the answers
are heeded; `PoolService` says what callers get, and why they get nothing.

**SQL text.**  `SqlScanner` is the hand-written placeholder scanner in its MySQL and PostgreSQL
forms, `Placeholders` the substitution of MySQL arguments, `Conditions` the condition printer of the
query builder and the numbering of PostgreSQL placeholders.  Each is compared with a description that
shares nothing with it: `SqlGrammar` prints texts from pieces (quotes, comments, marks), `SqlValues`
reads literals and fills in values as a server would, `ConditionReader` reads a printed condition
with its own table of operators.

**MySQL packets.**  `Packets`: frames, length-encoded values, row packets.  `PacketLayout` lays them
out byte by byte and cuts them short.

**JSON text.**  `Swar` (eight bytes at a time), `Utf8`, `JsonString` (escape and unescape),
`JsonSkip` (skipping a value), `JsonText` (a whole string value), `JsonGrammar` (strings by the grammar
of section 7 of RFC 8259, in any spelling), `JsonFailures` (what is refused, and what is not).

**Decimal printing.**  `Decimal`: the multiply-and-shift digit generation of `to_chars`.

Code that changes things step by step is modelled by methods and classes, each proved against a
function; the lemmas about that function carry the promises.  Bytes are integers below 256 (a shift
is a division, joining disjoint bits an addition), except in `Swar`, which uses bit vectors.  Where
the code is narrower than an integer (`uint32_t` size slots, `size_t` decrements, sequence numbers,
32-bit products) the model says so.

Where a promise fails, the exact condition is proved, and the failing input, or the whole failing
family, is a lemma:

- The comment at `iguana/pb_util.hpp:726` calls the size table logically guaranteed.  Pass two writes
  the encoding if and only if no non-empty message follows an empty one that is a map value (pass one
  pushes a slot for it that pass two does not consume), every nested message is smaller than 4 GiB (a
  slot has 32 bits), and the casts of the lengths of strings in maps are harmless
  (`TwoPassProof.TwoPassesAgree`; `TwoPassProof.GapExample`, `TwoPassProof.OversizedExample`).  Where an
  empty map value makes pass two write the next message as an empty one, the value still comes back if
  that message is the default one of its type (`PbCodec.OvertakenComesBack`, `PbCodec.SomeComeBack`).
- Lengths are cast to 32 bits before their prefix is measured: harmless exactly on the sizes given by
  `Sizes.SizeCastIsHarmless`, and pass one predicts the size of a message if and only if every length
  in it is one of these (`Sizes.MessageExact`, `Sizes.LeastHarm`).
- A value is read back unchanged if and only if it is not nested too deep, no `std::optional` that is
  not declared `pb_optional` holds a default value, and no plain floating-point member is a negative
  zero, which compares equal to the default (`RoundTrip.MessageRoundTrip`; `PbCodec.NestingExactly`,
  `PbCodec.DefaultIsDropped`, `PbCodec.NegativeZeroIsLost`).
- The loop of `close_all` is safe from now on if and only if the next `init` is not called while
  another one is suspended (`ConnectionPool.ClosingIsSafeExactly`, `ConnectionPool.OverlappingInits`).
- The pool keeps within its size from the next `init` on if and only if no lease on one of its
  connections is out when that `init` begins (`ConnectionPool.CapacityExactly`,
  `ConnectionPool.ReturnedTooLate`, `ConnectionPool.HandleOutlivesPool`).
- A value put at a placeholder leaves what follows to be scanned as if it stood alone, if and only if
  it is not a negative number directly behind a minus sign
  (`Placeholders.ValuesStandAloneExactly`, `Placeholders.MinusSwallowsQuote`).
- JSON strings come back unchanged if and only if they have no code point above U+FFFF
  (`JsonString.JsonStringRoundTrip`, `JsonString.PairIsLost`); UTF-8 does exactly for scalar values
  (`Utf8.DecodeInvertsEncode`).
- The writer reads behind a text exactly if that ends in an incomplete sequence, and a text that it
  accepts is UTF-8 if and only if it did not (`JsonString.ReadsPastExactly`,
  `JsonString.AcceptedIsUtf8`, `JsonString.TruncatedAccepted`).
- A string is accepted without a closing quote exactly if its text ends at once or right behind an
  escape (`JsonString.ClosedExactly`, `JsonString.OpenIsAccepted`, `JsonString.OpenStrings`).
- `skip_comment` reads a star together with the next character, so a block comment is skipped exactly
  if and only if the stars before its closing star are even in number (`JsonSkip.BlockCommentSkipped`,
  `JsonSkip.ThreeStars`).
- A string compared in a condition becomes a parameter exactly if it is the parameter token
  (`Conditions.MarksAreParams`).
- The text of an argument is a literal of its value unless it is an empty blob, whose text is a lone
  `0x`, which is a name in SQL (`SqlValues.ArgumentComesBack`).
- A value skipped without being parsed may be broken off: an open list, string or comment is taken
  to end with the text (`JsonFailures.BrokenOffIsAccepted`, `JsonFailures.OpenCommentIsAccepted`).
- A number written as a 32-bit integer is read as the same 64-bit one, but a negative one as an unsigned
  one has 2^64 added, and a narrower type loses the upper bits (`Widening.WidenedScalar`,
  `Widening.NegativeAsUnsigned`, `Widening.NarrowedScalar`).
- `next_highest_power_of_two` wraps to zero for zero and above 2^63 (`Bits.NextHighestPowerOfTwo`).

## Model

| member | source | states |
|---|---|---|
| `Wire.VarintRoundTrip` | iguana/pb_util.hpp:118-151 | every 64-bit number, written as a varint and followed by anything, is read back with its exact length |
| `Wire.SerializeVarint` | iguana/pb_util.hpp:239-260 | the unrolled first two bytes and the do-while loop append the canonical varint of every 64-bit value |
| `Wire.DecodeVarint` | iguana/pb_util.hpp:118-151 | the loop over at most ten bytes returns what the reference reader returns, the length and both errors included |
| `Wire.VariantSizeIsExact` | iguana/pb_util.hpp:272-342 | (log2 * 9 + 73) / 64 is the length of the varint, for all 64-bit values |
| `Wire.ConstexprSize` | iguana/pb_util.hpp:212-219 | the compile-time loop computes the length of the varint |
| `Wire.SerializeVarintU32` | iguana/pb_util.hpp:221-236 | a compile-time tag is written as its varint |
| `Wire.ZigzagRoundTrip` | iguana/pb_util.hpp:97-114 | zigzag maps signed 32- and 64-bit numbers into their unsigned width and back |
| `Wire.FixedRoundTrip` | iguana/pb_writer.hpp:18-25 | four- and eight-byte little-endian words are read back |
| `Wire.TagRoundTrip` | iguana/pb_util.hpp:154-180 | field number and wire type survive the tag, for every legal number |
| `Wire.LenDelimRoundTrip` | iguana/pb_util.hpp:182-194 | length-prefixed bytes are read back and the rest is left |
| `Wire.DecodeLengthDelimited` | iguana/pb_util.hpp:182-194 | the cursor moves past the length; more bytes announced than present are an error |
| `Schema.ScalarRoundTrip` | iguana/pb_writer.hpp:117-149 | casts, sign extension, zigzag and bit patterns of every scalar kind undo each other on its whole range |
| `WireMeaning.VarintMeaning` | iguana/pb_util.hpp:239-260 | the bytes written are groups of seven bits, the least significant first, the top bit set on all but the last, which is not zero: together they are the number |
| `WireMeaning.ReadVarintExactly` | iguana/pb_util.hpp:118-151 | a varint is accepted if and only if it has at most ten bytes and its groups make a 64-bit number, canonical or not, and that is its value |
| `WireMeaning.ReadVarintError` | iguana/pb_util.hpp:118-151 | and otherwise it is too short exactly if the input ends within ten continued bytes, too long exactly if the tenth does not end it within 64 bits |
| `WireMeaning.FixedNumber` | iguana/pb_reader.hpp:150-170 | four and eight bytes are read with the least significant first |
| `WireMeaning.TagMeaning` | iguana/pb_util.hpp:154-180 | a tag is the varint of eight times the field number plus the number of the wire type, 0 to 5 |
| `WireMeaning.DecodeKeyExactly` | iguana/pb_util.hpp:154-180 | a tag is accepted if and only if it is such a varint with a number from 1 to 2^29 - 1, an end tag only where groups are skipped |
| `WireMeaning.DecodeKeyError` | iguana/pb_util.hpp:154-180 | which error each other varint gives |
| `WireMeaning.ReadLenDelimExactly` | iguana/pb_util.hpp:182-194 | a length and as many bytes as it says; more announced than present is the one further error |
| `WireMeaning.ScalarMeaning` | iguana/pb_writer.hpp:117-149 | for every varint kind the groups written make the number in 64-bit two's complement, the zigzag number of the kind's width, or 0 or 1 |
| `WireMeaning.FixedScalarMeaning` | iguana/pb_writer.hpp:117-149 | for every fixed-width kind the bytes are the number modulo the width, least significant first |
| `WireMeaning.NegativeTakesTenBytes` | iguana/pb_util.hpp:344-362 | a negative integer that is not zigzag-encoded takes ten bytes, a 32-bit one too |
| `WireMeaning.FromWireMeaning` | iguana/pb_reader.hpp:138-199 | what each kind makes of the number read, whatever its upper bits |
| `WireMeaning.KnownScalars` | iguana/pb_writer.hpp:117-149 | the bytes of 150, of -1 in three kinds, and of other samples of the specification |
| `WireMeaning.KnownScalarFields` | iguana/pb_writer.hpp:183-232 | the bytes of single, optional and oneof fields, empty for defaults |
| `WireMeaning.KnownListFields` | iguana/pb_writer.hpp:183-232 | the bytes of packed and unpacked lists |
| `WireMeaning.KnownMapField` | iguana/pb_writer.hpp:253-280 | the bytes of a map entry, key first |
| `Widening.WidenedScalar` | iguana/pb_util.hpp:344-362 | a boolean, an int32 or a uint32 is read as the same number by every wider kind |
| `Widening.NegativeAsUnsigned` | iguana/pb_reader.hpp:138-199 | a negative int32 read as a uint64 is that number plus 2^64 |
| `Widening.NarrowedScalar` | iguana/pb_reader.hpp:138-199 | an int64 read as an int32 is a number in range that agrees with it modulo 2^32 |
| `Widening.MessageSame` | iguana/pb_writer.hpp:172-300 | a message of any shape is written to the same bytes when members get wider types |
| `Widening.WidenedMessage` | iguana/pb_reader.hpp:377-549 | so what was written with the narrow types is read with the wide ones as the same value, under the condition of the round trip |
| `TwoPassProof.TwoPassesAgree` | iguana/pb_writer.hpp:172-300 | for messages of any size pass two writes the encoding if and only if no non-empty message comes after an empty one that is a map value, no nested message has 4 GiB or more, and the casts of string lengths in maps are harmless; without such an empty value it then ends at the end of the table |
| `TwoPassProof.SmallPassesAgree` | iguana/pb_writer.hpp:172-300 | below 4 GiB only the empty map values matter |
| `TwoPassProof.GapExample` | iguana/pb_writer.hpp:103-115 | a map from 1 to an empty message, then a message: the second one gets a wrong length |
| `TwoPassProof.OversizedExample` | iguana/pb_util.hpp:609-614 | a message that holds a string of 4 GiB or more, inside another one, gets a wrong length |
| `TwoPassProof.InStepMeaning` | iguana/pb_util.hpp:719-734 | the running condition on the table means: no slot with a size is met after an unconsumed one, and every size fits its slot |
| `TwoPassProof.MembersFaithful` | iguana/pb_writer.hpp:183-231 | member by member: while in step and with harmless casts pass two writes the encoding and consumes exactly the members' slots, otherwise its output differs from the encoding |
| `TwoPassProof.EntryFaithful` | iguana/pb_writer.hpp:253-280 | the same for a map entry, whose value's size is looked at before it is consumed |
| `TwoPass.EventsNeedBytes` | iguana/pb_util.hpp:546-672 | nothing is recorded for a value that takes no bytes |
| `TwoPass.MembersWithin` | iguana/pb_util.hpp:546-672 | no message recorded among the members is larger than their encoding |
| `Sizes.SizeCastIsHarmless` | iguana/pb_util.hpp:626-626 | the varint length computed from a size cast to 32 bits is right if and only if the size is below 2^32, or below 2^35 with a low half of at least 2^28 |
| `Sizes.LeastHarm` | iguana/pb_util.hpp:626-626 | 2^32 is the least size that is measured wrong |
| `Sizes.MessageExact` | iguana/pb_util.hpp:546-629 | pass one never predicts more than the size of the encoding, and exactly that size if and only if every length prefixed in it survives the cast: below 4 GiB always |
| `PbWriter.MessageSize` | iguana/pb_util.hpp:546-629 | pass one returns the length of a message with its tag, exact if and only if no cast in it does harm, and pushes the low 32 bits of its size and of those of its parts, the placeholder first |
| `PbWriter.FieldSize` | iguana/pb_util.hpp:567-607 | the length of one member, exact under the same condition, and the slots it pushes in writing order |
| `PbWriter.PackedSize` | iguana/pb_util.hpp:639-649 | the length of a packed run: the exact payload and the measured prefix |
| `PbWriter.EntriesSize` | iguana/pb_util.hpp:652-662 | the length of a map, exact under the same condition, and the slots of its values |
| `PbWriter.NumericSize` | iguana/pb_util.hpp:369-424 | the exact length of a numeric field, floating-point numbers included, nothing for an omitted default |
| `PbWriter.WriteMessage` | iguana/pb_writer.hpp:172-232 | pass two emits the tag, the table's length and the members, and leaves the table where the reference leaves it |
| `PbWriter.WriteField` | iguana/pb_writer.hpp:185-229 | the member loop body writes what the reference writes and consumes the same slots |
| `PbWriter.WriteEntry` | iguana/pb_writer.hpp:263-279 | the map entry: peeked value size, pair length, key and value, and the slot an empty message leaves behind |
| `PbWriter.ToPb` | iguana/pb_writer.hpp:752-770 | the predicted length is exact if and only if all casts are harmless, and the bytes are the encoding if and only if the two passes agree |
| `UnknownFields.SkipConsumesField` | iguana/pb_reader.hpp:322-373 | a well-formed field, groups nested within the limit, is skipped exactly and the rest is left; nested deeper it is refused with the recursion error |
| `UnknownFields.SkippedIsWellFormed` | iguana/pb_reader.hpp:322-373 | whatever the skipper accepts is a well-formed field with matching end tags |
| `UnknownFields.UnknownFieldsAreKept` | iguana/pb_reader.hpp:467-477 | for every accepted sequence of fields the target gains exactly the bytes of the unlisted ones, in input order |
| `UnknownFields.AcceptedInput` | iguana/pb_reader.hpp:377-549 | any accepted input is a sequence of well-formed fields, perhaps with one last tag without a value, and the unlisted ones are kept |
| `RoundTrip.MessageRoundTrip` | iguana/pb_reader.hpp:377-549 | reading an encoding into a default target gives the value back if and only if nesting stays within the limit, no implicit optional holds a default and no plain member a negative zero; the recursion limit is the only error |
| `RoundTrip.LosslessElem` | iguana/pb_util.hpp:663-668 | the value read back equals the value written exactly when no implicit optional holds a default and no plain member a negative zero |
| `RoundTrip.PackedFieldParses` | iguana/pb_reader.hpp:62-86 | a packed run rebuilds its items |
| `RoundTrip.ItemsParse` | iguana/pb_reader.hpp:43-61 | the look-ahead loop rebuilds a list of strings or messages and stops at the next field |
| `RoundTrip.EntriesParse` | iguana/pb_reader.hpp:88-137 | the map loop rebuilds the entries in order, distinct keys assumed as in a map |
| `RoundTrip.UnknownParses` | iguana/pb_reader.hpp:471-477 | unknown bytes written at the end are appended unchanged |
| `MergeLaw.InsertOrAssignMeaning` | iguana/pb_reader.hpp:125-125 | the key of the new entry gets its value, every other key keeps its own, and keys stay distinct |
| `MergeLaw.LastEntryWins` | iguana/pb_reader.hpp:88-137 | of entries with equal keys the last one counts, keys of the target included |
| `MergeLaw.MessageMerges` | iguana/pb_reader.hpp:377-549 | reading an encoding into any target replaces what it holds of scalars, strings and oneofs, extends lists, inserts or assigns map entries and merges messages |
| `MergeLaw.ConcatenationMerges` | iguana/pb_reader.hpp:377-549 | reading two encodings one behind the other merges the second value into the first |
| `ReadingRules.EntryInAnyOrder` | iguana/pb_reader.hpp:97-124 | a map entry with any number of keys, values, unknown and mistyped fields in any order: the last key counts, the values are merged, the rest is skipped |
| `ReadingRules.MistypedIsRefused` | iguana/pb_reader.hpp:480-507 | behind any encoding, a listed field with another wire type than its member takes makes reading fail, whatever follows |
| `ReadingRules.LoneTagAtEnd` | iguana/pb_reader.hpp:43-61 | a tag at the very end is accepted by lists of strings or messages and by maps, which it leaves as they are, and is an error for every other member |
| `ReadingRules.RaggedIsRefused` | iguana/pb_reader.hpp:68-74 | a run of fixed-width numbers that does not hold whole numbers is an error |
| `ReadingRules.BrokenGroups` | iguana/pb_reader.hpp:349-371 | after any well-formed children, the end of the input and the end tag of another group are each their own error |
| `KnownValues.ReadIsKnown` | iguana/pb_reader.hpp:467-477 | every value read into a default target holds, in each of its messages, only unknown bytes that are well-formed unlisted fields |
| `KnownValues.FieldsStayKnown` | iguana/pb_reader.hpp:467-549 | the field loop keeps this of any target |
| `PbCodec.WriteThenRead` | iguana/pb_writer.hpp:752-770 | both passes and then the reader: where the passes agree the value comes back if and only if nesting stays within the limit and no default is dropped |
| `PbCodec.OvertakenComesBack` | iguana/pb_writer.hpp:103-115 | for every type of the message behind an empty map value: the bytes are not the encoding, and the value comes back if and only if that message is the default one |
| `PbCodec.SomeComeBack` | iguana/pb_writer.hpp:103-115 | both cases occur |
| `PbCodec.NestingExactly` | iguana/pb_util.hpp:196-206 | a message inside a message comes back a hundred times, and not once more |
| `PbCodec.DefaultIsDropped` | iguana/pb_util.hpp:663-668 | an implicit optional that holds zero comes back unset |
| `PbCodec.NegativeZeroIsLost` | iguana/pb_writer.hpp:117-130 | a negative zero is left out and comes back positive |
| `PbReader.FromPb` | iguana/pb_reader.hpp:377-380 | the reader with its depth counter computes the reference parse and restores the counter, also on errors |
| `PbReader.ReadFields` | iguana/pb_reader.hpp:468-548 | the field loop over a moving cursor is the reference parse of the whole input |
| `PbReader.ReadField` | iguana/pb_reader.hpp:480-536 | the wire-type check and the parse of one listed member |
| `PbReader.SkipUnknownField` | iguana/pb_reader.hpp:322-373 | the cursor and counter version of skipping |
| `PbReader.ReadItems` | iguana/pb_reader.hpp:43-61 | the repeated-field loop has the same outcome as meeting the same fields one by one |
| `PbReader.ReadEntries` | iguana/pb_reader.hpp:88-137 | the map loop has the same outcome as meeting the entries one by one |
| `PbReader.ReadEntry` | iguana/pb_reader.hpp:97-124 | key and value in any order, unknown or mistyped parts skipped |
| `Sorting.Quicksort` | frozen/bits/algorithms.h:125-133 | for any strict weak order the range is sorted, rearranged within itself, and the recursion ends although its range need not shrink |
| `Sorting.Partition` | frozen/bits/algorithms.h:109-123 | smaller elements before the pivot, none smaller behind it; and if the pivot ends at the right end, the range had an element greater than its last |
| `Sorting.SortedCopy` | frozen/bits/algorithms.h:135-141 | a sorted permutation of the input |
| `Bits.NextHighestPowerOfTwo` | frozen/bits/algorithms.h:35-42 | on all 64-bit words: the least power of two that is at least v, and zero for zero and where none fits |
| `Bits.NextPowerIsLeast` | frozen/bits/algorithms.h:35-42 | least among all powers of two not below v |
| `SortedMap.DoItFast` | frozen/bits/algorithms.h:150-164 | on a window of a power of two minus one elements, the halving search finds the first element that is not less |
| `SortedMap.DoItFirst` | frozen/bits/algorithms.h:166-198 | the same for every number of elements, the remainder split off by powers of two |
| `SortedMap.LowerBoundImpl` | frozen/map.h:216-224 | the position of an equivalent key, everything before it being less, or the size if there is none |
| `SortedMap.FoundIfPresent` | frozen/map.h:197-214 | a key is found exactly if an equivalent one is present |
| `SortedMap.MapIsScan` | frozen/map.h:187-214 | with distinct keys, find, at and count answer as a linear scan of the original items |
| `SortedMap.Make` | frozen/map.h:97-98 | the constructor stores a sorted permutation |
| `PerfectHash.MakeBuckets` | frozen/bits/pmh.h:94-122 | on success every bucket lists, in order, exactly the items that hash to it, within the size limit |
| `PerfectHash.BucketLimit` | frozen/bits/pmh.h:52-54 | that limit is twice the square root of the table size, rounded down to a power of two |
| `PerfectHash.SortedBuckets` | frozen/bits/pmh.h:85-91 | every bucket once, larger ones first |
| `PerfectHash.FindSlots` | frozen/bits/pmh.h:220-235 | the seed search ends with a free slot of its own for every item of the bucket |
| `PerfectHash.StaysPlaced` | frozen/bits/pmh.h:209-242 | an item found through the tables stays found when a later bucket is placed |
| `PerfectHash.PlaceAll` | frozen/bits/pmh.h:209-242 | after the loop every item is found at its own index, filled slots never having been overwritten |
| `PerfectHash.MakeTables` | frozen/bits/pmh.h:189-253 | whenever tables are returned every key is found at its own index and every entry is in range |
| `PerfectHash.LookupInRange` | frozen/bits/pmh.h:174-185 | so any key at all, of any type and under any hash, is sent to an index in range |
| `PerfectHash.KeysAreDistinct` | frozen/bits/pmh.h:189-253 | tables exist only for pairwise distinct keys |
| `PerfectHash.MapIsScan` | frozen/unordered_map.h:197-235 | with any hash and comparison of the caller under which equal keys hash alike, find, at and count agree with a linear scan for present and absent keys |
| `PerfectHash.StorageRange` | frozen/unordered_map.h:53-56 | the table size is the power of two from the number of items on, or for fewer than 32 items from twice that number on |
| `Kmp.BuildKmpCache` | frozen/algorithm.h:48-67 | the table holds for each position the longest proper border whose next character differs, or -1, after at most three comparisons a character |
| `Kmp.SharedFallback` | frozen/algorithm.h:55-58 | when the characters agree, the border's own table entry is right for the new position |
| `Kmp.FollowTable` | frozen/algorithm.h:59-64 | walking down the table skips no border that the next character could extend |
| `Kmp.ShiftIsSafe` | frozen/algorithm.h:85-93 | after a mismatch the needle may be shifted by the table without passing an occurrence |
| `Kmp.Search` | frozen/algorithm.h:73-96 | the first occurrence, or the empty range at the end exactly if there is none, in at most 2 * text length steps |
| `ConnectionPool.LeaseAccounting` | ormpp/async_connection_pool.hpp:105-192 | in every interleaving the two counters are exactly the leases and the temporary connections, and the latter never exceed their limit |
| `ConnectionPool.DecrementsAreExact` | ormpp/async_connection_pool.hpp:311-374 | no test before a decrement fails, no unguarded decrement wraps; each piece changes the counters by exactly the lease it gives up or takes |
| `ConnectionPool.NoLeaseLeaks` | ormpp/async_connection_pool.hpp:284-329 | when every task has ended both counters are zero |
| `ConnectionPool.ConnectionsAreExclusive` | ormpp/async_connection_pool.hpp:118-148 | in every interleaving a connection is in one place only: never twice in the deque, never there and leased, never leased twice |
| `ConnectionPool.HandlesAreExclusive` | ormpp/async_connection_pool.hpp:284-309 | two handles never share a connection, and a handle's connection is not available |
| `ConnectionPool.RunIsOrderly` | ormpp/async_connection_pool.hpp:63-100 | if `init` calls do not overlap: one `init` and one `close_all` at a time, the flags say which, and a pool that is not initialized, with no `init` under way, has an empty deque |
| `ConnectionPool.DequeIsStable` | ormpp/async_connection_pool.hpp:269-273 | while a disconnect loop is suspended no other piece changes the deque, and its next element is in range |
| `ConnectionPool.LoopVisitsWholeDeque` | ormpp/async_connection_pool.hpp:269-276 | whatever happens meanwhile, after k resumptions the loop of `close_all` stands before connection k of the deque it began with, and ends only after the last |
| `ConnectionPool.Capacity` | ormpp/async_connection_pool.hpp:76-96 | available and leased pool connections never exceed the size asked for plus the leases still out when `init` last began |
| `ConnectionPool.OutOnTop` | ormpp/async_connection_pool.hpp:76-96 | and from every state in which `init` may begin, for every size, that bound is reached |
| `ConnectionPool.CapacityExactly` | ormpp/async_connection_pool.hpp:76-96 | whatever happens from the next `init` on, they never exceed its size: if and only if no pool connection is leased when it begins |
| `ConnectionPool.IdlePoolKeepsSize` | ormpp/async_connection_pool.hpp:63-100 | a pool that is only ever initialized while idle keeps within its size |
| `ConnectionPool.OneInitKeepsSize` | ormpp/async_connection_pool.hpp:63-100 | and so does a pool that is initialized once |
| `ConnectionPool.NothingIsLost` | ormpp/async_connection_pool.hpp:118-148 | if nothing fails and nobody closes, available and leased pool connections always add up to the size |
| `ConnectionPool.ClosingIsSafeExactly` | ormpp/async_connection_pool.hpp:269-276 | whatever happens from the next call of `init` on, the loop of `close_all` stands within the deque it began with: if and only if no other `init` is suspended at that call |
| `ConnectionPool.OverlappingInits` | ormpp/async_connection_pool.hpp:63-100 | from every state with a suspended `init`, a second call leads to a loop of `close_all` under which the deque grows or is emptied |
| `ConnectionPool.ReturnedTooLate` | ormpp/async_connection_pool.hpp:311-329 | every handle from before `init` can return into the new deque, which then holds one connection more than was asked for |
| `ConnectionPool.HandleOutlivesPool` | ormpp/async_connection_pool.hpp:220-281 | such a handle exists: `close_all` need not wait for it |
| `PoolHistory.AnswersAreHeeded` | ormpp/async_connection_pool.hpp:118-148 | in every interleaving, by the answers awaited on a connection since it was made or last left the deque: one that is handed out, about to be or on its way back answered its last `ping`, or failed it and was reconnected; so did every one in the deque; one given up as dead failed both |
| `PoolHistory.HandleIsAlive` | ormpp/async_connection_pool.hpp:284-309 | the last answer about a client's connection is true, and a temporary one was connected once |
| `PoolHistory.DeadStaysAway` | ormpp/async_connection_pool.hpp:124-137 | a connection that failed `ping` and reconnect, or its first `connect`, is never handed out, returned or in the deque again, however the run goes on |
| `PoolHistory.FailedConnectIsFinal` | ormpp/async_connection_pool.hpp:127-137 | the same for each event that answers an awaited `connect` with false, in `get`, in `init` or for a temporary connection |
| `PoolService.DequeIsQueue` | ormpp/async_connection_pool.hpp:118-121 | every piece leaves the deque, takes its oldest connection for a `ping`, adds one at the back, or ends a loop by emptying it; it adds exactly if a connection is newly connected by `init` or returned to a usable pool |
| `PoolService.GetTakesFirstAlive` | ormpp/async_connection_pool.hpp:110-149 | on a usable pool `get` hands out the first connection that answers `ping` or reconnects; those before it were asked both and are dropped, those behind it were asked nothing and stay in order |
| `PoolService.GetExpands` | ormpp/async_connection_pool.hpp:154-161 | with an empty deque and room, `get` connects a new connection once and hands it out, or sleeps with both counters as before |
| `PoolService.ReturnedGoesBack` | ormpp/async_connection_pool.hpp:284-329 | a returned connection goes to the back of the deque of a usable pool, a temporary one nowhere, and the counters drop by one lease |
| `PoolService.GetHasReasons` | ormpp/async_connection_pool.hpp:105-192 | `get` comes back with nothing only if its time is up or the pool is not usable, sleeps at its first look only if the deque is empty and there is no room, and hands out only from a usable pool |
| `PoolService.TemporaryStays` | ormpp/async_connection_pool.hpp:339-374 | a connection made as a temporary one never waits in the deque and is never leased as one of the pool's own, however the run goes on |
| `PoolService.NoneWithoutOption` | ormpp/async_connection_pool.hpp:155-156 | without the option no temporary connection is ever made |
| `PoolService.InitDelivers` | ormpp/async_connection_pool.hpp:84-99 | in every run, the piece that makes a pool usable leaves it with as many connections as were asked for, all of them alive |
| `PoolService.CloseWaitsExactly` | ormpp/async_connection_pool.hpp:231-265 | in every run, a `close_all` that was asked to wait and has time goes on to disconnect if and only if no lease is out |
| `ConnectionPool.Pool.TryGet` | ormpp/async_connection_pool.hpp:114-161 | the piece of `get` on the strand: its whole new state and where it suspends next |
| `ConnectionPool.Pool.ReturnConnection` | ormpp/async_connection_pool.hpp:311-329 | the posted return: counters, and the deque only while usable |
| `ConnectionPool.Pool.DynamicConnected` | ormpp/async_connection_pool.hpp:361-373 | hand-out, or roll-back of both counters |
| `ConnectionPool.Pool.CloseDisconnected` | ormpp/async_connection_pool.hpp:269-276 | one turn of the disconnect loop, and the state when it is over |
| `ConnectionPool.Pool.InitConnected` | ormpp/async_connection_pool.hpp:85-99 | one turn of the connect loop, success and failure |
| `SqlScanner.FindNextPlaceholder` | ormpp/mysql_async.hpp:719-788 | the nested loops return the first mark outside literals, quoted names and comments at or after the start |
| `SqlScanner.SkipToken` | ormpp/query.hpp:564-610 | one turn of the scanner, for both dialects |
| `SqlGrammar.MarksAreMarks` | ormpp/mysql_async.hpp:719-788 | a text printed from plain characters, single-, double- and back-quoted parts with doubled quotes and backslash pairs, dash, hash and block comments and marks is cut by the scanners exactly at its marks, in both dialects and both backslash modes |
| `SqlGrammar.EveryTextHasPieces` | ormpp/query.hpp:564-610 | every text is printed from such pieces, unfinished quotes and comments at its end included |
| `SqlGrammar.PieceIsToken` | ormpp/mysql_async.hpp:725-786 | each piece is one turn of the scanner's loop |
| `SqlScanner.SegmentsCoverText` | ormpp/mysql_async.hpp:719-788 | the pieces between the marks, with the marks put back, are the text |
| `SqlScanner.ScanPast` | ormpp/mysql_async.hpp:719-788 | replacing a mark by text that begins with no quote but the single one and no star, and not by a minus behind a minus, does not change the tokens before it, even if literals touch |
| `SqlScanner.MinusIsMet` | ormpp/mysql_async.hpp:719-788 | a minus right before a mark is always met as the beginning of a token |
| `SqlScanner.LiteralIsOneToken` | ormpp/mysql_async.hpp:567-613 | an escaped value is closed by its own last quote if and only if no quote follows, in both backslash modes |
| `SqlScanner.LiteralIsSkipped` | ormpp/mysql_async.hpp:567-613 | an escaped value hides every mark in it and none behind it |
| `Placeholders.FormatQueryArgs` | ormpp/mysql_async.hpp:807-821 | an error exactly if the number of top-level marks is not the number of arguments, otherwise the original pieces, untouched, around the values |
| `Placeholders.ReplaceNextPlaceholder` | ormpp/mysql_async.hpp:790-800 | the text up to the new search position is final and what follows is the unscanned rest |
| `Placeholders.EscapeMysqlString` | ormpp/mysql_async.hpp:567-613 | the escaping loop |
| `Placeholders.ToQueryArg` | ormpp/mysql_async.hpp:662-717 | the text of an empty optional, a number, a string or a blob |
| `Placeholders.StandsAloneExactly` | ormpp/mysql_async.hpp:790-800 | a value put at a mark leaves whatever follows to be scanned as if it stood alone, if and only if it is not a negative number directly behind a minus sign |
| `Placeholders.ValuesStandAloneExactly` | ormpp/mysql_async.hpp:807-821 | the same for all values of a formatted text |
| `Placeholders.FormattedHasNoMark` | ormpp/mysql_async.hpp:807-821 | a formatted text with no negative number directly behind a minus sign has no mark left, whatever its values contain and whatever they touch |
| `Placeholders.MinusSwallowsQuote` | ormpp/mysql_async.hpp:807-821 | `-? ?` with -1 and a string: the comment swallows the quote and a mark is bare |
| `SqlValues.StringComesBack` | ormpp/mysql_async.hpp:567-613 | a reader of MySQL string literals with its own table of escapes gets every string back, in both backslash modes, unless a quote follows |
| `SqlValues.BytesComeBack` | ormpp/mysql_async.hpp:649-660 | the digits of a blob, read two by two with the high one first, are its bytes |
| `SqlValues.ArgumentComesBack` | ormpp/mysql_async.hpp:662-717 | the text of an argument is read as its value, NULL, number, string or bytes, if and only if it is not an empty blob |
| `SqlValues.FormattedIsFilled` | ormpp/mysql_async.hpp:807-821 | formatting a printed text is an error if and only if its marks are not as many as the arguments; otherwise it is the same pieces with the literals of the arguments in their order for the marks |
| `SqlValues.NumberedIsFilled` | ormpp/query.hpp:612-625 | numbering a printed text gives the same pieces with $1, $2 and so on, in decimal without leading zeros, for the marks |
| `Conditions.MarksAreParams` | ormpp/query.hpp:76-267 | for every condition tree the marks found in its text are exactly its parameters from left to right, whatever its strings contain |
| `Conditions.ListIsInert` | ormpp/query.hpp:143-188 | the value list of `in`, its last comma cut, hides and adds no mark |
| `Conditions.ReplacePostgresqlPlaceholders` | ormpp/query.hpp:612-625 | the loop numbers the top-level marks in order and leaves the pieces between them |
| `Conditions.NumberedHasNoMark` | ormpp/query.hpp:612-625 | after numbering no mark is left, in any text |
| `Conditions.NumberingIsIdempotent` | ormpp/query.hpp:612-625 | numbering twice is numbering once, for every string |
| `Conditions.ConditionNumbered` | ormpp/query.hpp:612-625 | a printed condition gets its parameters numbered from 1 in reading order and is otherwise unchanged |
| `Conditions.DecimalDenotes` | ormpp/query.hpp:620-620 | the number behind the dollar sign is the index |
| `Conditions.EscapeSqlString` | ormpp/utility.hpp:640-652 | the loop doubles single quotes and nothing else |
| `ConditionReader.PrintedIsRead` | ormpp/query.hpp:18-267 | reading the text of any condition tree with a table of SQL operators gives back what it says: comparison, AND and OR, `in` and `not in` with the list in order, 1=0 and 1=1 for empty lists, IS NULL, `between` with the low limit first, `like`, parameters, and every string as it was |
| `Packets.FramesRoundTrip` | ormpp/mysql_async.hpp:1497-1558 | reading the frames of any payload, empty or a multiple of 0xffffff too, returns it, leaves the rest of the stream, and the next sequence number is the writer's, modulo 256 |
| `Packets.Connection.WritePacket` | ormpp/mysql_async.hpp:1528-1558 | the do-while loop with its extra empty frame writes these frames |
| `Packets.Connection.ReadPacket` | ormpp/mysql_async.hpp:1497-1526 | the read loop returns the payload of one packet and advances stream and sequence number |
| `Packets.LenencIntRoundTrip` | ormpp/mysql_async.hpp:280-314 | every 64-bit number survives its length encoding |
| `Packets.NullableRoundTrip` | ormpp/mysql_async.hpp:248-273 | nullable strings of any content and length survive theirs |
| `Packets.RowRoundTrip` | ormpp/mysql_async.hpp:1784-1793 | a row is parsed back column by column |
| `Packets.CutRowFails` | ormpp/mysql_async.hpp:186-273 | every row cut short is an error, never a shorter row |
| `Packets.RowIsNeitherEofNorErr` | ormpp/mysql_async.hpp:321-339 | no row with a column is taken for the end of the rows or an error |
| `Packets.PacketReader.LenencString` | ormpp/mysql_async.hpp:248-273 | the moving cursor reads what the reference reads, with its errors |
| `Packets.ParseTextRow` | ormpp/mysql_async.hpp:1784-1793 | the column loop |
| `Packets.AppendLenencInt` | ormpp/mysql_async.hpp:298-314 | the shortest form by the source's limits |
| `PacketLayout.FramesAreStream` | ormpp/mysql_async.hpp:1528-1558 | a payload is sent as chunks of 16777215 bytes and a shorter, perhaps empty, last one, each behind its size in three bytes, least significant first, and its number, counted on from the connection's |
| `PacketLayout.CutIsUnique` | ormpp/mysql_async.hpp:1528-1558 | there is no other way to cut it so |
| `PacketLayout.CutFramesFail` | ormpp/mysql_async.hpp:1497-1526 | a stream that ends anywhere within the frames of a payload is an error |
| `PacketLayout.LenencForms` | ormpp/mysql_async.hpp:298-314 | one byte up to 250, else 252, 253 or 254 and two, three or eight bytes, least significant first, whichever first suffices; 251 is NULL |
| `PacketLayout.LenencRead` | ormpp/mysql_async.hpp:280-296 | what every first byte makes of what follows, longer forms than needed included; 251 and 255 are errors |
| `PacketLayout.CutValueFails` | ormpp/mysql_async.hpp:186-273 | a value cut within its length, and one shorter than its length says, are each their own error |
| `Swar.HasZeroMarks` | iguana/util.hpp:246-248 | up to and including the first zero byte every lane of `has_zero` tells zero from non-zero, false positives above it notwithstanding |
| `Swar.MarksJoin` | iguana/json_util.hpp:109-109 | two tests may be joined by or |
| `Swar.FirstHit` | iguana/json_util.hpp:110-113 | the test word is zero exactly if no byte is hit, and its trailing zeros divided by eight are the first hit |
| `Swar.SkipTillEscapeOrQuote` | iguana/json_util.hpp:101-127 | word by word and then byte by byte, the scan stops where a byte scan stops, fails exactly if that does, and never reads past the end |
| `Swar.SkipTillQuote` | iguana/json_util.hpp:129-152 | the same for the quote alone |
| `Utf8.DecodeInvertsEncode` | iguana/detail/utf.hpp:31-152 | decoding an encoded code point gives it back if and only if it is not a surrogate |
| `Utf8.EncodeInvertsDecode` | iguana/detail/utf.hpp:89-152 | what is accepted is the encoding of one scalar value, of its length |
| `Utf8.OrderIsKept` | iguana/detail/utf.hpp:31-57 | encodings are ordered byte by byte as their code points are, so no two are exchanged |
| `Utf8.Kinds` | iguana/detail/utf.hpp:59-85 | the byte classes of the table are the rows of the grammar in section 4 of RFC 3629 |
| `Utf8.Decoder.DecodeUtf8` | iguana/detail/utf.hpp:89-152 | the table-driven decoder accepts exactly that grammar, computes its code points, and reads as many bytes as the first one asks for, whatever follows the text |
| `JsonString.Hex4RoundTrip` | iguana/detail/utf.hpp:9-29 | four hexadecimal digits written are read back |
| `JsonString.ParseUnicodeHex4` | iguana/detail/utf.hpp:9-29 | the digit loop, upper and lower case, refuses anything else |
| `JsonGrammar.DigitValues` | iguana/detail/utf.hpp:9-29 | the values of the sixteen digits, of letters in both cases, and nothing else is a digit |
| `JsonGrammar.CaseOfNumber` | iguana/detail/utf.hpp:9-29 | changing the case of any letters leaves the number |
| `JsonGrammar.CapitalsAreWritten` | iguana/util.hpp:277-298 | the digits written are capitals |
| `JsonString.WriteStringWithEscape` | iguana/util.hpp:305-350 | the writer loop over raw bytes writes one escape for each code point, or refuses, for any memory behind the text, and reads into it exactly if the text ends within a sequence |
| `JsonString.ReadsPastExactly` | iguana/detail/utf.hpp:93-98 | bytes behind the text are read if and only if it is well-formed up to an incomplete last sequence: never for UTF-8 |
| `JsonString.AcceptedIsUtf8` | iguana/util.hpp:256-303 | a text that the writer accepts is UTF-8 if and only if nothing behind it was read |
| `JsonString.TerminatedIsUtf8` | iguana/json_writer.hpp:101-101 | with a zero behind the text, as in a `std::string`, only UTF-8 is accepted |
| `JsonString.TruncatedAccepted` | iguana/util.hpp:256-303 | one first byte of a sequence, accepted for the byte behind it |
| `JsonString.ReadString` | iguana/json_reader.hpp:215-232 | the reader loop with its word-wise scan gives the value and the position of the reference, or fails with it |
| `JsonGrammar.StringIsRead` | iguana/json_reader.hpp:45-82 | every string by the grammar, with each escape of two characters, `\u` escapes in any case, and a backslash before any other character, is read as the bytes it stands for, to just past its quote |
| `JsonGrammar.AcceptedHasPieces` | iguana/json_reader.hpp:215-232 | and every accepted text is such a string |
| `JsonGrammar.OpenExactly` | iguana/json_reader.hpp:45-82 | a string without its closing quote is accepted if and only if it is empty or ends with an escape of two characters |
| `JsonGrammar.SpellingIsFree` | iguana/json_reader.hpp:45-57 | the case of the digits of any escapes makes no difference |
| `JsonString.ClosedExactly` | iguana/json_reader.hpp:215-232 | an accepted string is closed by a quote that belongs to no escape, and read to just behind it, if and only if its text does not end at once or right behind an escape |
| `JsonString.OpenIsAccepted` | iguana/json_reader.hpp:215-232 | every text that does end so is accepted |
| `JsonString.OpenStrings` | iguana/json_reader.hpp:215-232 | the least ones |
| `JsonString.JsonStringRoundTrip` | iguana/json_reader.hpp:45-82 | every text of scalar values is written and read to just past its closing quote, and is unchanged if and only if no code point is above U+FFFF |
| `JsonString.PairIsLost` | iguana/json_reader.hpp:49-57 | the least code point that does not come back |
| `JsonGrammar.AnyCaseRoundTrip` | iguana/json_reader.hpp:45-82 | the round trip with the letters of the written escapes put in any case |
| `JsonGrammar.WrittenDenotes` | iguana/util.hpp:256-303 | what is written for any characters consists of escapes of the standard and visible ASCII which, read as UTF-16, denote exactly these characters, those beyond U+FFFF as a pair |
| `JsonText.ReadStringValue` | iguana/json_reader.hpp:200-232 | white space, comments, `null` or an opening quote, then the string loop: the value and position of the reference, or a failure with it |
| `JsonText.ValueRoundTrip` | iguana/json_reader.hpp:200-232 | the round trip behind any white space and comments |
| `JsonText.NullIsEmpty` | iguana/json_reader.hpp:206-211 | `null` is read as the empty string |
| `JsonFailures.NoStringFails` | iguana/json_reader.hpp:200-216 | behind any white space and comments, the end of the text and whatever begins neither a string nor `null` is an error |
| `JsonFailures.BareSlashFails` | iguana/json_util.hpp:38-65 | behind any white space and comments, a slash that begins no comment is an error |
| `JsonFailures.BareSlashInside` | iguana/json_util.hpp:169-194 | and so it is behind a literal and between the items of a list |
| `JsonFailures.OpenCommentIsAccepted` | iguana/json_util.hpp:38-65 | a comment without an end, behind any white space, is skipped to the end of the text |
| `JsonFailures.BareValueEnds` | iguana/json_reader.hpp:528-556 | a bare value ends at a comma, at either closing bracket or with the text, and goes on over everything else that opens nothing |
| `JsonFailures.BrokenOffIsAccepted` | iguana/json_util.hpp:154-194 | a list or a string that is broken off is taken for a value that ends with the text |
| `JsonSkip.SkippingConsumesOneValue` | iguana/json_reader.hpp:528-556 | every JSON value, with any white space and comments inside and around it, is skipped exactly to the delimiter behind it |
| `JsonSkip.ValuePasses` | iguana/json_util.hpp:169-194 | a printed value leaves the bracket count as it was, whatever is nested in it and whatever its strings and comments contain |
| `JsonSkip.BlockCommentSkipped` | iguana/json_util.hpp:49-62 | a block comment is skipped exactly if and only if the stars before its closing star are even in number |
| `JsonSkip.ThreeStars` | iguana/json_util.hpp:49-62 | the least comment that is not |
| `JsonSkip.WholeStringSkipped` | iguana/json_util.hpp:154-167 | a string is left behind its closing quote, escaped quotes passed over |
| `JsonSkip.SkipCommentAt` | iguana/json_util.hpp:38-65 | the comment loops |
| `JsonSkip.SkipUntilClosed` | iguana/json_util.hpp:169-194 | the counting loop |
| `JsonSkip.SkipObjectValueAt` | iguana/json_reader.hpp:528-556 | the value loop |
| `JsonSkip.SkipStringAt` | iguana/json_util.hpp:154-167 | the string loop |
| `JsonSkip.SkipWsAt` | iguana/json_util.hpp:67-81 | the white space loop |
| `Decimal.NineDigits` | iguana/detail/dragonbox_to_chars.h:104-119 | for every 9-digit number the product shifted by 25 has the first digit above and the other eight as an exact fraction below |
| `Decimal.EightDigits` | iguana/detail/dragonbox_to_chars.h:124-129 | the same for 7 and 8 digits |
| `Decimal.SecondBlock` | iguana/detail/dragonbox_to_chars.h:462-468 | the same for a block of 8 digits with leading zeros, thanks to the added one |
| `Decimal.SixDigits` | iguana/detail/dragonbox_to_chars.h:190-194 | the same for 5 and 6 digits |
| `Decimal.FourDigits` | iguana/detail/dragonbox_to_chars.h:238-242 | the same for 3 and 4 digits |
| `Decimal.ZeroTest` | iguana/detail/dragonbox_to_chars.h:139-141 | each threshold test is true exactly if all remaining digits are zero |
| `Decimal.TwoOfSix` | iguana/detail/dragonbox_to_chars.h:156-159 | multiplying the low word by 100 brings out the next two digits and leaves an exact fraction |
| `Decimal.ThreeDigits` | iguana/detail/dragonbox_to_chars.h:521-527 | the division of an exponent by ten through 6554 |
| `Decimal.Print9Digits` | iguana/detail/dragonbox_to_chars.h:95-287 | every significand below 10^9 is printed digit for digit, final zeros cut below nine digits, and the exponent raised to match |
| `Decimal.PutSignificand` | iguana/detail/dragonbox_to_chars.h:319-508 | every significand below 10^17 is printed from its two blocks |
| `Decimal.ToCharsFloat` | iguana/detail/dragonbox_to_chars.h:289-316 | the whole text of a float behind what the buffer held |
| `Decimal.ToCharsDouble` | iguana/detail/dragonbox_to_chars.h:318-542 | the whole text of a double behind what the buffer held |
| `Decimal.FloatTextDenotes` | iguana/detail/dragonbox_to_chars.h:289-316 | read as scientific notation, that text denotes exactly significand * 10^exponent |
| `Decimal.DoubleTextDenotes` | iguana/detail/dragonbox_to_chars.h:318-542 | the same for doubles |
| `Decimal.KnownTexts` | iguana/detail/dragonbox_to_chars.h:289-542 | one digit before the point, no plus sign, no padding of the exponent: the texts of three numbers, as floats and as doubles |
| `Decimal.WhichZerosAreCut` | iguana/detail/dragonbox_to_chars.h:95-508 | final zeros are cut, except in floats of nine and doubles of seventeen digits, which are printed with nine digits or with all |

## Left out

- `PbWriter.ToPb`: encodings of 2^63 bytes and more, which no string holds.
- `Schema.ScalarRoundTrip`: an enumeration is the integer below it, and a floating-point number its bit pattern.
- `RoundTrip.MessageRoundTrip`: values whose unknown bytes are not well-formed unlisted fields, which `KnownValues.ReadIsKnown` shows the reader never to make.
- `PbCodec.WriteThenRead`: the same values; and where the two passes disagree only the family of `PbCodec.OvertakenComesBack`.
- `RoundTrip.EntriesParse`: a map is a sequence of entries with distinct keys in the container's iteration order; keys are not floating-point numbers.
- `PbReader.FromPb`: the target message is passed in and returned as a value instead of being filled in place; a fixed-width packed run is read item by item instead of by one `memcpy`.
- `PerfectHash.MakeTables`: the random generator is a finite supply of numbers, and without a result the supply is used up; that some seed works is not claimed.
- `Conditions.MarksAreParams`: names and numbers are as reflection and `std::to_string` produce them; conditions put together by hand from raw text are not covered.
- `Conditions.ReplacePostgresqlPlaceholders`: the `int` counter is not bounded.
- `ConditionReader.PrintedIsRead`: column names without blanks and comparison signs, numbers in letters, digits, points and signs.
- `SqlValues.ArgumentComesBack`: numbers are decimal; infinities and NaN, which have no literal, are not numbers here.
- `JsonGrammar.StringIsRead`: the two halves of a pair stand for themselves, as the reader has them.
- `ReadingRules.EntryInAnyOrder`: parts as the writer would spell them; other spellings of tags and lengths only in the skipped ones.
- `PoolService.GetTakesFirstAlive`: the schedule in which nothing else runs meanwhile; the other pool theorems hold in all.
- `JsonSkip.SkippingConsumesOneValue`: block comments with an odd number of stars before the closing star, which `JsonSkip.BlockCommentSkipped` shows to be skipped wrongly.
- `Decimal.ToCharsDouble`: significand and exponent are given; the Dragonbox conversion that computes them, sign, zero, infinity and NaN are not part of this model.
- The bytes behind a text that the UTF-8 decoder may read are any three bytes; what reading outside an allocation does is not modelled, nor is a buffer that pass one sized too small.
- Messages derived from `base`, which cache their size, and the timestamp and duration members.
- Wire types that differ from the member type (fixed and zigzag declared by annotation), which only change the scalar kind, and the compile-time option for sequential parsing.
- Character and 8- or 16-bit members, which are encoded as their 32-bit promotions.
- The stream writers over memory, files and strings: the output is a growing sequence.
- Reflection, type traits, macros and annotations: a schema value takes their place.
- Connect, ping and disconnect, sockets, timers and TLS: their outcomes are the environment's choice.  Failing posts and exceptions thrown by these calls are not modelled, nor is the destruction of a pool in use.
- `boyer_moore_searcher`, `prettify`, the XML and YAML readers, `.proto` generation, table statements, partial updates, the mutex-based pool and integer printing.
