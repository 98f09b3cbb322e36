# Verified model of the chat wire codec, the id generator and the session cache

The chat page of this repository talks to its server in Protocol Buffers, through the bundled
`protobuf.js` runtime. Its ids come from a Snowflake generator whose worker ids are leased from
ZooKeeper, and its Shiro sessions are read through a short per-thread cache in front of Redis.
This project models those three parts in Dafny and proves what they are for.

**The wire codec** (`protobuf.js`), bottom up:

| module | models |
|---|---|
| `Words`, `Varints` | 32-bit patterns, bitwise OR and XOR, the reference varint |
| `LongBitsModel` | `LongBits`: two words with carries, zig-zag, length |
| `Utf8`, `Base64` | the text codecs with their chunked output |
| `Pool` | the bump allocator |
| `Writing` | `Writer`: linked operations, fork/reset/ldelim, finish |
| `Reading`, `ReaderModel` | the cursor functions, and the `Reader` methods proved against them |
| `Schemas`, `Objects`, `Wire` | message types and messages; map objects and their key order; the wire format as a tree of records |
| `Decoding`, `Records`, `Decoder` | the generated decoder: on bytes, on records, as methods |
| `Folding`, `Overruns` | which record a property comes from, what throws; lengths and ends the decoder does not hold its input to |
| `Encoding`, `Sizes`, `Encoder` | the generated encoder: records, lengths, methods |
| `Compatibility` | what an encoding is to other readers: wider and narrower numbers, entries as messages, strict end tags |
| `Projection`, `RoundTrip`, `Fidelity`, `Codec` | what arrives of a message, and when that is all of it |
| `Repeated`, `ChatMessages` | packed and single elements; the chat message and numbers too big for it |
| `Registry` | `Type.add` and `Type.remove` with their caches |

The code generators are modelled as interpreters of a schema, not as program text. A message is
a map from field ids to properties, a 64-bit number a pair of words, a string a sequence of
UTF-16 units, a map the own entries of an object in the order of `Object.keys` together with the
prototype it may have been given. `x & (2^k - 1)`, `x >>> k` and `x << k` on patterns are written as `%`, `/` and
multiplication modulo 2^32; OR and XOR are defined bit by bit, and where the source ORs fields
together the proof that this adds them is part of the model.

Each imperative piece (`LongBits`, `Writer`, `Reader`, the generated functions, the text codecs,
the pool, the registry) is a class or method with the source's own loops and updates, proved
against a function; the theorems are about those functions. The path of the main result: the
Writer methods append `Print(MessageRecs(m))`; the Reader methods compute `Decode`; `Decode` of
printed records is a fold over them (`Records.DecodeRecs`); that fold is what arrives of the
message (`RoundTrip.DecodeReceives`), and the part that both schemas know arrives whole exactly
when its strings and keys survive (`RoundTrip.EvolvedDecode`).

**The ids**: `Snowflake` is the state machine of `nextId` with its bit layout, `WorkerLease` the
registration protocol as steps of many sessions. The clock, the random start of a millisecond,
the mutex and ephemeral nodes of ZooKeeper are the environment: a run may interleave them in any
way its step rules allow. That a wait for the next millisecond ends is an assumption (`Ends`).
`Fleet` puts both together for many processes on one clock.

**The sessions**: `SessionCache` has many threads taking the steps of `doReadSession` one at a
time, among saves, deletes, expiries and the passing of time by anyone.

Where the code does not do what its surroundings suggest, the model follows the code:

- `utf8.read` emits its whole chunk array at a flush. `Utf8.DecodeInvertsEncode` gives the exact
  set of strings that survive, `Utf8.SixteenThousandMisread` one that does not.
- An object literal has a setter for `__proto__`, so a map entry with that key is lost
  (`Fidelity.ProtoKeyLost`); the theorems on whole messages say so in their condition.
- `Reader.uint32` skips five bytes behind a continued fifth one.
  `Reading.ReadUint32OnVarint` says exactly when it stays aligned. For the `int32` timestamp of
  the chat message, a number of six to nine bytes throws when it is sent last
  (`ChatMessages.TimestampThrows`) and otherwise swallows what follows
  (`ChatMessages.NumberSwallows`, `ChatMessages.DispatchSwallowed`, `ChatMessages.FromFrThrows`).
- `readLongVarint` reads its fourth byte unchecked near the end of the buffer. A reader ends one
  byte behind the buffer exactly when three continuation bytes were left
  (`Reading.ReadLongPastEnd`, `ChatMessages.DecodesPastEnd`), and a varint cut off by the end is
  accepted exactly when three or four of its bytes are left (`Reading.ReadLongCutOff`).
- A length need not end where an element ends: the last element is read whole
  (`Overruns.PackedCut`, `Overruns.NestedCut`). Map entries are read by position
  (`Overruns.EntryByPosition`), and the wire type of a known field is hardly looked at
  (`Folding.KnownIgnoresWire`).
- A group that the buffer cuts off is accepted as a known field and throws as an unknown one
  (`Overruns.OpenGroupRead`, `Overruns.OpenGroupSkipped`).
- `encodeDelimited` on a forked, still empty writer closes the outer fork.
- `checkAndInitOrder` can never accept a stored order.
- `setWorkerId` checks its argument in an `if` with an empty body, and so takes ids that make
  `nextId` repeat itself (`Snowflake.RepeatsExactly`); only the constructor of the singleton
  checks the one it finds (`Snowflake.EarlyWorkerRefused`).
- The age of a cached session counts from the creation of its entry, after Redis has answered;
  no bound on staleness below the timeout plus that delay holds (`SessionCache.FreshExactly`).
- Names that every JavaScript object inherits, like `toString`, can not be added as field names.
- The pool aligns with a 32-bit OR, which is right for slabs of at most 2 GiB
  (`Pool.OverflowsExactly`).

To verify: `dafny verify dfyconfig.toml`.

## Model
| member | source | states |
|---|---|---|
| RoundTrip.DecodeReceives | shiro-web/src/main/resources/public/protobuf.js:1824-1913 | What any receiver gets of any conforming message, whatever strings and map keys it holds: for every pair of schemas in which an id means the same, decoding the encoded bytes returns exactly Received, with the cursor at the end of the buffer |
| RoundTrip.EvolvedDecode | shiro-web/src/main/resources/public/protobuf.js:1824-1913 | Schema evolution in both directions: a receiver that lacks fields of the sender and has optional ones of its own, at any nesting level, gets exactly the projection of the message if and only if the strings and map keys that both know survive; what the receiver does not know may hold anything |
| RoundTrip.NarrowDecode | shiro-web/src/main/resources/public/protobuf.js:1894-1900 | Unknown fields are transparent: the same for a receiver whose schema is the sender's with fields removed |
| RoundTrip.RoundTrip | shiro-web/src/main/resources/public/protobuf.js:1943-2015 | Whole-message round trip: for every schema with distinct field ids below 2^29 and every conforming message, decoding the encoded bytes gives the message back, absent repeated fields and maps read as empty, unset singular fields staying unset, if and only if every string and key survives utf8.read and no map has the key __proto__ |
| Fidelity.ExactRoundTrip | shiro-web/src/main/resources/public/protobuf.js:1943-2015 | A conforming message comes back identical if and only if it has all its arrays and maps, plain map objects and no property outside the schema, and its strings and keys survive |
| Fidelity.ProtoKeyLost | shiro-web/src/main/resources/public/protobuf.js:1846-1862 | The input: a map with the key __proto__ comes back without it |
| Projection.MessageFaithful | shiro-web/src/main/resources/public/protobuf.js:1824-1913 | What is received is the projection if and only if all strings and keys known to both sides survive, proved on the messages alone |
| Projection.EntriesFaithful | shiro-web/src/main/resources/public/protobuf.js:1846-1862 | Assigning the entries of a map one by one to an object literal gives the same map if and only if every key is clean and none is __proto__, and the values survive |
| Projection.AssignedAppends | shiro-web/src/main/resources/public/protobuf.js:1846-1862 | Keys that survive are appended in the order in which Object.keys listed them, array indices first |
| Projection.AssignedWeight | shiro-web/src/main/resources/public/protobuf.js:1846-1862 | No assignment adds more than one entry; if none is lost, every key arrived at full length |
| Projection.ArrivedAt | shiro-web/src/main/resources/public/protobuf.js:1894-1900 | Every property of what arrives: fields known to both keep their value, all others vanish or stay at their defaults |
| Fidelity.MessageComplete | shiro-web/src/main/resources/public/protobuf.js:6526-6535 | A message is its own projection if and only if it is complete |
| Fidelity.MessageIntact | shiro-web/src/main/resources/public/protobuf.js:1943-2015 | A message received unchanged was faithful |
| Codec.Transmit | shiro-web/src/main/resources/public/protobuf.js:6813-6837 | The same through the imperative code: Writer, finish, Reader and generated decoder run end to end, sender and receiver with different schemas; what arrives is exact, and it is the projection if and only if the message is faithful |
| RoundTrip.ScalarBack | shiro-web/src/main/resources/public/protobuf.js:1994-2007 | Each scalar type: the payload its Writer method makes fits the type and means the value again, int32 through its ten-byte negative form included, strings as utf8.read gives them back |
| RoundTrip.Int32Back | shiro-web/src/main/resources/public/protobuf.js:4857-4859 | A negative int32 is sign-extended to a number on which the 32-bit reader stays aligned, and its low word is the value |
| RoundTrip.PropBack | shiro-web/src/main/resources/public/protobuf.js:1954-2010 | The records of one property, read under a schema that may not know the field, set exactly what arrives of the property and nothing else; an unknown field may hold any strings |
| RoundTrip.ItemsBack | shiro-web/src/main/resources/public/protobuf.js:1988-1996 | Unpacked elements come back appended to the array in order |
| RoundTrip.PackedBack | shiro-web/src/main/resources/public/protobuf.js:1979-1985 | A packed block comes back appended to the array in order |
| RoundTrip.EntriesBack | shiro-web/src/main/resources/public/protobuf.js:1962-1973 | The records of a map assign its entries one after the other, each under its key as it was read |
| RoundTrip.NoneMissing | shiro-web/src/main/resources/public/protobuf.js:1902-1908 | A conforming message never fails the receiver's check for required fields |
| Compatibility.Int32UnderInt64 | shiro-web/src/main/resources/public/protobuf.js:8402-8406 | What an int32 is on the wire, without naming its form: any reader that takes the field for an int64 reads the same number and stops behind it |
| Compatibility.Uint32UnderUint64 | shiro-web/src/main/resources/public/protobuf.js:8382-8394 | A uint32 is the same number to a reader of uint64 |
| Compatibility.Sint32UnderSint64 | shiro-web/src/main/resources/public/protobuf.js:8413-8415 | A sint32 is the same number to a reader of sint64 |
| Compatibility.BoolUnderUint64 | shiro-web/src/main/resources/public/protobuf.js:8466-8468 | A bool is 0 or 1 to a reader of uint64 |
| Compatibility.Uint64UnderNarrow | shiro-web/src/main/resources/public/protobuf.js:8436-8439 | A 64-bit number on which 32-bit reads stay aligned is its low word to readers of every 32-bit type |
| Compatibility.NumberMeaning | shiro-web/src/main/resources/public/protobuf.js:4835-4868 | What a varint means under each 32-bit type, as a number |
| Compatibility.LongMeaning | shiro-web/src/main/resources/public/protobuf.js:5137-5147 | What a varint means under each 64-bit type, as a number |
| Compatibility.NumberSizes | shiro-web/src/main/resources/public/protobuf.js:8382-8415 | Non-negative int32 takes at most five bytes and negative ones ten, uint32 and sint32 at most five, bool one |
| Compatibility.FixedForms | shiro-web/src/main/resources/public/protobuf.js:8470-8503 | fixed32, sfixed32, fixed64 and sfixed64 are little-endian |
| Compatibility.EntryIsMessage | shiro-web/src/main/resources/public/protobuf.js:1962-1973 | A map entry has the very bytes of a message with the key as field 1 and the value as field 2 |
| Compatibility.PropShape | shiro-web/src/main/resources/public/protobuf.js:1954-2010 | How many records a property takes: one packed block for values of a packable field that asks for it, otherwise one record for each value or entry, none for an empty array |
| Compatibility.MessageInOrder | shiro-web/src/main/resources/public/protobuf.js:1951-1954 | The records of a message ascend by field id whatever the order of declaration, and each belongs to a known field that is set |
| Compatibility.EncodedWellFormed | shiro-web/src/main/resources/public/protobuf.js:1932-2015 | Every encoding is well-formed to the last byte for a reader that skips by wire type and wants each group closed by the end tag of its own field |
| Records.DecodeRecs | shiro-web/src/main/resources/public/protobuf.js:1829-1900 | The byte-level decoding loop on printed records computes the fold of those records over the message and stops exactly behind them |
| Records.DecodeRec | shiro-web/src/main/resources/public/protobuf.js:1831-1900 | One turn of the loop consumes exactly one record, tag, payload and end tag |
| Records.ReadEntryOnBody | shiro-web/src/main/resources/public/protobuf.js:1846-1862 | A map entry is read back as its key and value although length and inner tags are skipped unread |
| Records.ReadGroup | shiro-web/src/main/resources/public/protobuf.js:1832-1834 | A group ends at its end tag wherever that is |
| Records.ReadSub | shiro-web/src/main/resources/public/protobuf.js:1886-1888 | A nested message ends at its announced length |
| Decoding.DecodeMessage | shiro-web/src/main/resources/public/protobuf.js:1824-1913 | Decoding any bytes under any schema, cyclic ones included, terminates; when it returns, the position has moved forward if the message was not empty and is at most one past the end |
| Decoding.DecodeFields | shiro-web/src/main/resources/public/protobuf.js:1830-1900 | Every turn of the loop advances or throws (the measure of the recursion), whatever the bytes |
| Decoding.ReadPacked | shiro-web/src/main/resources/public/protobuf.js:1872-1876 | Every packed element read advances or throws |
| Repeated.MixtureAppends | shiro-web/src/main/resources/public/protobuf.js:1865-1883 | Packed and unpacked agree: over any mixture of packed blocks and single records, interleaved with other fields, the array is the concatenation of the elements in order of appearance |
| Repeated.DecodeMixture | shiro-web/src/main/resources/public/protobuf.js:1865-1883 | The same for the decoder on the bytes of such a mixture |
| Folding.DecodeExactly | shiro-web/src/main/resources/public/protobuf.js:1902-1908 | Decoding fitting records throws if and only if some required field has no record, and otherwise returns exactly their fold |
| Folding.MissesExactly | shiro-web/src/main/resources/public/protobuf.js:1902-1908 | The required check fails if and only if some required field has no record at all |
| Folding.NestedMissThrows | shiro-web/src/main/resources/public/protobuf.js:1886-1908 | A nested message without one of its required fields is not accepted, whatever stands before and behind it |
| Folding.UnknownWireThrows | shiro-web/src/main/resources/public/protobuf.js:5125-5126 | A tag with an unknown id and wire type 4 (outside a group), 6 or 7 makes decoding throw, behind any fitting records and before any bytes |
| Folding.KnownIgnoresWire | shiro-web/src/main/resources/public/protobuf.js:1838-1893 | For a known id the wire type of the tag matters only in telling a packed block from a single element |
| Folding.AnyWireRead | shiro-web/src/main/resources/public/protobuf.js:1838-1893 | A scalar field is read under a tag of any wire type but the end tag of a group, wire type 4 in other messages included |
| Folding.LastRecordWins | shiro-web/src/main/resources/public/protobuf.js:1884-1893 | A field that holds one value takes it from its last record, whatever stands before and between |
| Folding.LastEntryWins | shiro-web/src/main/resources/public/protobuf.js:1846-1862 | A map key that is sent more than once keeps its last value |
| Folding.FoldKeeps | shiro-web/src/main/resources/public/protobuf.js:1829-1900 | A property without a record of its id is left as it was |
| Objects.PutEntryAt | shiro-web/src/main/resources/public/protobuf.js:1853-1861 | An assignment to a map object sets the one key and leaves every other |
| Objects.PutKeepsListed | shiro-web/src/main/resources/public/protobuf.js:1853-1861 | Assignments keep the order in which keys are listed |
| Objects.ListedAt | shiro-web/src/main/resources/public/protobuf.js:1965 | What is listed: array indices in strictly ascending order, then all other keys, none twice |
| Objects.IndexExactly | shiro-web/src/main/resources/public/protobuf.js:1965 | A key is an array index if and only if it is the printed form of a number below 2^32 - 1 |
| Overruns.EntryByPosition | shiro-web/src/main/resources/public/protobuf.js:1846-1862 | A map entry is read by position: any length and any two bytes in the place of its tags give the same key and value |
| Overruns.PackedCut | shiro-web/src/main/resources/public/protobuf.js:1872-1876 | A packed block whose length ends inside its last element takes that element whole, and reading goes on behind it |
| Overruns.NestedCut | shiro-web/src/main/resources/public/protobuf.js:1886-1888 | A nested message whose length ends inside its last record takes that record whole |
| Overruns.PackedReaches | shiro-web/src/main/resources/public/protobuf.js:1872-1876 | A packed block that is returned has used up its announced length |
| Overruns.NestedReaches | shiro-web/src/main/resources/public/protobuf.js:1829-1888 | So has a nested message, on any bytes: a length that runs more than one byte past the buffer never returns |
| Overruns.OpenGroupRead | shiro-web/src/main/resources/public/protobuf.js:1829-1834 | A group cut off by the end of the buffer is accepted when its field is known |
| Overruns.OpenGroupSkipped | shiro-web/src/main/resources/public/protobuf.js:5115-5119 | The same bytes throw when the group is skipped |
| ChatMessages.Int32FieldOnNumber | shiro-web/src/main/resources/public/protobuf.js:4857-4859 | A 64-bit number under an int32 field is read modulo 2^32 with the cursor behind it if and only if its varint has at most five bytes or exactly ten |
| ChatMessages.NumberSwallows | shiro-web/src/main/resources/public/protobuf.js:4842-4849 | A number of six to nine bytes under an int32 field of any schema: the field is set to its low word and decoding goes on ten bytes behind the tag, so the bytes that stood there are lost; with fewer bytes left it throws |
| ChatMessages.LastNumberThrows | shiro-web/src/main/resources/public/protobuf.js:4842-4849 | Whatever records stand before it, decoding a message that ends with a number under an int32 field throws if and only if the number takes six to nine bytes |
| ChatMessages.TimestampThrows | shiro-web/src/main/resources/public/ChatMessage.proto:3-21 | For the chat message with all its fields and any records in front: a timestamp sent last throws if and only if it takes six to nine bytes |
| ChatMessages.DispatchSwallowed | shiro-web/src/main/resources/public/ChatMessage.proto:14-20 | The input: a timestamp of 2019 with a router dispatch behind it decodes without a throw, to a timestamp in 1970 and without the dispatch |
| ChatMessages.FromFrThrows | shiro-web/src/main/resources/public/ChatMessage.proto:14-20 | The input: the same timestamp with a dispatch from "fr" behind it throws, because a letter of the name is read as a tag of wire type 6 |
| ChatMessages.MessageIdBytes | shiro-web/src/main/resources/public/ChatMessage.proto:3-4 | The page's message with only its id 123123 is the four bytes 08 F3 C1 07 |
| ChatMessages.DecodesPastEnd | shiro-web/src/main/resources/public/protobuf.js:4898-4901 | The input: four bytes on which a decoder with one int64 field returns, one byte behind the end of the buffer |
| Wire.SkipOnBody | shiro-web/src/main/resources/public/protobuf.js:5104-5129 | skipType consumes exactly one record's payload, for wire types 0, 1, 2, 5 and groups nested to any depth |
| Wire.SkipOnGroup | shiro-web/src/main/resources/public/protobuf.js:5115-5119 | Skipping a group runs over all its records and its end tag |
| Wire.ReadTag | shiro-web/src/main/resources/public/protobuf.js:1831-1836 | A tag splits back into field id and wire type |
| Sizes.MessageSized | shiro-web/src/main/resources/public/protobuf.js:8606-8618 | Below 4 GiB in total every nested length fits the 32 bits it is written in |
| Sizes.SortAscending | shiro-web/src/main/resources/public/protobuf.js:1952 | Fields are written in strictly ascending order of their ids |
| Sizes.SortMember | shiro-web/src/main/resources/public/protobuf.js:7227-7229 | Sorting keeps exactly the fields given |
| Encoding.SortTyped | shiro-web/src/main/resources/public/protobuf.js:1951-1952 | Sorting the fields does not change which messages conform, in both directions |
| Reading.ReadUint32 | shiro-web/src/main/resources/public/protobuf.js:4835-4851 | Reader.uint32, though unchecked on its fast path, returns only with the position strictly forward and inside the buffer |
| Reading.ReadUint32Base128 | shiro-web/src/main/resources/public/protobuf.js:4835-4851 | uint32 against the plain reading of a base-128 varint, minimal or not: the low word, with the cursor behind the varint for at most five bytes, and ten bytes on or a throw for longer ones |
| Reading.ReadUint32CutOff | shiro-web/src/main/resources/public/protobuf.js:4845-4848 | A varint without an end is accepted if and only if ten bytes are there, as the low word of what a closing zero byte would make of it |
| Reading.Base128Exactly | shiro-web/src/main/resources/public/protobuf.js:4835-4851 | A varint has no end exactly when only continuation bytes are left, so both cases together cover every buffer |
| Reading.ReadUint32OnVarint | shiro-web/src/main/resources/public/protobuf.js:4842-4848 | On the varint of n < 2^64, uint32 returns n modulo 2^32 and stops behind it if and only if the varint has at most five bytes or exactly ten |
| Reading.ReadUint32Short | shiro-web/src/main/resources/public/protobuf.js:4838-4842 | The unrolled reader inverts the 32-bit varint |
| Reading.ReadUint32Long | shiro-web/src/main/resources/public/protobuf.js:4845-4849 | Behind a continued fifth byte exactly five more are skipped, whatever they hold, or the read throws |
| Reading.ReadLongOnVarint | shiro-web/src/main/resources/public/protobuf.js:4872-4923 | readLongVarint restores both words of every 64-bit value and consumes exactly its varint, on the fast and the end-of-buffer route |
| Reading.ReadLongBase128 | shiro-web/src/main/resources/public/protobuf.js:4872-4923 | readLongVarint against the same reading, on any bytes: both words and the cursor behind the varint for at most ten bytes, a throw for more |
| Reading.ReadLongPastEnd | shiro-web/src/main/resources/public/protobuf.js:4889-4902 | A 64-bit read ends one byte behind the buffer if and only if exactly three bytes were left, all of them continuation bytes |
| Reading.ReadLongCutOff | shiro-web/src/main/resources/public/protobuf.js:4889-4923 | A varint cut off by the end of the buffer is accepted if and only if three or four of its bytes are left |
| Reading.CutOffNumber | shiro-web/src/main/resources/public/protobuf.js:4889-4902 | What such a varint is read as: the number that a closing zero byte would make of it |
| Reading.LongTailBase128 | shiro-web/src/main/resources/public/protobuf.js:4903-4920 | Bytes six to ten of any varint build up the high word, and a tenth byte with its top bit set throws |
| Reading.SkipVarintOnVarint | shiro-web/src/main/resources/public/protobuf.js:5089-5094 | skip without a length stops exactly behind a varint |
| Reading.SkipVarintBase128 | shiro-web/src/main/resources/public/protobuf.js:5089-5094 | skip without a length ends exactly where any varint ends, and throws exactly when it has no end |
| Reading.SkipTypeKnown | shiro-web/src/main/resources/public/protobuf.js:5104-5129 | Nothing is skipped under a wire type other than 0, 1, 2, 3 and 5: the default case throws |
| Reading.FixedExactly | shiro-web/src/main/resources/public/protobuf.js:4967-5088 | Fixed-width reads and skips return if and only if all their bytes are there |
| Reading.DelimitedExactly | shiro-web/src/main/resources/public/protobuf.js:5052-5067 | So do reads and skips of bytes behind their length, with exactly those bytes |
| Reading.FixedIsLittleEndian | shiro-web/src/main/resources/public/protobuf.js:8470-8475 | The fixed forms are the little-endian bytes of 32-bit and 64-bit numbers |
| Reading.WordOnFixed32 | shiro-web/src/main/resources/public/protobuf.js:4956-4961 | Four little-endian bytes give the word back |
| Reading.ReadBytesOnBlob | shiro-web/src/main/resources/public/protobuf.js:5052-5067 | bytes inverts a length-prefixed byte string |
| Reading.ReadBytes | shiro-web/src/main/resources/public/protobuf.js:5058-5061 | bytes returns only inside the buffer |
| Reading.SkipGroup | shiro-web/src/main/resources/public/protobuf.js:5115-5119 | Skipping a group advances or throws on any bytes |
| Varints.VarintSize | shiro-web/src/main/resources/public/protobuf.js:8386-8393 | The length ladder is the number of bytes of the varint, for all 64-bit values |
| Varints.VarintByte | shiro-web/src/main/resources/public/protobuf.js:8351-8357 | Each byte of a varint, read off the number |
| LongBitsModel.LongBits.FromNumber | shiro-web/src/main/resources/public/protobuf.js:7353-7371 | fromNumber is the value modulo 2^64, complement and carries between the words included |
| LongBitsModel.LongBits.ToNumber | shiro-web/src/main/resources/public/protobuf.js:7396-7405 | toNumber is the unsigned or two's complement reading of both words |
| LongBitsModel.NumberRoundTrip | shiro-web/src/main/resources/public/protobuf.js:7353-7405 | toNumber(fromNumber(v)) is v for every integer v of the 64-bit signed range, which covers every magnitude up to 2^53 |
| LongBitsModel.LongBits.ZzEncode | shiro-web/src/main/resources/public/protobuf.js:7463-7468 | The two-word shift and XOR is zig-zag on 64 bits |
| LongBitsModel.LongBits.ZzDecode | shiro-web/src/main/resources/public/protobuf.js:7474-7479 | The two-word shift and XOR is its inverse |
| LongBitsModel.ZigzagMeaning | shiro-web/src/main/resources/public/protobuf.js:7463-7468 | Zig-zag maps n to 2n and negative n to -2n-1 |
| LongBitsModel.ZigzagLongBack | shiro-web/src/main/resources/public/protobuf.js:7474-7479 | Decoding inverts encoding on all 64-bit values |
| LongBitsModel.UnzigzagLongBack | shiro-web/src/main/resources/public/protobuf.js:7463-7479 | Encoding inverts decoding on all 64-bit values |
| LongBitsModel.LongBits.Length | shiro-web/src/main/resources/public/protobuf.js:7485-7498 | length is exactly the number of bytes of the varint, 1 to 10 |
| RoundTrip.Sint32Back | shiro-web/src/main/resources/public/protobuf.js:4865-4868 | 32-bit zig-zag is undone by sint32's decoding |
| Utf8.DecodeInvertsEncode | shiro-web/src/main/resources/public/protobuf.js:1044-1075 | utf8.read inverts utf8.write on a string if and only if no flush after an 8193-unit flush is at 8192, which a caller can compute from the string |
| Utf8.PairFreeIsClean | shiro-web/src/main/resources/public/protobuf.js:1064-1067 | Strings of any length without a surrogate pair, lone surrogates included, meet the condition |
| Utf8.ShortIsClean | shiro-web/src/main/resources/public/protobuf.js:1064-1067 | So do all strings of at most 16384 units |
| Utf8.SixteenThousandMisread | shiro-web/src/main/resources/public/protobuf.js:1064-1067 | A concrete string of 16385 units that is not read back |
| Utf8.ReadFeeds | shiro-web/src/main/resources/public/protobuf.js:1051-1068 | Reading encoded bytes pushes exactly the original units through the chunked output, surrogate pairs recombined |
| Utf8.DecodeLength | shiro-web/src/main/resources/public/protobuf.js:1064-1067 | No string comes back shorter, and one that is not clean comes back longer |
| Utf8.FeedLength | shiro-web/src/main/resources/public/protobuf.js:1064-1067 | A stale unit makes the result strictly longer than the string |
| Utf8.NextOfChar | shiro-web/src/main/resources/public/protobuf.js:1053-1063 | Each character's bytes decode to its units and are consumed exactly (section 3 of RFC 3629) |
| Utf8.Length | shiro-web/src/main/resources/public/protobuf.js:1019-1036 | utf8.length is the number of bytes utf8.write emits, for every UTF-16 string |
| Utf8.Read | shiro-web/src/main/resources/public/protobuf.js:1044-1075 | The loop, flushing the whole chunk array as written, computes the decoding function |
| Utf8.Write | shiro-web/src/main/resources/public/protobuf.js:1084-1108 | The loop writes exactly the encoding at its offset, returns its length and leaves all other bytes alone |
| Base64.DecodeInvertsEncode | shiro-web/src/main/resources/public/protobuf.js:190-224 | decode(encode(b)) restores byte strings of any length (section 4 of RFC 4648) |
| Base64.Encode | shiro-web/src/main/resources/public/protobuf.js:136-178 | The state machine with its chunked output computes the grouped encoding: each flush has exactly 8192 characters between groups, so nothing stale is emitted |
| Base64.MachineEncodes | shiro-web/src/main/resources/public/protobuf.js:144-171 | The three-state machine emits the padded groups of RFC 4648 |
| Base64.Decode | shiro-web/src/main/resources/public/protobuf.js:190-224 | The loop writes exactly the decoded bytes and throws exactly on a character outside the alphabet or a single trailing digit |
| Base64.DecodedExactly | shiro-web/src/main/resources/public/protobuf.js:194-223 | decode returns if and only if the string is digits that do not leave a single one over, or digits that leave two or three over and then a pad; it gives three quarters of a byte for each digit |
| Base64.Length | shiro-web/src/main/resources/public/protobuf.js:109-117 | The trailing-pad loop counts pads only at the last two places of a group |
| Base64.LengthOfEncoded | shiro-web/src/main/resources/public/protobuf.js:109-117 | An encoding has whole groups and as many pads as bytes are missing to a multiple of three |
| Base64.LengthIsExact | shiro-web/src/main/resources/public/protobuf.js:109-117 | length(encode(b)) is the number of bytes of b |
| Base64.DigitValue | shiro-web/src/main/resources/public/protobuf.js:120-127 | The two tables are inverse to each other |
| Base64.Letters | shiro-web/src/main/resources/public/protobuf.js:120-127 | The digits are the 64 letters of table 1 of RFC 4648 in their order, and no other character has a value |
| Base64.GroupNumber | shiro-web/src/main/resources/public/protobuf.js:144-171 | A group is one number of 24 bits, written in base 64; bytes that are not there count as zero and their digits as padding |
| Base64.GroupsApart | shiro-web/src/main/resources/public/protobuf.js:144-171 | Whole groups are encoded on their own |
| Base64.PaddingRun | shiro-web/src/main/resources/public/protobuf.js:109-117 | What length counts is the longest run of pads at the end that stands at the last two places of a group, on any string |
| Writing.Writer.Push | shiro-web/src/main/resources/public/protobuf.js:8341-8345 | Appends the operation's bytes to the string under construction and keeps the list well linked |
| Writing.LinkedDistinct | shiro-web/src/main/resources/public/protobuf.js:8341-8345 | Every head-to-tail list is acyclic: no node is met twice |
| Writing.Writer.Fork | shiro-web/src/main/resources/public/protobuf.js:8578-8583 | Pushes an empty string onto the stack of strings |
| Writing.Writer.Reset | shiro-web/src/main/resources/public/protobuf.js:8589-8600 | Pops the stack, or empties the only string |
| Writing.Writer.Ldelim | shiro-web/src/main/resources/public/protobuf.js:8606-8618 | Appends varint(length) and the child's bytes to the parent, or prefixes the whole buffer when nothing is forked |
| Writing.Writer.Splice | shiro-web/src/main/resources/public/protobuf.js:8612-8616 | Relinking a detached list behind the tail appends its bytes |
| Writing.Writer.Finish | shiro-web/src/main/resources/public/protobuf.js:8623-8634 | The first finish fills exactly len bytes with the concatenation of all queued operations |
| Writing.Run | shiro-web/src/main/resources/public/protobuf.js:8629-8631 | Each queued operation writes the bytes it promised, and only those |
| Writing.Writer.Uint32 | shiro-web/src/main/resources/public/protobuf.js:8382-8394 | Appends the varint, with the ladder giving its exact length |
| Writing.Writer.Int32 | shiro-web/src/main/resources/public/protobuf.js:8402-8406 | Appends the varint of the value sign-extended to 64 bits |
| Writing.Writer.Sint32 | shiro-web/src/main/resources/public/protobuf.js:8413-8415 | Appends the varint of the zig-zag value |
| Writing.Writer.Uint64 | shiro-web/src/main/resources/public/protobuf.js:8436-8439 | Appends the 64-bit varint |
| Writing.Writer.Sint64 | shiro-web/src/main/resources/public/protobuf.js:8456-8459 | Appends the varint of the 64-bit zig-zag value |
| Writing.Writer.Bool | shiro-web/src/main/resources/public/protobuf.js:8466-8468 | Appends 0 or 1 |
| Writing.Writer.Fixed32 | shiro-web/src/main/resources/public/protobuf.js:8482-8484 | Appends four little-endian bytes |
| Writing.Writer.Fixed64 | shiro-web/src/main/resources/public/protobuf.js:8500-8503 | Appends both words, low word first |
| Writing.Writer.Blob | shiro-web/src/main/resources/public/protobuf.js:8549-8559 | Appends the bytes behind their length |
| Writing.Writer.BlobText | shiro-web/src/main/resources/public/protobuf.js:8553-8557 | A base64 string appends what it encodes, decoded into a buffer of the length base64.length announces |
| Writing.Writer.Text | shiro-web/src/main/resources/public/protobuf.js:8566-8571 | Appends the UTF-8 bytes behind their length |
| Writing.PutVarint32 | shiro-web/src/main/resources/public/protobuf.js:8351-8357 | The loop writes the 32-bit varint |
| Writing.PutVarint64 | shiro-web/src/main/resources/public/protobuf.js:8417-8428 | The loops write the 64-bit varint, using up the LongBits they are given |
| Writing.ShiftLong | shiro-web/src/main/resources/public/protobuf.js:8418-8422 | The two-word shift by seven is a division by 128 |
| Encoder.EncodeMessage | shiro-web/src/main/resources/public/protobuf.js:1943-2015 | The generated encoder appends exactly the printed records of the message to the current string; what those bytes are to other readers is stated by the members of Compatibility |
| Encoder.EncodeProp | shiro-web/src/main/resources/public/protobuf.js:1954-2010 | One property: map, packed, repeated and singular branches |
| Encoder.EncodeEntry | shiro-web/src/main/resources/public/protobuf.js:1962-1971 | One map entry, with its nested fork and ldelim |
| Encoder.EncodePacked | shiro-web/src/main/resources/public/protobuf.js:1979-1985 | A packed block |
| Encoder.EncodeGroup | shiro-web/src/main/resources/public/protobuf.js:1932-1934 | A group between its start and end tags |
| Encoder.EncodeSub | shiro-web/src/main/resources/public/protobuf.js:1935-1936 | A nested message through fork and ldelim |
| Encoder.Encode | shiro-web/src/main/resources/public/protobuf.js:6813-6815 | encode and finish give the printed records, which Compatibility.EncodedWellFormed and the payload laws before it pin down |
| Encoder.EncodeDelimited | shiro-web/src/main/resources/public/protobuf.js:6823-6825 | What encodeDelimited does to any writer; on one that is forked but still empty it closes the outer fork |
| ReaderModel.Reader.Uint32 | shiro-web/src/main/resources/public/protobuf.js:4835-4851 | The unrolled code with its ORs is the function of the buffer that the round trips are about |
| ReaderModel.Reader.LongVarint | shiro-web/src/main/resources/public/protobuf.js:4872-4923 | readLongVarint with both routes is the specified function |
| ReaderModel.Reader.LongVarintShort | shiro-web/src/main/resources/public/protobuf.js:4890-4901 | The end-of-buffer route, its fourth byte read without a bounds check |
| ReaderModel.Reader.LongVarintHigh | shiro-web/src/main/resources/public/protobuf.js:4903-4922 | The high half, checked and unchecked |
| ReaderModel.Reader.Sint32 | shiro-web/src/main/resources/public/protobuf.js:4865-4868 | Shift and XOR undo the zig-zag |
| ReaderModel.Reader.Fixed32 | shiro-web/src/main/resources/public/protobuf.js:4967-4974 | Reads a word or throws at the end |
| ReaderModel.Reader.Fixed64 | shiro-web/src/main/resources/public/protobuf.js:4991-4998 | Reads two words, low word first, or throws |
| ReaderModel.Reader.Bytes | shiro-web/src/main/resources/public/protobuf.js:5052-5067 | Reads a length and that many bytes or throws |
| ReaderModel.Reader.String | shiro-web/src/main/resources/public/protobuf.js:5073-5076 | Reads bytes and decodes them |
| ReaderModel.Reader.Skip | shiro-web/src/main/resources/public/protobuf.js:5089-5094 | The do-while loop over a varint |
| ReaderModel.Reader.SkipOfType | shiro-web/src/main/resources/public/protobuf.js:5104-5129 | The method with its loops is the function SkipType; that it skips nothing but wire types 0, 1, 2, 3 and 5 is Reading.SkipTypeKnown |
| Decoder.DecodeAt | shiro-web/src/main/resources/public/protobuf.js:1829-1912 | The generated decoder computes the specified function of the buffer and terminates on any bytes |
| Decoder.ReadBlock | shiro-web/src/main/resources/public/protobuf.js:1873-1875 | The packed loop |
| Decoder.ReadMapEntry | shiro-web/src/main/resources/public/protobuf.js:1846-1862 | A map entry |
| Decoder.DecodeBuffer | shiro-web/src/main/resources/public/protobuf.js:6835-6837 | decode of a whole buffer |
| Pool.PoolAllocator.Alloc | shiro-web/src/main/resources/public/protobuf.js:989-1001 | Each view has the size asked for and shares no byte with any earlier one; a pooled view starts at a multiple of 8; a request that still fits is served from the slab in use right at the offset, otherwise a new slab is begun |
| Pool.PoolAllocator.Put | shiro-web/src/main/resources/public/protobuf.js:985-1002 | Writing through one view changes no other view |
| Pool.OverflowsExactly | shiro-web/src/main/resources/public/protobuf.js:985-1002 | The exact slab sizes: some sequence of requests makes the offset negative if and only if the slab is larger than 2^31 bytes |
| Pool.AlignExactly | shiro-web/src/main/resources/public/protobuf.js:998-999 | Alignment rounds up to a multiple of 8 if and only if the offset is one already or below 2^31; otherwise the 32-bit OR turns it negative |
| Registry.Type.Add | shiro-web/src/main/resources/public/protobuf.js:6657-6684 | Type.add: refuses for a taken or inherited name, then a taken id, then a reserved id, then a reserved name, each stated on the fields and reservations themselves, and otherwise takes the field from the type it stood in; all types stay consistent and none comes to hold a reserved field |
| Registry.Type.Remove | shiro-web/src/main/resources/public/protobuf.js:6700-6711 | Accepts exactly the fields it owns |
| Registry.Type.GetFieldsById | shiro-web/src/main/resources/public/protobuf.js:6430-6450 | The getter throws exactly when the cache is empty and two fields share an id, and otherwise gives the table of all fields by id |
| Registry.Type.GetFieldsArray | shiro-web/src/main/resources/public/protobuf.js:6457-6462 | The cached array equals a rebuild |
| Registry.Type.Check | shiro-web/src/main/resources/public/protobuf.js:6659-6673 | The checks before a field is added; the throw inside the fieldsById getter is never reached, and a field that passes is not reserved |
| Registry.Type.IsReservedId | shiro-web/src/main/resources/public/protobuf.js:3213-3219 | True exactly inside a reserved range |
| Registry.Type.IsReservedName | shiro-web/src/main/resources/public/protobuf.js:3227-3233 | True exactly for a reserved name |
| Registry.Replay | shiro-web/src/main/resources/public/protobuf.js:6657-6711 | Any sequence of adds, removals and reads across types keeps them consistent, no read of fieldsById throws, and no type comes to hold a field that it reserves |
| Registry.OneOwner | shiro-web/src/main/resources/public/protobuf.js:3699-3720 | A field stands in one type at most, the one its parent pointer names |
| Registry.ByIdAt | shiro-web/src/main/resources/public/protobuf.js:6436-6448 | The table has exactly the ids of the fields and finds a field with that id |
| Registry.WithoutOne | shiro-web/src/main/resources/public/protobuf.js:6707 | Deleting one property keeps all others in order |
| Registry.LookupMember | shiro-web/src/main/resources/public/protobuf.js:6704-6705 | Among distinct names, looking up a field's name finds it if and only if it is a member |
| Snowflake.RunAscends | shiro-service/src/main/java/com/cmx/shiroservice/genernator/CommonIdGenerator.java:125-156 | Over any run of requests and worker id changes, with an arbitrary clock, the pair (timestamp, sequence) of the successful calls strictly increases |
| Snowflake.NextAscends | shiro-service/src/main/java/com/cmx/shiroservice/genernator/CommonIdGenerator.java:125-164 | One call: a refused one changes nothing, a successful one moves the pair up and returns an id made of it |
| Snowflake.AnswersExactly | shiro-service/src/main/java/com/cmx/shiroservice/genernator/CommonIdGenerator.java:125-139 | When a call issues an id, without naming the step function: exactly with a legal or existing singleton, a business id in 0..63 and a clock that has not gone back; and which of the three exceptions it throws otherwise |
| Snowflake.StampExactly | shiro-service/src/main/java/com/cmx/shiroservice/genernator/CommonIdGenerator.java:142-156 | Which timestamp and sequence it uses: the random number in a new millisecond, one more in the same one, and 0 at the first later reading once 1023 is used up |
| Snowflake.BurstCounts | shiro-service/src/main/java/com/cmx/shiroservice/genernator/CommonIdGenerator.java:142-149 | Requests within one millisecond take consecutive sequence numbers while they stay below 1024 |
| Snowflake.SteadyAnswers | shiro-service/src/main/java/com/cmx/shiroservice/genernator/CommonIdGenerator.java:125-164 | On a clock that never goes back, every legal request of a run is answered, by an id made at one of its own readings |
| Snowflake.DistinctIds | shiro-service/src/main/java/com/cmx/shiroservice/genernator/CommonIdGenerator.java:125-178 | All ids of one generator are pairwise distinct while its timestamps lie within a window of 2^40 ms and worker ids do not reach the timestamp bits |
| Snowflake.RepeatsExactly | shiro-service/src/main/java/com/cmx/shiroservice/genernator/CommonIdGenerator.java:67-97 | The exact condition on a worker id: a run that makes its ids with it can return one of them twice within 2^40 ms if and only if the worker id, shifted by ten and cut to 64 bits, is 2^24 or more; the constructor checks only the id set before the first getInstance |
| Snowflake.WideWorkerRepeats | shiro-service/src/main/java/com/cmx/shiroservice/genernator/CommonIdGenerator.java:92-97 | For every such worker id, a run that creates the singleton under a legal id, sets this one and returns one id twice |
| Snowflake.EarlyWorkerRefused | shiro-service/src/main/java/com/cmx/shiroservice/genernator/CommonIdGenerator.java:67-85 | An illegal worker id set before the singleton exists is refused: no id is returned until another is set |
| Snowflake.CommonIdGenerator.GetInstance | shiro-service/src/main/java/com/cmx/shiroservice/genernator/CommonIdGenerator.java:74-85 | Creates the singleton once, if the worker id is legal then |
| Snowflake.CommonIdGenerator.GenerateIdLong | shiro-service/src/main/java/com/cmx/shiroservice/genernator/CommonIdGenerator.java:115-118 | getInstance and nextId are together the step function of the runs, and issue an id exactly when the singleton exists or can be made, the business id is legal and the clock has not gone back |
| Snowflake.Unpacks | shiro-service/src/main/java/com/cmx/shiroservice/genernator/CommonIdGenerator.java:158-163 | For legal fields the OR of shifts is the positional sum, is not negative and gives every field back |
| Snowflake.PacksBack | shiro-service/src/main/java/com/cmx/shiroservice/genernator/CommonIdGenerator.java:158-163 | Every non-negative long is the id of the fields read off it |
| Snowflake.Layout | shiro-service/src/main/java/com/cmx/shiroservice/genernator/CommonIdGenerator.java:158-163 | Timestamp and sequence keep their own places for any offset, negative and overflowing ones included, while the worker id stays below the timestamp bits |
| Snowflake.EqualIds | shiro-service/src/main/java/com/cmx/shiroservice/genernator/CommonIdGenerator.java:158-163 | Equal ids have timestamps congruent modulo 2^40 and equal sequence numbers, and with legal worker ids equal business and worker ids |
| Fleet.NoSharedId | shiro-service/src/main/java/com/cmx/shiroservice/genernator/CommonIdGenerator.java:125-164 | Leasing and ids together: in every interleaving of registrations, expiries and calls, with all processes on one clock, the ids that live lease holders return are pairwise distinct, within one process and across all of them |
| Fleet.HolderAnswered | shiro-service/src/main/java/com/cmx/shiroservice/genernator/CommonIdGenerator.java:125-164 | A lease holder is answered whenever the clock has not gone back, and the id carries the worker id of its lease |
| Fleet.LeaseUsable | shiro-service/src/main/java/com/cmx/shiroservice/genernator/ZkIdGenerator.java:252 | Once a live session has set its worker id, the process that opened it holds the lease |
| Fleet.RunIsSound | shiro-service/src/main/java/com/cmx/shiroservice/genernator/ZkIdGenerator.java:186-263 | The invariant behind it: an id whose worker id another process holds now was made in an earlier millisecond |
| Fleet.IssueKeeps | shiro-service/src/main/java/com/cmx/shiroservice/genernator/CommonIdGenerator.java:125-164 | A new id differs from every earlier one in millisecond, worker id or order |
| Snowflake.DistinctProcesses | shiro-service/src/main/java/com/cmx/shiroservice/genernator/CommonIdGenerator.java:125-164 | Two processes that never share a millisecond and a worker id return no id in common |
| Snowflake.CommonIdGenerator.NextId | shiro-service/src/main/java/com/cmx/shiroservice/genernator/CommonIdGenerator.java:125-164 | The method on its fields and a clock object: it issues an id exactly for a legal business id and a clock that has not gone back, uses the random number, the next sequence number or 0 as the clock and the sequence demand, agrees with the step function, and changes no field when it throws |
| Snowflake.CommonIdGenerator.TilNextMillis | shiro-service/src/main/java/com/cmx/shiroservice/genernator/CommonIdGenerator.java:172-178 | The waiting loop returns the first reading past the last timestamp: all readings before it were not |
| Snowflake.CommonIdGenerator.SetWorkerId | shiro-service/src/main/java/com/cmx/shiroservice/genernator/CommonIdGenerator.java:92-97 | Takes any number |
| WorkerLease.OrderIsFixed | shiro-service/src/main/java/com/cmx/shiroservice/genernator/ZkIdGenerator.java:272-287 | Pigeonhole: whatever string is stored, the order is 0..30, because 1024 distinct ids below 31 do not exist |
| WorkerLease.PigeonHole | shiro-service/src/main/java/com/cmx/shiroservice/genernator/ZkIdGenerator.java:272-279 | Distinct ids below n are at most n |
| WorkerLease.CheckAndInitOrder | shiro-service/src/main/java/com/cmx/shiroservice/genernator/ZkIdGenerator.java:265-288 | For any result of parsing the stored string, the loops return the stored order if it passes the check and 0..30 otherwise |
| WorkerLease.TakesLeastFree | shiro-service/src/main/java/com/cmx/shiroservice/genernator/ZkIdGenerator.java:214-257 | The id taken is the least of 0..30 missing from the children read; none is taken exactly when all 31 are there |
| WorkerLease.MovedLast | shiro-service/src/main/java/com/cmx/shiroservice/genernator/ZkIdGenerator.java:214-231 | The order that is stored is 0..30 with the id taken at its end |
| WorkerLease.NoSharedWorker | shiro-service/src/main/java/com/cmx/shiroservice/genernator/ZkIdGenerator.java:186-263 | In every interleaving of registrations under the mutex and session expiries, two live sessions never have the same worker id, and each owns its node |
| WorkerLease.CommitOutcome | shiro-service/src/main/java/com/cmx/shiroservice/genernator/ZkIdGenerator.java:214-257 | In every reachable state, whatever expired since the children were listed, the commit finds its node still free, takes the least id missing from the list and stores the order with that id at its end; it is refused exactly when all 31 were listed, and then changes neither nodes nor order |
| WorkerLease.RunIsSafe | shiro-service/src/main/java/com/cmx/shiroservice/genernator/ZkIdGenerator.java:186-263 | The invariant behind both: the mutex holder, node owners, and the list read covering all nodes |
| WorkerLease.RegistrationResult | shiro-service/src/main/java/com/cmx/shiroservice/genernator/ZkIdGenerator.java:197-262 | The steps of one registration without interruption: the least free id with its node and worker id and the stored order, or no change at all when none is free |
| WorkerLease.Ensemble.DoRegister | shiro-service/src/main/java/com/cmx/shiroservice/genernator/ZkIdGenerator.java:197-262 | One registration from lock to release, with its new nodes, worker ids, stored order and mutex |
| WorkerLease.Ensemble.Choose | shiro-service/src/main/java/com/cmx/shiroservice/genernator/ZkIdGenerator.java:214-217 | The loop over the order, and the reordering |
| SessionCache.ReadsAreFresh | shiro-service/src/main/java/com/cmx/shiroservice/session/dao/RedisSessionDao.java:108-163 | In every run, a result from the cache is what Redis held for the id less than timeout + lag before the call; any other result is what it held during the call, and null, unless the bytes could not be read back, means it held nothing then |
| SessionCache.FreshExactly | shiro-service/src/main/java/com/cmx/shiroservice/session/dao/RedisSessionDao.java:120-139 | The exact bound on staleness: all results of all runs are fresh within a window if and only if the window is at least timeout + lag, the lag being the time between the answer of Redis and the creation of the entry |
| SessionCache.LateRunIsStale | shiro-service/src/main/java/com/cmx/shiroservice/session/dao/RedisSessionDao.java:135-138 | For every smaller window, a run that returns a deleted session outside it |
| SessionCache.HitIsFresh | shiro-service/src/main/java/com/cmx/shiroservice/session/dao/RedisSessionDao.java:149-157 | A hit was held by Redis less than timeout + lag before the call, because its entry is younger than the timeout and at most lag newer than the answer |
| SessionCache.SessionEnds | shiro-service/src/main/java/com/cmx/shiroservice/session/dao/RedisSessionDao.java:46-63 | In every run after a save under an expiry in which nobody else writes the key: Redis has the session until the expiry and not after, an answer fetched meanwhile is the session, and no call that begins an expiry, a timeout and a lag after the save returns anything |
| SessionCache.HeldUntilExpiry | shiro-service/src/main/java/com/cmx/shiroservice/session/manager/BaseRedisManager.java:74-88 | A key that is left alone keeps its item through any events, with the clock advanced by the time that passes |
| SessionCache.RunIsSound | shiro-service/src/main/java/com/cmx/shiroservice/session/dao/RedisSessionDao.java:108-163 | The invariant: every entry of every thread is backed by a past state of Redis |
| SessionCache.RedisSessionDao.DoReadSession | shiro-service/src/main/java/com/cmx/shiroservice/session/dao/RedisSessionDao.java:108-127 | The method: cache, then Redis, then a new entry; other threads' entries untouched, and nothing at all changed for a missing id |
| SessionCache.ReadStepsResult | shiro-service/src/main/java/com/cmx/shiroservice/session/dao/RedisSessionDao.java:108-127 | The steps of one whole read, with any outside events before and after the answer of Redis, add up to what the method is proved to do |
| SessionCache.RedisSessionDao.GetSessionFromThreadLocal | shiro-service/src/main/java/com/cmx/shiroservice/session/dao/RedisSessionDao.java:141-163 | Answers exactly from an entry with a session that is younger than the timeout; an entry that remains is younger than the timeout, and no other entry changes |
| SessionCache.RedisSessionDao.SetSessionToThreadLocal | shiro-service/src/main/java/com/cmx/shiroservice/session/dao/RedisSessionDao.java:129-139 | Puts the entry into the map of the calling thread only |
| SessionCache.RedisSessionDao.SaveSession | shiro-service/src/main/java/com/cmx/shiroservice/session/dao/RedisSessionDao.java:46-63 | Stores under the id and no other, or throws for a missing session or one that cannot be serialized; afterwards, through any events that do not touch the key, Redis has the session exactly while less than expire seconds have passed, and for ever when expire is 0 |
| SessionCache.RedisSessionDao.Delete | shiro-service/src/main/java/com/cmx/shiroservice/session/dao/RedisSessionDao.java:66-76 | Removes the id and no other |
| SessionCache.RedisManager.SetWithExpiry | shiro-service/src/main/java/com/cmx/shiroservice/session/manager/BaseRedisManager.java:74-88 | set and expire as two commands: the value is there until its expiry, at once gone for a negative one, for ever for zero |

## Left out

- RoundTrip.RoundTrip: encodings of 4 GiB and more are excluded, because ldelim cuts a length to 32 bits.
- Projection.Evolves: both schemas list the same message types; one that a side does not know has no fields there.
- Schemas.PutKey: when a byte array has become the prototype of a map, a later key that is an array index meets that array; this is not modelled, nor are 64-bit values that an external library makes objects.
- Encoder.Encode: like Encoder.EncodeMessage.
- Encoder.EncodeDelimited: like Encoder.EncodeMessage.
- Encoder.EncodeMessage: a required field is expected to be set; the source would write the default of its prototype instead.
- Writing.Writer.Finish: stated for the first call. The operations use up their LongBits, so the writer is spent afterwards.
- Writing.Writer.Blob: the byte string is shorter than 2^32, as every typed array is.
- Writing.Writer.BlobText: strings that are no base64 encoding of anything are not modelled as a value of a bytes field.
- LongBitsModel.LongBits.ToNumber: exact; beyond 2^53 JavaScript would round the sum.
- LongBitsModel.LongBits.FromNumber: integers only; the shared zero object is a fresh one here, which no writer can tell apart because it is never changed.
- ReaderModel.Reader.Bytes: returns a copy, not a view that shares memory with the buffer.
- Utf8.Read: reads a whole buffer, which is how Reader.string calls it.
- Pool.PoolAllocator.constructor: slab sizes up to 2^31, beyond which the offset overflows (`Pool.OverflowsExactly`); the size is a whole number and typed arrays come zeroed.
- Registry.Type.Add: plain fields only; oneofs, nested types, extension fields and the notification of a Root are not modelled, and a field's name is set once.
- Snowflake.CommonIdGenerator.TilNextMillis: that the clock passes the last timestamp is required, not proved.
- WorkerLease.Ensemble.DoRegister: creation of the persistent parent nodes, the 30-second lock timeout and the node's data are left out; the mutex itself is ZooKeeper's.
- WorkerLease.CheckAndInitOrder: splitting and parsing the stored string is a parameter; what follows holds for every result of it.
- Fleet.NoSharedId: one clock for all processes, and a worker id that rests at least until the next millisecond before it is leased again; session timeouts are far longer.
- WorkerLease.NoSharedWorker: is about live sessions; a process whose session has expired keeps its old worker id until its listener runs.
- SessionCache.RedisSessionDao.SaveSession: the timeout that is set on the session object after it was stored.
- SessionCache.RedisSessionDao.DoReadSession: sessions are immutable values, and one DAO is modelled; the static thread-local map is shared by DAOs with different key prefixes.
- Floats and doubles, whose bytes come from typed-array reinterpretation.
- The text of generated code, the Node Buffer reader and writer, and the external Long library.
- Map fields with keys other than strings, which JavaScript turns into property names.
- `decodeDelimited`, `verify`, converters, wrappers and the string form of `generateId`, which would add only easy members.
- The .proto parser, Root loading, RPC services and everything asynchronous.
- `ChatMessageOuterClass.java`, generated code over a library that is not part of this model.
- Controllers, WebSocket, Mongo, MyBatis, Dubbo and Shiro configuration, `RedisCache` and the role and menu managers.
- Global uniqueness of ids across the loss of a ZooKeeper session.
