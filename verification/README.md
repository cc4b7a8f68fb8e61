# guatiao, modelled and proved in Dafny

guatiao carries values between programs and libraries written in different languages. This
project models the parts of it whose correctness is hardest to see, and proves what they
promise, over every input, every run and every reachable state.

- **The Go value codec.** An encoder walks Go data and sends events to one of two sinks: one
  builds a tree through a stack of open containers, the other appends wire bytes. Two readers
  take a value back into a typed destination: one walks a tree, the other moves a cursor over
  bytes. A generator states a schema for what a type is written as. The project proves that the
  wire format is canonical both ways, that the byte reader answers what the tree reader answers,
  that the two sinks agree and leak nothing, that data comes back the same, typed or plain,
  that a read overwrites what the tree names and nothing else, that the schema describes
  everything written, exactly which of what is read, and accepts nothing that is not read but
  for spellings, and that encoding a graph of shared and cyclic data ends and succeeds exactly
  where nothing is on a cycle.
- **Ownership and concurrency in the bridge and in the Go glue.** A pinned engine serves queued
  and re-entrant calls; objects are taken out of handles, lent, handed over and given back;
  arguments are converted, shared and written back; instances and libraries are opened and let
  go; calls and served calls free what they allocate; remotes are destroyed or handed over once.
  Each is a state machine over its steps or a class with its fields, and the results are about
  all runs and all interleavings.
- **The derive as a compiler.** From a plan of fields or variants it generates a writer, a
  reader and a schema. The project proves that for every plan it does not refuse the reader
  takes field by field what the writer wrote, and says exactly when a value comes back unchanged
  and exactly which trees, whoever wrote them, are taken.

## How the files go together

| files | what they model |
|---|---|
| Texts, Numbers, Bits, Wire | bytes, UTF-8, decimal integers, the number grammar, the wire format |
| GoData, Decoding, TreeReader, Destinations | Go types and data, the rules of reading, the tree reader, what a read does to the variable it reads into |
| TapeSteps, Tape, Readers | the cursor over bytes, and the two readers compared |
| KeyOrder, Encoding, Encoded, Writable, FastPath, Events, Encoder, Sinks | the encoder, what it refuses, its events and the two sinks |
| Marshalling, RoundTrip, PlainData | both directions together, for typed data and for plain |
| Schema, SchemaReads, SchemaTakes | schemas against what is written, what is read, and each against the other |
| Cycles | shared and cyclic data |
| Pinned, Objects, Ownership, Described, Instances, Kinds, Libraries | the bridge |
| Calls, Served, Remotes | the Go side of calls |
| Derive | the generated writers, readers and schemas |

Loops and methods that change fields are methods here too, each proved against a function of
its inputs or of the state before; what the source promises is then proved of those functions.
A state machine has a function from a state and a step to the next state, and its theorems are
about every sequence of steps. Where engine, allocator or native code answers what it likes,
its answer is a parameter.

## Where the code and its comments part

The model follows the code.

- Reading wire bytes is described as parsing them and then decoding the tree. It is, with two
  exceptions: a value under a key no field names that nests past the limit is refused by the one
  and never looked at by the other (`DeepUnknownKeyParts`), and a repeated key, which the comment
  does mention, is kept with its last value (`RepeatedKeyIsKept`).
- What is written of plain lists and maps without reflection is described as what reflection
  would write. A list or map at the last level that holds only nils is written by the one and
  refused by the other (`WriteAnyIsWrite` says exactly when).
- A served call is described as owning and freeing every argument handed over to it. A tree
  received while the core library has no allocator is neither kept nor freed
  (`LostOnlyWithoutCore` says exactly when).
- A non-nil pointer to a nil pointer is written as a null and comes back as a nil pointer
  (`WrittenReadsBack` says this is the only loss).
- A type's schema is said to describe what the type decodes from. What decodes is more: a null
  into a slice or a map, a struct's map with a key no field has or without a required one, and
  an absent node (`ReadIsDescribed` says exactly when, `ReadButNotDescribed` gives one of each).
  And a little of what a schema accepts does not decode: an integer spelled with a point, an
  exponent or a minus its type has no use for, and an integer key out of its type's range or
  spelled -0 (`AcceptedIsRead` says exactly when, `AcceptedButNotRead` gives two).

## Model

| member | source | states |
|---|---|---|
| `Numbers.ScanNumber` | bindings/go/guatiao/encode.go:655-694 | the index-advancing scan accepts exactly the texts the `number` production of section 6 of RFC 8259 derives |
| `Numbers.NumbersScanWhole` | bindings/go/guatiao/encode.go:655-694 | for every text: a derivation in the grammar exists if and only if the scan comes to the end of the text |
| `Numbers.SplitIsTheScan` | bindings/go/guatiao/encode.go:655-694 | a text splits into sign, integer, fraction and exponent in one way only, the one the scan finds |
| `Numbers.IntegersAreNumbers` | bindings/go/guatiao/encode.go:396-401 | every integer the encoder writes in decimal is in the number grammar |
| `Texts.FormatNatReads` | bindings/go/guatiao/encode.go:396-401 | decimal digits read back as the number they were written from, with no leading zero |
| `Texts.FormatIntReads` | bindings/go/guatiao/decode.go:147-164 | a decimal integer reads back exactly within every range that has it, signed and unsigned |
| `Texts.FormatIntInjective` | bindings/go/guatiao/encode.go:535-551 | two integers never share a text, so integer keys of one map never collide |
| `Texts.Utf8Exactly` | bindings/go/guatiao/tape.go:229-244 | a text is valid if and only if it is the bytes of scalar values one after another: no form longer than it needs to be, no surrogate, nothing past U+10FFFF |
| `Wire.LebReads` | bindings/go/guatiao/tape.go:54-60 | reading what a count was written as gives the count and leaves the bytes after it |
| `Wire.ReadIsLeb` | bindings/go/guatiao/tape.go:195-217 | whatever count is read, the bytes taken are its encoding, in its shortest form |
| `Wire.CountIsShortest` | bindings/go/guatiao/tape.go:195-217 | a count is accepted if and only if the bytes start with the shortest unsigned LEB128 (section 7.6 of DWARF 5) of a number up to MaxInt |
| `Wire.EncReads` | bindings/go/guatiao/tape.go:633-719 | parsing the encoding of any well-formed tree with any bytes after it gives the tree and those bytes |
| `Wire.ReadIsEnc` | bindings/go/guatiao/tape.go:633-719 | any bytes a parse accepts are the encoding of the tree it answers, then the rest |
| `Wire.WireIsCanonical` | bindings/go/guatiao/tape.go:195-267 | parse and encoding are inverse both ways: one tree for the bytes, one byte string for the tree |
| `Wire.WireByExample` | bindings/go/guatiao/tape.go:54-132 | a node of every kind byte by byte, and a count of two bytes, the low seven bits first |
| `Wire.NestsIsFits` | bindings/go/guatiao/tape.go:270-305 | the limit checked only at containers that hold something is the limit checked at every node, from any depth within it |
| `Bits.OrIsSum` | bindings/go/guatiao/tape.go:195-217 | or-ing in a group shifted past the bits already read is adding it |
| `Tapes.OrAdds` | bindings/go/guatiao/tape.go:195-217 | each group of seven bits raises the count below the next shift, with no overflow of 64 bits |
| `Tapes.TooWide` | bindings/go/guatiao/tape.go:195-217 | a tenth byte over one would carry the count past MaxInt, which is why it is refused |
| `Tapes.Tape.TakeByte` | bindings/go/guatiao/tape.go:172-180 | takes the next byte and moves past it, or refuses at the end |
| `Tapes.Tape.TakeBoolean` | bindings/go/guatiao/tape.go:182-193 | takes a byte that is 0 or 1 and refuses any other |
| `Tapes.Tape.TakeCount` | bindings/go/guatiao/tape.go:195-217 | the loop over groups with its shift and its two refusals reads exactly the counts the wire format allows |
| `Tapes.Tape.TakeBody` | bindings/go/guatiao/tape.go:219-227 | takes n bytes, or refuses when fewer are left |
| `Tapes.Tape.TakeText` | bindings/go/guatiao/tape.go:229-244 | takes a counted text and refuses one that is not UTF-8 |
| `Tapes.Tape.TakeScalar` | bindings/go/guatiao/tape.go:246-268 | takes the body of a number, string or bytes and refuses a number outside the grammar |
| `Tapes.Tape.TakeItems` | bindings/go/guatiao/tape.go:633-641 | takes a count of items and refuses one larger than the bytes left; no complete encoding is refused so |
| `Tapes.Tape.Skip` | bindings/go/guatiao/tape.go:270-305 | passes over one node: succeeds and stops where the parse of it does, if its containers nest within the limit |
| `Tapes.Tape.SkipAll` | bindings/go/guatiao/tape.go:288-303 | passes over the items or entries of a container, each in turn |
| `Tapes.Tape.TakePlain` | bindings/go/guatiao/tape.go:658-719 | reads one node as plain data: the answer and the place it stops at are those of parsing it and reading the tree |
| `Tapes.Tape.TakePlainList` | bindings/go/guatiao/tape.go:676-695 | the loop over a list of plain data |
| `Tapes.Tape.TakePlainDict` | bindings/go/guatiao/tape.go:695-717 | the loop over a map of plain data, a later entry over an earlier one of its key |
| `Tapes.Tape.Decode` | bindings/go/guatiao/tape.go:337-628 | reads one node into a destination of any type: the answer, and the place it stops at, are those of parsing the node and decoding the tree by the tape rules |
| `Tapes.Tape.DecodeScalar` | bindings/go/guatiao/tape.go:426-518 | reads a leaf into a type that holds no other |
| `Tapes.Tape.TakeList` | bindings/go/guatiao/tape.go:503-556 | the loop over the items of a slice or an array |
| `Tapes.Tape.TakeDict` | bindings/go/guatiao/tape.go:557-589 | the loop over the entries of a map, keys converted to the key type |
| `Tapes.Tape.TakeStruct` | bindings/go/guatiao/tape.go:590-625 | the loop over the entries of a struct in wire order, unknown keys passed over |
| `Tapes.UnmarshalWire` | bindings/go/guatiao/tape.go:141-154 | one whole value read into the destination, and bytes after it refused |
| `Readers.TapeReadsAsTheTree` | bindings/go/guatiao/tape.go:337-628 | on every tree with no key twice in one map, for every type, destination and depth, the tape reader answers what the tree reader answers, unless a value it passes over nests past the limit, when it refuses |
| `Readers.StructReadsAlike` | bindings/go/guatiao/decode.go:246-263 | reading fields in wire order and in declaration order comes to the same record |
| `Readers.EntriesReadFieldwise` | bindings/go/guatiao/tape.go:590-625 | the loop over entries leaves each field as if only the entry under its name had been read into it |
| `Readers.FieldsReadFieldwise` | bindings/go/guatiao/decode.go:246-263 | the loop over fields leaves each field as if it alone had been read |
| `Destinations.OnlyTheNamed` | bindings/go/guatiao/decode.go:45-266 | by either reader, whatever the tree does not name stays as it was in the destination: behind pointers, in arrays, in fields with no entry and under a map's other keys |
| `Destinations.MapReadsExactly` | bindings/go/guatiao/decode.go:220-246 | what a map is read as, if and only if: each entry is under its key, read into a new variable, and every other entry already there is kept |
| `Destinations.ListReadsExactly` | bindings/go/guatiao/decode.go:181-220 | what a list is read as, if and only if: a slice is made anew, each item read into a new variable, and an array of as many items has each read into its own |
| `Destinations.StructReadsExactly` | bindings/go/guatiao/tape.go:590-625 | what a struct is read as, if and only if, by either reader: each field from the entry under its name or left as it was, and by the tape no key passed over with too deep a value |
| `Destinations.NothingReads` | bindings/go/guatiao/decode.go:45-90 | a null makes a pointer, slice, map or interface nil and is refused elsewhere, by a []byte too; an absent node leaves a variable as it was |
| `Destinations.ReadAgain` | bindings/go/guatiao/decode.go:45-266 | reading the same tree a second time into what it was read into changes nothing, for every type and by either reader |
| `Destinations.TapeReadsShallow` | bindings/go/guatiao/tape.go:337-628 | whatever the type and the destination, the tape reader takes no tree with a container past the limit that holds anything, passed over or not |
| `Marshalling.UnmarshalIsFromWireThenDecode` | bindings/go/guatiao/tape.go:134-154 | reading wire bytes is parsing them and decoding the tree, for any bytes a parse takes, exactly when nothing passed over is too deep |
| `Marshalling.UnmarshalRefusesToo` | bindings/go/guatiao/tape.go:134-154 | bytes a parse refuses are refused, but for a map holding a key twice |
| `Marshalling.DeepUnknownKeyParts` | bindings/go/guatiao/tape.go:270-305 | a document the two readers part on: under a key no field names, nested past the limit |
| `Marshalling.RepeatedKeyIsKept` | bindings/go/guatiao/tape.go:134-154 | a document with a repeated key, which the tape takes with the last value |
| `Marshalling.SkipIsPlain` | bindings/go/guatiao/tape.go:270-305 | from any position and depth within the limit, passing over a node and reading it as plain data accept the same bytes and stop at the same place |
| `TreeReaders.DecodeTree` | bindings/go/guatiao/decode.go:45-266 | the tree reader, by type, keeps the rules the two readers are compared by |
| `TreeReaders.DecodeList` | bindings/go/guatiao/decode.go:181-220 | the loop over the items of a slice or an array, each read one level deeper |
| `TreeReaders.DecodeMapEntries` | bindings/go/guatiao/decode.go:220-246 | the loop over the entries of a map into the entries already there |
| `TreeReaders.DecodeRecord` | bindings/go/guatiao/decode.go:246-263 | the loop over the fields in declaration order, one with no entry left as it was |
| `TreeReaders.PlainOf` | bindings/go/guatiao/decode.go:323-368 | a tree as plain data, refused past the limit |
| `TreeReaders.PlainList` | bindings/go/guatiao/decode.go:339-350 | the loop over a list of plain data |
| `TreeReaders.PlainMap` | bindings/go/guatiao/decode.go:350-364 | the loop over a map of plain data |
| `PlainData.PlainWritesBack` | bindings/go/guatiao/decode.go:323-368 | every tree with no key twice that is read as plain data is, written again, the same tree with its absent nodes null and its maps sorted, and is refused if and only if a node that is no null is at the limit or past it |
| `PlainData.PlainComesBack` | bindings/go/guatiao/decode.go:323-368 | a tree with no absent node, its maps sorted and its nodes within the limit is read as plain data and comes back as it was |
| `PlainData.ReadsPlain` | bindings/go/guatiao/decode.go:323-368 | what any tree is read as is nil, a bool, a Number, a string, a []byte, or a []any or map[string]any of such |
| `PlainData.PlainReadsBack` | bindings/go/guatiao/encode.go:269-341 | plain data comes back, the same, from what it is written as |
| `PlainData.PlainIsFits` | bindings/go/guatiao/decode.go:323-330 | a tree is read as plain data if and only if every node of it is within the limit |
| `Marshalling.PlainBytesComeBack` | bindings/go/guatiao/tape.go:658-719 | wire bytes of a tree with no absent node, its maps sorted and its nodes within the limit, read into an `any` and written again, are the same bytes |
| `Marshalling.PlainDataComesBack` | bindings/go/guatiao/tape.go:40-52 | plain data written as wire bytes is read back from them into an `any` as it was |
| `KeyOrder.Sort` | bindings/go/guatiao/encode.go:553-600 | the keys sorted: every key once, ascending, integers by value and texts by byte |
| `KeyOrder.SortIsUnique` | bindings/go/guatiao/encode.go:603-613 | a set of keys has one sorted order, so the same map is always written the same |
| `KeyOrder.BeforeIsTotal` | bindings/go/guatiao/encode.go:603-613 | any two keys of one map are ordered, one way only |
| `KeyOrder.SortExists` | bindings/go/guatiao/encode.go:553-590 | every set of keys has a sorted order |
| `KeyOrder.BeforeExactly` | bindings/go/guatiao/encode.go:603-613 | of two keys of one type the first is written first if and only if, texts, it has ended or has the lower byte at the first place they differ; integers, it is the lesser by value; bools, it is false and the other true |
| `Encoders.Encoder.WriteAny` | bindings/go/guatiao/encode.go:269-341 | the events sent for an interface's value are those of the tree it describes, refused exactly when there is none, and the depth is restored on every way out |
| `Encoders.Encoder.Write` | bindings/go/guatiao/encode.go:343-455 | the same for a value of any type |
| `Encoders.Encoder.WriteList` | bindings/go/guatiao/encode.go:517-533 | a list is announced with its length, then its items in order |
| `Encoders.Encoder.WriteMap` | bindings/go/guatiao/encode.go:553-600 | a map is announced with its length, then its entries in key order |
| `Encoders.Encoder.WriteEntries` | bindings/go/guatiao/encode.go:591-600 | the loop over sorted keys, stopping at the first refusal |
| `Encoders.Encoder.WriteEntry` | bindings/go/guatiao/encode.go:615-628 | an entry is sent when its key is UTF-8 and its value is written |
| `Encoders.Encoder.WriteRecord` | bindings/go/guatiao/encode.go:630-653 | a struct is announced with the number of fields it writes, and writes exactly those |
| `Encoders.Encoder.WriteFields` | bindings/go/guatiao/encode.go:641-651 | the loop over the fields, those left out skipped |
| `Encoders.Encoder.WriteText` | bindings/go/guatiao/encode.go:483-504 | a text is refused when it is not UTF-8, a number when it is outside the grammar |
| `Encoders.IsOmitted` | bindings/go/guatiao/encode.go:698-714 | which fields are left out: a nil pointer always, an empty or zero value under omitempty |
| `Encoders.CheckZero` | bindings/go/guatiao/encode.go:698-714 | the check that every item and field is zero, with its loops |
| `FastPath.WriteAnyIsWrite` | bindings/go/guatiao/encode.go:265-341 | what is written without reflection is what would be written with it, except a container at the last level holding only nils, which is written one way and refused the other |
| `FastPath.NilPartsThem` | bindings/go/guatiao/encode.go:265-341 | 128 lists around a nil, encoded from the outermost: as lists of anything they are written, as typed lists they are refused |
| `FastPath.ListAlike` | bindings/go/guatiao/encode.go:293-311 | the same of lists, the exception exactly when every item is nil |
| `FastPath.MapAlike` | bindings/go/guatiao/encode.go:313-340 | the same of maps |
| `Encoded.EncodedIsSound` | bindings/go/guatiao/encode.go:343-455 | every tree the encoder describes is well formed, nests within the decoders' limit and has no key twice |
| `Encoded.AnyIsSound` | bindings/go/guatiao/encode.go:269-341 | the same for an interface's value, whose nils may stand one level deeper |
| `Encoded.KeyTextInjective` | bindings/go/guatiao/encode.go:535-551 | two keys of one type never have one text |
| `Writable.EncodesExactly` | bindings/go/guatiao/encode.go:343-455 | data of any type is written if and only if every text in it is UTF-8, every Number is one, and every part of it is below the limit |
| `Writable.EncodesAnyExactly` | bindings/go/guatiao/encode.go:269-341 | the same for an interface's value, whose nils have no limit |
| `Events.TreesBalance` | bindings/go/guatiao/encode.go:73-92 | the events of a tree open and close what they open, from any nesting |
| `Sinks.TapeSink.PutLeb` | bindings/go/guatiao/tape.go:54-60 | appends a count in its shortest form |
| `Sinks.TapeSink.PutBody` | bindings/go/guatiao/tape.go:62-66 | appends a tag, the length of a text and the text |
| `Sinks.TapeSink.PutCount` | bindings/go/guatiao/tape.go:114-124 | appends a container's tag and count |
| `Sinks.TapeSink.Put` | bindings/go/guatiao/tape.go:68-132 | appends exactly the bytes of one event |
| `Sinks.TapeWritesEnc` | bindings/go/guatiao/tape.go:50-132 | the bytes written for a tree's events are the tree's wire encoding |
| `Sinks.SinkBuildsTree` | bindings/go/guatiao/encode.go:95-178 | the events of a tree, sent to a sink in any state, place exactly that tree where the next item goes |
| `Sinks.SinksAgree` | bindings/go/guatiao/encode.go:95-186 | the tree one sink builds and the bytes the other writes of the same events are each other's |
| `Sinks.TreeSink.Placed` | bindings/go/guatiao/encode.go:116-131 | a built item is moved into its container, or is the root |
| `Sinks.TreeSink.Leaf` | bindings/go/guatiao/encode.go:133-139 | a leaf is placed as an item |
| `Sinks.TreeSink.Opened` | bindings/go/guatiao/encode.go:154-164 | a container is opened with a scratch node of its own |
| `Sinks.TreeSink.SetKey` | bindings/go/guatiao/encode.go:166-169 | the key the next value goes under |
| `Sinks.TreeSink.FreeInnermost` | bindings/go/guatiao/encode.go:171-178 | a closed container's scratch node is freed, once |
| `Sinks.TreeSink.End` | bindings/go/guatiao/encode.go:171-178 | closes the innermost container and places it |
| `Sinks.TreeSink.Put` | bindings/go/guatiao/encode.go:133-178 | one event on the stack machine is one step of the tree being built; scratch nodes in use are exactly those open |
| `Sinks.TreeSink.Abandon` | bindings/go/guatiao/encode.go:180-186 | every scratch node still open is freed, each once |
| `Sinks.WriteGo` | bindings/go/guatiao/encode.go:61-71 | on success the tree of the events and no scratch left; on any failure nothing held and every scratch node freed once |
| `Marshalling.MarshalWire` | bindings/go/guatiao/tape.go:40-52 | the bytes are the encoding of the tree the data describes, refused exactly when it describes none |
| `Marshalling.NewValue` | bindings/go/guatiao/encode.go:61-71 | the tree built is the one described, wherever a native call refuses nothing is left behind |
| `RoundTrip.WrittenReadsBack` | bindings/go/guatiao/encode.go:343-455 | for every concrete type and value: what the encoder writes at a depth the tree reader reads at that depth into a new variable, and the data is the same if and only if no non-nil pointer to a nil pointer is in it |
| `RoundTrip.NilBehindIsLost` | bindings/go/guatiao/encode.go:415-423 | a pointer to a nil pointer, which comes back a nil pointer |
| `RoundTrip.StructReadsBack` | bindings/go/guatiao/encode.go:630-651 | the same for structs: omitted fields are those a new variable has anyway |
| `RoundTrip.MapReadsBack` | bindings/go/guatiao/encode.go:553-600 | the same for maps, nil maps as empty ones |
| `RoundTrip.KeyReadsBack` | bindings/go/guatiao/decode.go:286-321 | a key reads back from its text |
| `RoundTrip.OmittedIsNew` | bindings/go/guatiao/encode.go:698-714 | a field left out holds what a new variable holds, a nil slice or map being an empty one |
| `RoundTrip.WrittenUnless` | bindings/go/guatiao/encode.go:698-714 | a field has an entry among those written if and only if it is not left out: a nil pointer never, and under omitempty nothing empty or zero |
| `Marshalling.MarshalledReadsBack` | bindings/go/guatiao/tape.go:40-52 | bytes written of a value read back into a new variable of its type as the same data, under the same condition |
| `Schemas.EncodedValidates` | bindings/go/guatiao/schemaof.go:62-176 | every tree the encoder writes of a type validates against the schema generated for the type |
| `Schemas.StructValidates` | bindings/go/guatiao/schemaof.go:140-172 | a written struct has every required key and no undeclared one |
| `Schemas.MapValidates` | bindings/go/guatiao/schemaof.go:120-139 | a written map's keys keep the pattern of its key type and its values the schema of its elements |
| `Schemas.BoundsAreTheType` | bindings/go/guatiao/schemaof.go:47-60 | the bounds stated are the least and greatest integers of the type |
| `Schemas.IntegerHasItsValue` | bindings/go/guatiao/schemaof.go:47-60 | an integer's text is the number it was written from, as JSON Schema compares numbers |
| `Schemas.KeyIsNamed` | bindings/go/guatiao/schemaof.go:120-139 | the text of a key matches the pattern of its type |
| `SchemaReads.ReadIsDescribed` | bindings/go/guatiao/schemaof.go:15-176 | of every well-formed tree that is read into a destination of a type, the type's schema describes exactly those with no absent node and no null at a slice or a map, and in which each map read as a struct has the required keys and no undeclared one |
| `SchemaReads.ReadButNotDescribed` | bindings/go/guatiao/decode.go:45-266 | each of those is a way to part: a null slice, a null map, a key no field has, a required key missing and an absent node are read and not described |
| `SchemaReads.ReadIntHasItsValue` | bindings/go/guatiao/schemaof.go:47-60 | whatever text an integer is read from is, as JSON Schema compares numbers, that integer, and within the bounds of its type |
| `SchemaTakes.AcceptedIsRead` | bindings/go/guatiao/schemaof.go:15-176 | of every well-formed tree within the limit that a type's schema accepts, exactly those are read, into any destination, in which each integer is digits after an optional sign and each integer key is canonical and of its type |
| `SchemaTakes.AcceptedButNotRead` | bindings/go/guatiao/decode.go:147-180 | each of those is a way to part: a number -0 where an unsigned integer is to be and a key -0 are accepted and not read |
| `SchemaTakes.IntegerIsRead` | bindings/go/guatiao/decode.go:147-180 | an integer within its type's bounds is read if and only if it is digits after an optional sign |
| `SchemaTakes.KeyIsRead` | bindings/go/guatiao/decode.go:286-321 | a key its type's pattern accepts is read if and only if, an integer, it is canonical and in its type's range |
| `Cycles.Encoder.WriteAny` | bindings/go/guatiao/encode.go:255-341 | encoding a heap of lists, maps and pointers ends; it succeeds exactly on a finite tree whose non-nil nodes nest within the limit, answers that tree, and restores the marks and the depth on every way out |
| `Cycles.Encoder.WriteAll` | bindings/go/guatiao/encode.go:293-340 | the same for all a node holds |
| `Cycles.EncodeHeap` | bindings/go/guatiao/encode.go:255-341 | from nothing marked: success if and only if nothing is on a cycle and the tree nests within the limit, and what is answered is the value unfolded; shared parts are written each time they are met |
| `Cycles.CyclesNeverEnd` | bindings/go/guatiao/encode.go:255-267 | a reference that some path of references leads from back to itself unfolds to no finite tree, however many steps are followed |
| `Cycles.EndsUnlessCyclic` | bindings/go/guatiao/encode.go:255-267 | a value of any heap unfolds to a finite tree, within as many steps as the heap has nodes, if and only if no reference it comes to leads back to itself; sharing is no hindrance |
| `Cycles.PathUnfolds` | bindings/go/guatiao/encode.go:255-267 | each step along a path of references leaves one step less to unfold |
| `Cycles.EncodesExactly` | bindings/go/guatiao/encode.go:255-341 | a value encodes if and only if nothing it comes to is on a cycle and the tree it then is nests within the limit |
| `Cycles.NodeEncodes` | bindings/go/guatiao/encode.go:420-445 | a node encodes exactly when all it holds does, a pointer adding no depth |
| `Pinned.Linearizable` | crates/guatiao-bridge/src/thread.rs:80-173 | over every run of clones, drops, calls to run, engine steps and receipts: each answer taken is the one its own job gets from an engine running the jobs one by one in the order sent, with the calls each makes of the engine inside it and their outcomes heard by the code that made them; and no job in the queue was sent from the engine's own thread |
| `Pinned.StepKeeps` | crates/guatiao-bridge/src/thread.rs:80-173 | every step keeps: the state is the serial one, each answer is its job's, each job is waited for by its sender or answered, never both |
| `Pinned.WorkIsSerial` | crates/guatiao-bridge/src/thread.rs:107-111 | a step on the engine thread leaves what the calls under way will come to unchanged, through re-entrant calls and panics |
| `Pinned.CallResumes` | crates/guatiao-bridge/src/thread.rs:149-158 | a call run on the engine's own thread comes to what the serial engine makes of it, and the code around it goes on by its outcome |
| `Pinned.EndResumes` | crates/guatiao-bridge/src/thread.rs:149-158 | a call that returns or panics inside another ends alone: the one around it goes on by what it answered |
| `Pinned.ReceiveKeeps` | crates/guatiao-bridge/src/thread.rs:159-170 | a caller takes its own job's answer, and takes it once |
| `Pinned.SendKeeps` | crates/guatiao-bridge/src/thread.rs:159-169 | a job sent changes no other job's answer |
| `Pinned.ReentryNeverQueues` | crates/guatiao-bridge/src/thread.rs:149-158 | dispatched by which thread calls, a call the running code makes becomes the running code at once, and nothing is sent, taken, answered or waited for |
| `Pinned.StopsOwingNothing` | crates/guatiao-bridge/src/thread.rs:107-111 | when the thread ends every job sent was answered to its caller |
| `Pinned.Progress` | crates/guatiao-bridge/src/thread.rs:107-173 | while somebody waits, the engine thread or a caller can step |
| `Pinned.ServingEnds` | crates/guatiao-bridge/src/thread.rs:107-173 | with nothing more sent, every run of such steps ends |
| `Pinned.EndedMeansAnswered` | crates/guatiao-bridge/src/thread.rs:107-173 | where none is left, every job has been answered, serially |
| `Pinned.HandlesCounted` | crates/guatiao-bridge/src/thread.rs:38-46 | over every run the handles on the queue are those cloned and not dropped |
| `Pinned.EndsWhenLetGo` | crates/guatiao-bridge/src/thread.rs:107-111 | with nobody waiting and nothing queued, dropping every handle is all it takes for the thread to end, with the engine let go |
| `Objects.Handle.Argument` | crates/guatiao-bridge/src/calling.rs:78-107 | an object taken out as an argument, or refused with the handle unchanged, for every kind of handle and pass |
| `Objects.Handle.TakeBack` | crates/guatiao-bridge/src/calling.rs:111-115 | an object put back, or destroyed where the handle is of another kind |
| `Objects.Handle.HandBack` | crates/guatiao-bridge/src/calling.rs:48-72 | an object taken out to answer a call, once |
| `Objects.Lending` | crates/guatiao-bridge/src/calling.rs:376-389 | each lend in turn, in the order of the handles |
| `Objects.PreparedArgs.WithArgs` | crates/guatiao-bridge/src/calling.rs:310-357 | every argument is given at its own place, the k-th lend at the k-th argument passed on; what is handed over leaves this side and the rest stays |
| `Objects.PreparedArgs.GiveOne` | crates/guatiao-bridge/src/calling.rs:323-353 | one argument given, by its kind |
| `Objects.PreparedArgs.Drop` | crates/guatiao-bridge/src/calling.rs:210-220 | every object still held goes back to its own handle, and none is destroyed |
| `Objects.Prepare` | crates/guatiao-bridge/src/calling.rs:78-107 | arguments taken out of handles up to the first refused, the same handle twice among them |
| `Objects.Call` | crates/guatiao-bridge/src/calling.rs:173-220 | a whole call: refused, no handle changed; made, each object handed over is the callee's and each other is where it was |
| `Objects.GivenAsPrepared` | crates/guatiao-bridge/src/calling.rs:323-353 | data and trees are given as they are, an object as handed over or lent while this side has it, a lend passed on while it lasts |
| `Objects.GivenOnce` | crates/guatiao-bridge/src/calling.rs:343-353 | what is handed over is given once, a second time there is nothing of it to give; what is lent is given again |
| `Ownership.Conserved` | crates/guatiao-bridge/src/calling.rs:78-220 | over every run of any number of calls at once, each object that ever came is in exactly one place |
| `Ownership.Fate` | crates/guatiao-bridge/src/calling.rs:173-220 | whatever else goes on, once a call's arguments are dropped an object lent or never handed over is back in its own handle, and one handed over is the callee's with its handle empty for good |
| `Ownership.StepKeeps` | crates/guatiao-bridge/src/calling.rs:78-220 | every step moves objects as the ledger says and no other way |
| `Ownership.PutAllAt` | crates/guatiao-bridge/src/calling.rs:210-220 | giving back restores each object to its home and touches no other handle |
| `Ownership.HandedStays` | crates/guatiao-bridge/src/calling.rs:343-346 | an object handed over never comes back to a handle |
| `Described.Convert` | crates/guatiao-bridge/src/described.rs:101-151 | every argument converted in place, the objects lent listed with their places, and a call refused exactly when an argument cannot cross |
| `Described.Sharing` | crates/guatiao-bridge/src/described.rs:232-244 | lent objects are shared from the last to the first, each handle with its place |
| `Described.Place` | crates/guatiao-bridge/src/described.rs:261-265 | each handle replaces the placeholder at its own place |
| `Described.Arguments` | crates/guatiao-bridge/src/described.rs:260-266 | the engine is handed every argument at its own index and no placeholder |
| `Described.LoansAre` | crates/guatiao-bridge/src/described.rs:135-139 | the objects listed as lent are exactly those among the arguments |
| `Described.Pour` | crates/guatiao-bridge/src/described.rs:183-186 | of a buffer only the part both sides have is written |
| `Described.WriteOne` | crates/guatiao-bridge/src/described.rs:156-188 | one argument written over the caller's, every other place unchanged |
| `Described.WriteBack` | crates/guatiao-bridge/src/described.rs:154-191 | lent arguments written back in order up to the first the engine left as no caller's map or list can be; nothing else of the caller's changes |
| `Described.Call` | crates/guatiao-bridge/src/described.rs:247-270 | a call refused or failed changes nothing of the caller's; one that ran changes only what it lent |
| `Described.WroteBackIs` | crates/guatiao-bridge/src/described.rs:154-191 | each lent place before the one refused holds the tree the engine left, and each buffer the engine's bytes up to the shorter length; every other place is as it was |
| `Described.RefusedExactly` | crates/guatiao-bridge/src/described.rs:154-191 | an argument's writing back is refused if and only if the caller's allocator refuses it, or a lent map or list was left as a tree of another kind; a lent value may be left as any |
| `Described.EachAsItIs` | crates/guatiao-bridge/src/described.rs:101-151 | each kind of argument reaches the engine as what it is, lent trees as lent, by value |
| `Instances.Instances.Insert` | crates/guatiao-bridge/src/described.rs:284-288 | a new instance gets a number no instance or provider has |
| `Instances.Instances.Remove` | crates/guatiao-bridge/src/described.rs:291-294 | an instance is forgotten, and its engine id answered the first time only |
| `Instances.Instances.Find` | crates/guatiao-bridge/src/described.rs:70-82 | a number is a provider's, an instance's or nobody's, never two of them |
| `Instances.StepKeeps` | crates/guatiao-bridge/src/described.rs:277-297 | every step keeps each instance in one stage and each number above the providers' and below the next |
| `Instances.DestroyedOnce` | crates/guatiao-bridge/src/described.rs:277-297 | over every run of creates and destroys interleaved, an instance is destroyed at most once, after it was forgotten |
| `Instances.AllDestroyed` | crates/guatiao-bridge/src/described.rs:291-297 | once none is arriving, listed or leaving, every instance built was destroyed once |
| `Instances.NeverReused` | crates/guatiao-bridge/src/described.rs:41-45 | a number given out finds its own instance ever after, or none |
| `Instances.BuiltByProviders` | crates/guatiao-bridge/src/described.rs:277-289 | over every run the instances built are as many as the creates that name a provider |
| `Instances.NoneStuck` | crates/guatiao-bridge/src/described.rs:277-297 | an instance on its way in can be listed, one listed can leave, one that left can be destroyed |
| `Kinds.Known.Add` | crates/guatiao-bridge/src/kinds.rs:34-48 | a kind is added, known already, or refused when another has its name |
| `Kinds.Known.Reach` | crates/guatiao-bridge/src/kinds.rs:135-153 | the recursive walk lists what a depth-first visit with an explicit stack does, and ends on cyclic kinds |
| `Kinds.Known.ReachArgs` | crates/guatiao-bridge/src/kinds.rs:144-148 | the loop over a slot's arguments |
| `Kinds.Known.Document` | crates/guatiao-bridge/src/kinds.rs:107-114 | the kinds of a document: each once, exactly the known ones served or that a listed one's slots take or answer |
| `Kinds.Known.AnsweredObjects` | crates/guatiao-bridge/src/described.rs:311-322 | the same closure over answers alone, kinds not known listed too |
| `Kinds.VisitIsReachable` | crates/guatiao-bridge/src/kinds.rs:107-153 | a visit lists, each name once, the least set closed under what a listed one leads to |
| `Kinds.VisitBoth` | crates/guatiao-bridge/src/kinds.rs:135-153 | visiting one list of names after another is visiting both in a row |
| `Kinds.ReachesExactly` | crates/guatiao-bridge/src/kinds.rs:135-153 | a kind is one step from the slots if and only if some slot takes an object of it or answers one |
| `Kinds.ReachesInOrder` | crates/guatiao-bridge/src/kinds.rs:135-153 | they are visited slot by slot, of a slot its arguments in order and then its answer |
| `Kinds.AnswersExactly` | crates/guatiao-bridge/src/described.rs:311-322 | over answers alone, a kind is one step away if and only if some slot answers an object of it |
| `Libraries.BridgeSource.List` | crates/guatiao-bridge/src/source.rs:205-227 | each library found is listed with its version and stamp, one whose version cannot be read serving nothing |
| `Libraries.BridgeSource.Record` | crates/guatiao-bridge/src/source.rs:169-175 | an open is recorded last, under the stamp of the first listing of its id, or its own when no listing names it |
| `Libraries.BridgeSource.Open` | crates/guatiao-bridge/src/source.rs:229-266 | a library is opened and recorded exactly when it is listed, readable, versioned, opened by the engine and its tables are taken; one whose tables are refused is closed at once |
| `Libraries.BridgeSource.Close` | crates/guatiao-bridge/src/source.rs:268-278 | the first library open of an id under a stamp is closed, if there is one |
| `Libraries.ClosedOnce` | crates/guatiao-bridge/src/source.rs:169-278 | over every run each library the engine opened is closed at most once, and those neither closed nor on their way in or out are exactly those open |
| `Libraries.StepKeeps` | crates/guatiao-bridge/src/source.rs:169-278 | every step keeps each library in one stage |
| `Libraries.StaysUntilTaken` | crates/guatiao-bridge/src/source.rs:268-278 | a library stays open until a close by its id and stamp |
| `Libraries.CloseFindsIt` | crates/guatiao-bridge/src/source.rs:167-175 | a library opened while the first listing of its id has a stamp, whatever stamp its manifest has by then, is let go by a close that names the listed one, when it is the only one open so |
| `Libraries.CloseFindsUnlisted` | crates/guatiao-bridge/src/source.rs:167-175 | a library opened while no listing names its id is let go by a close that names its manifest's own stamp |
| `Libraries.ListedStays` | crates/guatiao-bridge/src/source.rs:205-227 | what is listed is what the last list found, whatever is opened and closed since |
| `Libraries.NoneStuck` | crates/guatiao-bridge/src/source.rs:169-278 | a library the engine opened is closed, or open, or there is a step that takes it in, back or out |
| `Calls.Call.Take` | bindings/go/guatiao/call.go:209-232 | a tree handed over is kept to be undone, or refused with what was allocated freed; it may be refused for its kind once kept |
| `Calls.Call.TakeObject` | bindings/go/guatiao/call.go:263-285 | an object handed over is kept to be undone |
| `Calls.Call.LendObject` | bindings/go/guatiao/call.go:236-259 | a served object is released after the call, and a block holds what is lent |
| `Calls.Call.Lend` | bindings/go/guatiao/call.go:179-198 | a lent tree is settled after the call and its owner kept till then |
| `Calls.Call.Borrow` | bindings/go/guatiao/call.go:154-175 | what is built for a borrowed argument is closed after the call |
| `Calls.Call.Out` | bindings/go/guatiao/call.go:290-311 | the slot a tree, text or object is answered in, which a dropped answer is freed from |
| `Calls.Call.Slot` | bindings/go/guatiao/call.go:311-328 | a slot for a scalar or for the error, which leaves the out slot what it was |
| `Calls.Call.Settle` | bindings/go/guatiao/call.go:57-70 | every lent tree is settled once, whatever is refused |
| `Calls.Call.DropAnswer` | bindings/go/guatiao/call.go:73-92 | an answer nobody reads is freed once |
| `Calls.Call.Status` | bindings/go/guatiao/call.go:330-347 | the call happened: lent trees settled, and its answer freed unread when a settle was refused |
| `Calls.Call.RunAfter` | bindings/go/guatiao/call.go:397-399 | what runs after the call runs last first |
| `Calls.Call.UndoGiven` | bindings/go/guatiao/call.go:401-403 | what was handed over is undone last first |
| `Calls.Call.FreeBlocks` | bindings/go/guatiao/call.go:405-407 | every block is freed |
| `Calls.Call.End` | bindings/go/guatiao/call.go:395-409 | settles, runs, undoes unless the call happened, and frees, in that order |
| `Calls.NothingLeft` | bindings/go/guatiao/call.go:209-409 | after any steps in any order and an end, everything the call had to do with was settled, run, undone or freed as often as it was made, or is the callee's |
| `Calls.RunConserves` | bindings/go/guatiao/call.go:209-409 | no run of steps loses or repeats anything the call answers for |
| `Calls.NamedOnce` | bindings/go/guatiao/call.go:229-230 | no block or tree is named twice, so none is freed or undone twice |
| `Calls.UndoneUnlessCalled` | bindings/go/guatiao/call.go:401-403 | with no status taken, whatever the steps and however many ends among them, nothing becomes the callee's and each hand-over is undone exactly as often as it was made |
| `Calls.HandedOverOnceCalled` | bindings/go/guatiao/call.go:395-409 | once a status was taken nothing more is undone: what an earlier end undid stays undone, every other hand-over is the callee's, and a tree once undone never becomes the callee's |
| `Calls.NeverAfterFree` | bindings/go/guatiao/call.go:395-409 | a tree is never freed after the node it stands in |
| `Calls.AnswerFreedInItsSlot` | bindings/go/guatiao/call.go:337-346 | with no end before it, a status that drops the answer frees it once, while the slot it is in is still allocated |
| `Calls.EndedThenAnswered` | bindings/go/guatiao/call.go:330-347 | an end before the status is what it takes to free an answer after its slot |
| `Calls.AnswerFreedOnce` | bindings/go/guatiao/call.go:73-92 | over every run an answer is freed at most once, however often a status would drop it |
| `Calls.BackwardsAt` | bindings/go/guatiao/call.go:395-403 | last first: each item stands as far from the front as it was from the back |
| `Served.Served.ReceiveTaken` | bindings/go/guatiao/serve.go:213-237 | a tree is received, closed at once when it cannot be moved, and neither when there is no allocator |
| `Served.Served.Taken` | bindings/go/guatiao/serve.go:204-210 | a tree handed over, its refusal kept for later |
| `Served.Served.Decode` | bindings/go/guatiao/serve.go:241-252 | a tree handed over is closed once read, whether or not it was readable |
| `Served.Served.TakenObject` | bindings/go/guatiao/serve.go:262-270 | an object handed over is kept, or destroyed at once when it cannot be called |
| `Served.Served.NodeOver` | bindings/go/guatiao/serve.go:143-195 | a map or a list lent or borrowed gets a node freed with the call, and only a lent one is copied back after |
| `Served.Served.Finish` | bindings/go/guatiao/serve.go:45-67 | what the method never came to own is closed; the call answers the body's own failure, else the first refusal kept |
| `Served.Served.Done` | bindings/go/guatiao/serve.go:78-87 | what runs after the call runs last first, views end, blocks are freed |
| `Served.ReleasedOnce` | bindings/go/guatiao/serve.go:45-87 | however the body goes, a thing handed over is closed exactly once by the end, unless the method ran and owns it, or it was lost |
| `Served.ReleasedAsReceived` | bindings/go/guatiao/serve.go:45-67 | over every run each thing handed over was closed once by the end, but for one never received, and one received whole when the method ran, which is the method's |
| `Served.NodesSettled` | bindings/go/guatiao/serve.go:143-195 | over every run each node made for a call is freed once when it ends, and one over something lent is copied back once, before anything is freed; no other is copied back |
| `Served.FirstRefusalIsAnswered` | bindings/go/guatiao/serve.go:97-113 | at whatever steps handed-over arguments are refused, the refusal the target and the call answer is the first, and there is none exactly when no step refused |
| `Served.LostOnlyWithoutCore` | bindings/go/guatiao/serve.go:213-220 | nothing is lost if and only if there was an allocator for each tree received |
| `Served.LostWithoutCore` | bindings/go/guatiao/serve.go:213-220 | a tree received with no allocator, closed by nobody when the call ends |
| `Remotes.OnceOnly` | bindings/go/guatiao/kind.go:285-315 | under any interleaving of closes, hand-overs and the collector, an owned object is destroyed or handed over once and never both, one not owned neither; one nobody holds is not forgotten |
| `Remotes.OnceOnlyFromNew` | bindings/go/guatiao/kind.go:233-239 | the same from a new remote |
| `Remotes.FinisherDecides` | bindings/go/guatiao/kind.go:285-315 | over every run the object is the callee's if and only if the thread that finished came by giveUp, and is destroyed by it if and only if it came by Close |
| `Remotes.NotWithoutACall` | bindings/go/guatiao/kind.go:285-315 | over every run with no giveUp in it nothing is handed over, and with no Close nothing is destroyed but by the collector |
| `Remotes.CollectedIsLast` | bindings/go/guatiao/kind.go:233-239 | once collected a remote has nothing more done to it |
| `Remotes.StepKeeps` | bindings/go/guatiao/kind.go:285-315 | every step keeps at most one thread past the swap |
| `Remotes.HandlesReadBack` | bindings/go/guatiao/handles.go:38-46 | a ctx names a handle if and only if it is that handle's |
| `Remotes.Table.Hold` | bindings/go/guatiao/handles.go:30-36 | a held value gets a number no ctx had, and the live count counts objects |
| `Remotes.Table.Held` | bindings/go/guatiao/handles.go:49-60 | a ctx finds what it names while that is held |
| `Remotes.Table.Release` | bindings/go/guatiao/handles.go:64-80 | what a ctx names is let go once, and the live count follows |
| `Derive.RejectDuplicateKeys` | crates/guatiao-derive/src/expand.rs:682-703 | two fields on one key are found, skipped and flattened ones aside |
| `Derive.ReadsBack` | crates/guatiao-derive/src/expand.rs:743-888 | for every plan not refused, all field values and any conversions, the generated reader, strict or not, takes from what the generated writer wrote what each field alone comes to: a skipped one its Default, one left out its default or None, a stored one what its conversion makes of what it wrote |
| `Derive.ReadsExactly` | crates/guatiao-derive/src/expand.rs:1085-1127 | for every tree and every plan not refused: fields are taken from it if and only if it is a map, a strict struct declares its every key, and it says them, each by the conversion of its own field |
| `Derive.TakesExactly` | crates/guatiao-derive/src/expand.rs:1085-1127 | for every tree and every plan not refused: it is refused if and only if it is no map, has an undeclared key where they are denied, lacks a required one, or holds what a field's conversion refuses |
| `Derive.FieldTakesExactly` | crates/guatiao-derive/src/expand.rs:832-888 | a field with no entry under its key is refused if and only if the schema requires it, and one with an entry if and only if its conversion refuses that |
| `Derive.WritesEach` | crates/guatiao-derive/src/expand.rs:742-830 | what a written map has under each key: nothing when the field is left out, else its value by its module, as a text, or by its type |
| `Derive.RefusedExactly` | crates/guatiao-derive/src/expand.rs:475-558 | the declarations that are accepted, every refusal in one condition |
| `Derive.RoundTrips` | crates/guatiao-derive/src/expand.rs:743-888 | the struct comes back the same if and only if each field is kept: a skipped one is its Default, one left out is what no entry reads as, and a stored one is a value its conversion reads back, not written as a null where it is an Option's |
| `Derive.RequiredIsWritten` | crates/guatiao-derive/src/expand.rs:1021-1026 | every key the generated schema requires is in every written map |
| `Derive.RefusalsAreNeeded` | crates/guatiao-derive/src/expand.rs:475-558 | three of the refusals are of plans that could not read back |
| `Derive.FieldReadsBack` | crates/guatiao-derive/src/expand.rs:832-888 | one field is read as what its own conversion makes of what it wrote: through its module, its text or its type |
| `Derive.WrittenUnder` | crates/guatiao-derive/src/expand.rs:742-830 | each field's key holds what that field wrote, or nothing when it is left out |
| `Derive.NotWritten` | crates/guatiao-derive/src/expand.rs:1062-1082 | a key no field declares is never written |
| `Derive.RejectDuplicateVariants` | crates/guatiao-derive/src/expand.rs:1567-1588 | two variants stored as one name are found, the catch-all aside |
| `Derive.ChoiceReadsBack` | crates/guatiao-derive/src/expand.rs:1621-1725 | an enum of names is written as its schema allows and comes back the same if and only if it is not the catch-all holding a declared name |
| `Derive.ChoiceWritesBack` | crates/guatiao-derive/src/expand.rs:1654-1697 | whatever text an enum is read from is what it is written as |
| `Derive.ChoiceTakesExactly` | crates/guatiao-derive/src/expand.rs:1654-1697 | a tree is taken if and only if it is a text that is a declared name, or any text where there is a catch-all |
| `Derive.RejectFieldsOnTheTag` | crates/guatiao-derive/src/expand.rs:1592-1608 | a field stored under the tag is found |
| `Derive.TaggedReadsBack` | crates/guatiao-derive/src/expand.rs:1729-1853 | a tagged value comes back as its own variant, each field as in a struct, and the same if and only if each field is kept |
| `Derive.TaggedReadsExactly` | crates/guatiao-derive/src/expand.rs:1807-1853 | for every tree: a variant is taken from it if and only if it is a map, has the name of that variant under the tag, and says its fields; other keys are passed over |
| `Derive.TaggedTakesExactly` | crates/guatiao-derive/src/expand.rs:1807-1853 | for every tree: it is refused if and only if it is no map, its tag is missing or names no variant, it lacks a key the variant requires, or it holds what a conversion refuses |
| `Derive.ArmRequiredIsWritten` | crates/guatiao-derive/src/expand.rs:1729-1853 | every key an arm of the generated schema requires, and the tag with the variant's name, is in every map written of the variant |
| `Derive.TupleReadsBack` | crates/guatiao-derive/src/shapes.rs:102-154 | a tuple struct comes back the same if and only if each position's conversion reads its value back, and a list of another length is refused |
| `Derive.TupleReadsExactly` | crates/guatiao-derive/src/shapes.rs:102-154 | a tuple is taken of a list of its length whose items its conversions take, each by its own position's, and of nothing else |
| `Derive.TransparentReadsBack` | crates/guatiao-derive/src/shapes.rs:49-100 | a transparent struct comes back the same if and only if its one field is kept and the skipped ones were their Defaults |
| `Derive.TransparentReadsExactly` | crates/guatiao-derive/src/shapes.rs:49-100 | a transparent struct is taken of what its one field is, null for an Option's None, and the fields beside it are their Defaults |

## Left out

- Floating-point numbers, times, durations, big integers and civil dates: their texts go through
  strconv, math/big and the core library.
- Values and views held inside Go data, and types that marshal themselves or their text: they run
  code of the caller's. Integer keys spelled by their own text methods are left out with them.
- Embedded structs, unexported fields, name collisions and recursive types: a struct is the list
  of fields it is written with, and a type is a finite tree.
- Keywords from `schema` tags, and types that state their own schema.
- Validates: of JSON Schema only the keywords the generator writes, which are sections 10.2.1.2
  and 10.3 of Core and 6.1, 6.2, 6.4 and 6.5 of Validation at 2020-12.
- Tapes.Tape.Decode: a destination is a value in and a value out, so what a refused read leaves
  half written in a destination is not modelled, nor aliasing between destinations.
- Wording of errors, and the path an error names.
- Cycles.Encoder.WriteAny: identity of a slice is its base address, and distinct slices are taken
  to have distinct arrays; leaves are taken as well formed.
- Encoders.Encoder.Write: data here is a value, so what is marked while it is written is modelled
  with the heap of `Cycles.Encoder.WriteAny` alone.
- Encoders.Encoder.WriteAny: the same; the marks of containers under way are not among its fields.
- TreeReaders.DecodeTree: as with the tape, what a refused read leaves half written is not modelled.
- Allocators, native nodes and cgo memory: a tree is a value, an allocation a number, and a
  native call that can refuse has its refusal as a parameter.
- Pinned: how the engine thread starts or refuses to, and two pinned engines calling each other,
  of which the source claims nothing. A caller that waits borrows a handle; which one is not
  modelled, so a handle may be dropped in more states than in the source.
- Number arguments of a slot, read from a script's value: conversions of one number each.
- Described.Call: kinds and slots of a call are a flag that says the kind is known, and answers
  are not modelled beside the arguments.
- Instances: what becomes of instances still listed when a library closes.
- Libraries: finding manifests, reading them and making stamps; what was found is a parameter.
- Calls.Call.Status: that glue calls it once, right after the native call, is the generated
  glue's part; the theorems hold for any number and order of calls.
- Calls.Call.Take: what a borrowed tree or a view names, and the copying of it.
- Served: answers, and instances or objects a served call makes.
- Derive: `flatten`, untagged enums and newtype variants of tagged enums, whose helpers merge
  whole maps; unit structs, which are a null; rendering of labels,
  titles and presentation keywords; parsing of attributes before they are a plan.
- Remotes.Table.Hold: handle numbers and addresses are unbounded integers.
- Registries, scanning, receivers and frames in the Go binding, and document parsers: thin
  wrappers or other libraries.
