# Verified model of the ARCAL transport and LA-CAL bridge

ARCAL moves UCI messages between services. A schema compiler turns XSD types into C++ accessors
and into serializers for two transfer forms: CDR, used on the bus, and JSON, used by tools. The
LA-CAL bridge subscribes to the bus, turns CDR payloads into JSON and sends them to WebSocket
clients that asked for them. This project models these parts in Dafny and proves what they promise.

- **The CDR codec.** The generated code is one interpreter over registered types: `CdrCodec` says
  what a serializer appends to a buffer of a given size and what a deserializer does to a target;
  `CdrStreams` and `CdrHandlers` are the loops, cursors and tag dispatch that do it. An object is
  everything its C++ counterpart stores, stale optionals and unselected variants included, so the
  round trip can be stated for any target. Decoding never clears anything: the result equals the
  sent object through the getters exactly when nothing stale shows (`NoLeak`), and a target is safe
  for every message exactly when it is clean. Encodings are prefix-free, decoding is local, a cut
  payload is always rejected, and arbitrary bytes never make an ill-typed object. `CdrForm` and
  `CdrReading` say independently of the interpreter which bytes stand where, and what any bytes make
  of any target, both as equivalences.
- **Tags, registries and subset libraries.** The Python and C++ tag functions agree, tags of names
  that differ in one character differ, registration succeeds exactly when no two names share a tag,
  and the compiler's worklist returns the least closed set of types. From that follows wire
  compatibility: a subset library does to every object, every byte string and every JSON text what
  the full library does, and no lookup misses.
- **The JSON codec.** Trees, their text, a reference reader for RFC 8259 text, the serializers with
  their comma flag threaded through base types, and the deserializers. A document reads back exactly
  when its visible strings are UTF-8 and its visible enumeration items have names of their own; then
  it gives the very object that the CDR form gives. `JsonReading` says exactly which documents are
  read, and as what; the others, without a required member for instance, are refused. Messages in
  which a floating-point leaf shows are the exception: the text of those is not modelled.
- **The LA-CAL session.** `Session` is the state machine of one client, with the asio thread and the
  monitor thread interleaved at lock regions; every sequence of events is a run. `Client` in
  `ClientSession` is the object itself, whose methods are proved to be steps of the machine in a
  row. Over every run: handshake, one `+OK` for each accepted command of a verbose client, write
  queue, concrete ids, announcement of wildcard subscriptions, no unsolicited line, and what can
  still happen after UNSUB and XUNSUB. Where a plausible claim is false under interleaving there is
  a run that shows it.
- **`globMatch`.** The loop, a bound on its iterations, and its relation to what a pattern means.

Where code and documentation disagree the model follows the code. `lacal/README.md:180` says that
XUNSUB removes the stream's concrete subscriptions; `SessionWitnesses.OrphanAfterXUnsub` shows, for
every stream, a run in which one comes back, and `SessionOrphans.OrphanIff` says exactly when.
`lacal/README.md:162-174` lets a client rely on XSUBINFO before the first MSG of a generated id;
`SessionWitnesses.AnnouncedByIdIff` says for which clients that holds.

A wildcard pattern is right about every text without `*`; `Glob.GlobExactIff` shows that a literal
`*` in the text is the only obstacle.

## Model

| member | source | states |
|---|---|---|
| CdrStreams.ByteBuffer.Align | externalizer/cdr/CdrPrimitives.h:23-25 | pushing zeros pads the buffer to the next multiple of the size |
| CdrStreams.ByteBuffer.EncodeBool | externalizer/cdr/CdrPrimitives.h:36-38 | one byte, 1 or 0 |
| CdrStreams.ByteBuffer.EncodeUint16 | externalizer/cdr/CdrPrimitives.h:48-52 | padding to two, then the big-endian digits of the value |
| CdrStreams.ByteBuffer.EncodeUint32 | externalizer/cdr/CdrPrimitives.h:58-64 | padding to four, then the big-endian digits, the same for every 32-bit value |
| CdrStreams.ByteBuffer.EncodeUint64 | externalizer/cdr/CdrPrimitives.h:70-74 | padding to eight, then the eight shifted bytes are the big-endian digits |
| CdrStreams.ByteBuffer.EncodeString | externalizer/cdr/CdrPrimitives.h:93-97 | the length with its terminator truncated to 32 bits, which reads back; the characters; a zero byte last |
| CdrStreams.ByteBuffer.EncodeUuid | externalizer/cdr/CdrPrimitives.h:99-101 | a length of 37 that reads back, text that parses to the UUID, a zero byte last |
| CdrStreams.ByteBuffer.EncodeBytes | externalizer/cdr/CdrPrimitives.h:104-107 | the length truncated to 32 bits, then the bytes |
| CdrStreams.Cursor.Align | externalizer/cdr/CdrPrimitives.h:27-30 | the cursor moves by the padding that the encoder would push at the same offset |
| CdrStreams.Cursor.DecodeBool | externalizer/cdr/CdrPrimitives.h:129-132 | the specified value and next offset, or underrun; never an index outside the buffer |
| CdrStreams.Cursor.DecodeUint16 | externalizer/cdr/CdrPrimitives.h:143-147 | the value of the aligned two bytes and the offset after them, or underrun |
| CdrStreams.Cursor.DecodeUint32 | externalizer/cdr/CdrPrimitives.h:153-160 | the value of the aligned four bytes and the offset after them, or underrun |
| CdrStreams.Cursor.DecodeUint64 | externalizer/cdr/CdrPrimitives.h:166-171 | the value accumulated over the aligned eight bytes, or underrun |
| CdrStreams.Cursor.DecodeString | externalizer/cdr/CdrPrimitives.h:187-194 | the characters without terminator; a zero length reads nothing; a length beyond the buffer is an underrun |
| CdrStreams.Cursor.DecodeUuid | externalizer/cdr/CdrPrimitives.h:196-198 | the UUID of the text, or the failure of its parsing |
| CdrStreams.Cursor.DecodeBytes | externalizer/cdr/CdrPrimitives.h:200-206 | the bytes behind the length, or underrun |
| CdrPrimitives.WordRoundTrip | externalizer/cdr/CdrPrimitives.h:23-30 | both alignment functions land on one offset, and the word written there is read back wherever it stands |
| CdrPrimitives.PrimRoundTrip | externalizer/cdr/CdrPrimitives.h:36-206 | every primitive that fits its length word is read back from wherever it was written, and the cursor ends after it |
| CdrPrimitives.TextRoundTripIff | externalizer/cdr/CdrPrimitives.h:93-97 | a string survives if and only if its length and terminator fit 32 bits; otherwise exactly as much of it is read as the truncated length says |
| CdrPrimitives.PrimLocal | externalizer/cdr/CdrPrimitives.h:123-206 | a primitive decode depends on no byte at or after the offset where it stops |
| CdrPrimitives.PrimModEight | externalizer/cdr/CdrPrimitives.h:23-25 | the bytes of a primitive depend on the buffer size modulo eight only |
| CdrForm.TextIff | externalizer/cdr/CdrPrimitives.h:93-97 | a stretch of bytes is what a string is encoded as if and only if it is zero padding, the big-endian length, the characters and a zero |
| CdrForm.PrimFormIff | externalizer/cdr/CdrPrimitives.h:23-107 | the same for every primitive: padding of zeros to the next multiple, digits in order, two's complement, booleans 0 or 1, texts as above |
| CdrReading.PrimReadIff | externalizer/cdr/CdrPrimitives.h:123-206 | on any bytes a primitive is read if and only if the bytes stand for it: any byte but zero is true, padding and terminator are not looked at, a zero length is the empty string |
| Uuid.ToString | src/UUID.cpp:99-107 | the loop writes the hexadecimal text, octet by octet, with dashes before octets 4, 6, 8 and 10 |
| Uuid.FromString | src/UUID.cpp:73-86 | the dash checks, the filtering and the sixteen conversions, with what `stoul` tolerates |
| Uuid.TextRoundTrip | src/UUID.cpp:73-107 | the text of any UUID parses to that UUID |
| Uuid.CanonicalIff | src/UUID.cpp:73-107 | a string comes back from parsing and printing if and only if it is canonical |
| HexText.UuidWritten | src/UUID.cpp:99-107 | the octets stand in order, two lower-case digits each, high digit first, with dashes at the four places |
| HexText.FromStringIff | src/UUID.cpp:73-86 | a text parses to a UUID if and only if it has 36 characters, dashes at the four places and nowhere else, and pairs that `stoul` takes for the octets: digits of either case, with the tolerance spelled out in characters |
| HexText.UuidAnyCase | src/UUID.cpp:84 | texts equal but for the case of letters parse alike, so the text of a UUID in any mixture of cases parses to that UUID |
| Accessors.FreshTyped | tools/schema_compiler/compiler.py:1014-1034 | a default-constructed member is well typed, and no optional or choice in it is set |
| CdrRoundTrip.EncodeSucceeds | tools/schema_compiler/compiler.py:1760-1813 | serializing a well-typed object never throws, at any offset |
| CdrForm.FormIff | tools/schema_compiler/compiler.py:1760-1813 | a stretch of any buffer is what serializing the object appends there if and only if it is laid out as the transfer form says: presence bytes 0 or 1, base, choice and fields in order, each at its alignment, every padding and terminator byte 0 |
| CdrRoundTrip.DecodeEncoded | tools/schema_compiler/compiler.py:1815-1876 | wherever the bytes of an object stand, decoding them overlays the object on any target and stops right after them |
| CdrRoundTrip.OverlayShows | tools/schema_compiler/compiler.py:1819-1875 | the overlay is well typed, and looks like the object if and only if nothing stale leaks |
| CdrRoundTrip.RoundTrip | tools/schema_compiler/compiler.py:1760-1876 | between any prefix and suffix, into any target: the cursor ends after the bytes and the result looks like the object if and only if nothing leaks |
| CdrRoundTrip.FreshRoundTrip | lacal/src/TopicMonitor.cpp:139-149 | into a fresh object, what was sent is what getters return |
| CdrRoundTrip.CleanIff | tools/schema_compiler/compiler.py:1856-1865 | a target is safe for every message if and only if it is clean |
| CdrRoundTrip.StaleOptionalLeaks | tools/schema_compiler/compiler.py:1856-1865 | a reused object keeps the optional of the previous message: the decoded object differs from the sent one |
| CdrLaws.EncodeDepends | tools/schema_compiler/compiler.py:1760-1813 | objects equal through getters, serialized at offsets equal modulo eight, give the same bytes |
| CdrLaws.PrefixFree | tools/schema_compiler/compiler.py:1815-1887 | of two encodings of one type from one offset none is a prefix of the other unless the objects look alike |
| CdrLaws.SameBytesIff | tools/schema_compiler/compiler.py:1760-1813 | equal bytes if and only if getters cannot tell the objects apart |
| CdrLaws.DecodeLocal | tools/schema_compiler/compiler.py:1815-1876 | a successful decode depends only on the bytes before its final cursor |
| CdrLaws.TruncationDetected | externalizer/cdr/CdrPrimitives.h:123-127 | every proper prefix of an encoding is rejected, whatever the target |
| CdrLaws.DecodeTyped | tools/schema_compiler/compiler.py:1838-1875 | whatever the bytes, a decode that succeeds leaves a well-typed object: numbers in range, no list beyond its maximum |
| CdrReading.ReadsIff | tools/schema_compiler/compiler.py:1815-1876 | on any bytes and into any target, deserializing gives an object and an offset if and only if the object is what the bytes say, and the target where they say nothing: absent optionals and unknown ordinals change nothing, lists are refilled up to their maximum |
| CdrCodec.Decode | tools/schema_compiler/compiler.py:1815-1876 | on any bytes decoding ends, with an error or with a cursor between the start and the end of the buffer |
| CdrHandlers.Serialize | tools/schema_compiler/compiler.py:1760-1813 | dispatch by tag and the shared buffer append exactly the specified bytes, or throw the specified error |
| CdrHandlers.SerializeNamed | tools/schema_compiler/compiler.py:1760-1763 | base, then choice, then fields, each at the offset where the one before ended |
| CdrHandlers.SerializeChoice | tools/schema_compiler/compiler.py:1764-1777 | the ordinal, then the chosen variant only |
| CdrHandlers.SerializeFields | tools/schema_compiler/compiler.py:1778-1812 | the loop over fields appends what the specification appends |
| CdrHandlers.SerializeItems | tools/schema_compiler/compiler.py:1780-1789 | the loop over list items appends what the specification appends |
| CdrHandlers.DeserializeAt | tools/schema_compiler/compiler.py:1885-1887 | the cursor and the target end as specified, or the specified error is thrown |
| CdrHandlers.DeserializeNamed | tools/schema_compiler/compiler.py:1815-1818 | base, choice and fields are read in turn from the shared cursor |
| CdrHandlers.DeserializeChoice | tools/schema_compiler/compiler.py:1819-1837 | an ordinal that names no variant leaves the choice as it was |
| CdrHandlers.DeserializeFields | tools/schema_compiler/compiler.py:1838-1875 | the loop over fields reads what the specification reads |
| CdrHandlers.DeserializeItems | tools/schema_compiler/compiler.py:1839-1853 | the list is rebuilt item by item, and `push_back` stops it at its maximum |
| Fnv.Fnv1a32 | tools/schema_compiler/compiler.py:2360-2364 | the Python loop computes the tag |
| Fnv.CStringAgrees | include/arcal/CdrBridge.h:12-14 | the C++ recursion over a terminated string gives the tag of every name without NUL |
| Fnv.TagIs | tools/schema_compiler/compiler.py:2360-2364 | the tag of the empty name, and of a name with one more character: exclusive or, bit by bit, then the product modulo 2^32 |
| Fnv.PrimeCancels | include/arcal/CdrBridge.h:12-14 | multiplication by the prime modulo 2^32 can be undone |
| Fnv.StepInjective | include/arcal/CdrBridge.h:12-14 | one step tells apart different hashes, and different bytes |
| Fnv.OneByteApart | tools/schema_compiler/compiler.py:2360-2364 | names of one length that differ in one byte never share a tag |
| CdrRegistry.CdrRegistry.RegisterByTag | externalizer/cdr/CdrRegistry.h:38-43 | an occupied tag throws and changes nothing; a free one is entered in both tables |
| CdrRegistry.CdrRegistry.Register | externalizer/cdr/CdrRegistry.h:34-43 | registration succeeds if and only if no registered name has the tag, and keeps names, tags and tag names in step |
| CdrRegistry.CdrRegistry.TagDispatch | externalizer/cdr/CdrRegistry.h:45-63 | dispatch by the tag of a registered name is dispatch by the name |
| CdrRegistry.CdrRegistry.UnknownNotFound | externalizer/cdr/CdrRegistry.h:45-63 | an unregistered name is not found, and a tag is not found if and only if no registered name has it |
| CdrRegistry.CheckCollisions | tools/schema_compiler/compiler.py:2371-2375 | the compile-time check passes if and only if no two different names share a tag |
| CdrRegistry.RegisterAll | tools/schema_compiler/compiler.py:2367-2380 | registering all types succeeds if and only if their tags do not collide, and then registers exactly them |
| AccessorCopy.BoundedList.PushBack | include/uci/base/BoundedListImpl.h:48-58 | appends, or refuses without a change when the list is full |
| AccessorCopy.BoundedList.Resize | include/uci/base/BoundedListImpl.h:41-44 | cuts or pads, or refuses to exceed the maximum |
| AccessorCopy.BoundedList.CopyFrom | tools/schema_compiler/compiler.py:1066-1070 | another list is copied as far as it fits; copying a list onto itself empties it |
| AccessorCopy.CopyShows | tools/schema_compiler/compiler.py:1061-1102 | after a copy the getters agree with the source, whatever the destination held |
| AccessorCopy.CopySerializesAlike | tools/schema_compiler/compiler.py:1061-1102 | source and copy serialize to the same bytes |
| AccessorCopy.CopyKeepsHidden | tools/schema_compiler/compiler.py:1061-1102 | storage that does not show in the source stays as it was in the destination: absent optionals and variants not chosen |
| AccessorCopy.SelfCopyEmptiesLists | tools/schema_compiler/compiler.py:1061-1102 | copying an object onto itself empties every visible list and keeps everything else, hidden storage included |
| AccessorCopy.SelfCopyKeepsIff | tools/schema_compiler/compiler.py:1061-1102 | copying an object onto itself keeps it if and only if no visible list has an item |
| AccessorCopy.CopyObject | tools/schema_compiler/compiler.py:1061-1102 | the assignments of generated `copy` give the specified destination |
| AccessorCopy.CopyList | tools/schema_compiler/compiler.py:1066-1070 | clearing and refilling item by item gives the specified list |
| AccessorCopy.CopyMembers | tools/schema_compiler/compiler.py:1065-1089 | assigning fields in place, one by one, gives the specified fields |
| SchemaSubset.CollectRequired | tools/schema_compiler/compiler.py:449-477 | the worklist ends with the least set of known types that holds the known roots and is closed under base, field and variant references |
| SchemaSubset.ClosureMonotone | tools/schema_compiler/compiler.py:449-477 | there is one closure, whatever the order of popping, and more roots never lose a type |
| SchemaSubset.GeneratedWellFormed | tools/schema_compiler/compiler.py:2367-2380 | whatever compiles registers a closed set of types whose default objects are clean |
| SchemaShape.GeneratedShape | tools/schema_compiler/compiler.py:1760-1812 | for every schema that compiles, member by member: a field is an optional if and only if it is optional, no list and no UUID; a list has exactly the declared maximum; names, base, variants, items and element types are those of the schema |
| SchemaShape.AbsentMember | tools/schema_compiler/compiler.py:1792-1803 | in every object such a field can be absent: the object stays well typed, and the field is the one byte 0 |
| SchemaShape.PresentMember | tools/schema_compiler/compiler.py:1778-1812 | every other field is present in every object, and a bounded list never exceeds the declared maximum |
| SchemaShape.DefaultBlank | tools/schema_compiler/compiler.py:1014-1034 | a default-constructed object of any schema has no optional, choice, item or enumeration value set, empty strings and nil UUIDs |
| SchemaSubset.SubsetIsPart | tools/schema_compiler/compiler.py:384-391 | a subset library registers exactly the required types, with the code and default objects of the full one |
| SchemaSubset.WireCompatible | tools/schema_compiler/compiler.py:384-391 | for every schema and selection, subset and full library append the same bytes and decode any bytes alike, and no lookup misses |
| CdrAgreement.EncodeAgrees | tools/schema_compiler/compiler.py:1760-1813 | serializing any object, well typed or not, is the same under part of a registry and the whole |
| CdrAgreement.DecodeAgrees | tools/schema_compiler/compiler.py:1815-1876 | so is decoding any bytes into any target |
| JsonText.UnescapeQuoted | externalizer/json/JsonPrimitives.h:24-46 | escaping then unescaping gives back any bytes (section 7 of RFC 8259) |
| JsonText.MagnitudeComesBack | externalizer/json/JsonPrimitives.h:49-56 | printed digits are read back as the same 64-bit number, whatever may follow a value |
| JsonText.PrintedParses | externalizer/json/JsonPrimitives.h:16-82 | printed text is well-formed and denotes its tree if all its strings are UTF-8, and is refused otherwise |
| JsonForm.EscapesAre | externalizer/json/JsonPrimitives.h:24-46 | which characters are escaped and how, in characters |
| JsonForm.NumeralsAre | externalizer/json/JsonPrimitives.h:49-56 | numbers are decimal numerals without leading zeros, with a minus sign if negative |
| JsonForm.ArrayIs | tools/schema_compiler/compiler.py:2056-2072 | brackets around the items of an array of any length, commas between them |
| JsonForm.ObjectIs | externalizer/json/JsonPrimitives.h:16-22 | braces around the members of an object, quoted name, colon and value in each, commas between them |
| JsonCodec.FromName | tools/schema_compiler/compiler.py:1334-1348 | the loop finds the first item of that name, `enumNotSet` included |
| JsonCodec.NamedIff | tools/schema_compiler/compiler.py:1322-1348 | an item is found again by its name if and only if it is declared and no earlier item has that name |
| JsonCodec.ParseHexBytes | externalizer/json/JsonParse.h:50-77 | the loop over pairs of digits gives the bytes, or rejects odd lengths and other characters |
| JsonCodec.HexComesBack | externalizer/json/JsonParse.h:50-77 | the hexadecimal text of any bytes parses to those bytes |
| HexText.BytesWritten | externalizer/json/JsonPrimitives.h:74-82 | the text of any bytes is two lower-case digits for each, high digit first |
| HexText.HexBytesIff | externalizer/json/JsonParse.h:50-77 | a text is read as some bytes if and only if it is their digits in either case |
| HexText.HexBytesAnyCase | externalizer/json/JsonParse.h:59-64 | texts equal but for the case of letters are read alike, so the text of any bytes in any mixture of cases is read as those bytes |
| JsonCodec.PrimComesBack | externalizer/json/JsonParse.h:79-134 | every primitive but floating point is read back from its tree |
| JsonCodec.RangeCheckIff | externalizer/json/JsonParse.h:98-126 | the range check is right (the number itself, or an error if the target cannot hold it) for all 64-bit integers if and only if the target is unsigned or the number is below 2^64 less half the target's span; from there on a signed target takes it for a negative number |
| JsonRoundTrip.AnswersIff | externalizer/json/JsonParse.h:24-42 | members are found as they were written if and only if no two of one name differ |
| JsonRoundTrip.StructAnswers | tools/schema_compiler/compiler.py:2037-2098 | with distinct flattened names every written member is found and every absent one is not |
| JsonRoundTrip.VariantsRead | tools/schema_compiler/compiler.py:2115-2133 | of the variants exactly the written one is chosen and read |
| JsonRoundTrip.JsonReadsBack | tools/schema_compiler/compiler.py:2110-2189 | the tree of an object read into a clean target overlays the object if its items are named; otherwise reading fails or gives something else |
| JsonReading.ItemReadIff | tools/schema_compiler/compiler.py:1334-1348 | a name is read as an item if and only if it is the first of that name, `enumNotSet` before all others |
| JsonReading.ReadsIff | tools/schema_compiler/compiler.py:2110-2189 | into any target, reading a tree gives an object if and only if every member, inherited ones too, is what stands last under its name, an absent optional is cleared, no other member is absent, and at most one variant is present |
| JsonReading.MissingOrAmbiguousFails | externalizer/json/JsonParse.h:24-35 | for every registry, type, target and document: reading fails without a member that the type or one it inherits from requires, and with two variants of a choice |
| JsonReading.SchemaRequires | tools/schema_compiler/compiler.py:2137-2171 | the members so required include every field of the schema that is a list, a UUID or not optional |
| JsonReading.ReadTextIff | externalizer/json/JsonExternalizer.cpp:40-52 | a text is read if and only if all of it spells one tree that can be read into a new object |
| JsonForm.TreeIs | tools/schema_compiler/compiler.py:2037-2108 | the tree of every object: inherited members, the chosen variant, the fields that are there, in order, each under its name, and nothing else |
| JsonDocuments.TreePrintable | tools/schema_compiler/compiler.py:2037-2108 | the tree of an object holds 64-bit integers only, and is UTF-8 if and only if the object's strings are |
| JsonDocuments.DocumentReadsBackIff | externalizer/json/JsonExternalizer.cpp:40-52 | a written document reads back as what was written if and only if its strings are UTF-8 and its items have names of their own |
| JsonDocuments.CodecsAgree | externalizer/json/JsonExternalizer.cpp:14-52 | JSON and CDR give back the very same object |
| JsonDocuments.SameJson | tools/schema_compiler/compiler.py:2037-2108 | the tree depends on nothing but what getters return |
| JsonDocuments.SameTextIff | tools/schema_compiler/compiler.py:2037-2108 | equal texts if and only if getters cannot tell the messages apart |
| JsonAgreement.ToJsonAgrees | tools/schema_compiler/compiler.py:2037-2108 | the tree of an object is the same under part of a registry and the whole |
| JsonAgreement.FromJsonAgrees | tools/schema_compiler/compiler.py:2110-2189 | so is reading any tree into any target, and no lookup misses |
| JsonAgreement.JsonCompatible | tools/schema_compiler/compiler.py:384-391 | for every schema and selection, subset and full library write the same JSON and read any text alike |
| JsonDocuments.PublishedAsWritten | lacal/src/TopicMonitor.cpp:137-159 | what is delivered for a payload is the JSON of the message serialized into it, whatever follows it; a payload cut short is not delivered |
| JsonReading.PublishedIff | lacal/src/TopicMonitor.cpp:137-159 | something is delivered for a payload if and only if its tag is known and it decodes, and then the JSON of what it decodes to |
| JsonWriter.Output.EmitKey | externalizer/json/JsonPrimitives.h:16-22 | the unescaped key is the quoted name, with a comma unless it is the first, and clears the flag |
| JsonWriter.Output.EmitString | externalizer/json/JsonPrimitives.h:24-46 | the loop appends the quoted string |
| JsonWriter.Output.EmitBytes | externalizer/json/JsonPrimitives.h:74-82 | the loop appends the hexadecimal text, which needs no escapes |
| JsonWriter.Output.EmitPrim | externalizer/json/JsonPrimitives.h:48-82 | what is appended is the text of the primitive's tree |
| JsonWriter.Output.Serialize | tools/schema_compiler/compiler.py:2100-2105 | what is appended is the text of the object's tree |
| JsonWriter.Output.SerializeFields | tools/schema_compiler/compiler.py:2037-2098 | base, choice and fields append the members of the tree with the commas in place, and the flag says whether any was written |
| JsonWriter.Output.SerializeChoice | tools/schema_compiler/compiler.py:2041-2054 | only the chosen variant is written, with its comma |
| JsonWriter.Output.SerializeMembers | tools/schema_compiler/compiler.py:2055-2097 | absent optionals write nothing and leave the flag alone |
| JsonWriter.Output.SerializeList | tools/schema_compiler/compiler.py:2056-2072 | items in order, separated by commas, in brackets |
| Glob.GlobMatch | lacal/src/Protocol.cpp:25-43 | the loop computes the matcher within (text + 1) * (pattern + 1) iterations |
| Glob.StepsBounded | lacal/src/Protocol.cpp:27-40 | from any state of the loop, iterations left are bounded by the progress still to make |
| Glob.GlobSound | lacal/src/Protocol.cpp:25-43 | a match reported is a match in the declarative sense, for all patterns and texts |
| Glob.GlobExact | lacal/src/Protocol.cpp:25-43 | on texts without a star the matcher and the declarative relation agree: keeping only the last star loses nothing |
| Glob.StarInTextMissed | lacal/src/Protocol.cpp:28-31 | every text with a star is missed by some pattern that matches it |
| Glob.GlobExactIff | lacal/src/Protocol.cpp:25-43 | the matcher is right about every pattern if and only if the text holds no star |
| Protocol.TrimText | lacal/src/Protocol.cpp:11-16 | both loops give the trimmed text |
| Protocol.TrimExact | lacal/src/Protocol.cpp:11-16 | trimming finds the tight middle however much blank surrounds it |
| Protocol.CharactersAre | lacal/src/Protocol.cpp:11-23 | the characters of tokens, those that are trimmed, and those that separate fields |
| Protocol.FirstFieldIs | lacal/src/Protocol.cpp:54-64 | the operation ends at the first space and nowhere else, whatever blank surrounds the line; a blank line has none |
| Protocol.SplitFirst | lacal/src/Protocol.cpp:54-64 | the operation and the trimmed rest, or nothing for a blank line |
| Protocol.Fields | lacal/src/Protocol.cpp:66-72 | the extraction loop gives the fields |
| Protocol.FieldsComeBack | lacal/src/Protocol.cpp:66-72 | words come back as fields whatever white space was put between them |
| Protocol.GenIdInjective | lacal/src/ClientSession.cpp:161 | generated ids of different numbers differ |
| Protocol.GenIdIs | lacal/src/ClientSession.cpp:161 | a generated id is `xsub.` and the decimal digits of its number |
| Protocol.KeyPrefix | lacal/src/ClientSession.cpp:123-126 | a stream's keys are exactly those that start with the stream and a newline |
| Protocol.KeyInjective | lacal/src/ClientSession.cpp:154 | the joined key names one stream, topic and message when stream and message hold no newline |
| Protocol.KeyCollidesIff | lacal/src/ClientSession.cpp:154 | a key of a stream is also that of another topic and message if and only if its topic or its message holds a newline |
| SessionCommands.SpelledParses | lacal/src/ClientSession.cpp:232-255 | every command comes back from its spelling |
| SessionCommands.ParsedIsSpellable | lacal/src/ClientSession.cpp:43-118 | whatever a line parses to satisfies the token checks and has a spelling that parses to it |
| SessionCommands.CommandIs | lacal/src/ClientSession.cpp:43-118 | every line of an operation and words, however spaced: which counts and tokens are accepted as which command, `*` for a message pattern left out, and which refusal the others meet |
| SessionWrites.NothingReverts | lacal/src/ClientSession.h:48-56 | over every run `initialized`, closure and verbosity are final, and posted and written lines are never taken back |
| SessionWrites.WritesInOrder | lacal/src/ClientSession.cpp:140-148 | at most one write in flight, exactly while a line is queued and no write has failed; written and queued lines are the posted ones in order; nothing starts after a failure |
| SessionWrites.Handshake | lacal/src/ClientSession.cpp:13-41 | over every run nothing is posted, or one refusal, or INFO, then `+OK` if verbose, then no further INFO |
| SessionReplies.AnsweredBeforeInit | lacal/src/ClientSession.cpp:13-41 | a line handled to its end before the handshake: INFO, and `+OK` exactly if asked for, or the one refusal that closes the client |
| SessionReplies.AnsweredAfterInit | lacal/src/ClientSession.cpp:43-129 | a line handled to its end after it: the lines posted and the tables left by each command, refusals included; only INIT closes the client |
| SessionReplies.OneOkEach | lacal/src/ClientSession.cpp:35-128 | over every run a verbose client is sent one `+OK` for each command accepted while it was open, and a client that is not verbose is sent none |
| SessionReplies.BinaryIgnored | lacal/src/ClientSession.cpp:212-230 | a binary frame changes nothing, and the next read is started while the client is open |
| SessionLifecycle.ServedAfterUpgrade | lacal/src/ClientSession.cpp:166-210 | over every run nobody is read from or posted to before the upgrade of a request for `owp`, and whoever did not ask for it never is |
| SessionLifecycle.OpenIff | lacal/src/ClientSession.cpp:166-269 | over every run a client is open if and only if no request, upgrade, read or write failed, no rejection ended and no handshake was refused |
| SessionLifecycle.AtMostOneAfterClosing | lacal/src/ClientSession.cpp:140-148 | over every run at most one line is posted after closing, the one that the pass under way had checked before |
| SessionLifecycle.ClosedForGood | lacal/src/ClientSession.cpp:285-298 | a closed client with no pass under way is never posted to or handed an id again |
| SessionIds.ConcreteIds | lacal/src/ClientSession.cpp:150-164 | over every run live ids are distinct and below the counter, and no id comes back for another key |
| SessionIds.XUnsubErasesOwn | lacal/src/ClientSession.cpp:111-129 | XUNSUB removes exactly the stream's wildcard subscriptions and concrete ids |
| SessionIds.FilterInOrder | lacal/src/ClientSession.cpp:120-122 | the wildcard subscriptions that remain keep their order |
| SessionIds.IdKept | lacal/src/ClientSession.cpp:150-164 | over every run a stream's topic and message keep their generated id until the stream is unsubscribed |
| SessionAnnounce.WildcardAnnouncedFirst | lacal/src/TopicMonitor.cpp:179-193 | over every run a wildcard MSG comes after the XSUBINFO of its id, topic and message, and no id is announced twice |
| SessionAnnounce.AnnounceStep | lacal/src/TopicMonitor.cpp:161-194 | every step of either thread keeps the invariant behind it |
| SessionOrigins.NothingUnsolicited | lacal/src/TopicMonitor.cpp:174-183 | over every run each MSG answers a subscription that was made and that matches its topic and message |
| SessionUnsub.AtMostOneAfterUnsub | lacal/src/ClientSession.cpp:94-109 | once UNSUB has erased a subscription it yields at most one more MSG, and none unless the pass under way had decided on it |
| SessionDelivery.LateMsgIff | lacal/src/TopicMonitor.cpp:167-177 | after UNSUB one more MSG can be posted if and only if the pass under way carries one that was checked, or will be while the client is open |
| SessionDelivery.EarlyMsgIff | lacal/src/ClientSession.cpp:83-91 | after every accepted SUB and before its `+OK` a MSG of it can be posted if and only if the client is open |
| SessionPasses.PassEnds | lacal/src/TopicMonitor.cpp:161-194 | from every state the monitor alone brings the pass to its end |
| SessionPasses.CarriedIsPosted | lacal/src/TopicMonitor.cpp:174-177 | a MSG that was checked, or will be while the client is open, is posted if the monitor goes on |
| SessionFanout.EachServedOnce | lacal/src/TopicMonitor.cpp:161-194 | after every run, one delivery to an open client posts one MSG for each standard subscription of its topic and message, one for each wildcard subscription that matches, none for the others, and besides them announcements only |
| SessionOrphans.OrphanIff | lacal/src/ClientSession.cpp:111-129 | after XUNSUB, and without a new XSUB, a concrete subscription can come back if and only if the pass under way still asks for one |
| SessionWitnesses.MsgBeforeItsOk | lacal/src/ClientSession.cpp:83-91 | a run in which MSG is posted before the `+OK` of its SUB |
| SessionWitnesses.MsgAfterUnsubOk | lacal/src/TopicMonitor.cpp:167-177 | a run in which MSG is posted after the `+OK` of its UNSUB, so the bound of one is met |
| SessionWitnesses.OrphanAfterXUnsub | lacal/src/ClientSession.cpp:117-128 | for every stream a run in which a concrete subscription comes into being after the `+OK` of its XUNSUB |
| SessionWitnesses.AnnouncedByIdIff | lacal/src/ClientSession.cpp:66-92 | judged by ids, MSG with a generated id is always announced if and only if no SUB uses a generated id |
| ClientSession.DrainIsRun | lacal/src/ClientSession.cpp:212-230 | a handler without interruption is a run in which only the handler moves |
| ClientSession.Client.SendLine | lacal/src/ClientSession.cpp:140-148 | posts the line if the client is open, and says whether it did |
| ClientSession.Client.HandleInitLine | lacal/src/ClientSession.cpp:13-41 | the replies and the state of the machine's INIT, in every outcome of the JSON argument |
| ClientSession.Client.HandleXSub | lacal/src/ClientSession.cpp:43-64 | the machine's XSUB, its refusals included |
| ClientSession.Client.HandleSub | lacal/src/ClientSession.cpp:66-92 | the machine's SUB, its refusals included |
| ClientSession.Client.HandleUnsub | lacal/src/ClientSession.cpp:94-109 | the machine's UNSUB, its refusals included |
| ClientSession.Client.HandleXUnsub | lacal/src/ClientSession.cpp:111-129 | the machine's XUNSUB: both erasing loops remove the stream's entries and nothing else |
| ClientSession.Client.HandleLine | lacal/src/ClientSession.cpp:232-255 | the machine's handling of any line, before and after the handshake |
| ClientSession.Client.OnText | lacal/src/ClientSession.cpp:212-230 | reading a text frame is the machine's step and the handler run to its end |
| ClientSession.Client.RunPostedLine | lacal/src/ClientSession.cpp:142-146 | the posted lambda is the machine's step: it starts a write only when none is in progress |
| ClientSession.Client.OnWritten | lacal/src/ClientSession.cpp:257-269 | completion of a write is the machine's step |
| ClientSession.Client.EnsureConcreteSubscription | lacal/src/ClientSession.cpp:150-164 | a known key keeps its id; a new key gets the next generated id |
| ClientSession.Client.Snapshot | lacal/src/TopicMonitor.cpp:167-172 | the copy holds each standard subscription once |
| ClientSession.Client.DeliverStandard | lacal/src/TopicMonitor.cpp:174-177 | the loop is a run of the machine's delivery steps up to the wildcard part |
| ClientSession.Client.DeliverWildcards | lacal/src/TopicMonitor.cpp:179-193 | the loop is a run of the machine's delivery steps to the end of the pass |
| ClientSession.Client.Deliver | lacal/src/TopicMonitor.cpp:161-194 | a delivery without interruption is a run of the machine in which only the monitor moves |
| ClientSession.RemoveStream | lacal/src/ClientSession.cpp:120-122 | `remove_if` keeps exactly the subscriptions of other streams, in order |
| ClientSession.EraseStream | lacal/src/ClientSession.cpp:123-126 | the erasing loop keeps exactly the keys without the stream's prefix, in whatever order the map is walked |

## Left out

- DDS, QoS, the waitset loop and the readers: an incoming sample is an event with topic, type name and JSON.
- HTTP, WebSocket and asio themselves: requests, upgrades, reads, posted lambdas and write completions are events; the protocol header check and `makeInfoJson` are not modelled.
- The internals of the JSON library: INIT's argument is classified by an event parameter, and documents are read by a reference reader of RFC 8259 without white space, fractions and exponents.
- JsonCodec.PrimComesBack: not for floating-point primitives, because the formats `%g` and `%.17g` and their parsing are not modelled; floating point travels in CDR as its bit pattern.
- JsonWriter.Output.EmitPrim: not for floating-point primitives, for the same reason; what shows no floating-point leaf (`NoFloats`) is written and read whatever its type declares.
- JsonAgreement.JsonCompatible: written texts are compared for messages that show no floating-point leaf, and reading a floating-point leaf fails in the model, in both libraries alike.
- Schemas whose flattened JSON member names clash or need escapes: `JsonReady` and `JsonWritable` exclude them; `JsonRoundTrip.AnswersIff` says what goes wrong when names clash.
- In-place update of nested accessors: objects are trees of values that methods take and return, so aliasing between two accessors is not captured, except for list self-copy.
- JSON deserializers are modelled on values, without the accessors they assign in place.
- Default values of numbers and booleans: generated members are left uninitialized, and the model starts them at zero and false; `SchemaShape.DefaultBlank` does not promise it.
- The table from XSD primitives to C++ types is a parameter of the schema.
- More than one choice group in a type, types containing themselves by value, and bases that are typedefs: the C++ they generate does not compile or does not register, and `SchemaSubset.Compiles` excludes them.
- Wrap-around of the 64-bit counter of concrete ids.
- The error lines for a duplicate SUB and an inactive UNSUB are sent after the lock region in the machine and inside it in the program: the machine has more interleavings, and the invariants hold of them all.
- Several clients at once: they share no state but the registry of clients, so one client is modelled; the registry is not.
- The two-step `sendLine` of the asio thread is one step, since only that thread closes the client.
- Version 3 and random UUIDs, `std::hash`, timestamps and comparisons of UUIDs.
- XSD parsing, template rendering, file output, configuration, plugin loading and the demos.
