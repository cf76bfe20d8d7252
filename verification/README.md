# Verified models of the Arrowhead client libraries

Arrowhead is a framework in which systems register services, find them, and are authorized to use them. This project
models the parts of it that are algorithms or protocols, and proves what they promise.

**In the Swagger bundle** that the web pages ship (one minified file, whose modules are named by index):

- *The persistent map* (module 168). A hash-array-mapped trie with array-map, bitmap-indexed, hash-array, collision and
  value nodes. `TrieNodes` has the nodes and what makes them well formed, `TrieUpdate` the update as functions, `TrieLaws`
  and `TrieMap` the proof that any run behaves like a finite map, and `TrieCode` and `TrieShapes` the update as it runs,
  with loops, shifts and the branch-free bit count, proved equal to those functions. `Bits` and `ByteBits` give the bit
  operators of JavaScript a meaning on integers.
- *UTF-8* (modules 68 and 191). The encoder and decoder of `Buffer` (`Utf8`, `Utf8Code`) against the grammar of RFC 3629,
  and the incremental `StringDecoder`; `StringDecoderLaws` says for exactly which bytes its output does not depend on the
  chunks.
- *Base64* (module 325): `Base64` and, with tables, chunks and bit expressions, `Base64Code`.
- *The LRU queue* (module 515): `LruQueue`, two inverse dictionaries and a moving base.
- *The chunks of a readable stream* (modules 187 and 454): `BufferList`, a linked list of nodes, and `PartialRead`.

**In the DNS service-discovery library**:

- *The registration protocol.* `DnsZone` is a server that follows RFC 2136. `Registrator` builds the guarded updates.
  `Registry` says what the clients have registered and which zone encodes that; `DnsRuns` proves that every interleaving
  of clients, with the two updates of an unregistration as separate events, keeps the zone equal to that encoding.
  `DnsLaws` draws the conclusions.
- *The browser.* `Browser` reads a zone; `Discovery` proves that it finds exactly what was registered.
- *Names.* `ServiceName` and `ServiceType` print and parse, `DnsLabel` turns names into labels, `TxtRecord` turns
  properties into strings and back, and `NetworkMask` computes a network address in place.

**In the core systems**: the grouping of orchestration forms and the handing back of tokens (`TokenGroups`), the alignment
of tokens with providers (`TokenGeneration`), and the port range of the gateway (`GatewayPorts`).

Code that changes state is modelled by classes and methods with loops, each proved against a function or a relation whose
laws are the lemmas. JavaScript's `undefined`, Java's `null` and exceptions are `Option` and `Result` values. Bytes are
read as unsigned. A run is any finite sequence of operations or events.

Where a promise holds only under a condition, the condition is proved exact: see `TxtRoundTrip`, `NameRoundTrip`,
`DecodeOfEncode`, `CutNeverShowsIff`, `RegisterThenUnregister`, `DepartureExactIff`, `AlignedIffNoneSkipped`,
`SafeIffNoHarm` and `ExclusiveIffNotStolen`.

`dafny verify dfyconfig.toml` checks everything.

## Model

| member | source | states |
|---|---|---|
| `TrieMap.RunRefines` | core-common/src/main/resources/swagger/swagger-ui-standalone-preset.js:13 | For every hash function and every sequence of sets and removals, lookup of every key is that of the finite map built by the same operations, the size is its cardinality, and the root is well formed |
| `TrieMap.RunRepresents` | core-common/src/main/resources/swagger/swagger-ui-standalone-preset.js:13 | The same as one relation between the trie and the finite map after every run |
| `TrieMap.Run` | core-common/src/main/resources/swagger/swagger-ui-standalone-preset.js:13 | Every run keeps the root well formed, so that every update and lookup is defined |
| `TrieMap.UpdateRefines` | core-common/src/main/resources/swagger/swagger-ui-standalone-preset.js:13 | One set or removal, on any well-formed trie that represents a finite map, gives one that represents the updated map; this covers the array map, its conversion to nodes above eight entries, and removal of the last key |
| `TrieMap.EmptyIffNoRoot` | core-common/src/main/resources/swagger/swagger-ui-standalone-preset.js:13 | The size is 0 exactly when there is no root: no empty node is ever kept |
| `TrieMap.HoldsSomeKey` | core-common/src/main/resources/swagger/swagger-ui-standalone-preset.js:13 | Every well-formed node holds a key that lies on the path to the node |
| `TrieLaws.UpdateValid` | core-common/src/main/resources/swagger/swagger-ui-standalone-preset.js:13 | Setting or removing keeps every node well formed: as many packed children as bits in the bitmap and at most 16, a right count of at least 8 in a slot array, every key on its hash path, no chain that ends in a single leaf |
| `TrieLaws.UpdateGet` | core-common/src/main/resources/swagger/swagger-ui-standalone-preset.js:13 | After setting or removing one key, that key answers the new value and every other key on the path answers what it did |
| `TrieLaws.UpdateFlags` | core-common/src/main/resources/swagger/swagger-ui-standalone-preset.js:13 | The two flags: `altered` is false exactly when the node is unchanged, and `resized` is true exactly when a key came or went |
| `TrieLaws.NodeAfterSpec` | core-common/src/main/resources/swagger/swagger-ui-standalone-preset.js:13 | Rebuilding an inner node around one changed child (splice, replace, expand to 32 slots above 16 children, pack below 8, collapse onto a last leaf) replaces that child and no other, and stays well formed |
| `TrieLaws.SizesOfNodes` | core-common/src/main/resources/swagger/swagger-ui-standalone-preset.js:13 | A well-formed array map has 1 to 8 entries, a packed node 1 to 16 children, a slot array 32 slots with at least 8 occupied, a collision node at least two entries |
| `TrieLaws.KindOfPacked` | core-common/src/main/resources/swagger/swagger-ui-standalone-preset.js:13 | A packed node is spread out exactly when it has sixteen children and gets one more, and gives way to a leaf exactly when nothing but the leaf is left |
| `TrieLaws.KindOfSlots` | core-common/src/main/resources/swagger/swagger-ui-standalone-preset.js:13 | A slot array is packed exactly when it has eight children and loses one |
| `TrieMap.KindOfArrayMap` | core-common/src/main/resources/swagger/swagger-ui-standalone-preset.js:13 | An array map turns into nodes exactly when it has eight entries and a new key is set, and goes exactly with its last key |
| `TrieLaws.MergeValid` | core-common/src/main/resources/swagger/swagger-ui-standalone-preset.js:13 | Branching a leaf and a new entry gives a well-formed chain ending where their hashes part, or a collision node |
| `TrieLaws.MergeGet` | core-common/src/main/resources/swagger/swagger-ui-standalone-preset.js:13 | The branch finds the new entry and everything the leaf held |
| `TrieNodes.DifferentHashesPart` | core-common/src/main/resources/swagger/swagger-ui-standalone-preset.js:13 | Two 32-bit hashes with the same seven slots (shifts 0 to 30) are equal, which is why branching ends |
| `TrieUpdate.MergeIntoNode` | core-common/src/main/resources/swagger/swagger-ui-standalone-preset.js:13 | Branching ends, and gives a collision node exactly for equal hashes |
| `Bits.PopCountCorrect` | core-common/src/main/resources/swagger/swagger-ui-standalone-preset.js:13 | The branch-free bit count of a 32-bit word is the number of its bits |
| `TrieCode.BitmapIndex` | core-common/src/main/resources/swagger/swagger-ui-standalone-preset.js:13 | The bit count of the masked bitmap is the position of a slot among the packed children |
| `TrieCode.MaskedSlotIs` | core-common/src/main/resources/swagger/swagger-ui-standalone-preset.js:13 | The shift and mask of the code, `(shift === 0 ? hash : hash >>> shift) & 31`, picks the slot of the specification |
| `TrieCode.MergeNodes` | core-common/src/main/resources/swagger/swagger-ui-standalone-preset.js:13 | Branching as it runs, with shifts and masks, gives the specified node |
| `TrieCode.GetNode` | core-common/src/main/resources/swagger/swagger-ui-standalone-preset.js:13 | The lookup loop over node kinds, shifts and masks finds what the specification finds |
| `TrieCode.UpdateNode` | core-common/src/main/resources/swagger/swagger-ui-standalone-preset.js:13 | The update as it runs, with its loops, shifts and bit counts, gives the specified node and flags |
| `TrieCode.UpdateMapNodes` | core-common/src/main/resources/swagger/swagger-ui-standalone-preset.js:13 | The update of a whole map as it runs gives the specified map |
| `TrieShapes.ExpandNodes` | core-common/src/main/resources/swagger/swagger-ui-standalone-preset.js:13 | The loop that shifts the bitmap out bit by bit spreads packed children over their 32 slots |
| `TrieShapes.PackNodes` | core-common/src/main/resources/swagger/swagger-ui-standalone-preset.js:13 | The loop over 32 slots collects the children that stay, in order, with their bitmap |
| `TrieShapes.SpliceInLoop` | core-common/src/main/resources/swagger/swagger-ui-standalone-preset.js:13 | The copying loop inserts one child |
| `TrieShapes.SpliceOutLoop` | core-common/src/main/resources/swagger/swagger-ui-standalone-preset.js:13 | The copying loop removes one child |
| `Utf8.DecodeUndoesEncode` | core-common/src/main/resources/swagger/swagger-ui-standalone-preset.js:13 | Decoding the encoding of a UTF-16 string gives it back if and only if it has no lone surrogate |
| `Utf8.DecodeOfEncode` | core-common/src/main/resources/swagger/swagger-ui-standalone-preset.js:13 | What comes back of any string: U+FFFD for every surrogate without a partner, except that a lead surrogate at the very end is dropped if another lead comes before it |
| `Utf8.EncodeUndoesDecode` | core-common/src/main/resources/swagger/swagger-ui-standalone-preset.js:13 | Encoding the decoding of a byte sequence gives it back if and only if it is valid UTF-8 (section 4 of RFC 3629) |
| `Utf8.ReadPointIsChar` | core-common/src/main/resources/swagger/swagger-ui-standalone-preset.js:13 | The decoder reads a code point exactly at a character of the grammar, takes exactly its bytes, and never yields an overlong form or a surrogate |
| `Utf8.StepIsChar` | core-common/src/main/resources/swagger/swagger-ui-standalone-preset.js:13 | On any bytes the decoder advances: by one whole character, or by one byte, for which it gives U+FFFD |
| `Utf8.DecodeWellFormed` | core-common/src/main/resources/swagger/swagger-ui-standalone-preset.js:13 | The decoding of any bytes has no lone surrogate |
| `Utf8.EncodeValid` | core-common/src/main/resources/swagger/swagger-ui-standalone-preset.js:13 | The encoding of any string is valid UTF-8 |
| `Utf8Code.EncodeLoop` | core-common/src/main/resources/swagger/swagger-ui-standalone-preset.js:13 | The encoder loop with its pending lead surrogate and bit expressions computes the encoding |
| `Utf8Code.DecodeLoop` | core-common/src/main/resources/swagger/swagger-ui-standalone-preset.js:13 | The decoder loop with its masks and shifts, between any two positions, computes the decoding and ends |
| `StringDecoderLaws.CutNeverShowsIff` | core-common/src/main/resources/swagger/swagger-ui-standalone-preset.js:13 | For any bytes: every way of cutting them into chunks, empty and one-byte chunks included, reads the same as the decoding of the whole, if and only if no byte E0 to EF has one continuation byte after it where two belong, and no byte F0 to F7 one or two where three belong |
| `StringDecoderLaws.WriteExactly` | core-common/src/main/resources/swagger/swagger-ui-standalone-preset.js:13 | One write from any state that a run reaches and for any bytes: where they break off the waiting character, one U+FFFD for it and for the continuation bytes still read, then the decoding of the rest; else what decoding all bytes so far adds |
| `StringDecoderLaws.BrokenShows` | core-common/src/main/resources/swagger/swagger-ui-standalone-preset.js:13 | Wherever a character is broken off so, cutting after its first continuation byte makes the output shorter |
| `StringDecoderLaws.ChunksDecodeKept` | core-common/src/main/resources/swagger/swagger-ui-standalone-preset.js:13 | Where no character is broken off by another byte, the writes of any chunks decode all but a character that is only begun at the end, and `end` adds one replacement exactly for such a one |
| `StringDecoderLaws.ChunksDecodeAsOne` | core-common/src/main/resources/swagger/swagger-ui-standalone-preset.js:13 | Valid UTF-8 reads the same in any chunks as in one piece |
| `StringDecoderLaws.ChunkingIsInvisible` | core-common/src/main/resources/swagger/swagger-ui-standalone-preset.js:13 | For valid bytes that may end inside a character, the writes give the decoding of the whole characters, and `end` adds one replacement exactly if a character was left unfinished |
| `StringDecoderLaws.WriteAllHolds` | core-common/src/main/resources/swagger/swagger-ui-standalone-preset.js:13 | After any run of writes in which no character is broken off by another byte, the state waits for the rest of exactly the bytes of the character that is only begun |
| `StringDecoderLaws.WriteHolds` | core-common/src/main/resources/swagger/swagger-ui-standalone-preset.js:13 | One write, from any such state, decodes all but the character that is only begun, and waits for the rest of it |
| `StringDecoderLaws.InvalidBytesMayShowTheCut` | core-common/src/main/resources/swagger/swagger-ui-standalone-preset.js:13 | Validity is not what decides: no cut shows in the invalid byte FF, and one does in E2 82 41 |
| `StringDecoder.Decoder.WriteChunk` | core-common/src/main/resources/swagger/swagger-ui-standalone-preset.js:13 | The method over `lastNeed`, `lastTotal` and the four-byte `lastChar` makes exactly the transition the theorems are about |
| `StringDecoder.Decoder.End` | core-common/src/main/resources/swagger/swagger-ui-standalone-preset.js:13 | A last chunk, then one replacement if a character is unfinished |
| `Base64.DecodeUndoesEncode` | core-common/src/main/resources/swagger/swagger-ui-standalone-preset.js:13 | Decoding undoes encoding for every byte sequence |
| `Base64.EncodeUndoesDecode` | core-common/src/main/resources/swagger/swagger-ui-standalone-preset.js:13 | Encoding undoes decoding if and only if the text is canonical: letters of the standard alphabet, pads only where they complete the last group, and no bits left over |
| `Base64.EncodeSpellsBits` | core-common/src/main/resources/swagger/swagger-ui-standalone-preset.js:13 | Each letter is the one for the next six bits of the bytes (section 4 of RFC 4648), and only pads follow the last |
| `Base64.DecodeSpellsBits` | core-common/src/main/resources/swagger/swagger-ui-standalone-preset.js:13 | For any text: decoding gives the bits of the values of the characters before the first pad, as far as they fill bytes; a pad at the start of a group makes two zero bytes of the group before it, and one at the start of the text fails |
| `Base64.DecodeStandard` | core-common/src/main/resources/swagger/swagger-ui-standalone-preset.js:13 | Every text decodes like the one with '+' and '/' for '-' and '_' and with 'A' for strangers |
| `Base64.EncodeLength` | core-common/src/main/resources/swagger/swagger-ui-standalone-preset.js:13 | Four characters for every three bytes begun |
| `Base64.EncodeSplit` | core-common/src/main/resources/swagger/swagger-ui-standalone-preset.js:13 | Encoding in pieces of a multiple of three bytes, such as 16383, gives the same text as in one pass |
| `Base64Code.BuildTables` | core-common/src/main/resources/swagger/swagger-ui-standalone-preset.js:13 | The table loop yields the alphabet and its inverse, with the two URL-safe characters, and nothing for others |
| `Base64Code.FromByteArray` | core-common/src/main/resources/swagger/swagger-ui-standalone-preset.js:13 | The chunked encoder with its bit expressions computes the encoding |
| `Base64Code.ToByteArray` | core-common/src/main/resources/swagger/swagger-ui-standalone-preset.js:13 | The decoder, on any text, fills an array of the right size without leaving it, or fails for a length that is no multiple of four or a size below 0 |
| `Base64Code.ByteLength` | core-common/src/main/resources/swagger/swagger-ui-standalone-preset.js:13 | The length found without decoding is that of the decoded bytes |
| `LruQueues.RunByLastHit` | core-common/src/main/resources/swagger/swagger-ui-standalone-preset.js:13 | After any run of hits, deletions and clears, the identifiers held are in the order of their last hits and at most as many as the limit |
| `LruQueues.EvictsLeastRecent` | core-common/src/main/resources/swagger/swagger-ui-standalone-preset.js:13 | A hit evicts exactly if the identifier is new and the queue full; what it evicts was hit before everything that stays; nothing else leaves |
| `LruQueues.LruQueue.Serve` | core-common/src/main/resources/swagger/swagger-ui-standalone-preset.js:13 | On the queue itself, any run of hits, deletions and clears leaves the list in the order that the run gives, and evicts what it gives |
| `LruQueues.LruQueue.Hit` | core-common/src/main/resources/swagger/swagger-ui-standalone-preset.js:13 | The two dictionaries stay inverse and the base the smallest live index; the recency list and the evicted identifier are as specified |
| `LruQueues.LruQueue.Delete` | core-common/src/main/resources/swagger/swagger-ui-standalone-preset.js:13 | Deletion takes the identifier out of the recency list, keeps the rest in order, and restarts the indices when nothing is left |
| `LruQueues.LruQueue.Clear` | core-common/src/main/resources/swagger/swagger-ui-standalone-preset.js:13 | Clearing empties the list |
| `LruQueues.LruQueue.Advance` | core-common/src/main/resources/swagger/swagger-ui-standalone-preset.js:13 | The loop that moves the base ends at the next live index |
| `LruQueues.LiveRemoved` | core-common/src/main/resources/swagger/swagger-ui-standalone-preset.js:13 | Taking an index out of the dictionary takes its identifier out of the list |
| `PartialReads.ReadState.Serve` | core-common/src/main/resources/swagger/swagger-ui-standalone-preset.js:13 | A run of pushes, reads, flows and an end on the linked list itself gives and leaves exactly what the run of the chunks does |
| `PartialReads.AnswersConserve` | core-common/src/main/resources/swagger/swagger-ui-standalone-preset.js:13 | Over any such run, what is given out followed by what is left is what was held followed by what was pushed: as units, and in object mode as objects |
| `PartialReads.ReadState.Flow` | core-common/src/main/resources/swagger/swagger-ui-standalone-preset.js:13 | Reading while the stream flows hands out every chunk held, in order and as it was pushed, and leaves none |
| `PartialReads.ReadState.Read` | core-common/src/main/resources/swagger/swagger-ui-standalone-preset.js:13 | One `read` call: with a number, exactly if it is positive and held or the stream has ended; without one, exactly if anything is held, the first chunk of a flowing stream and else all; one object in object mode. What is left are the chunks after it, and the counted length is theirs |
| `PartialReads.ReadState.HowMuchToRead` | core-common/src/main/resources/swagger/swagger-ui-standalone-preset.js:13 | How many units a call takes: none without data or request, one in object mode, all or the first chunk for no number, the number if it is held, all if the stream has ended |
| `PartialReads.ReadState.Add` | core-common/src/main/resources/swagger/swagger-ui-standalone-preset.js:13 | A chunk goes to the end and is counted; an empty one is kept in object mode only |
| `PartialReads.ReadState.FromList` | core-common/src/main/resources/swagger/swagger-ui-standalone-preset.js:13 | Nothing if nothing is held, one object in object mode, all for 0 or too large a number, and else exactly `n` units; given and left together are what was held, in order |
| `PartialReads.TakePart` | core-common/src/main/resources/swagger/swagger-ui-standalone-preset.js:13 | A partial read inside, at the end of, or beyond the first chunk gives exactly `n` units and leaves the chunks after them, the first one cut |
| `PartialReads.CopyFromBufferString` | core-common/src/main/resources/swagger/swagger-ui-standalone-preset.js:13 | The string form over several chunks: exactly `n` units; the node count, head and tail of the list stay right |
| `PartialReads.CopyFromBuffer` | core-common/src/main/resources/swagger/swagger-ui-standalone-preset.js:13 | The buffer form, copying into a new buffer, does the same |
| `PartialReads.FlattenRest` | core-common/src/main/resources/swagger/swagger-ui-standalone-preset.js:13 | For every cut, the units before it followed by the chunks left are all units |
| `BufferLists.BufferList.Push` | core-common/src/main/resources/swagger/swagger-ui-standalone-preset.js:13 | Appends one chunk at the tail |
| `BufferLists.BufferList.Unshift` | core-common/src/main/resources/swagger/swagger-ui-standalone-preset.js:13 | Puts one chunk before the head |
| `BufferLists.BufferList.Shift` | core-common/src/main/resources/swagger/swagger-ui-standalone-preset.js:13 | Takes the first chunk, if any |
| `BufferLists.BufferList.Clear` | core-common/src/main/resources/swagger/swagger-ui-standalone-preset.js:13 | Leaves no chunk |
| `BufferLists.BufferList.Join` | core-common/src/main/resources/swagger/swagger-ui-standalone-preset.js:13 | All chunks with a separator before every one but the first |
| `BufferLists.BufferList.Concat` | core-common/src/main/resources/swagger/swagger-ui-standalone-preset.js:13 | All chunks in one buffer |
| `DnsRuns.RunEncodes` | dnssd/src/main/java/com/github/danieln/dnssdjava/UnicastDnsSDRegistrator.java:204-225 | In every interleaving of registrations and two-step unregistrations the zone is exactly the one that the registry calls for: SRV, TXT and type pointer of each registered service, one services pointer for each listed type, the subtype pointers, and what was there before |
| `DnsLaws.ZoneOfRun` | dnssd/src/main/java/com/github/danieln/dnssdjava/UnicastDnsSDRegistrator.java:181-225 | The same record by record: a record is in the zone of a run exactly if it was there before, or is the type pointer, the SRV record with priority and weight 0, or the TXT record with one string for each property of a registered service, or the pointer of a listed type or subtype |
| `DnsRuns.StepEncodes` | dnssd/src/main/java/com/github/danieln/dnssdjava/UnicastDnsSDRegistrator.java:255-289 | One update of one client keeps that, whatever state the others left the zone in |
| `DnsRuns.RunIsUpdates` | dnssd/src/main/java/com/github/danieln/dnssdjava/UnicastDnsSDRegistrator.java:204-225 | The zone of a run is what a server with the update rules of RFC 2136 makes of the updates the clients send |
| `DnsRuns.UnregisterIsRun` | dnssd/src/main/java/com/github/danieln/dnssdjava/UnicastDnsSDRegistrator.java:247-289 | The registrator's unregistration, with any updates of others in between, is the run of its two steps around them |
| `DnsLaws.SrvIffPointed` | dnssd/src/main/java/com/github/danieln/dnssdjava/UnicastDnsSDRegistrator.java:204-212 | In every interleaving a service has an SRV record exactly while the pointer of its type points at it, which is exactly while it is registered |
| `DnsLaws.ListedIffInUse` | dnssd/src/main/java/com/github/danieln/dnssdjava/UnicastDnsSDRegistrator.java:272-289 | In every interleaving a type with an instance is listed; a type without one is listed only while its removal is pending or after that failed |
| `DnsLaws.NothingHidesAService` | dnssd/src/main/java/com/github/danieln/dnssdjava/UnicastDnsSDRegistrator.java:272-275 | Whatever comes after a registration, except its own unregistration, the service stays listed, pointed at and described: no second update can hide it |
| `DnsLaws.RegisterThenUnregister` | dnssd/src/main/java/com/github/danieln/dnssdjava/UnicastDnsSDRegistrator.java:181-289 | Registering and unregistering gives back the zone exactly if the type was listed just when it was in use and no pointer was left of an earlier registration of the name |
| `DnsLaws.DepartureExactIff` | dnssd/src/main/java/com/github/danieln/dnssdjava/UnicastDnsSDRegistrator.java:257-261 | Unregistering keeps the subtype pointers exact if and only if all subtypes of the registration are passed |
| `DnsLaws.RunExact` | dnssd/src/main/java/com/github/danieln/dnssdjava/UnicastDnsSDRegistrator.java:257-261 | While every unregistration passes at least the subtypes of the registration, the subtypes point at exactly the registered services that have them |
| `DnsZone.Server.Send` | dnssd/src/main/java/com/github/danieln/dnssdjava/UnicastDnsSDRegistrator.java:216-225 | A server checks the prerequisites in order, answers the first failure, and otherwise makes all changes (sections 3.2 and 3.4 of RFC 2136) |
| `DnsZone.AddsAddAll` | dnssd/src/main/java/com/github/danieln/dnssdjava/UnicastDnsSDRegistrator.java:206-212 | Additions one after another add the set of records, duplicates counting once |
| `Registrators.Registrator.constructor` | dnssd/src/main/java/com/github/danieln/dnssdjava/UnicastDnsSDRegistrator.java:59-63 | A registrator registers in its own domain |
| `Registrators.Registrator.RegisterService` | dnssd/src/main/java/com/github/danieln/dnssdjava/UnicastDnsSDRegistrator.java:181-225 | True with all records of the service added, false with nothing changed if its name is in use, an error with nothing changed if the server refuses |
| `Registrators.Registrator.UnregisterService` | dnssd/src/main/java/com/github/danieln/dnssdjava/UnicastDnsSDRegistrator.java:247-289 | False with nothing changed if the name is not in use; else the service is gone and, after whatever others do, so is its type if no instance is left; a refused second update is ignored |
| `Registrators.RegisterEffect` | dnssd/src/main/java/com/github/danieln/dnssdjava/UnicastDnsSDRegistrator.java:204-212 | The registration update is rejected exactly if the name is in use, and adds exactly the records of the service |
| `Registrators.LeaveEffect` | dnssd/src/main/java/com/github/danieln/dnssdjava/UnicastDnsSDRegistrator.java:255-261 | The first unregistration update is rejected exactly if the name is not in use, and removes exactly the pointers named and everything at the service name |
| `Registrators.TidyEffect` | dnssd/src/main/java/com/github/danieln/dnssdjava/UnicastDnsSDRegistrator.java:273-275 | The second one removes the pointer at the type exactly if the type name is not in use |
| `Registrators.DnsNameInjective` | dnssd/src/main/java/com/github/danieln/dnssdjava/ServiceName.java:228-234 | Different services have different names, and one alone has the name of the list of types |
| `Registries.OwnsDnsName` | dnssd/src/main/java/com/github/danieln/dnssdjava/UnicastDnsSDRegistrator.java:205 | On such a zone a service name is in use exactly while the service is registered |
| `Registries.OwnsTypeName` | dnssd/src/main/java/com/github/danieln/dnssdjava/UnicastDnsSDRegistrator.java:274 | On such a zone a type name is in use exactly while an instance of the type is registered |
| `Registries.EncodeJoined` | dnssd/src/main/java/com/github/danieln/dnssdjava/UnicastDnsSDRegistrator.java:206-212 | Registering adds to the zone exactly what the registry gains |
| `Registries.EncodeDeparted` | dnssd/src/main/java/com/github/danieln/dnssdjava/UnicastDnsSDRegistrator.java:257-261 | Unregistering takes from the zone exactly what the registry loses, and no record of another service |
| `Discovery.TypeFindsInstances` | dnssd/src/main/java/com/github/danieln/dnssdjava/UnicastDnsSDBrowser.java:166-208 | In every interleaving, browsing for a type finds exactly its registered services |
| `Discovery.BrowseListsOnce` | dnssd/src/main/java/com/github/danieln/dnssdjava/UnicastDnsSDBrowser.java:105-111 | In every interleaving, browsing one domain for a type lists each of its registered services once and no other |
| `Discovery.BrowseSubtypesListsOnce` | dnssd/src/main/java/com/github/danieln/dnssdjava/UnicastDnsSDBrowser.java:166-178 | With subtypes, each registered service that has one of them is listed once, while every unregistration passes at least the subtypes of the registration |
| `Discovery.SubtypesFindInstances` | dnssd/src/main/java/com/github/danieln/dnssdjava/UnicastDnsSDBrowser.java:166-208 | Browsing for a type with subtypes finds exactly the registered services of the type that have one of them, while every unregistration passes at least the subtypes of the registration |
| `Discovery.TypesFound` | dnssd/src/main/java/com/github/danieln/dnssdjava/UnicastDnsSDBrowser.java:130-154 | Browsing for types finds every type in use, and another only while its removal is pending or after it failed |
| `Discovery.DataFound` | dnssd/src/main/java/com/github/danieln/dnssdjava/UnicastDnsSDBrowser.java:52-74 | A lookup finds the one SRV and the one TXT record of the registration, or none |
| `Discovery.LookupFindsRegistration` | dnssd/src/main/java/com/github/danieln/dnssdjava/UnicastDnsSDBrowser.java:52-101 | Whatever a lookup may answer, it is the registered host and port, and the registered properties if and only if every key is readable, for every lawful lower-casing; nothing exactly if the service is not registered |
| `Discovery.LookupFindsProperty` | dnssd/src/main/java/com/github/danieln/dnssdjava/UnicastDnsSDBrowser.java:79-96 | A registered property with a value is found under its key in lower case, whatever its capitals, and with its own value unless an earlier property reads as the same key; for every lower-casing |
| `Discovery.PropertiesWereRegistered` | dnssd/src/main/java/com/github/danieln/dnssdjava/UnicastDnsSDBrowser.java:79-96 | Every property found is one that a registered property reads as |
| `Discovery.DnsNameFound` | dnssd/src/main/java/com/github/danieln/dnssdjava/ServiceName.java:124-133 | The name a service registers under is read back as the service |
| `Browsers.Browser.GetServiceInstances` | dnssd/src/main/java/com/github/danieln/dnssdjava/UnicastDnsSDBrowser.java:105-111 | The services found in all domains browsed, each as often as pointers name it; where transports are in canonical case or subtypes are given, once for each domain in which it is found |
| `Browsers.Browser.InstancesInDomain` | dnssd/src/main/java/com/github/danieln/dnssdjava/UnicastDnsSDBrowser.java:166-178 | What is found under the type, once for each pointer, or with subtypes the union of what is found under them, each service once |
| `Browsers.Browser.Collect` | dnssd/src/main/java/com/github/danieln/dnssdjava/UnicastDnsSDBrowser.java:187-208 | Every valid target once for each pointer, invalid ones skipped |
| `Browsers.FromDnsNameMeans` | dnssd/src/main/java/com/github/danieln/dnssdjava/UnicastDnsSDBrowser.java:187-208 | A target is valid exactly if it has three labels and the third is that of a transport in any letter case; the rest is the domain |
| `Browsers.TypeFromNameMeans` | dnssd/src/main/java/com/github/danieln/dnssdjava/UnicastDnsSDBrowser.java:130-154 | The same of the names of types |
| `Browsers.Browser.GetServiceTypes` | dnssd/src/main/java/com/github/danieln/dnssdjava/UnicastDnsSDBrowser.java:114-120 | The types listed in all domains browsed |
| `Browsers.Browser.TypesInDomain` | dnssd/src/main/java/com/github/danieln/dnssdjava/UnicastDnsSDBrowser.java:130-154 | The listed types of one domain, invalid ones skipped |
| `Browsers.Browser.GetServiceData` | dnssd/src/main/java/com/github/danieln/dnssdjava/UnicastDnsSDBrowser.java:52-101 | Nothing without an SRV record; else host and port of one, and the properties of one TXT record if there is any |
| `ServiceNames.NameRoundTrip` | dnssd/src/main/java/com/github/danieln/dnssdjava/ServiceName.java:203-210 | Parsing undoes printing, for every instance name, if and only if the type has no dot or comma, the domain no comma, and no subtype is empty or has a comma |
| `ServiceNames.ParseIsIdempotent` | dnssd/src/main/java/com/github/danieln/dnssdjava/ServiceName.java:52-80 | For every accepted string, printing the value and parsing again gives the same value, subtypes included |
| `ServiceNames.ParseMeans` | dnssd/src/main/java/com/github/danieln/dnssdjava/ServiceName.java:52-80 | Exactly what is accepted, and as what: an escaped name up to its first free dot, a type with one dot, and a domain up to the first comma, whose subtypes replace those of the type |
| `ServiceNames.ParseWritten` | dnssd/src/main/java/com/github/danieln/dnssdjava/ServiceName.java:52-80 | Parsing drops escapes, takes the transport in any letter case, and keeps subtypes written before the domain unless there are some after it |
| `ServiceNames.ParsedNamePrintable` | dnssd/src/main/java/com/github/danieln/dnssdjava/ServiceName.java:52-80 | Every value that parsing accepts can be printed and parsed back |
| `ServiceNames.EscapeMeans` | dnssd/src/main/java/com/github/danieln/dnssdjava/ServiceName.java:219-221 | Escaping adds one backslash for each dot and backslash, so that a name without any is printed as it stands |
| `ServiceNames.UnescapeEscape` | dnssd/src/main/java/com/github/danieln/dnssdjava/ServiceName.java:113-115 | Unescaping undoes escaping (section 4.3 of RFC 6763) for every string |
| `ServiceNames.UnescapeFirst` | dnssd/src/main/java/com/github/danieln/dnssdjava/ServiceName.java:113-115 | Of any string: the first backslash goes and the character after it stays, unless it ends a line, and then the rest is unescaped |
| `ServiceNames.UnescapePlain` | dnssd/src/main/java/com/github/danieln/dnssdjava/ServiceName.java:113-115 | Without backslashes nothing changes, nor for one at the end |
| `ServiceNames.DotAfterEscape` | dnssd/src/main/java/com/github/danieln/dnssdjava/ServiceName.java:219-221 | The first dot that is not escaped is the one after the escaped name |
| `ServiceNames.IndexOfNonEscaped` | dnssd/src/main/java/com/github/danieln/dnssdjava/ServiceName.java:92-102 | The loop finds the first occurrence that an even number of backslashes comes right before |
| `ServiceNames.PrintLoop` | dnssd/src/main/java/com/github/danieln/dnssdjava/ServiceName.java:203-210 | The appending loop prints the name, type, domain and subtypes; a name without dots and backslashes as it stands |
| `ServiceTypes.TypeRoundTrip` | dnssd/src/main/java/com/github/danieln/dnssdjava/ServiceType.java:72-93 | Parsing undoes printing of a type if and only if it has no dot or comma and no subtype is empty or has a comma |
| `ServiceTypes.ValueOfMeans` | dnssd/src/main/java/com/github/danieln/dnssdjava/ServiceType.java:72-93 | Exactly what is accepted as a type, and as what: a protocol without dot or comma, a dot, a transport in any letter case, and perhaps a comma and subtypes |
| `ServiceTypes.ParseSubtypesMeans` | dnssd/src/main/java/com/github/danieln/dnssdjava/ServiceType.java:82-91 | Of the pieces between commas the empty ones at the end are left out, and any other empty one fails |
| `ServiceTypes.ValueOfPrinted` | dnssd/src/main/java/com/github/danieln/dnssdjava/ServiceType.java:72-93 | A printed type is parsed back, whatever the letter case of its transport |
| `ServiceTypes.ParsedPrintable` | dnssd/src/main/java/com/github/danieln/dnssdjava/ServiceType.java:72-93 | Every parsed type can be printed and parsed back |
| `ServiceTypes.FromLabelOf` | dnssd/src/main/java/com/github/danieln/dnssdjava/ServiceType.java:247-254 | A label is accepted exactly if it is that of a transport up to letter case |
| `Strings.SplitMeans` | dnssd/src/main/java/com/github/danieln/dnssdjava/ServiceType.java:84 | Splitting any pieces joined by commas gives them back without the empty ones at the end, unless there is just one |
| `Strings.SplitOfJoin` | dnssd/src/main/java/com/github/danieln/dnssdjava/ServiceType.java:84 | Splitting at commas undoes joining of non-empty pieces without commas |
| `DnsLabels.EncodeName` | dnssd/src/main/java/com/github/danieln/dnssdjava/ServiceName.java:248-259 | For every string: a label is its length, the UTF-8 bytes with a question mark for each lone surrogate, and a closing zero; it fails exactly above 63 bytes, and decoding gives the name back if and only if it has no lone surrogate |
| `DnsLabels.LabelsDiffer` | dnssd/src/main/java/com/github/danieln/dnssdjava/ServiceName.java:248-259 | Two names have the same label exactly if they are the same once each lone surrogate is a question mark; names without any have labels of their own |
| `TxtRecord.TxtRoundTrip` | dnssd/src/main/java/com/github/danieln/dnssdjava/UnicastDnsSDRegistrator.java:191-203 | Properties survive registration and lookup, in any order and with a missing value distinct from an empty one, if and only if every key is non-empty, has no '=', and if it has a value is its own lower case; for every lawful lower-casing, that is one that is idempotent, empties no key and adds no '=' |
| `TxtRecord.BuildTxt` | dnssd/src/main/java/com/github/danieln/dnssdjava/UnicastDnsSDRegistrator.java:191-203 | One string for each property, or one empty string for none: never no string |
| `TxtRecord.ReadTxt` | dnssd/src/main/java/com/github/danieln/dnssdjava/UnicastDnsSDBrowser.java:79-96 | Of any strings: a key is read exactly if some string is a non-empty text without '=' that has it as lower case, then '=' and a value, or is the key itself without '='; its value is that of the first such string |
| `TxtRecord.AllReadIsReadable` | dnssd/src/main/java/com/github/danieln/dnssdjava/UnicastDnsSDBrowser.java:79-96 | Whatever is read back is readable again |
| `TokenGroups.EqualNotTransitive` | core-common/src/main/java/eu/arrowhead/common/database/ArrowheadService.java:141-162 | Service equality is not transitive |
| `TokenGroups.ConvertOfList` | core-common/src/main/java/eu/arrowhead/common/messages/TokenGenHelper.java:48-70 | One group for each chosen service; its providers are, in order, those of the forms with token security whose service is the same object, or has the same definition and an interface in common or one without any |
| `TokenGroups.DefinitionsPart` | core-common/src/main/java/eu/arrowhead/common/database/ArrowheadService.java:141-162 | Forms with different definitions share no group |
| `TokenGroups.TogetherIff` | core-common/src/main/java/eu/arrowhead/common/database/ArrowheadService.java:141-162 | Where equality is transitive, two secured forms are in one group exactly if they have one definition and an interface in common or one without any |
| `TokenGroups.TwoForms` | core-common/src/main/java/eu/arrowhead/common/messages/TokenGenHelper.java:48-70 | Two secured forms alone make one group if so, and else two |
| `TokenGroups.ChosenUnequal` | core-common/src/main/java/eu/arrowhead/common/messages/TokenGenHelper.java:49-55 | No two chosen services are equal |
| `TokenGroups.ChosenCovers` | core-common/src/main/java/eu/arrowhead/common/messages/TokenGenHelper.java:49-55 | Every token-secured form equals a chosen service |
| `TokenGroups.ChosenFromForms` | core-common/src/main/java/eu/arrowhead/common/messages/TokenGenHelper.java:49-55 | Every chosen service is that of a token-secured form |
| `TokenGroups.GroupsPartition` | core-common/src/main/java/eu/arrowhead/common/messages/TokenGenHelper.java:57-67 | Where equality is transitive on the token-secured forms, each of them is in exactly one group |
| `TokenGroups.FormInTwoGroups` | core-common/src/main/java/eu/arrowhead/common/messages/TokenGenHelper.java:57-67 | Wherever it is not transitive, an order of the forms that has two unequal ones first puts a third in both their groups |
| `TokenGroups.UpdateFormsWithTokens` | core-common/src/main/java/eu/arrowhead/common/messages/TokenGenHelper.java:72-81 | Every form gets the last token whose system has the name, address and port of its provider and whose service counts as its own, and keeps what it had if there is none |
| `TokenGeneration.GetProviderPublicKeys` | authorization/src/main/java/eu/arrowhead/core/authorization/TokenGenerationService.java:154-183 | One key or none for each provider, in order; fails exactly if there is no key at all |
| `TokenGeneration.GenerateTokens` | authorization/src/main/java/eu/arrowhead/core/authorization/TokenGenerationService.java:41-151 | The token of every provider whose info is serialized, in order; fails without any key, with the error of the first serialization that throws, or without any token |
| `TokenGeneration.AlignedIffNoneSkipped` | authorization/src/main/java/eu/arrowhead/core/authorization/TokenGenerationService.java:69-135 | The list has one place for each provider, in order, if and only if none was skipped for a serialization that gives nothing |
| `TokenGeneration.NeverSkipped` | core-common/src/main/java/eu/arrowhead/common/Utility.java:384-404 | None is skipped: serializing a token info gives text or throws, never nothing, so the list is always aligned |
| `TokenGeneration.PairedWithOwnKey` | authorization/src/main/java/eu/arrowhead/core/authorization/AuthorizationResource.java:179-185 | A provider and a token are paired if and only if the token was made for that provider with its own key |
| `TokenGeneration.TokenGenerationResponse` | authorization/src/main/java/eu/arrowhead/core/authorization/AuthorizationResource.java:173-189 | The response, if there is one, has one pair for each place for which a token was made, in the order of the providers: the provider, and the token made with its own key from an info of at most 244 characters; else the error is that of the generation |
| `TokenGeneration.SomeTokenMade` | authorization/src/main/java/eu/arrowhead/core/authorization/TokenGenerationService.java:137-148 | The list holds a token exactly if one was made for some provider with its own key |
| `GatewayPorts.SafeIffNoHarm` | gateway/src/main/java/eu/arrowhead/core/gateway/thread/SecureServerSocketThread.java:98-127 | Over any run of connections and closes, repeated ones included: no two callers hold one port, and no next connection could make two, if and only if no caller closes again while another holds the port that it was given |
| `GatewayPorts.ExclusiveIffNotStolen` | gateway/src/main/java/eu/arrowhead/core/gateway/thread/SecureServerSocketThread.java:98-127 | Within the run itself: two callers hold one port at some time if and only if a repeated close frees the port under its holder and a later connection is given it while it is still held |
| `GatewayPorts.TwoHolders` | gateway/src/main/java/eu/arrowhead/core/gateway/thread/SecureServerSocketThread.java:98-127 | A run on a range of one port in which the second close of one caller lets two others hold the port |
| `GatewayPorts.UnharmedConserved` | gateway/src/main/java/eu/arrowhead/core/gateway/GatewayService.java:192-228 | While no repeated close does harm, free and held ports together are always as many as the range has, and none is free exactly if every one is held |
| `GatewayPorts.SessionsOfHolders` | gateway/src/main/java/eu/arrowhead/core/gateway/GatewayResource.java:87-112 | In every run in which connections bring queue names of their own, harmful closes included, a session is recorded, with its port, exactly while its caller holds the port |
| `GatewayPorts.Gateway.constructor` | gateway/src/main/java/eu/arrowhead/core/gateway/GatewayService.java:192-197 | Every port of the range is free at first, and no other is known |
| `GatewayPorts.Gateway.GetAvailablePort` | gateway/src/main/java/eu/arrowhead/core/gateway/GatewayService.java:204-222 | Some free port, now reserved and nothing else changed; fails exactly if none is free |
| `GatewayPorts.Gateway.ConsumerSideClose` | gateway/src/main/java/eu/arrowhead/core/gateway/GatewayService.java:224-228 | For a first or a repeated close the step of the runs: the port is marked free and the session removed |
| `GatewayPorts.Gateway.ConnectToConsumer` | gateway/src/main/java/eu/arrowhead/core/gateway/GatewayResource.java:87-112 | A step that the runs allow: a free port is reserved and the session recorded; both stay if the channel fails to open |
| `GatewayPorts.PortsConserved` | gateway/src/main/java/eu/arrowhead/core/gateway/GatewayService.java:192-228 | In every state where a port is free exactly while nobody holds it and no two hold one, free and held ports are as many as the range has |
| `NetworkMask.CalculateNetworkAddress` | dnssd/src/main/java/com/github/danieln/dnssdjava/DomainUtil.java:90-101 | The array holds the network address, computed in place |
| `NetworkMask.NetworkBits` | dnssd/src/main/java/com/github/danieln/dnssdjava/DomainUtil.java:90-101 | For every prefix length, exactly the bits before it are kept and all later bits are zero |
| `NetworkMask.HasMask` | dnssd/src/main/java/com/github/danieln/dnssdjava/DomainUtil.java:96 | The shifted mask keeps the first bits of a byte |
| `NetworkMask.NetworkOfNetwork` | dnssd/src/main/java/com/github/danieln/dnssdjava/DomainUtil.java:90-101 | Of two prefixes applied in turn the shorter one counts; twice the same is the same as once |

## Left out

- The trie's mutable-owner mode: the updates in place that `withMutations` makes. The owner that the conversion of an
  array map creates only ever changes nodes of its own, so its result is modelled by rebuilding.
- Iteration, merging and the other collection types of the bundle. Keys are compared by one equality that the hash
  respects, and a key that is set again is the same key; values are compared by equality, so NaN is no value.
- The order of entries in a collision node or array map is kept as the code has it, but nothing is stated about it.
- `Utf8.DecodeUndoesEncode`: the byte limit that the encoder also takes is not modelled, so every string is encoded whole.
- `StringDecoder` for the encodings utf16le and base64, which share only the field names with the UTF-8 one.
- The events of a stream, its high-water mark, and a push that a flowing stream with nothing held passes straight on. What
  listeners do while chunks are handed out is the next event of a run.
- Slices of a `Buffer` share memory with it; chunks here are values, so writing through a slice is not modelled.
- `LruQueues.LruQueue.Hit`: indices are unbounded, where the code counts in double-precision numbers.
- DNS time-to-live: records carry none here, so the registrator's `timeToLive`, and its refresh when a record is added
  again, are not part of this model.
- Names are label sequences in canonical letter case. Escapes in domain texts, names of more than 255 bytes, and splitting
  of long TXT strings are not part of this model; the letter case of a found name is the canonical one. The lower-casing
  of property keys is a parameter, whose laws are named in `TxtRecord`.
- The one instance name that collides with the name of the service list is excluded, and the domain of a service is that
  of its registrator.
- Updates or answers lost on the way, the resolver cache, transaction signatures, and SOA and NS records at the zone apex.
- `Registrators.Registrator.UnregisterService`: a refused second update is only logged by the code, and here ignored.
- `getLocalHostName`, `makeServiceName` and the search for the update server: I/O or plain construction.
- `TokenGroups.GroupsPartition`: transitivity is asked because it decides for all orders of the forms; in a given order the
  groups can partition them without it.
- The contents of the token info, and the cryptography that seals it, are functions of the environment; an exception while
  sealing is a sealing without result, and one while serializing ends the call.
- `GatewayPorts.Gateway.GetAvailablePort`: the scan for a free port and its reservation are one step, where the code does
  not synchronize them.
- Sockets, channels and threads of the gateway: closing them does not change the ports. Which thread closes is given by
  the event, so a caller may close any number of times.
- `GatewayPorts.SessionsOfHolders`: queue names are taken to differ between connections; the gateway is given them.
- The Swagger user interface, the HTTP resources and filters, persistence, the orchestrator and the start-up code.
