# The Tarantool connector for PHP, modelled and proved in Dafny

The extension speaks the client side of the Tarantool wire protocol. This project models its four
layers and proves what each of them promises, and what they promise together over whole runs.

| module | part of the extension |
|---|---|
| `Bytes`, `Wire` | host and wire integers; the MessagePack format (section "Formats" of the MessagePack specification) as trees, heads, encoders, a recursive reader and the counter loop that steps over a value |
| `Php` | PHP arrays, values and the heap of arrays; the list/hash classifier; the graph of arrays |
| `SmartString` | the growing output buffer |
| `Packing`, `Recursion` | serialising and sizing over arrays that are shared and cyclic, with the recursion marks; how deep it goes and when the guard fires |
| `Unpacking`, `RoundTrip` | the cursor decoder, and the round trip |
| `Protocol`, `Requests`, `Updates`, `Calls` | frames, fixed-size requests, update/upsert with the length patched in afterwards, and the calls they belong to |
| `Response` | the streaming reply parser and the unpack-then-look-up reader |
| `IndexParts`, `SchemaTuples` | catalogue tuples and the two forms of index parts, read from bytes |
| `SchemaTables`, `Schema`, `SchemaCache`, `SchemaHistory` | the schema cache: byte-keyed tables with shared content and nested tables, its refinement to plain maps, and flushing with all memory accounted for |
| `TpCapacity`, `TpWriter` | the second request writer, and when it stays inside the buffer it shares |
| `Network`, `Connection`, `Runs` | streams with arbitrary short reads and failures, the connection, and whole runs |
| `Iterators`, `Examples` | iterator names; inputs on which a promise fails |

Code that changes things step by step is a class or a method here: the buffer, the cursor, the
recursion marks, the cache, the request writer, the stream and the connection. The wire format and
what tuples, replies and operations mean are functions on trees, and every method is tied to them.

Points where the model makes the environment explicit:

* `Network.Stream` may bring any number of bytes per read or none, and may refuse any write. Each time it
  does, and each time a stream cannot be opened or is found closed, counts as a fault
  (`Connection.Connection.Faults`), so that one can say what happens without any. The
  server is an arbitrary function from the requests of a session to the reply of the last one; all
  that is asked of it (`Connection.Honest`) is that a reply whose header can be read names the sync
  of its request. Its replies may be errors or not be readable at all.
* Buffers may grow by any amount that covers what was asked for. Growth is sure to keep only the bytes
  that the buffer's length counts, for the packing routines (`SmartString.SmartString.Alloc`) and for the
  second writer alike. The size that the second writer never sets may have any value.
* Memory of the schema cache is a set of numbered live blocks. `SchemaCache.Cache.Free` requires its
  block to be live, and looking at keys (`SchemaTables.Find`) requires every key it may look at to be
  live, so verifying the cache shows that nothing is released twice or read after its release.
* New entries of a hash table go to any free slot, so what is proved of flushing holds for every order.

Where the code does something other than its names or documentation suggest, the code is followed:

* An array whose size is its next free index is taken for a list even if a key is negative; such an
  array loses elements (`Examples.NegativeKeyIsLost`; `RoundTrip.RoundTripExactly` has the exact condition).
* The recursion guard marks only arrays held directly, so a cycle through references alone is not
  noticed (`Examples.SelfReferenceIsSilent`; `Recursion.DepthBoundedExactly` has the exact condition).
* A space whose name is the four bytes of another id hides that id
  (`SchemaHistory.ClashingName`; `SchemaTables.LookupsExactly` has the exact condition).
* Replacing a record of the cache, or a tuple that fails half way, loses memory for good
  (`SchemaHistory.ReplacedIdLeaks`; `SchemaHistory.Run`: a flush releases everything if and only if that
  never happened).
* The streaming parser refuses a reply with a header value that is no unsigned integer, also under a key
  that nobody knows, while the reader of the data calls looks only at the sync and the code
  (`Response.UnknownKeySetsApart`; `Response.StreamExactly` has the exact condition and
  `Response.ReadersApartExactly` says when a data call succeeds on what a fetch refuses).
* A catalogue tuple with more fields than the cache knows is not skipped to its end
  (`SchemaHistory.WideTupleRefused`).
* A request that could not be sent stays in the buffer and goes out again before the next one; the
  sync check then closes the connection (`Connection.SoleReply`).
* The second writer asks for room by a length that does not count what it has written, and forgets
  where its buffer ends once it has asked. A space name of 110 bytes makes it write 13 bytes behind a
  buffer of 128 (`TpCapacity.LongNameOverruns`, `Connection.LongNameEscapes`).
  `TpCapacity.RequestInsideExactly` has the exact condition for staying inside, and
  `TpCapacity.RequestWholeExactly` for also keeping every byte when the buffer grows. A run of calls
  (`Runs.Run`) is followed up to the first catalogue request that does not fit, is cut short or outlives
  a growth; with space names of up to 97 bytes, index names of up to 88 and logins of up to 20 there is
  none.

## Model

| member | source | states |
|---|---|---|
| Wire.ParseInverts | src/tarantool_msgpack.c:177-209 | every encodable tree, followed by anything, reads back as itself and leaves exactly what follows |
| Wire.Cursor.Next | src/third_party/msgpuck.h:1743-1840 | stepping over a value by counting values still to come stops where the recursive reader stops |
| Wire.ParseLocal | src/tarantool_proto.c:333-338 | reading a value depends on its own bytes only, so the slice of a value reads as that value |
| Wire.OtherNumbers | src/third_party/msgpuck.h:1281-1326 | numbers are read in every width and sign, also where the encoders would write them shorter |
| Wire.OtherData | src/third_party/msgpuck.h:1743-1840 | longer text heads and binary data are read, and extensions of every size are stepped over |
| SmartString.SmartString.Ensure | src/tarantool_msgpack.c:14-25 | room for the bytes asked for, contents kept, and never more bytes moved in total than the present capacity |
| SmartString.SmartString.Append | src/tarantool_msgpack.c:33-94 | appends inside the capacity and keeps all earlier bytes |
| Php.PhpMpIsHash | src/tarantool_msgpack.c:96-116 | a list is an array whose size is its next free index and that has no string key |
| Php.ListKeysDense | src/tarantool_msgpack.c:96-136 | an array taken for a list has exactly the keys 0..n-1 if and only if no key is negative |
| Packing.Serializer.Pack | src/tarantool_msgpack.c:118-209 | appends the encoding of the value's image, restores every mark, terminates on cyclic heaps |
| Packing.Serializer.Sizeof | src/tarantool_msgpack.c:395-489 | exactly the number of bytes `Pack` appends, guard nils, references and unsupported types included |
| Packing.EnterDecreases | src/php_tarantool.h:71-91 | passing the guard lowers the pair of unmarked arrays and rank along reference-only edges |
| Recursion.DepthBoundedExactly | src/tarantool_msgpack.c:118-175 | calls nest at most (n+1)^2 deep on a heap of n arrays if and only if every cycle has a direct element |
| Recursion.GuardFiresExactlyOnCycles | src/tarantool_msgpack.c:126-172 | a guard nil is written somewhere below an array if and only if a cycle can be reached from it |
| Unpacking.Unpack | src/tarantool_msgpack.c:327-354 | the cursor decoder yields the value of the tree at the cursor and stops just behind it |
| Unpacking.UnpackArray | src/tarantool_msgpack.c:313-325 | the elements of a list in order, or failure exactly when one of them cannot be unpacked |
| Unpacking.UnpackMap | src/tarantool_msgpack.c:271-311 | pairs are inserted in order under their PHP keys, the last one winning; which key a text is, is told by the next row |
| Unpacking.TextKeyExactly | src/tarantool_msgpack.c:285-292 | a value under a text key is stored under an integer if and only if the text, up to its first NUL, is the decimal text of that integer and PHP can hold it; otherwise under the text |
| Unpacking.DecimalKey | src/tarantool_msgpack.c:285-292 | a map with the decimal text of an integer as its key unpacks like one with the integer itself, from -2^63 to 2^63 - 1 |
| RoundTrip.RoundTripExactly | src/tarantool_msgpack.c:177-354 | packed and followed by anything, a value is unpacked up to its end; it is the same mapping if and only if no array below it is cyclic, has a text key that holds a NUL or is the text of an integer, or is a list with a negative key |
| RoundTrip.ReadBack | src/tarantool_msgpack.c:118-354 | the same for any set of marks: what comes back is the value exactly when no guard fired and all keys survive |
| RoundTrip.ShapeExactly | src/tarantool_msgpack.c:96-175 | an array goes out as an array if and only if it is empty, or as long as its next free index and without text keys; then element i is the one under number i, otherwise keys and elements go in order |
| Examples.NegativeKeyIsLost | src/tarantool_msgpack.c:96-136 | an array with keys -1 and 1 is taken for a list and does not come back |
| Examples.SelfReferenceIsSilent | src/php_tarantool.h:71-91 | a heap on which the guard cannot stop the recursion |
| Examples.Numbers | src/third_party/msgpuck.h:1221-1248 | 0x7f, 0x80, 0x1234, 2^16 and 2^32, byte by byte |
| Examples.NegativeNumbers | src/third_party/msgpuck.h:1250-1279 | -1, -32, -33 and -129, byte by byte |
| Examples.Heads | src/third_party/msgpuck.h:1043-1137 | the heads of nil, truth values, text, arrays and maps, byte by byte |
| Examples.PingFrame | src/tarantool_proto.c:65-75 | a ping with sync 5, byte by byte |
| Examples.TextKeys | src/tarantool_msgpack.c:285-292 | "12", "-7" and "0" are texts of integers, "012", "-0" and "+1" are not |
| Examples.OldTypeNames | src/tarantool_schema.c:237-259 | "num", "str" and "*" stand for types, and so does no name at all |
| Protocol.SplitInvertsFrames | src/tarantool_msgpack.c:497-511 | any list of payloads written as frames is cut back into the same list by the five-byte prefixes alone |
| Protocol.PackageSizeInverts | src/tarantool_msgpack.c:497-511 | the length read from a prefix is the length written |
| Protocol.PayloadDecodes | src/tarantool_proto.c:9-27 | a request reads back as its code, sync and body map with nothing left over |
| Requests.EncodePing | src/tarantool_proto.c:65-75 | appends one frame whose length fits, holding only a header |
| Requests.SelectSizeSymmetric | src/tarantool_proto.c:77-113 | the size of a select is the same with limit and offset exchanged |
| Requests.EncodeSelect | src/tarantool_proto.c:77-120 | appends one frame with the right length and all arguments in their places, although the size is asked for with two of them exchanged |
| Requests.SelectReads | src/tarantool_proto.c:97-120 | reading a select back gives the code 0x01, the sync, and the space under 0x10, index under 0x11, limit under 0x12, offset under 0x13, iterator under 0x14 and key under 0x20, and nothing else |
| Requests.EncodeInsertOrReplace | src/tarantool_proto.c:122-144 | appends the frame of the insert or replace with the length that follows |
| Requests.EncodeDelete | src/tarantool_proto.c:146-173 | appends the frame of the delete with the length that follows |
| Requests.TupleReads | src/tarantool_proto.c:122-144 | an insert or replace reads back with its space and tuple |
| Requests.DeleteReads | src/tarantool_proto.c:146-173 | a delete reads back with its space, index and key |
| Requests.ProcReads | src/tarantool_proto.c:175-229 | a call or eval reads back with its name or expression and its arguments |
| Requests.EncodeProc | src/tarantool_proto.c:175-229 | the same for call, call_16 and eval |
| Updates.WriteOp | src/tarantool.c:842-963 | an operation is written as its array of three or five, or nothing is written and it is rejected or reported |
| Updates.SpliceWritten | src/tarantool.c:867-899 | five entries op ":", field, offset, length and list are written as [":", field, offset, length, list] |
| Updates.OtherWritten | src/tarantool.c:900-955 | three entries op, field and arg are written as [op, field, image of arg] |
| Updates.OpExactly | src/tarantool.c:842-963 | a map is written if and only if it is one of these two: the arithmetic and bit operators take an integer or a double, # an integer, = and ! anything serializable, and the field is a number or a cached name; it is reported if and only if it is a list |
| Updates.WriteOps | src/tarantool.c:967-992 | fails exactly if an operation is rejected; without failure and report, the array of all operations in order is written |
| Updates.EncodeWithOps | src/tarantool.c:1607-1622 | on failure the buffer is as before; otherwise it gains one frame whose patched length is right, whatever was reallocated |
| Updates.OpsFrameDecodes | src/tarantool_proto.c:231-286 | that frame reads back as the request with its arguments under their keys and exactly the n operations, operation i being the element under number i, each of arity 3 or 5 |
| Updates.OpsReads | src/tarantool_proto.c:231-256 | an update has space, index, key and operations under 0x10, 0x11, 0x20 and 0x21, an upsert space, tuple and operations under 0x10, 0x21 and 0x28 |
| Response.TpResponse | src/tarantool_proto.c:288-344 | the streaming loops compute the last sync, code, error and the bytes of the last DATA, and the offset behind the reply |
| Response.ReceiveStep | src/tarantool.c:434-456 | both values of a reply are unpacked one behind the other, or the step that fails is told; the verdict on them is the next row's |
| Response.VerdictExactly | src/tarantool.c:459-512 | an answer comes exactly of the right sync (or none) and code zero, a server error exactly of another code and a text or no text, with the code's low 15 bits; keys in any order, repeated or unknown, with any values under unknown keys |
| Response.StreamExactly | src/tarantool_proto.c:288-344 | the streaming parser accepts two maps with unsigned 32-bit keys if and only if every header value is an unsigned integer, every error a string and all data arrays; then its struct holds the last of each |
| Response.ReadersApartExactly | src/tarantool_proto.c:300-317 | exactly when a data call succeeds on a reply that the streaming parser refuses |
| Response.UnknownKeySetsApart | src/tarantool_proto.c:303-304 | a text under header key 7 makes the streaming parser refuse a reply that the data call accepts |
| Response.ReadersAgree | src/tarantool_proto.c:288-344 | a reply with an error text exactly when its code is not zero is accepted by the streaming parser if and only if its values have the types it looks for, and then both readers agree on sync, success, 15-bit code, error text and data, and the offset is the frame's end |
| Response.HashKeepsLast | src/tarantool_msgpack.c:271-311 | looking a key up in an unpacked map gives the last of its values |
| IndexParts.ParseIndexParts | src/tarantool_schema.c:339-458 | parts are read in the form their first element has, consuming exactly their bytes |
| IndexParts.PartFoldExactly | src/tarantool_schema.c:368-410 | a part in map form is accepted if and only if each pair is, and is then four independent last-value lookups |
| IndexParts.PartOrderIrrelevant | src/tarantool_schema.c:368-410 | the order of distinct keys does not matter, the collation check included |
| IndexParts.FormsAgree | src/tarantool_schema.c:339-458 | the old and the new form of the same fields give the same list of parts |
| IndexParts.PartsExactly | src/tarantool_schema.c:305-458 | a list of parts is accepted if and only if all are in one form and well typed, and gives field number, type, collation and nullability of each, in order |
| IndexParts.TypeNamed | src/tarantool_schema.c:244-259 | each of the thirteen type names, in any case, stands for its number |
| SchemaTuples.ReadSpace | src/tarantool_schema.c:460-529 | a space tuple gives its id and name or fails, and the cursor stops where the code stops, also on tuples that are too wide |
| SchemaTuples.ReadIndex | src/tarantool_schema.c:578-650 | the same for an index tuple and its parts |
| SchemaTuples.SpaceTupleExactly | src/tarantool_schema.c:480-529 | a tuple is taken for the space with this id and name if and only if it has them first and third, and a format of well typed fields if there is a seventh field |
| SchemaTuples.IndexTupleExactly | src/tarantool_schema.c:605-646 | a tuple is taken for an index if and only if it has the space, the id, the name and the parts first, second, third and sixth |
| SchemaTuples.SpaceTupleRead | src/tarantool_schema.c:480-529 | so a tuple of six or seven fields gives its first as id and its third as name |
| SchemaTuples.IndexTupleRead | src/tarantool_schema.c:605-646 | and [space, id, name, type, options, parts] gives exactly these |
| SchemaTables.Put | src/tarantool_schema.c:541-546 | insert or replace in any free slot changes the table at one key only |
| SchemaTables.Detach | src/tarantool_schema.c:168-194 | both keys of a definition leave the table and the blocks to release are the one or two records found there |
| SchemaTables.WithoutTable | src/tarantool_schema.c:164-199 | after a turn of the flush loop every key that is left is in live memory |
| SchemaTables.WithoutComplete | src/tarantool_schema.c:164-199 | and if all memory was within reach before, it still is |
| SchemaTables.LookupsExactly | src/tarantool_schema.c:696-731 | one table answers by name and by number as two maps do if and only if every name that is the bytes of an id belongs to that id |
| SchemaTables.ReasonableApart | src/tarantool_schema.c:537-540 | NUL-free names and ids below 2^24 never collide |
| Schema.FoundLeads | src/tarantool_schema.c:651-654 | the space found for an index is the one with that id or, failing that, the one whose name is its four bytes; while no record was ever replaced, or keys are apart and the id is known, the record found shares that space's content |
| Schema.IndexMirrors | src/tarantool_schema.c:651-665 | an index added to the space found keeps the nested tables and the simple form in step, for every space |
| SchemaCache.Cache.InsertSpace | src/tarantool_schema.c:530-547 | both records of a new space lead to one content with a new index table |
| SchemaCache.Cache.AddSpaces | src/tarantool_schema.c:555-576 | a batch does to the tables what it does to the simple maps, also when it stops half way |
| SchemaCache.Cache.AddIndexes | src/tarantool_schema.c:673-694 | the same for indexes, with unknown spaces refused |
| SchemaCache.Cache.FreeIndexes | src/tarantool_schema.c:72-107 | empties an index table, releasing only its own live blocks, each once, and all of them if none was out of reach |
| SchemaCache.Cache.Flush | src/tarantool_schema.c:164-199 | terminates for every slot order, leaves the table empty, and leaves no live block if and only if none was out of reach |
| SchemaCache.Cache.GetSidByString | src/tarantool_schema.c:696-712 | the answer of the name map, or of the id map for the bytes of an id |
| SchemaCache.Cache.GetSidByNumber | src/tarantool_schema.c:714-731 | the answer of the id map |
| SchemaCache.Cache.GetIidByString | src/tarantool_schema.c:733-759 | the answer of the index-name map of the space |
| SchemaCache.ReasonableAnswer | src/tarantool_schema.c:696-759 | for a NUL-free name and ids below 2^24 that is the plain map lookup |
| SchemaHistory.Run | src/tarantool_schema.c:460-793 | after any history of batches and flushes the cache says what the replayed maps say; a final flush frees all memory exactly if no key was replaced and no tuple failed |
| SchemaHistory.NamesResolve | src/tarantool_schema.c:530-546 | when every name that is the bytes of an id belongs to that id, a name that resolves to n resolves through n too, and n has an index table |
| SchemaHistory.PlainHistory | src/tarantool_schema.c:460-759 | with NUL-free names and ids below 2^24 the two kinds of keys are never mixed |
| SchemaHistory.WideTupleRefused | src/tarantool_schema.c:486-526 | a catalogue of several tuples whose first has an eighth field, or a seventh for an index, that is no tuple is refused |
| SchemaHistory.ClashingName | src/tarantool_schema.c:714-731 | asked for id 1, a cache with spaces 1 and 2 answers 2 when the name of 2 is the four bytes of 1 |
| SchemaHistory.ReplacedIdLeaks | src/tarantool_schema.c:541-546 | after two spaces under one id and a flush, some memory is still held |
| SchemaHistory.CatalogHeld | src/tarantool_schema.c:555-694 | a catalogue with unique names and ids, added to a flushed cache, is what the cache holds, and nothing else |
| SchemaHistory.CatalogAnswers | src/tarantool_schema.c:696-759 | a cache that holds a catalogue answers every name, number and index name of it; any key that answers is one of its names or the four bytes of one of its ids, so other NUL-free names and other numbers below 2^24 get -1 |
| Iterators.BranchesAreTable | src/tarantool_proto.c:346-446 | the nested branches are a case-insensitive lookup in the table of names, for every string |
| Network.Stream.ReadExactly | src/tarantool_network.c:126-141 | whatever the chunks, what is read is the next bytes of the stream, in order, and fewer than asked for only after a fault |
| TpCapacity.AdditionInsideExactly | src/tarantool_tp.c:12-23 | one addition stays inside for every allowed growth and every value of the unset size if and only if it fits, or room is asked for, the buffer grows, and the growth makes up for the bytes not counted |
| TpCapacity.UnsetEndExactly | src/third_party/tp.h:847-866 | once the end pointer may be anything, an addition stays inside in every case if and only if it simply fits |
| TpCapacity.RequestInsideExactly | src/tarantool_tp.c:12-50 | the same for a whole request, from capacity, length, bytes used and the sizes of its additions |
| TpCapacity.RequestWholeExactly | src/tarantool_tp.c:12-50 | a whole request stays inside and keeps all its bytes in every case if and only if it fits, or it grows once by enough and what was written before lies within the length the buffer counts |
| TpCapacity.LongNameOverruns | src/tarantool_tp.c:12-23 | additions of 28, 1 and 112 bytes to a buffer of 128 that counts none of them end at 141 |
| Connection.LongNameEscapes | src/tarantool.c:666-669 | these are the additions of a fetch by a space name of 110 bytes |
| TpWriter.Tp.Claim | src/third_party/tp.h:847-866 | asking for room ends in one of four ways: the bytes fit, an overrun is possible, the addition is refused, or a growth may have forgotten bytes the buffer did not count |
| TpWriter.Tp.Add | src/third_party/tp.h:872-881 | while the writer is inside its buffer and no growth has forgotten a byte, the length of the open frame is right after every addition and earlier frames are untouched |
| TpWriter.Tp.Fetch | src/tarantool.c:657-672 | one whole catalogue request with its key and sync behind the frames written before, or an end that its sizes and the room do not exclude |
| TpWriter.FetchTotal | src/third_party/tp.h:925-966 | the exact length of a catalogue request |
| TpWriter.TpDecodes | src/third_party/tp.h:925-966 | such a frame reads back as its code, sync and body although its sync is not in shortest form |
| TpWriter.FetchReads | src/third_party/tp.h:925-966 | a catalogue request reads back as a select of its space and index with limit 4096, offset 0 and its key |
| TpWriter.AuthReads | src/third_party/tp.h:1279-1337 | an authentication reads back with the login, and with chap-sha1 and the scramble if there is one |
| Connection.OtherSyncCloses | src/tarantool.c:462-469 | the reply to another request is always refused |
| Connection.SoleReply | src/tarantool.c:133-145 | a reply is accepted only if no older request was waiting in the buffer |
| Connection.Connection.Transmit | src/tarantool.c:133-145 | a sent buffer is emptied and all its requests will be answered; a failed one closes the stream and stays |
| Connection.Connection.Receive | src/tarantool.c:225-239 | one whole reply is taken off the stream, or the stream is closed |
| Connection.Connection.StepReceive | src/tarantool.c:407-512 | a data call succeeds only with the reply to its own request, and leaves the stream closed or without unread bytes |
| Connection.Connection.ReadReply | src/tarantool.c:679-698 | a fetch that compares no sync still reads its own reply |
| Connection.Connection.Fetch | src/tarantool.c:651-698 | one catalogue request is sent alone, with the next sync, and its own reply brings the data; it brings none only after a fault or for a reply that cannot be used; it never overruns or forgets a byte where the exact conditions hold, and goes out whole where it fits |
| Connection.SpaceRequestReads | src/tarantool.c:648-672 | a space is asked for in space 281, by its name in index 2 or by its number in index 0 |
| Connection.IndexRequestReads | src/tarantool.c:738-746 | an index is asked for in space 289, index 2, by its sign-extended space and its name |
| Connection.LoginTotal | src/tarantool.c:1229-1245 | the exact room the three requests of an authentication take |
| Connection.Connection.GetSpaceNo | src/tarantool.c:646-723 | a space the cache knows is answered without sending or changing anything; otherwise one fetch is sent, a number comes from the cache after that fetch's own reply has been added to it, and there is none only after a fault or when that reply did not help |
| Connection.Connection.GetIndexNo | src/tarantool.c:725-783 | the same for an index, under the number of its space, which is sent sign-extended; a number is taken as an `int`, and no space of the cache changes |
| Connection.FedMore | src/tarantool.c:1275-1289 | replies of an authentication that carry no error reach the cache by their sync |
| Connection.Connection.Drain | src/tarantool.c:1250-1291 | all three replies are read whichever of them fails, unless the stream is closed |
| Connection.Connection.Authenticate | src/tarantool.c:1225-1292 | asks with three syncs in a row for the login with this name and scramble and for everything in spaces 281 and 289; success leaves in the cache exactly what the two replies bring after a flush, and without a fault failure means that one of the three replies is refused or brings no catalogue |
| Connection.Connection.Connect | src/tarantool.c:253-318 | with a login and a password, a new session begins with these three requests and nothing else, and the cache is what they brought; without, with no request and an unchanged cache |
| Connection.Connection.ConnectOnDemand | src/tarantool.c:63-69 | an open stream is kept as it is; a stream that is closed, or found closed, is replaced by a new session that is logged in |
| Connection.Connection.Reconnect | src/tarantool.c:1210-1223 | connecting keeps an open stream, reconnecting never does; a new session is logged in |
| Connection.Connection.SignIn | src/tarantool.c:1294-1311 | after success the last three requests are the login under the new name and the cache is what they brought, and later sessions will present it |
| Calls.Encode | src/tarantool.c:1404-1409 | each of the calls appends one frame with its own arguments, or nothing if an operation is rejected |
| Calls.CallReads | src/tarantool_proto.c:65-256 | each of the calls reads back with its own number and each argument under the key of the protocol it belongs to, and nothing else |
| Connection.Connection.Enqueue | src/tarantool.c:1406-1410 | the request of a call goes behind what is waiting, under the next sync |
| Connection.Connection.Perform | src/tarantool.c:1345-1418 | a data call from its arguments to its DATA: success is the answer to its own request, which asks what the call asks, under its own new sync, for the very space and index its arguments resolve to, in a session that begins with the login; with nothing waiting and no fault it fails only for a refused login, a name that a fetch did not resolve, a rejected operation, or a reply that is no answer or has no DATA; short names never outgrow the buffer |
| Runs.Run | src/tarantool.c:133-145 | over any run with failures anywhere, up to a catalogue request that its buffer cannot take, every success answers its own call as the last request of its session so far, syncs never repeat, sessions and their requests follow each other, every session the run opens begins with the login that was then to be presented before any success in it, and between calls the stream is closed or drained; with short names and logins the run is followed to its end |
| Runs.Act | src/tarantool.c:1210-1325 | what connecting, reconnecting, authenticating, flushing and closing do to the session and the cache, and that without a fault the first three leave an open stream |
| Runs.CatalogCached | src/tarantool.c:1225-1292 | after a successful authentication the simple form of the cache holds the catalogue that the fields of the server's tuples describe, whatever it held before |
| Runs.LogIn | src/tarantool.c:1225-1292 | an authentication on any connection, with any history, against a server that accepts the login and sends a catalogue fails only for a fault or the buffer; after success every space and index in the fields of the server's tuples resolves by name and number, and all other NUL-free names and numbers below 2^24 get -1 |

## Left out

- PHP engine plumbing: reference counts, object and ini registration, exception classes, persistent connections and their lists.
- Immutable arrays, which are never marked: they hold no references and no cycles, so the guard cannot matter for them. The double visit that the guard allows before PHP 7.3 is not modelled.
- Strings of 2^32 - 5 bytes and more, whose sizes wrap; sync numbers from 2^32 up; frames of 2^32 bytes and more.
- Floats and doubles are their bit patterns; ext values can be stepped over but not unpacked.
- The check of received bytes is the reader's own verdict: the wrap of its counter and its result on a cut-off 16-bit map header are not modelled, nor is the second check, which is given more bytes than are left.
- Network.Stream.Send: a refused write may have sent some bytes; the stream is dropped, so what that session's server makes of them is not modelled.
- Connection.Connection.ParseReply: the streaming parser does not check its input first; on replies that are not two whole values, or whose body has keys other than unsigned integers, its result is left arbitrary and reads beyond the buffer are not modelled.
- Response.TpResponse: asks for two whole values and a body whose keys, if it is a map, are unsigned integers; on other bytes the code reads without looking where they end or what they are.
- Runs.Run: ends at a catalogue request that outgrows its buffer, is cut short by the unset size, or may have lost bytes when the buffer grew; what the code does from there on is not described.
- The bitmap of keys in the reply struct: nothing reads it.
- Header values of replies that are not integers: their code is taken as zero bits.
- Response.StepRecv: an error reply whose body is no map closes the connection here, and an answer whose body is no map ends in failure; the code looks into both through a null pointer.
- The text "empty" of an error without a message is written in full; the code gives its length as that of a pointer, and truncation to it is not modelled.
- The scramble of salt and password, the greeting, and what a failed greeting leaves behind; connecting has one outcome, without the retry loop and its sleep.
- `php_tp_encode_auth`: nothing calls it.
- Field names of update operations resolve from the cache; the fetch in the middle of encoding, which reuses the buffer, is not modelled, nor is the lookup of a field by name, which compares prefixes.
- A splice whose length or list is missing counts as rejected; the code reads through a null pointer there.
- Operations that are no map, and operation lists that are no list, raise an error and go on; frames after that are not described.
- mhash itself: probing, the load factor, and a table that is being resized while it is flushed.
- An index tuple that fails before its memory is taken releases through an uninitialised pointer; the model takes nothing and releases nothing. The contents that other failing tuples release are not modelled, only the block they lose.
- Memory exhaustion, and sizes near where `size_t` wraps.
- Authenticating without a password after one was given: the code releases the password and keeps the pointer; here the password stays as it was.
- The defaults and type checks of arguments: a key that is no array is wrapped into one, limit, offset and iterator have defaults, and the option of `call` is looked up; here the packed values are given.
- Numeric string keys are read back as integers when PHP would; overflow wrap in that conversion is not modelled beyond refusing it.
- The counter of syncs belongs to one connection here; in the extension all connections share it, which only makes gaps.
