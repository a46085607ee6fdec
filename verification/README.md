# Verified models of the Hazelcast C++ client's hard parts

This project models, in Dafny, the pieces of the Hazelcast C++ client that hold real algorithms or concurrent
protocols, and proves what they promise over all inputs, all runs and all interleavings. `dafny verify
dfyconfig.toml` checks everything.

- **Metrics blob** (`Zlib`, `MetricsDictionary`, `MetricsCodec`, `MetricsBlob`, `MetricsCompressor`). Member statistics
  travel as a blob: a prefix-compressed word dictionary and a delta-encoded record stream, each in a stored-block zlib
  container. The client only writes blobs; the readers here are specifications, written from the layout and from RFC
  1950 (sections 2.2 and 8.2) and RFC 1951 (section 3.2.4). The main result is that a blob reads back to exactly the
  records added. A second blob from the same compressor appends the dictionary again; the reader takes as many
  dictionary entries as the leading count says, and then the blob reads back if and only if no word has been added
  since the first one. An add that fails on an over-long word leaves a partial record behind. If that happens after
  at least one record, no later blob reads back (`FailedAddSpoilsRun`, and the same in `GetBlob`). After a failed first
  add, no blob with at most one record reads back; the record itself may, and exactly which ones do is stated in
  `FailedAddSpoilsStream`.
- **Two's-complement codec** (`TwosComplement`). The header promises a minimal two's-complement encoding of every
  integer. The code tests `v[0] > 0` where a zero byte needs a sign byte too, so the promise fails for exactly the
  negative integers whose magnitude exceeds 255 * 256^(k-1) on k bytes, the closest to zero being -65281. Both sides
  of that condition are proved.
- **Reliable topic** (`ReliableTopic`). The message runner as an event machine, and as a class whose callbacks are
  proved to make exactly the steps of that machine that the batch, the callbacks' outcomes and cancellations call for.
  The server, the listener's callbacks and other threads are the environment. The only assumption about a server reply
  is that it is one contiguous run of items.
- **Vector clocks** (`VectorClock`). The comparison as a strict partial order, and the clock that a PN counter proxy
  observes, updated by any number of threads through a compare-and-set loop.
- **Near cache** (`KeyStateMarker`, `NearCacheProtocol`, `Sampling`). The slot marker; the protocol in which `get` and
  `get_all` fill the cache while invalidations arrive, at the granularity of single marker and cache operations; and
  the sampling iterator. The marker's documentation says that a key invalidated before it is put should not be put. The
  code does put it and takes it out again, so a stale value may be seen for a moment; that it never stays is proved for
  every interleaving of safe steps. Unsafe are, exactly, `clear()` resetting the marks while a reader relies on one, and
  a `get` that throws without holding the mark and takes away one on which another reader relies. A step keeps the
  invariant if and only if it is safe (`KeptIffSafe`), and it is safe if and only if no safe continuation ends with a
  stale value that stays (`SafeIffNeverStale`); for both kinds a run from the start is given.
  `get_all` is modelled as written. It moves the bytes out of the key that it has put into its map of markers, so it
  never finds the marker again, stores without resetting, and force-unmarks at the end; and it moves key and value out
  of the objects that it has just given to the cache. So it never fills the cache, and where it stores over an entry it
  leaves an empty value (`GetAllNeverFills`, `GetAllEmptiesEntry`); without that, settled entries are always fresh
  (`OnlyFreshEntries`).
- **Flow control** (`Pipelining`, `SubmitThrottle`). The bound on unfinished futures, with futures finishing at any
  moment, and the rule that makes rapid executor submits synchronous, across the wrap of its 32-bit counter. The
  pipelining documentation says that never more than the depth are in flight; while `add` waits, its own request is
  already under way, so the exact bound is one more (`Add`), and every depth reaches it (`Overshoot`).

Where a class updates state in place, its methods are proved against specification functions, and the theorems are
lemmas about these functions. I/O, clocks, random numbers and callbacks are parameters or events. Integers are
unbounded; 8-, 32- and 64-bit conversions are written out where they matter.

## Model

| member | source | states |
|---|---|---|
| `Bytes.ReadStoredInt32` | hazelcast/src/hazelcast/client/metrics.cpp:238-248 | every int32 written big-endian reads back as itself, with whatever follows it left over |
| `Bytes.ReadStoredInt64` | hazelcast/src/hazelcast/client/metrics.cpp:250-260 | the same for every int64 |
| `Zlib.Compress` | hazelcast/src/hazelcast/client/metrics.cpp:68-137 | for every input, empty and exact multiples of 65535 included, the output passes the RFC reader (header check, stored blocks with matching length complements, one final block and nothing but the checksum after it, correct Adler-32) and inflates to the input; it starts with 0x78 0x01, its length is the input's plus 6 plus 5 for each block of at most 65535 bytes, and its last four bytes are both sums of the input modulo 65521 |
| `Zlib.CopyBlock` | hazelcast/src/hazelcast/client/metrics.cpp:112-127 | the block is copied, and accumulators kept below 65521 by single subtractions equal the unreduced running sums of RFC 1950 reduced at the end |
| `Zlib.WriteBlock` | hazelcast/src/hazelcast/client/metrics.cpp:93-128 | one turn of the block loop extends the output to a prefix of the full stream and carries the checksum across the block boundary |
| `Zlib.WrittenHeader` | hazelcast/src/hazelcast/client/metrics.cpp:102-110 | the header bytes computed from the 64-bit complement of the size are the final flag, the length and its 16-bit complement |
| `Zlib.AdlerStep` | hazelcast/src/hazelcast/client/metrics.cpp:118-126 | adding a byte with one conditional subtraction per sum gives both reduced sums of the longer input |
| `Zlib.SecondSumClosedForm` | hazelcast/src/hazelcast/client/metrics.cpp:123-126 | the second Adler sum is n plus the sum of (n - i) * x[i] |
| `Zlib.KnownChecksums` | hazelcast/src/hazelcast/client/metrics.cpp:86-91 | two known answers, one of which needs the modulus |
| `Zlib.InflateChecks` | hazelcast/src/hazelcast/client/metrics.cpp:130-134 | every stream that the reader accepts has a valid header and ends with the checksum of what it returns |
| `Zlib.ParseStored` | hazelcast/src/hazelcast/client/metrics.cpp:93-128 | parsing the stored blocks returns the payload and stops right after the final block |
| `Zlib.StoredLength` | hazelcast/src/hazelcast/client/metrics.cpp:73-84 | the blocks take the payload plus five bytes for each of max(1, ceil(n / 65535)) blocks |
| `MetricsDictionary.IdsOverRun` | hazelcast/src/hazelcast/client/metrics.cpp:195-212 | over every run of lookups the ids stay a bijection onto 0..size-1 and no id ever changes |
| `MetricsDictionary.KeysOverRun` | hazelcast/src/hazelcast/client/metrics.cpp:195-212 | the dictionary holds exactly the words looked up |
| `MetricsDictionary.IdIsRank` | hazelcast/src/hazelcast/client/metrics.cpp:204-208 | a word new at some lookup gets the number of words known by then as its id, also at the end of the run |
| `MetricsDictionary.FindCommonPrefixLength` | hazelcast/src/hazelcast/client/metrics.cpp:50-58 | the result is the longest common prefix |
| `MetricsDictionary.EntryLengths` | hazelcast/src/hazelcast/client/metrics.cpp:419-420 | for words of at most 255 bytes both lengths survive the cast to a byte |
| `MetricsDictionary.EntryBytes` | hazelcast/src/hazelcast/client/metrics.cpp:412-424 | an entry is the id, the length of the longest common prefix, the length of the rest, and the rest |
| `MetricsDictionary.CharsAt` | hazelcast/src/hazelcast/client/metrics.cpp:262-269 | character i is a zero byte and itself |
| `MetricsDictionary.ReadWrittenEntries` | hazelcast/src/hazelcast/client/metrics.cpp:412-424 | for every order of the words, rebuilding each from the one before it recovers every word with its id |
| `MetricsDictionary.DictionaryRoundTrip` | hazelcast/src/hazelcast/client/metrics.cpp:405-425 | the dictionary stream reads back to exactly the inverse of the word-to-id map, for every order and with any bytes after it |
| `MetricsCodec.MaskRoundTrip` | hazelcast/src/hazelcast/client/metrics.cpp:319-353 | the mask byte determines which fields are repeated |
| `MetricsCodec.MaskMeans` | hazelcast/src/hazelcast/client/metrics.cpp:319-353 | each of the bits 0 to 4 is set exactly when its field equals the last descriptor's; bits 5 and 6 for every record but the first |
| `MetricsCodec.RecordLength` | hazelcast/src/hazelcast/client/metrics.cpp:365-403 | a record takes 29 bytes if it is the first, and else 10 bytes, 4 for each word that differs from the last record's and 1 for a unit that does |
| `MetricsCodec.RecordBytes` | hazelcast/src/hazelcast/client/metrics.cpp:365-403 | the bytes of every record in order: mask, ids of the words that differ or -1, unit, two zeros in the first record, value type 0, value |
| `MetricsCodec.UnitCodes` | hazelcast/include/hazelcast/client/impl/metrics/metric_descriptor.h:30-40 | the byte of each unit |
| `MetricsCodec.FieldReadsBack` | hazelcast/src/hazelcast/client/metrics.cpp:355-387 | a repeated, absent or interned field reads back as written, and an id that the reader's dictionary lacks makes the read fail |
| `MetricsCodec.RecordReadsBack` | hazelcast/src/hazelcast/client/metrics.cpp:365-403 | one record reads back, given the same previous descriptor on both sides, if and only if the reader's dictionary has all ids used so far |
| `MetricsCodec.RecordsReadBack` | hazelcast/src/hazelcast/client/metrics.cpp:289-295 | over every run the reader, keeping its own last descriptor, stays in step with the writer: it returns exactly the records written, first record and absent discriminators included, if and only if its dictionary has every id of the run |
| `MetricsBlob.BlobReadsBack` | hazelcast/src/hazelcast/client/metrics.cpp:297-317 | the sections of a blob are found again, and it reads as its two inflated streams, or not at all if one does not inflate |
| `MetricsBlob.StreamsReadBack` | hazelcast/src/hazelcast/client/metrics.cpp:297-317 | the two streams read back to the records if and only if no word was added since the dictionary was first written |
| `MetricsBlob.WordLimit` | hazelcast/src/hazelcast/client/metrics.cpp:195-203 | a word fits exactly up to 255 bytes |
| `MetricsBlob.RunIdsProper` | hazelcast/src/hazelcast/client/metrics.cpp:365-387 | any run of records with words of at most 255 bytes keeps the ids dense and within int32 |
| `MetricsBlob.RunReadsBack` | hazelcast/src/hazelcast/client/metrics.cpp:289-425 | end to end: for every run of records, the dictionary in any order, the blob reads back to exactly the run |
| `MetricsBlob.FailedAddSpoilsRun` | hazelcast/src/hazelcast/client/metrics.cpp:365-387 | after at least one record, a failed add makes the streams unreadable for good, whatever is added or fails later, with at most 0x60000000 words |
| `MetricsCodec.CutOffUnreadable` | hazelcast/src/hazelcast/client/metrics.cpp:365-387 | no record reads from a mask and fields that break off before a field that is due, at the end or at the next mask: that mask reads as the top byte of an id which no such dictionary has |
| `MetricsBlob.FirstAddFailed` | hazelcast/src/hazelcast/client/metrics.cpp:365-374 | after a failed first add, streams with at most one record never read back |
| `MetricsBlob.FailedAddSpoilsStream` | hazelcast/src/hazelcast/client/metrics.cpp:365-374 | the record after one failed first add, shifted by its mask byte, still reads as a record if and only if metric and discriminator are the prefix's word, there is a discriminator value, and the unit is BYTES |
| `MetricsBlob.FailedAddUnnoticed` | hazelcast/src/hazelcast/client/metrics.cpp:365-374 | a record that reads as itself after a failed first add, with one byte left over |
| `MetricsBlob.StreamAfterFail` | hazelcast/src/hazelcast/client/metrics.cpp:365-387 | what a failed add does to the stream, after any run of successful and failed adds |
| `MetricsBlob.StreamReads` | hazelcast/src/hazelcast/client/metrics.cpp:297-317 | what the streams read back to after any run of successful and failed adds |
| `MetricsCompressor.OutputBuffer.WriteString` | hazelcast/src/hazelcast/client/metrics.cpp:262-269 | each character becomes a zero byte and itself |
| `MetricsCompressor.Dictionary.GetDictionaryId` | hazelcast/src/hazelcast/client/metrics.cpp:195-212 | over-long words are refused and change nothing; otherwise the word is interned and its id returned |
| `MetricsCompressor.Compressor.CalculateDescriptorMask` | hazelcast/src/hazelcast/client/metrics.cpp:319-353 | bit by bit, the mask names exactly the fields equal to the last descriptor's, and none for the first record |
| `MetricsCompressor.Compressor.WriteField` | hazelcast/src/hazelcast/client/metrics.cpp:355-387 | an id or -1 is appended unless the field is repeated; it fails exactly on an over-long word, changing nothing |
| `MetricsCompressor.Compressor.WriteDescriptor` | hazelcast/src/hazelcast/client/metrics.cpp:365-403 | succeeds exactly when all words fit; then the buffer has gained the encoded descriptor, and last descriptor and count are updated; otherwise they are not, and the buffer has gained a mask and the fields before the over-long one |
| `MetricsCompressor.Compressor.AddLong` | hazelcast/src/hazelcast/client/metrics.cpp:289-295 | keeps the record stream equal to the encoding of the records added, or, once an add has failed, of those before it and then a broken-off record; succeeds exactly when all words fit, and then adds exactly as many bytes as the fields that differ take |
| `MetricsCompressor.Compressor.WriteDictionary` | hazelcast/src/hazelcast/client/metrics.cpp:405-425 | appends a dictionary stream that enumerates every word once |
| `MetricsCompressor.AssembleBlob` | hazelcast/src/hazelcast/client/metrics.cpp:307-316 | the blob is the bytes 0 and 1, size, compressed dictionary, count, compressed records |
| `MetricsCompressor.Compressor.GetBlob` | hazelcast/src/hazelcast/client/metrics.cpp:297-317 | if no add has failed, the blob reads back to exactly the records added, or to nothing if words were added since the first blob; if an add has failed, after at least one record or with at most one after it, it does not read back |
| `TwosComplement.TwosComplementInPlace` | hazelcast/src/hazelcast/client/client_impl.cpp:751-769 | in place and despite the early exit, the unsigned value u on n bytes becomes (256^n - u) mod 256^n |
| `TwosComplement.NegateTwice` | hazelcast/src/hazelcast/client/client_impl.cpp:751-769 | the two's complement is an involution |
| `TwosComplement.FromBytes` | hazelcast/src/hazelcast/client/client_impl.cpp:771-784 | the result is the signed big-endian value of every non-empty vector |
| `TwosComplement.ToBytes` | hazelcast/src/hazelcast/client/client_impl.cpp:786-804 | the encoding stands for i and is the unique shortest one, unless i loses its sign; then it stands for i + 256^k |
| `TwosComplement.RoundTrip` | hazelcast/src/hazelcast/client/client_impl.cpp:771-804 | decoding the encoding gives i back if and only if i does not lose its sign, and i + 256^k otherwise |
| `TwosComplement.NegativeCases` | hazelcast/src/hazelcast/client/client_impl.cpp:791-796 | after complementing, the first byte is zero exactly for the integers that lose their sign; in the other cases the sign rule gives the shortest encoding |
| `TwosComplement.NonNegativeCases` | hazelcast/src/hazelcast/client/client_impl.cpp:797-802 | for non-negative integers the sign rule always gives the shortest encoding |
| `TwosComplement.LosesSignBytes` | hazelcast/src/hazelcast/client/client_impl.cpp:791-796 | a negative integer loses its sign exactly when its magnitude starts with 0xFF and has a later non-zero byte |
| `TwosComplement.SmallestLoser` | hazelcast/src/hazelcast/client/client_impl.cpp:793-796 | -65281 is one, no integer above it is, and its two bytes 0x00 0xFF stand for 255 |
| `ReliableTopic.StrictRun` | hazelcast/include/hazelcast/client/reliable_topic.h:164-235 | without loss tolerance, in every run the ids handed over are start, start + 1, ..., and every read asks for the next one; the listener receives some of these ids in order |
| `ReliableTopic.NoGapNoRepeat` | hazelcast/include/hazelcast/client/reliable_topic.h:164-235 | the invariant behind it, kept by every event from every state that has it |
| `ReliableTopic.AllReceived` | hazelcast/include/hazelcast/client/reliable_topic.h:207-222 | the listener receives every id handed over if no exception comes before the message reaches it |
| `ReliableTopic.ReceivedExactly` | hazelcast/include/hazelcast/client/reliable_topic.h:207-222 | in every run the listener receives exactly the ids handed over, in order, without those whose item threw before it |
| `ReliableTopic.ItemsAccountedFor` | hazelcast/include/hazelcast/client/reliable_topic.h:197-226 | in every run, between resets the sequence moves by the items handed over plus the lost counts; a reset puts it at the remote head |
| `ReliableTopic.OrderKept` | hazelcast/include/hazelcast/client/reliable_topic.h:197-226 | between resets the ids strictly increase if the server never jumps back |
| `ReliableTopic.TolerantRun` | hazelcast/include/hazelcast/client/reliable_topic.h:197-226 | both properties for every run of a loss-tolerant listener from its start |
| `ReliableTopic.OrderKeptIffNoJumpBack` | hazelcast/include/hazelcast/client/ringbuffer/read_result_set.h:87-109 | once an id was handed over, a reply keeps the order if and only if it does not jump back |
| `ReliableTopic.TightRun` | hazelcast/include/hazelcast/client/reliable_topic.h:224-226 | with non-empty replies, every read asks for the successor of the last id handed over |
| `ReliableTopic.CancelledForGood` | hazelcast/include/hazelcast/client/reliable_topic.h:175-222 | a cancelled runner stays cancelled, reads no more, and hands over at most the rest of its current batch |
| `ReliableTopic.CancelledWhileReading` | hazelcast/include/hazelcast/client/reliable_topic.h:187-189 | a reply that arrives after cancellation is dropped whole |
| `ReliableTopic.MessageRunner.constructor` | hazelcast/include/hazelcast/client/reliable_topic.h:164-171 | starts at the given id, or after the tail for -1, not cancelled and with nothing asked, handed over or received |
| `ReliableTopic.MessageRunner.Next` | hazelcast/include/hazelcast/client/reliable_topic.h:175-183 | reads from the current sequence unless cancelled, and keeps the invariants |
| `ReliableTopic.MessageRunner.OnReply` | hazelcast/include/hazelcast/client/reliable_topic.h:186-226 | the callback goes through exactly the events that the batch, the items' outcomes and the cancellations call for, and keeps the invariants; a refused reply changes nothing but the end of the runner; otherwise the ids up to the first item that ends the runner are handed over and, if none does, the next read asks for the batch's next sequence unless somebody cancelled |
| `ReliableTopic.ReplyOutcome` | hazelcast/include/hazelcast/client/reliable_topic.h:186-226 | what a reply comes to in the event machine: dropped, the end of the runner, or the items in order up to the one that ends it and else the next read |
| `ReliableTopic.MessageRunner.ProcessItem` | hazelcast/include/hazelcast/client/reliable_topic.h:207-222 | one item is one step: the id is stored first, and an exception stops the runner exactly when it is cancelled or the exception is terminal |
| `ReliableTopic.MessageRunner.OnError` | hazelcast/include/hazelcast/client/reliable_topic.h:227-233 | the error callback goes through exactly the events that the error, the head lookup and a cancellation call for, and keeps the invariants: the next read follows exactly when handling says go on and nobody cancelled, from the head after a reset; a throwing lookup leaves the runner silently stopped, neither cancelled nor reading |
| `ReliableTopic.MessageRunner.HandleInternalException` | hazelcast/include/hazelcast/client/reliable_topic.h:237-333 | reading goes on exactly after a timeout, or after an illegal argument with loss tolerance and a head lookup that answers, which moves the sequence to the head; the handler itself throws exactly when the lookup does |
| `ReliableTopic.MessageRunner.Cancel` | hazelcast/include/hazelcast/client/reliable_topic.h:335-344 | sets the flag and keeps the invariants |
| `VectorClock.VectorClock.constructor` | hazelcast/src/hazelcast/client/cluster.cpp:252-260 | the replicas are those of the entries, each with the timestamp of its last entry |
| `VectorClock.VectorClock.GetTimestampForReplica` | hazelcast/src/hazelcast/client/cluster.cpp:292-299 | found or -1 |
| `VectorClock.VectorClock.IsAfter` | hazelcast/src/hazelcast/client/cluster.cpp:268-290 | for every order of visiting the replicas, true if and only if this clock covers the other's replicas with timestamps at least as large and differs from it |
| `VectorClock.AfterOrder` | hazelcast/include/hazelcast/client/impl/vector_clock.h:53-58 | irreflexive, asymmetric and transitive |
| `VectorClock.ChainMonotone` | hazelcast/src/hazelcast/client/cluster.cpp:268-290 | along a chain no replica disappears and no timestamp decreases |
| `VectorClock.ReplacementKeepsTimestamps` | hazelcast/src/hazelcast/client/proxy.cpp:785-801 | each step of the compare-and-set loop keeps every observed timestamp if and only if the old and new clocks are comparable |
| `VectorClock.ConcurrentClockForgets` | hazelcast/src/hazelcast/client/proxy.cpp:785-801 | for any two clocks received one after the other, the observed clock still covers the first if and only if they are comparable |
| `VectorClock.ObservedMonotone` | hazelcast/src/hazelcast/client/proxy.cpp:785-801 | if the received clocks are pairwise comparable, then over every interleaving no observed timestamp decreases and every finished update is covered |
| `KeyStateMarker.HashToIndex` | hazelcast/src/hazelcast/util/util.cpp:363-375 | a slot below the length, congruent to the absolute value of the hash, and 0 for INT_MIN; an error exactly for non-positive lengths |
| `KeyStateMarker.MarksConsumedOnce` | hazelcast/src/hazelcast/client/near_cache.cpp:116-157 | over every interleaving on a slot, marks less unmarks and removes since the last clearing is 1 if the slot is MARKED and 0 otherwise |
| `KeyStateMarker.RemovedStays` | hazelcast/src/hazelcast/client/near_cache.cpp:116-157 | a REMOVED slot defeats every compare-and-exchange until it is force-unmarked or initialised |
| `KeyStateMarker.KeyStateMarkerImpl.constructor` | hazelcast/src/hazelcast/client/near_cache.cpp:102-109 | all slots start UNMARKED, and there may be none |
| `KeyStateMarker.KeyStateMarkerImpl.CasState` | hazelcast/src/hazelcast/client/near_cache.cpp:149-163 | changes only the key's slot, and only from the expected state; without slots it throws |
| `KeyStateMarker.KeyStateMarkerImpl.TryMark` | hazelcast/src/hazelcast/client/near_cache.cpp:116-120 | is the marking operation of the run model |
| `KeyStateMarker.KeyStateMarkerImpl.TryUnmark` | hazelcast/src/hazelcast/client/near_cache.cpp:122-126 | is the unmarking operation |
| `KeyStateMarker.KeyStateMarkerImpl.TryRemove` | hazelcast/src/hazelcast/client/near_cache.cpp:128-132 | is the removing operation |
| `KeyStateMarker.KeyStateMarkerImpl.ForceUnmark` | hazelcast/src/hazelcast/client/near_cache.cpp:134-139 | is the forcing operation |
| `KeyStateMarker.KeyStateMarkerImpl.Init` | hazelcast/src/hazelcast/client/near_cache.cpp:141-147 | is the clearing operation |
| `NearCacheProtocol.NoStaleEntry` | hazelcast/include/hazelcast/client/map/impl/nearcache/KeyStateMarker.h:33-40 | in every interleaving of readers, writes, invalidations, evictions, clearings and errors whose steps are safe, with any keys sharing slots, a key whose readers and invalidations are done has no cached value, the server's current one, or an empty one |
| `NearCacheProtocol.OnlyFreshEntries` | hazelcast/include/hazelcast/client/map/NearCachedClientMapProxy.h:397-415 | if moreover no get_all stores over an entry, it has no cached value or the server's current one |
| `NearCacheProtocol.KeptIffSafe` | hazelcast/include/hazelcast/client/map/NearCachedClientMapProxy.h:592-612 | a step keeps the invariant if and only if it is safe: the marks are not cleared while a reader relies on one, and a reader that throws without holding its mark does not free a slot on which another relies |
| `NearCacheProtocol.SafeIffNeverStale` | hazelcast/include/hazelcast/client/map/impl/nearcache/KeyStateMarker.h:33-40 | from every state with the invariant, a step is safe if and only if no safe continuation ends with a stale value that nobody is going to remove |
| `NearCacheProtocol.UnsafeCanEndStale` | hazelcast/include/hazelcast/client/map/NearCachedClientMapProxy.h:592-612 | every unsafe step from such a state has a continuation of gets, writes and invalidations alone that ends so |
| `NearCacheProtocol.KeepStep` | hazelcast/include/hazelcast/client/map/NearCachedClientMapProxy.h:137-173 | every safe step keeps the invariant: at most one reader holds a slot, and every stale fetched or cached value is due to be removed or emptied |
| `NearCacheProtocol.KeepPut` | hazelcast/include/hazelcast/client/map/NearCachedClientMapProxy.h:630-642 | storing a fetched value is safe even when it is stale by then |
| `NearCacheProtocol.KeepReset` | hazelcast/include/hazelcast/client/map/NearCachedClientMapProxy.h:592-601 | a reader gives its slot back, or finds it removed and goes on to remove its own entry; without the mark it does so only to a slot on which nobody relies |
| `NearCacheProtocol.KeepBulkPut` | hazelcast/include/hazelcast/client/map/NearCachedClientMapProxy.h:408-412 | a get_all stores, without a mark or a reset, a value that may be stale: it is about to move it out |
| `NearCacheProtocol.KeepMoveOut` | hazelcast/include/hazelcast/client/map/NearCachedClientMapProxy.h:413-414 | after moving out, no stale value is left by it |
| `NearCacheProtocol.KeepClearMarks` | hazelcast/include/hazelcast/client/map/impl/nearcache/InvalidationAwareWrapper.h:96-100 | clearing the marks is safe while no reader relies on one, and frees the slots of lost answers |
| `NearCacheProtocol.KeepDeliverSent` | hazelcast/include/hazelcast/client/map/impl/nearcache/InvalidationAwareWrapper.h:85-89 | the first half of an invalidation marks the slot of a reader that fetched before it |
| `NearCacheProtocol.KeepDeliverHalfway` | hazelcast/include/hazelcast/client/map/impl/nearcache/InvalidationAwareWrapper.h:85-89 | the second half removes the entry that it accounts for |
| `NearCacheProtocol.UndisturbedGetFills` | hazelcast/include/hazelcast/client/map/NearCachedClientMapProxy.h:150-166 | a get that finds its slot free and is not disturbed caches the current value and frees the slot |
| `NearCacheProtocol.SlotOfHash` | hazelcast/src/hazelcast/util/util.cpp:363-375 | the slot of a key is the absolute value of its hash modulo the number of slots, and 0 for INT_MIN |
| `NearCacheProtocol.ClearEmpties` | hazelcast/include/hazelcast/client/map/impl/nearcache/InvalidationAwareWrapper.h:96-100 | from every state clear() leaves no entry, no mark and no lost answer, and changes nothing else |
| `NearCacheProtocol.ClearedThenCached` | hazelcast/include/hazelcast/client/map/impl/nearcache/InvalidationAwareWrapper.h:96-100 | over every run that goes on after clear(), what is cached was stored by a reader after it |
| `NearCacheProtocol.CachedOnlyIfStored` | hazelcast/include/hazelcast/client/map/NearCachedClientMapProxy.h:137-173 | in every run a key that is not cached becomes cached only by a reader of it that stores |
| `NearCacheProtocol.InvalidationRemoves` | hazelcast/include/hazelcast/client/map/impl/nearcache/InvalidationAwareWrapper.h:85-89 | an invalidation delivered right away, of a write or of the client's own, leaves its key uncached and other entries alone, and turns a MARKED slot into REMOVED |
| `NearCacheProtocol.EvictionRemoves` | hazelcast/include/hazelcast/client/internal/nearcache/impl/store/AbstractNearCacheRecordStore.h:210-230 | an eviction takes out its entry and nothing else |
| `NearCacheProtocol.BareGetLeavesAll` | hazelcast/include/hazelcast/client/map/NearCachedClientMapProxy.h:150-168 | a get that finds its slot taken changes neither cache nor marks |
| `NearCacheProtocol.ThrowFreesSlot` | hazelcast/include/hazelcast/client/map/NearCachedClientMapProxy.h:169-172 | a reader that throws after marking stores nothing and frees its slot |
| `NearCacheProtocol.RefusalFreesSlot` | hazelcast/include/hazelcast/client/map/NearCachedClientMapProxy.h:630-642 | so does a get whose put is refused or throws |
| `NearCacheProtocol.RefusalLeavesCache` | hazelcast/include/hazelcast/client/map/NearCachedClientMapProxy.h:408-418 | a get_all whose put is refused leaves the cache alone, in every run |
| `NearCacheProtocol.FailedResetRemoves` | hazelcast/include/hazelcast/client/map/NearCachedClientMapProxy.h:592-601 | a reader whose try_unmark fails removes its entry and frees the slot |
| `NearCacheProtocol.FailedResetInvalidates` | hazelcast/include/hazelcast/client/map/NearCachedClientMapProxy.h:592-601 | its invalidation removes whatever mark is on the slot by then |
| `NearCacheProtocol.ErrorWithoutMark` | hazelcast/include/hazelcast/client/map/NearCachedClientMapProxy.h:169-172 | without a mark, a get that throws goes on to reset, and a get_all that throws or loses its answer is done |
| `NearCacheProtocol.LostAnswerLeaks` | hazelcast/include/hazelcast/client/map/NearCachedClientMapProxy.h:154-166 | a safe run after which a lost answer has left its mark and a later get of the key went without one |
| `NearCacheProtocol.LateErrorLeaks` | hazelcast/include/hazelcast/client/map/NearCachedClientMapProxy.h:397-418 | a get_all that ends with an error after its answer leaves its mark behind |
| `NearCacheProtocol.GetAllNeverFills` | hazelcast/include/hazelcast/client/map/NearCachedClientMapProxy.h:382-418 | in every run, safe or not, a get_all that stores leaves a key that was not there not there, empties the value of one that was, and changes no other entry |
| `NearCacheProtocol.GetAllEmptiesEntry` | hazelcast/include/hazelcast/client/map/NearCachedClientMapProxy.h:408-414 | a safe run after which a settled key has an empty value: a get fills it while a get_all is fetching it |
| `NearCacheProtocol.TakenIffLeaked` | hazelcast/include/hazelcast/client/map/NearCachedClientMapProxy.h:154-166 | in every safe run, once all readers are done, a slot is taken if and only if a reader of one of its keys has lost its answer and nobody has freed the slot since |
| `NearCacheProtocol.LeakedUntilFreed` | hazelcast/include/hazelcast/client/map/NearCachedClientMapProxy.h:154-166 | after a lost answer the mark stays, and no try_mark on its slot goes through, exactly until the marks are cleared or a reader that throws without holding the mark frees the slot |
| `NearCacheProtocol.ClearLeavesStaleEntry` | hazelcast/include/hazelcast/client/map/impl/nearcache/InvalidationAwareWrapper.h:96-100 | with clear() under a running reader, a run ends with a stale value |
| `NearCacheProtocol.ThrowLeavesStaleEntry` | hazelcast/include/hazelcast/client/map/NearCachedClientMapProxy.h:169-172 | with a get that throws without holding the mark and resets another reader's, a run ends with a stale value |
| `Sampling.LazySamplingIterator.Iterate` | hazelcast/include/hazelcast/util/SampleableConcurrentHashMap.h:248-287 | ends, and the k-th call samples the entry at (start + k) mod size, or its neighbour if that value is null, until the count is reached |
| `Sampling.LazySamplingIterator.HasNext` | hazelcast/include/hazelcast/util/SampleableConcurrentHashMap.h:289-293 | true for exactly the first max_count calls |
| `Sampling.GetRandomSamples` | hazelcast/include/hazelcast/util/SampleableConcurrentHashMap.h:177-191 | negative counts are refused, zero or an empty map give nothing, otherwise an iterator from a random start |
| `Sampling.Drain` | hazelcast/include/hazelcast/util/SampleableConcurrentHashMap.h:229-303 | exactly the number of samples asked for, sample k being the entry whose turn it is |
| `Sampling.SampleInTurn` | hazelcast/include/hazelcast/util/SampleableConcurrentHashMap.h:263-283 | sample k is entry (start + k) mod size, or the entry after it if that value is null |
| `Sampling.DistinctIffNoNulls` | hazelcast/include/hazelcast/util/SampleableConcurrentHashMap.h:263-283 | the samples of the first round are distinct if and only if no value is null |
| `Sampling.SamplesRepeat` | hazelcast/include/hazelcast/util/SampleableConcurrentHashMap.h:263-283 | beyond one round the same samples come again |
| `Sampling.AdjacentNullsNeverEnd` | hazelcast/include/hazelcast/util/SampleableConcurrentHashMap.h:271-282 | the inner loop, turn by turn, is still going after any number of turns if and only if an entry and its neighbour both have null values |
| `Pipelining.Pipelining.Create` | hazelcast/include/hazelcast/client/pipelining.h:99-104 | a depth below 1 is refused; otherwise an empty pipelining with that many permits |
| `Pipelining.Pipelining.CountUsed` | hazelcast/include/hazelcast/client/pipelining.h:152-157 | the count lies between the numbers unfinished at the end and at the start of the scan |
| `Pipelining.Pipelining.Outstanding` | hazelcast/include/hazelcast/client/pipelining.h:159-164 | only futures unfinished at the start are collected, and none only if all are ready |
| `Pipelining.Pipelining.Down` | hazelcast/include/hazelcast/client/pipelining.h:150-172 | on return fewer than permits futures are unfinished, whenever futures finish |
| `Pipelining.Pipelining.Add` | hazelcast/include/hazelcast/client/pipelining.h:136-141 | from its return on, at no time are more than permits added futures unfinished; at all times from the call on, the wait included, at most permits + 1 are, counting the newcomer, and that many exactly while the others use up the depth and the newcomer is unfinished, which is over on return |
| `Pipelining.Pipelining.Results` | hazelcast/include/hazelcast/client/pipelining.h:116-125 | all values in the order of adding, once all are ready |
| `Pipelining.Overshoot` | hazelcast/include/hazelcast/client/pipelining.h:127-141 | for every depth there is a pipelining, filled by adds alone, at which one more request makes depth + 1 unfinished while its add waits |
| `SubmitThrottle.Submitter.IsSyncComputation` | hazelcast/src/hazelcast/client/client_impl.cpp:901-916 | synchronous exactly if at most 10 ms after the last call, allowed, and the counter a multiple of 100; a slow call resets the counter, a prevented one leaves it, others count with wrap-around |
| `SubmitThrottle.SyncAmongHundred` | hazelcast/src/hazelcast/client/client_impl.cpp:901-916 | any rapid run with a hundred allowed calls contains a synchronous one, across the wrap and with prevented calls mixed in |
| `SubmitThrottle.SyncSinceSlow` | hazelcast/src/hazelcast/client/client_impl.cpp:901-916 | in every run with slow calls, a call is synchronous exactly if it is allowed, comes at most 10 ms after the one before, and the number of allowed calls since the last slow one, wrapping at 32 bits, is a multiple of 100 |
| `SubmitThrottle.FirstAfterSlow` | hazelcast/src/hazelcast/client/client_impl.cpp:909-915 | the first allowed rapid call after a slow one is synchronous |
| `SubmitThrottle.SyncExactly` | hazelcast/src/hazelcast/client/client_impl.cpp:914-915 | exactly the allowed calls at which the wrapping counter is a multiple of 100 are synchronous |

## Left out

- MetricsCompressor.Compressor.AddLong: requires room for one more int32 count and four more int32 ids; beyond that the source overflows a signed integer.
- MetricsCompressor.Compressor.GetBlob: says nothing about blobs with two or more records after an add that failed before the first one (a shifted record may read as a record, see `FailedAddSpoilsStream`), with more than 0x60000000 words after a failed add, or when the compressed dictionary exceeds the int32 size field.
- NearCacheProtocol.NoStaleEntry: excludes clear() while a reader relies on a mark, and a reader without a mark freeing a slot on which another relies, because the property is false with them; `KeptIffSafe` and `SafeIffNeverStale` show that these are exactly the steps to exclude.
- KeyStateMarker.KeyStateMarkerImpl.constructor: requires a count that is not negative; allocating a negative number of slots throws.
- Sampling.LazySamplingIterator.Iterate: requires that no two neighbouring entries have null values, because the source then loops forever; a map that changes during the iteration, and with it the end-of-map flag, is not modelled.
- Pipelining.Pipelining.Add: every future is assumed to finish at some time; a wait on futures that never finish does not return.
- ReliableTopic.MessageRunner.Cancel: does not model the map of runners, the on_cancel callback (which may run twice) or logging.
- Replies of a server that cannot tell the next sequence (SEQUENCE_UNAVAILABLE), and filtered reads: a reply is a contiguous run of items.
- Exceptions other than the client's own exception type.
- The order of std::map iteration in the dictionary: the results hold for every order.
- PN counter operations other than the update of the observed clock, such as reset and the choice of replicas.
- The order of concurrent accesses to the executor's two atomic counters: each call is one step.
- Real threads, mutexes and futures: they appear as atomic steps, events or a clock.
- The near cache's own storage, expiry and statistics, and the server: only which version of a key is cached matters. Entries that get_all leaves under an emptied key can never be found by a key, so they are not part of the cache here.
- get_all without invalidation on change: it then takes no marks at all.
- CP subsystem, flake ids, hashing, serialization of other types, distributed data-structure proxies, configuration, discovery, TLS and sockets.
- Comparison operators of dates, versions and addresses: field by field and easy.
