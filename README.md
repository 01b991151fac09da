# SCION path store and RUDP header, modelled in Dafny

This project models five pieces of the SCION code base and proves properties of them.

- **The path store** (`lib.path_store`, as its unit tests in `test/lib_path_store_test.py` describe it). It has three parts:
  - `PathPolicy`: the admission filters and the configuration loader.
  - `PathStoreRecord`: one candidate segment with its scoring properties.
  - `PathStore`: a bounded candidate list that deduplicates, expires, evicts and ranks segments, plus a bounded history of snapshots.
- **The Go RUDP header** (`go/lib/infra/rudp/rudp.go`): one flags byte and a 7-byte packet id.
- **The border router's RUDP payload** (`go/border/rcmn/rudp_pld.go`): an RUDP header followed by raw payload bytes.
- **The Python RUDP header** (`python/lib/rudp.py`).
- **The Go host/network byte-order switch** (`go/lib/common/order.go`).

Modules, one per file:

- `Wrappers`: `Option` and `Result`.
- `ByteOrder`: `order.go`.
- `Rudp`: `rudp.go`.
- `RudpPld`: `rudp_pld.go`.
- `PyRudp`: `rudp.py`.
- `ConfigText`: decimal numerals and Python's `split`/`join`, which the policy loader uses.
- `Segments`: the parts of a path segment the store reads.
- `PathPolicies`: `PathPolicy`.
- `PathStoreRecords`: `PathStoreRecord`.
- `PathStoreSpec`: the store's operations as functions on the candidate list, with their properties.
- `PathStores`: the `PathStore` class. Each of its methods is proved to leave exactly the state the matching `PathStoreSpec` function describes.

How the source's behaviour is represented:

- A Go runtime panic is a `Panic` value: a `Failure(Panic)` result for the parsers and `Pack`, the `Option<Panic>` that `Rudp.Write` returns, and the `Panicked(p)` outcome of `RudpPld.WritePld`.
- A Python exception is a `Failure(PyError)` value.
- The clock is a parameter `now`.
- The host's endianness is a parameter.
- The fidelity formula is a parameter of type `Scorer`. It takes the whole candidate list and one record, and returns that record's new fidelity.

## Model

| member | source | states |
|---|---|---|
| ByteOrder.ByteSwap16 | go/lib/common/order.go:41-43 | the result's high byte is the input's low byte and its low byte is the input's high byte |
| ByteOrder.ByteSwap16Involution | go/lib/common/order.go:41-43 | swapping twice gives the value back |
| ByteOrder.Init | go/lib/common/order.go:22-31 | after init, Htons and Ntohs are the same function; it is the swap exactly on a little-endian host, otherwise the no-op; Ntohs undoes Htons for every value |
| ByteOrder.HtonsStoresNetworkOrder | go/lib/common/order.go:22-47 | on either kind of host, the value Htons returns is laid out in memory in network (big-endian) byte order, and Ntohs reads a value stored in network order back |
| Rudp.NewHdrFromRaw | go/lib/infra/rudp/rudp.go:52-54 | succeeds exactly on buffers of at least 8 bytes (shorter ones panic); the flags come from byte 0 and the 7-byte id from bytes 1..7 |
| Rudp.IsNeedAck | go/lib/infra/rudp/rudp.go:56-58 | true exactly when bit 0 (0x01) of the flags is set |
| Rudp.IsAck | go/lib/infra/rudp/rudp.go:60-62 | true exactly when bit 1 (0x02) of the flags is set |
| Rudp.FlagsIndependent | go/lib/infra/rudp/rudp.go:23-39 | the two flags are independent bits: every combination can be encoded and read back, and 0x03 carries both |
| Rudp.WriteSpecContract | go/lib/infra/rudp/rudp.go:64-68 | Write succeeds exactly on buffers of at least 9 bytes; it sets byte 0 to the flags, copies min(len(b)-1, len(id)) id bytes from byte 1 on, and leaves every other byte unchanged |
| Rudp.CopyInto | go/lib/infra/rudp/rudp.go:67 | Go's `copy` into an array from an offset: returns min(room, source length) and leaves exactly the copied positions changed, holding the source bytes |
| Rudp.Write | go/lib/infra/rudp/rudp.go:64-68 | on an array: a panic leaves the buffer untouched; otherwise the buffer ends up as the Write specification says |
| Rudp.Pack | go/lib/infra/rudp/rudp.go:70-74 | as written: every call panics with index 8 out of range for length 8 |
| Rudp.PackCorrected | go/lib/infra/rudp/rudp.go:70-74 | with the bounds probe on the last header byte: never panics and returns exactly 8 bytes |
| Rudp.PackCorrectedRoundTrip | go/lib/infra/rudp/rudp.go:52-74 | NewHdrFromRaw of the corrected Pack gives back every header with a 7-byte id |
| Rudp.WriteRoundTrip | go/lib/infra/rudp/rudp.go:52-68 | after Write into a buffer of at least 9 bytes, NewHdrFromRaw reads the header back |
| Rudp.Hex2Injective | go/lib/infra/rudp/rudp.go:89 | the two hex digits `%02x` prints determine the byte |
| Rudp.FlagsStrContract | go/lib/infra/rudp/rudp.go:80-91 | FlagsStr names exactly the values 0x00, 0x01 and 0x02, agrees with IsAck/IsNeedAck on them, prints "UNKNOWN (xx)" exactly for larger values, where xx are two lower-case hex digits reading back as the byte (`%02x`), and never prints two flag bytes the same way |
| RudpPld.NewRUdpPldFromRaw | go/border/rcmn/rudp_pld.go:40-42 | succeeds exactly on buffers of at least 8 bytes; the header is parsed from the first 8 bytes and the payload is the rest |
| RudpPld.WritePld | go/border/rcmn/rudp_pld.go:56-63 | on an array: the result and the new buffer contents are those the WritePld specification gives for the old contents |
| RudpPld.WritePldTooSmall | go/border/rcmn/rudp_pld.go:57-60 | a buffer shorter than Len() gives (0, error carrying min and actual) and is not written |
| RudpPld.WritePldSuccess | go/border/rcmn/rudp_pld.go:52-63 | otherwise WritePld returns Len() = 8 + len(pld); the flags, id and payload sit at their offsets; header bytes past a short id keep their old values; each byte after Len() holds either its old value or an id byte that did not fit in the header |
| RudpPld.WritePldEmptyPayloadPanics | go/border/rcmn/rudp_pld.go:56-62 | with an empty payload, an 8-byte buffer passes the size check but the header's bounds probe panics |
| RudpPld.WritePldRoundTrip | go/border/rcmn/rudp_pld.go:40-63 | NewRUdpPldFromRaw of the first Len() written bytes gives back the payload |
| PyRudp.Init | python/lib/rudp.py:31-35 | the constructor succeeds exactly when raw is None or empty, and then flags are 0 and id is b"" (any non-empty raw reaches _parse, which raises) |
| PyRudp.IsAck | python/lib/rudp.py:40-41 | the result is 0 or FLAG_ACK, and non-zero exactly when bit 1 is set |
| PyRudp.IsNeedAck | python/lib/rudp.py:43-44 | the result is 0 or FLAG_NEED_ACK, and non-zero exactly when bit 0 is set |
| PyRudp.PackString | python/lib/rudp.py:47 | struct's "7s" field is the id cut or zero-padded to exactly 7 bytes |
| PyRudp.AckPld | python/lib/rudp.py:46-47 | the ack payload is 8 bytes: FLAG_ACK, then the id packed as "7s" |
| PyRudp.ParseCorrected | python/lib/rudp.py:37-38 | unpack "!b7s" with the buffer: succeeds exactly on 8 bytes, reads byte 0 as a signed byte and the rest as the id |
| PyRudp.AckPldParses | python/lib/rudp.py:37-47 | the corrected parser reads an ack payload back as an ACK, not a NEED_ACK, carrying the 7-byte id |
| PyRudp.AckPldReadByGo | python/lib/rudp.py:46-47 | the Go header parser reads the Python ack payload as IsAck and not IsNeedAck, with the padded id |
| PathPolicies.CheckUnwantedAds | test/lib_path_store_test.py:103-126 | true exactly when no hop's (isd, ad) pair is in the unwanted list |
| PathPolicies.CheckPropertyRanges | test/lib_path_store_test.py:129-214 | true exactly when every one of the six properties lies in its configured range (a missing or empty range accepts all) |
| PathPolicies.CheckFilters | test/lib_path_store_test.py:70-100 | admits exactly when both checks pass; a rejection logs exactly one warning, naming the check that failed: the unwanted-AD warning when that check fails, otherwise the property-ranges warning |
| PathPolicies.DefaultPolicyAdmitsAll | test/lib_path_store_test.py:36-49 | the default policy (5, 20, 0, 0, 0, no unwanted ADs, no ranges, no weights) admits every segment without a warning |
| PathPolicies.UnwantedAdRejected | test/lib_path_store_test.py:120-122 | a segment through an unwanted AD is rejected |
| PathPolicies.SingleRangeInclusive | test/lib_path_store_test.py:146-202 | with one property constrained, a segment passes exactly when that property lies between the bounds, both included |
| PathPolicies.BandwidthIgnoresSegment | test/lib_path_store_test.py:204-214 | the three bandwidth properties have the same value whatever the segment and the clock |
| PathPolicies.OnlyRangeInclusive | test/lib_path_store_test.py:146-202 | a policy that constrains a single property key accepts exactly the segments whose value of that property lies between the bounds |
| PathPolicies.PropertyRangeExamples | test/lib_path_store_test.py:146-214 | the unit-test vectors: peer links and hops in [0, 2] accept 1 and reject 3; delay in [0, 2] at time 2 accepts timestamp 1 and rejects timestamp 3; bandwidth accepts [0, 20] and rejects [0, 9] |
| PathPolicies.ParseDict | test/lib_path_store_test.py:243-265 | loading succeeds exactly when every range is a "n-m" pair and the UnwantedADs string is empty or every comma-separated token of it is a "n-m" pair; the five settings and the weights are copied; each range "a-b" becomes (a, b) under the same key |
| PathPolicies.ParsePairRoundTrip | test/lib_path_store_test.py:254-255 | every "a-b" pair written out parses back to (a, b) |
| PathPolicies.ParseUnwantedAdsRoundTrip | test/lib_path_store_test.py:254 | a comma-separated UnwantedADs list written out parses back to the same list |
| PathPolicies.ParseDictRoundTrip | test/lib_path_store_test.py:247-265 | loading the configuration written out from a policy gives that policy back |
| PathPolicies.ParseRangesRoundTrip | test/lib_path_store_test.py:255-264 | loading ranges written out as "min-max" values gives the same ranges under the same keys |
| PathPolicies.PairExamples | test/lib_path_store_test.py:255-264 | "1-11" and "2-12" load as (1, 11) and (2, 12) |
| PathStoreRecords.NewRecord | test/lib_path_store_test.py:268-299 | a new record keeps the segment and its id, counts, and expiration; its delay is now minus the segment's timestamp; it counts as last sent DEFAULT_OFFSET ago and last seen now; fidelity, disjointness and the bandwidths are 0 |
| PathStoreRecords.NewRecordExample | test/lib_path_store_test.py:283-294 | the unit-test vector: a delay of 2 and a last send time of 1 |
| PathStoreRecords.RecordEqIsIdEquivalence | test/lib_path_store_test.py:337-369 | `__eq__` compares ids only: it is reflexive, symmetric and transitive, and a non-record is never equal |
| PathStoreRecords.Refresh | test/lib_path_store_test.py:427-443 | re-observing a stored segment sets its delay to now minus the timestamp and its last-seen time to now, and changes nothing else |
| PathStoreRecords.RefreshAsWrittenKeepsStaleDelay | test/lib_path_store_test.py:427-443 | as written, the refresh leaves delay_time stale (5 where 1 is meant) |
| PathStoreRecords.RefreshKeepsIdentity | test/lib_path_store_test.py:427-443 | a refreshed record is `__eq__` to the one it replaces and keeps its fidelity |
| PathStoreSpec.FindIndex | test/lib_path_store_test.py:427-443 | add_segment's lookup: the first position holding the id, or None exactly when no record has it |
| PathStoreSpec.RemoveIdsMembers | test/lib_path_store_test.py:694-725 | remove_segments keeps exactly the records whose id is not listed |
| PathStoreSpec.SortByFidelity | test/lib_path_store_test.py:705-717 | the reordering is descending in fidelity and a permutation of its input |
| PathStoreSpec.SortStable | test/lib_path_store_test.py:596-633 | the ranking is stable: records of equal fidelity keep their input order (its induction step, `InsertWithFidelity`, is a proof step of the model's insertion sort, not a model of these lines) |
| PathStoreSpec.ExpiredIds | test/lib_path_store_test.py:673-691 | an id is collected exactly when some record with it has expired at `now` |
| PathStoreSpec.ExpiredIdsAppend | test/lib_path_store_test.py:673-691 | the ids are collected in list order: those of a concatenation are those of its first part followed by those of its second |
| PathStoreSpec.ExpiredIdsSingle | test/lib_path_store_test.py:673-691 | a single record contributes its id exactly when its expiration time is at or before `now` |
| PathStoreSpec.ExpiredIdsExample | test/lib_path_store_test.py:679-691 | the unit-test vector: expirations 0..4 at time 2 give ids [0, 1, 2] |
| PathStoreSpec.MinIndex | test/lib_path_store_test.py:476-498 | the evicted position holds the lowest fidelity, and no earlier position does |
| PathStoreSpec.RemovedContract | test/lib_path_store_test.py:694-725 | remove_segments keeps ids distinct, does not grow the list, and leaves it in descending fidelity |
| PathStoreSpec.RemovedIds | test/lib_path_store_test.py:694-725 | remove_segments leaves exactly the ids that were present and not listed |
| PathStoreSpec.RemovedExample | test/lib_path_store_test.py:705-725 | the unit-test vectors: removing [1, 2, 3] from ids 0..4 with fidelities 0..4 leaves ids [4, 0]; removing all leaves [] |
| PathStoreSpec.EvictedContract | test/lib_path_store_test.py:476-498 | eviction leaves exactly `cap` records (or all of them if fewer), drops only records of the list, and keeps ids distinct |
| PathStoreSpec.EvictedDropsLowest | test/lib_path_store_test.py:476-498 | every record eviction drops has a fidelity no higher than every record it keeps |
| PathStoreSpec.TrimmedContract | test/lib_path_store_test.py:451-498 | the capacity step leaves a list within capacity unchanged, otherwise brings it within capacity; ids stay distinct; over capacity, no record left has expired at `now`, since expiry runs first; when it must evict, every dropped record (after the refresh) scores no higher than every kept one |
| PathStoreSpec.ExpiryRemovedUnexpired | test/lib_path_store_test.py:673-691 | after expiry removal no record has expired at `now` |
| PathStoreSpec.TrimmedUnexpired | test/lib_path_store_test.py:451-467 | over capacity, the capacity step leaves no expired record, because eviction only drops records from what expiry left |
| PathStoreSpec.ExpiryExample | test/lib_path_store_test.py:451-467 | the unit-test scenario: with capacity 0, an admitted segment that has already expired is dropped by the expiry step alone (fidelity is not recomputed) and the store stays empty |
| PathStoreSpec.AddedKeepsInvariant | test/lib_path_store_test.py:388-498 | add_segment keeps ids distinct and the list within candidates_set_size |
| PathStoreSpec.AddedOutcomes | test/lib_path_store_test.py:399-443 | a filtered-out segment changes nothing; a known segment is refreshed in place (same length, same identity, other records unchanged); a new segment is appended when there is room |
| PathStoreSpec.EvictionExample | test/lib_path_store_test.py:476-498 | the unit-test scenario: with room for one, adding two segments where the formula scores the first 0 and the second 1 keeps only the second |
| PathStoreSpec.TopSegmentsContract | test/lib_path_store_test.py:596-633 | the read-out has min(k, n) segments taken in order from the front of the descending, stable ranking (`SortStable`) |
| PathStoreSpec.TopSegmentsBest | test/lib_path_store_test.py:596-633 | every record left out of the read-out scores no higher than every one returned |
| PathStoreSpec.TopSegmentsExample | test/lib_path_store_test.py:600-633 | the unit-test vectors: fidelities 0..4 rank as [4, 3, 2] for k = 3 and [4, 3, 2, 1] for k = 4 |
| PathStoreSpec.HistoryAppended | test/lib_path_store_test.py:372-385 | the deque with maxlen history_limit: it holds min(n + 1, limit) snapshots, the newest ones, and the snapshot just pushed is last (a limit of 0 keeps nothing) |
| PathStoreSpec.LatestSnapshotContract | test/lib_path_store_test.py:636-670 | no history gives []; otherwise the first min(k, n) segments of the newest snapshot, in stored order |
| PathStores.PathStore.constructor | test/lib_path_store_test.py:372-385 | a new store has the policy, no candidates and an empty history |
| PathStores.PathStore.AddSegment | test/lib_path_store_test.py:388-498 | the new candidate list is add_segment's function of the old one; the store invariant (distinct ids, within capacity) holds; the warnings are those check_filters logs |
| PathStores.PathStore.RemoveExpiredSegments | test/lib_path_store_test.py:673-691 | the loop collects the expired ids and removes them; the store invariant (distinct ids, within capacity) is kept when it held before |
| PathStores.PathStore.RemoveSegments | test/lib_path_store_test.py:694-725 | the filtering loop, rescoring and sort leave exactly remove_segments' function of the old list; the store invariant is kept when it held before |
| PathStores.PathStore.UpdateAllFidelity | test/lib_path_store_test.py:576-593 | every record's fidelity becomes the formula's value on the list as it was before the pass; the model changes nothing else (see Left out) |
| PathStores.PathStore.TrimCandidates | test/lib_path_store_test.py:451-498 | the capacity step after an append leaves the candidates as `Trimmed` describes (expired records removed, then lowest-fidelity records evicted until within capacity) and leaves the history unchanged |
| PathStores.PathStore.EvictLowest | test/lib_path_store_test.py:476-498 | the evict-lowest loop ends in the eviction function's result |
| PathStores.PathStore.LowestFidelityIndex | test/lib_path_store_test.py:476-498 | the scan returns the first position of the lowest fidelity |
| PathStores.PathStore.GetSegment | test/lib_path_store_test.py:728-752 | None exactly when no candidate has the id; otherwise the segment of the first candidate with that id |
| PathStores.PathStore.GetBestSegments | test/lib_path_store_test.py:596-633 | expired records are removed and the rest rescored; the result is the k best (default best_set_size) in descending fidelity; the store invariant holds |
| PathStores.PathStore.PushHistory | test/lib_path_store_test.py:372-385 | appending to the bounded deque drops the oldest snapshots beyond history_limit |
| PathStores.PathStore.GetLatestHistorySnapshot | test/lib_path_store_test.py:636-670 | [] without history; otherwise the first k (default best_set_size) segments of the newest snapshot, in stored order |

## Left out

- Records are values, not objects. A refresh or a rescore replaces a record in the candidate list. Aliasing of record objects and in-place field updates are not modelled.
- The fidelity formula (`update_fidelity`, a weighted sum) is not modelled. It is the `Scorer` parameter, because it uses floating point.
- Disjointness decay (`_update_disjointness_db`, `math.exp`) and the delay recompute (`_update_all_delay_time`) are not modelled. Their effect reaches the model only through the `Scorer`.
- PathStores.PathStore.UpdateAllFidelity: the source's rescoring pass also runs `_update_all_disjointness` and `_update_all_delay_time`; the model rewrites only the fidelities.
- The `get_path_policy_dict` test is not modelled.
- `from_file` and `from_dict` are reduced to `ParseDict`. Reading the JSON file is I/O.
- Logging is reduced to the returned list of warnings.
- `SCIONTime.get_time` is the `now` parameter.
- The segment's hop hash and its `segment_id` are one abstract id.
- The snapshot trigger (`update_after_number` / `update_after_time`) is not modelled, because the store does not schedule itself. `PushHistory` is the deque append.
- PathStoreSpec.Added and PathStores.PathStore.AddSegment re-observe a stored segment through the corrected `Refresh` (see Findings), so they set `delay_time`; the as-written refresh, which leaves it stale, is modelled only by `RefreshAsWrittenKeepsStaleDelay`.
- PathStoreSpec.Evicted: ties between equal lowest fidelities go to the first in list order. The tests do not fix a tie-break.
- PathStoreRecords.NewRecord: DEFAULT_OFFSET is one week (604800 s). The tests only require that a fresh record counts as long unsent.
- PathPolicies.PropertyValue: the bandwidth placeholder is 10. The tests only fix it to (9, 20].
- PathPolicies.ParseDict: configuration values are typed, so missing keys, non-integer settings and Python `int()`'s leniency (signs, spaces, underscores) are not modelled. Ranges and unwanted ADs must be plain `digits-digits`.
- PathPolicies.ParseDict: an empty UnwantedADs string is read as no ADs. Python's `"".split(",")` gives one empty token, which would not be a `digits-digits` pair.
- PathPolicies.ParseDict: the `parse_dict` test vector is stated through `PairExamples` (the range values), not as one equality on the whole configuration; the test does not check the UnwantedADs value, and the round trip `ParseUnwantedAdsRoundTrip` covers its format.
- Negative set sizes and a negative `k` are not modelled (sizes are `nat`).
- Go slices have length equal to capacity. Slicing past the length into spare capacity and aliasing between slices are not modelled.
- `isLittleEndian` reads memory through `unsafe.Pointer`; it is the `Endianness` parameter.
- ByteOrder.ByteSwap16Noop has no contract (it is the identity); its use is covered by `Init`.
- RudpPld.Len has no contract of its own; it is stated through `WritePldSuccess`.
- Rudp: `NewHdr` is the datatype constructor `Hdr`.
- Rudp: `Hdr.String` is not modelled (formatting only).
- RudpPld: `NewRUdpPld`, `Pld`, `Copy` and `String` are not modelled. They call the control-plane payload code, which is not part of this model.
- PyRudp: `PayloadRaw` is plain bytes.
- `setup.go`, `setup-hsr.go`, `io.go`, `hooks.go`, `udp.go`, `mac.go`, `pktgen.py` and `profile.py` are callers or tools outside the modelled core.

## Findings

| source | as written | input that shows it | evidently intended | confidence | as-written member | corrected member |
|---|---|---|---|---|---|---|
| go/lib/infra/rudp/rudp.go:65 | `Write` probes `b[HdrLen]` (index 8), but `Pack` allocates exactly 8 bytes | any header passed to `Pack` panics with index 8 out of range for length 8 | probe the last header byte `b[HdrLen-1]`, so Pack returns the 8-byte header | high, not executed | Rudp.Pack | Rudp.PackCorrectedRoundTrip |
| test/lib_path_store_test.py:437-442 | the dedup refresh assigns `delay`, an attribute PathStoreRecord does not have, so `delay_time` stays stale | record created at time 10 for timestamp 5, re-observed at 23 with timestamp 22: delay_time stays 5 | assign `delay_time` (1 here) | medium, not executed | PathStoreRecords.RefreshAsWrittenKeepsStaleDelay | PathStoreRecords.Refresh |
| python/lib/rudp.py:38 | `struct.unpack("!b7s")` is called without the buffer | `RUDPHdr(b"\x02" + 7 * b"\x00")` raises TypeError | `struct.unpack("!b7s", raw)` | high, not executed | PyRudp.Init | PyRudp.AckPldParses |
