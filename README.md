# rib-bench and update-watcher, modelled in Dafny

This project models two small programs from a BGP benchmarking repository.

**rib-bench** (`rib-bench/rib.go`) loads a list of IPv4 prefixes and stores them in five
backends:
- a Go map keyed by a byte string;
- a Go map keyed by a 64-bit integer;
- a mutable radix tree (go-radix), keyed by a '0'/'1' bit string;
- an immutable radix tree (go-immutable-radix), keyed by address bytes plus a length byte;
- a crit-bit trie (critbitgo), keyed the same way.

It times insert, lookup, walk and delete phases over these backends. After the inserts it
checks that every backend holds one entry per prefix, and after the deletes that every
backend is empty. It exits on the first wrong size.

The model covers:
- the four key encoders, with their injectivity and collision properties;
- the phase functions, as methods of a class `Rib` whose fields are the package globals;
- the repetition loop of `benchmark.run`, without timing;
- the size checks of `main`.

The main results:
- With a repetition count of at least 1, after the INSERT block a backend's size is the number of distinct keys its encoder gives.
- With a repetition count of at least 1, the checks pass exactly when no encoder maps two
  input prefixes to one key.
- With a repetition count of at least 1, pairwise different canonical prefixes always pass.
- With a repetition count of 0 no phase runs and the run always fails: a size mismatch, or
  a nil-tree panic on empty input.
- Two concrete inputs fail, and the lemmas name the check that stops each run:
  - the two default routes share the int key 0;
  - 10.0.0.1/24 and 10.0.0.2/24 share a bit-string key.

**update-watcher** (`fullroute-bench/update-watcher/src/main.rs`) polls a BGP daemon about
once a second for per-peer update counters (tx, rx). Each round reports `stabilized:
true` when three successive snapshots are equal under `Counter::eq` and the newest one has at
least one peer, and `false` otherwise;
the loop keeps polling either way. That equality is deliberately false while a counter
is still zero. The model covers:
- `Counter::eq` and `is_stabilized`, as loops proved equal to predicates;
- the three-slot history window of `main`, as a class;
- the FRR and BIRD line scrapers, as folds over lines that are already classified. A line is
  classified by what its regular expressions capture;
- the OpenBGPD neighbour loop, including its skip of configured networks (`remote_addr`
  containing '/').

Each scraper panic the model covers is a `Result` error:
- an `assert_eq!` that fails;
- an `unwrap` of `None`;
- a parse failure.

Modules: `Values` (machine integers, `Option`), `Prefixes` (prefix records and address bits),
`Keys` (the encoders), `Backends` (the three trie libraries as abstract maps and the map-write
specifications), `RibBench` (phases, driver, outcome), `Counters`, `UpdateWatcher`, `Scrapers`.

### Imported library behaviour

The model relies on the following behaviour of the libraries, whose source is not part of
this model:
- go-radix and go-immutable-radix `Insert` replace an existing key.
- critbitgo `Insert` refuses a key that is already present, so the first value stays.
  (Its `Set` would replace it.)
- Sizes come out the same either way (`Backends.AssignSize`).
- The walk callbacks used by rib-bench never stop a walk.

## Model

| member | source | states |
|---|---|---|
| Values.WrapToU64 | fullroute-bench/update-watcher/src/main.rs:237-240 | `as u64` on an `i64` keeps non-negative values, adds 2^64 to negative ones, and is congruent to the input mod 2^64 |
| Prefixes.To4 | rib-bench/rib.go:35 | the 4-byte form: a 4-byte address unchanged, otherwise 4 bytes or nil |
| Prefixes.To16 | rib-bench/rib.go:40 | the 16-byte form: a 16-byte address unchanged, otherwise 16 bytes or nil |
| Prefixes.CopyInto | rib-bench/rib.go:34-35 | `make` then `copy`: exactly `width` bytes, the source where it reaches, zero after |
| Keys.StringKey | rib-bench/rib.go:31-45 | IPv4: 5 bytes, address then length at index 4; IPv6: 17 bytes, length at index 16; for a decoded address, the address bytes followed by the length |
| Keys.StringKeyFamiliesDisjoint | rib-bench/rib.go:33-42 | an IPv4 key never equals an IPv6 key |
| Keys.StringKeyInjective | rib-bench/rib.go:31-45 | on decoded records, two keys are equal iff the records are equal |
| Keys.BigEndian32 | rib-bench/rib.go:79 | the four base-256 digits of the value, most significant first, are the four bytes |
| Keys.BigEndian32Injective | rib-bench/rib.go:79 | four-byte addresses with the same big-endian value are equal |
| Keys.IntKey | rib-bench/rib.go:76-82 | IPv4: key / 2^32 is the length and key mod 2^32 is the big-endian address; any other family gives 0 |
| Keys.IntKeyInjective | rib-bench/rib.go:76-82 | on IPv4 prefixes with 4-byte addresses, equal keys iff equal prefixes |
| Keys.IntKeySentinel | rib-bench/rib.go:81 | a non-IPv4 key is 0, the key of 0.0.0.0/0, and it equals an IPv4 prefix's key iff that prefix is 0.0.0.0/0 |
| Keys.RadixKey | rib-bench/rib.go:113-119 | IPv4: the address bytes followed by the length byte; any other family gives the empty key |
| Keys.RadixKeyInjective | rib-bench/rib.go:113-119 | an IPv4 prefix shares its key with no other record, IPv4 or not |
| Keys.ByteBits | rib-bench/rib.go:185 | `%08b`: 8 characters, character j is '1' iff bit j (most significant first) is set |
| Keys.RadixStringKeyOf | rib-bench/rib.go:178-190 | IPv4: exactly `length` characters, all '0' or '1' (so length 0 gives ""); any other family gives "" |
| Keys.RadixStringKey | rib-bench/rib.go:178-190 | the buffer loop over the bytes, then the cut to `length`, gives the key |
| Keys.RadixStringKeyBits | rib-bench/rib.go:182-187 | character i of the key is '1' iff bit i of the address is set |
| Keys.RadixStringKeyNested | rib-bench/rib.go:178-190 | on one address, a shorter length's key is a prefix of a longer length's key |
| Keys.RadixStringKeyInjective | rib-bench/rib.go:178-190 | on canonical prefixes (host bits zero) with equal-size addresses, keys are equal iff prefixes are equal |
| Keys.RadixStringKeyIgnoresHostBits | rib-bench/rib.go:183-188 | 10.0.0.1/24 and 10.0.0.2/24 differ but share a key |
| Backends.AssignKeys | rib-bench/rib.go:47-53 | after an insert loop, the keys present are exactly the keys written |
| Backends.AssignLastWins | rib-bench/rib.go:50 | a key holds the value of its last write |
| Backends.AssignAppend | rib-bench/rib.go:49-51 | one more write at the end of an insert loop updates the map the earlier writes built |
| Backends.AssignFirstFirstWins | rib-bench/rib.go:149-155 | with insert-if-absent, a key holds the value of its first write |
| Backends.AssignFirstIsAssignWhenDistinct | rib-bench/rib.go:149-155 | without repeated keys, insert-if-absent and replace build the same map |
| Backends.KeySetSize | rib-bench/rib.go:304-316 | the number of distinct keys is at most the number written, and equal to it iff no key repeats |
| Backends.AssignSize | rib-bench/rib.go:304-316 | after an insert loop, the size is the number of distinct keys, and it equals the number of prefixes iff no key repeats |
| Backends.DeleteWrittenKeys | rib-bench/rib.go:55-60 | deleting every written key empties the map, and deleting again changes nothing |
| Backends.WalkEntries | rib-bench/rib.go:69-74 | a walk visits every key exactly once |
| Backends.ImmutableTree.Insert | rib-bench/rib.go:124 | the new tree maps the key to the value and every other key as before; returns the old value and whether there was one |
| Backends.ImmutableTree.Delete | rib-bench/rib.go:131 | the new tree lacks the key and keeps every other key; returns the old value and whether there was one |
| Backends.ImmutableTree.LenAfterUpdate | rib-bench/rib.go:314 | an insert grows the size by one iff it adds a key; a delete shrinks it by one iff it removes one |
| Backends.RadixTree.constructor | rib-bench/rib.go:193 | `radix.New()` is empty |
| Backends.RadixTree.Insert | rib-bench/rib.go:196 | adds or replaces the entry in place; returns the old value and whether there was one |
| Backends.RadixTree.Delete | rib-bench/rib.go:203 | removes the key in place; an absent key changes nothing |
| Backends.CritbitTrie.constructor | rib-bench/rib.go:150 | `critbitgo.NewTrie()` is empty |
| Backends.CritbitTrie.Insert | rib-bench/rib.go:153 | adds the entry iff the key is absent and reports whether it did |
| Backends.CritbitTrie.Delete | rib-bench/rib.go:160 | removes the key in place; an absent key changes nothing |
| RibBench.StepIdempotent | rib-bench/rib.go:242-251 | running a phase a second time leaves the globals as the first run did: re-inserting rebuilds the same backend, re-deleting finds nothing |
| RibBench.SizeCheck | rib-bench/rib.go:304-309 | the checker passes iff the actual size equals the expected one, and otherwise reports that backend with both sizes |
| RibBench.Check | rib-bench/rib.go:312-316 | one call passes iff the size exists and is the expected one; on a nil trie it is a nil-pointer panic |
| RibBench.AndThen | rib-bench/rib.go:312-316 | a run of checks passes iff both parts pass, and stops at the first failure |
| RibBench.InsertsFill | rib-bench/rib.go:297-302 | with count >= 1, the INSERT block leaves every backend holding its encoder's writes of all prefixes |
| RibBench.FilledWritten | rib-bench/rib.go:47-53 | each filled backend exists and holds only keys of the prefixes |
| RibBench.ClearedKeepsWritten | rib-bench/rib.go:345-350 | emptying one backend keeps the others as they were |
| RibBench.DeleteEmptiesWritten | rib-bench/rib.go:55-60 | a delete phase empties a backend that holds only keys of the prefixes |
| RibBench.DeletesEmpty | rib-bench/rib.go:345-350 | with count >= 1, the DELETE block leaves every map empty and every trie allocated |
| RibBench.OutcomeIsPostInsertChecks | rib-bench/rib.go:292-356 | with count >= 1, the run's outcome is decided by the post-insert checks alone; the post-delete checks always pass |
| RibBench.FilledSize | rib-bench/rib.go:311-316 | after the inserts, each backend's size is its encoder's number of distinct keys, which equals the number of prefixes iff the keys are distinct |
| RibBench.PostInsertChecksPassIff | rib-bench/rib.go:311-316 | the post-insert checks pass iff every backend exists with the expected size |
| RibBench.BenchmarkPassesIffKeysDistinct | rib-bench/rib.go:292-356 | with count >= 1, the run passes iff all four encoders give distinct keys to the prefixes |
| RibBench.FilledChecksPassIff | rib-bench/rib.go:311-316 | the post-insert checks on the filled backends pass iff all four encoders give distinct keys |
| RibBench.SizesChecksPassIff | rib-bench/rib.go:311-316 | when sizes are distinct-key counts, the checks pass iff each encoder's keys are distinct |
| RibBench.DecodedCanonicalEncodable | rib-bench/rib.go:79 | decoded canonical prefixes are accepted by every encoder without a panic |
| RibBench.DecodedCanonicalKeysDistinct | rib-bench/rib.go:31-190 | every encoder gives pairwise different decoded canonical prefixes pairwise different keys |
| RibBench.DistinctCanonicalPrefixesPass | rib-bench/rib.go:292-356 | with count >= 1, pairwise different decoded canonical prefixes pass every size check |
| RibBench.DistinctPrefixesDistinctKeys | rib-bench/rib.go:31-82 | the byte-string and int encoders give pairwise different decoded IPv4 prefixes pairwise different keys |
| RibBench.DistinctPrefixesFillKeyMaps | rib-bench/rib.go:304-316 | with count >= 1, pairwise different decoded IPv4 prefixes, host bits or not, give both Go maps one entry per prefix; the DELETE block empties both |
| RibBench.NoRepetitionOutcome | rib-bench/rib.go:242-251 | with count < 1 nothing runs: the first check fails, or on empty input the nil immutable tree's `Len` panics |
| RibBench.IntKeyCheckFails | rib-bench/rib.go:312-313 | if the string-key check passes and the int-key size is wrong, the run stops at the int-key check |
| RibBench.MutableRadixCheckFails | rib-bench/rib.go:312-315 | if the first three checks pass and the mutable tree's size is wrong, the run stops there |
| RibBench.MixedFamiliesStringKeys | rib-bench/rib.go:31-45 | the byte-string keys of 0.0.0.0/0 and ::/0 differ |
| RibBench.MixedFamiliesIntKeys | rib-bench/rib.go:76-82 | 0.0.0.0/0 and ::/0 share a single int key |
| RibBench.MixedFamiliesFailIntKeyMap | rib-bench/rib.go:292-316 | with count >= 1, on 0.0.0.0/0 and ::/0 the run ends at the int-key map check, size 1 of 2 |
| RibBench.HostBitsDistinctKeys | rib-bench/rib.go:31-119 | the byte-string, int and radix encoders tell 10.0.0.1/24 and 10.0.0.2/24 apart |
| RibBench.HostBitsDistinctKeysOf | rib-bench/rib.go:31-119 | the same, one encoder at a time |
| RibBench.HostBitsSharedKey | rib-bench/rib.go:178-190 | the two records have one bit-string key between them |
| RibBench.HostBitsFailMutableRadix | rib-bench/rib.go:292-316 | with count >= 1, on 10.0.0.1/24 and 10.0.0.2/24, every check before the mutable tree's passes and that one fails, size 1 of 2 |
| RibBench.Rib.constructor | rib-bench/rib.go:22-29 | the globals start as nil maps and nil tries |
| RibBench.Rib.Size | rib-bench/rib.go:312-316 | the size argument of each check, or none where it would dereference a nil trie |
| RibBench.Rib.InsertStringKey | rib-bench/rib.go:47-53 | the string-key map becomes a fresh map with every prefix written in order; nothing else changes |
| RibBench.Rib.InsertIntKey | rib-bench/rib.go:84-90 | the same for the int-key map |
| RibBench.Rib.InsertMutableRadix | rib-bench/rib.go:192-198 | a fresh go-radix tree becomes the global and receives every prefix under its bit-string key |
| RibBench.Rib.InsertRadix | rib-bench/rib.go:121-127 | the last tree of the chain of persistent inserts becomes the global |
| RibBench.Rib.InsertCritbit | rib-bench/rib.go:149-155 | a fresh crit-bit trie becomes the global; each key keeps its first prefix |
| RibBench.Rib.LookupStringKey | rib-bench/rib.go:62-67 | the i-th lookup finds what the map stores under prefix i's key; nothing changes |
| RibBench.Rib.LookupIntKey | rib-bench/rib.go:99-104 | the same for the int-key map |
| RibBench.Rib.LookupMutableRadix | rib-bench/rib.go:207-212 | the same for the mutable radix tree |
| RibBench.Rib.LookupRadix | rib-bench/rib.go:135-140 | the same for the immutable radix tree |
| RibBench.Rib.LookupCritbit | rib-bench/rib.go:164-169 | the same for the crit-bit trie |
| RibBench.Rib.WalkStringKey | rib-bench/rib.go:69-74 | visits each key of the map exactly once; nothing changes |
| RibBench.Rib.WalkIntKey | rib-bench/rib.go:106-111 | the same for the int-key map |
| RibBench.Rib.WalkMutableRadix | rib-bench/rib.go:214-219 | the same for the mutable radix tree, whose callback never stops the walk |
| RibBench.Rib.WalkRadix | rib-bench/rib.go:142-147 | the same for the immutable radix tree |
| RibBench.Rib.WalkCritbit | rib-bench/rib.go:171-176 | the same for the crit-bit trie |
| RibBench.Rib.DeleteStringKey | rib-bench/rib.go:55-60 | the keys of all prefixes leave the map; nothing else changes |
| RibBench.Rib.DeleteIntKey | rib-bench/rib.go:92-97 | the same for the int-key map |
| RibBench.Rib.DeleteMutableRadix | rib-bench/rib.go:200-205 | the same for the mutable radix tree, in place |
| RibBench.Rib.DeleteRadix | rib-bench/rib.go:129-133 | the chain of persistent deletes leaves the global without any prefix's key |
| RibBench.Rib.DeleteCritbit | rib-bench/rib.go:157-162 | the same for the crit-bit trie, in place |
| RibBench.Rib.RunPhase | rib-bench/rib.go:246 | one call of a phase function has that phase's effect on the globals |
| RibBench.Rib.Run | rib-bench/rib.go:242-251 | `b.run` calls the phase `count` times, so the globals change as for one run, or not at all when count < 1 |
| RibBench.Rib.RunInserts | rib-bench/rib.go:297-302 | the INSERT block in `main`'s order |
| RibBench.Rib.RunLookups | rib-bench/rib.go:331-336 | the LOOKUP block leaves the globals unchanged |
| RibBench.Rib.RunWalks | rib-bench/rib.go:338-343 | the WALK block leaves the globals unchanged |
| RibBench.Rib.RunDeletes | rib-bench/rib.go:345-350 | the DELETE block in `main`'s order |
| RibBench.Rib.CheckInserted | rib-bench/rib.go:311-316 | the five post-insert checks, in `main`'s order, stopping at the first failure |
| RibBench.Rib.CheckDeleted | rib-bench/rib.go:352-356 | the five post-delete checks, in `main`'s order |
| RibBench.Rib.Benchmark | rib-bench/rib.go:292-356 | `main` after decoding ends with the outcome the lemmas above characterise |
| Counters.Equals | fullroute-bench/update-watcher/src/main.rs:20-43 | the early-return loop computes `Counter::eq`: equal sizes, and every peer of `other` is in `self` with non-zero, equal tx and rx |
| Counters.EqIff | fullroute-bench/update-watcher/src/main.rs:20-43 | eq holds iff the tables are identical and every counter has started; it is false whenever the sizes differ |
| Counters.EqReflexiveIffStarted | fullroute-bench/update-watcher/src/main.rs:28-31 | a table equals itself iff none of its counters is zero |
| Counters.EqSymmetricTransitive | fullroute-bench/update-watcher/src/main.rs:20-43 | eq is symmetric and transitive |
| Counters.IsStabilized | fullroute-bench/update-watcher/src/main.rs:269-276 | the loop returns true iff `h[0]` equals every `h[i]`, 1 <= i < len |
| Counters.StabilizedIff | fullroute-bench/update-watcher/src/main.rs:269-276 | a history of at most one snapshot is stable; a longer one is stable iff all snapshots are one table whose counters have all started |
| UpdateWatcher.Window | fullroute-bench/update-watcher/src/main.rs:311-314 | after insert-at-front and the pops: length min(old + 1, 3), the new snapshot first, then the previous leading entries in order |
| UpdateWatcher.WindowFillsWithRepeats | fullroute-bench/update-watcher/src/main.rs:311-314 | three rounds with one snapshot leave three copies of it, whatever came before |
| UpdateWatcher.FinishedIff | fullroute-bench/update-watcher/src/main.rs:316-320 | finished iff two snapshots were already kept and the new one has peers, has only started counters, and equals both |
| UpdateWatcher.RepeatedObservationFinishes | fullroute-bench/update-watcher/src/main.rs:307-320 | the same started, non-empty table seen three rounds in a row makes that round report `finished` |
| UpdateWatcher.ZeroCounterNeverFinishes | fullroute-bench/update-watcher/src/main.rs:316-320 | a table with a zero counter makes the round report `finished` false |
| UpdateWatcher.Watcher.constructor | fullroute-bench/update-watcher/src/main.rs:302 | the history starts empty |
| UpdateWatcher.Watcher.Observe | fullroute-bench/update-watcher/src/main.rs:308-320 | one round: the history becomes the window (at most 3 entries) and `finished` is reported exactly as characterised above |
| Scrapers.FrrErrorSticks | fullroute-bench/update-watcher/src/main.rs:136-153 | after a panic, later lines change nothing |
| Scrapers.FrrGetCounter | fullroute-bench/update-watcher/src/main.rs:121-156 | the line loop over `addr` and `m` returns the fold's table, or the panic the fold reaches first |
| Scrapers.FrrNeighborWhilePendingFails | fullroute-bench/update-watcher/src/main.rs:137-139 | a neighbour line while an address is pending is a panic |
| Scrapers.FrrUpdatesWithoutNeighborFails | fullroute-bench/update-watcher/src/main.rs:142-144 | an updates line with no pending address is a panic |
| Scrapers.FrrPeersFromNeighborLines | fullroute-bench/update-watcher/src/main.rs:136-153 | every recorded or pending peer was named by a neighbour line |
| Scrapers.FrrScrapesStanzas | fullroute-bench/update-watcher/src/main.rs:136-153 | on well-formed output each stanza's (peer, tx, rx) is written in order and nothing is left pending |
| Scrapers.FrrLastStanzaWins | fullroute-bench/update-watcher/src/main.rs:145-151 | on well-formed output the peers are the stanzas' peers, and a later stanza for a peer overwrites an earlier one |
| Scrapers.BirdErrorSticks | fullroute-bench/update-watcher/src/main.rs:186-204 | after a panic, later lines change nothing |
| Scrapers.BirdGetCounter | fullroute-bench/update-watcher/src/main.rs:174-207 | the line loop over `addr`, `rx` and `m` returns the fold's table, or the panic the fold reaches first |
| Scrapers.BirdRecordsStartedImports | fullroute-bench/update-watcher/src/main.rs:193-201 | only peers whose last import count was non-zero are recorded |
| Scrapers.BirdExportConsumes | fullroute-bench/update-watcher/src/main.rs:191-203 | an export line with no pending address is a panic; otherwise it consumes the address and resets `rx`, and with `rx` 0 it records nothing |
| Scrapers.BirdScrapesStanzas | fullroute-bench/update-watcher/src/main.rs:186-204 | on well-formed output the result is the reference table of the stanzas |
| Scrapers.BirdTablePeers | fullroute-bench/update-watcher/src/main.rs:193-201 | a peer is in that table iff one of its stanzas has a non-zero import count |
| Scrapers.OpenBgpdErrorSticks | fullroute-bench/update-watcher/src/main.rs:230-244 | after a panic, later neighbours change nothing |
| Scrapers.OpenBgpdGetCounter | fullroute-bench/update-watcher/src/main.rs:217-248 | the loop with `continue` returns the fold's table, or the panic the fold reaches first |
| Scrapers.KeptParseAll | fullroute-bench/update-watcher/src/main.rs:237-243 | the success condition holds iff every neighbour that is not skipped parses |
| Scrapers.OpenBgpdOkIffKeptParse | fullroute-bench/update-watcher/src/main.rs:230-244 | the scrape succeeds iff every neighbour that is not skipped parses |
| Scrapers.OpenBgpdRecordsKept | fullroute-bench/update-watcher/src/main.rs:230-244 | on success, the table is the in-order writes of the neighbours that are not skipped |
| Scrapers.KeptPeersAreUnskipped | fullroute-bench/update-watcher/src/main.rs:232-235 | an address is written iff some neighbour that is not skipped has it |
| Scrapers.OpenBgpdPeers | fullroute-bench/update-watcher/src/main.rs:230-244 | success iff all neighbours that are not skipped parse, and then a peer is present iff such a neighbour has its address |

## Left out

- MRT decoding (`rib-bench/rib.go:256-291`): the prefix list is an input. `main` keeps only IPv4 unicast RIB records, so ordinary input is IPv4-only and canonical.
- Wall-clock timing, the ns/op average, `reset` and `stop` (`rib-bench/rib.go:234-251`): `Rib.Run` keeps only "the phase runs `count` times".
- Flag parsing, the pprof heap profile, `runtime.GC()` and the final printout: I/O.
- Diagnostic strings: a failed check is reported by backend, actual size and expected size. The label swap ("mutable" and "immutable" at `rib-bench/rib.go:314-315`, "critbit walk" for the delete phase at line 350) is not reproduced.
- The internals of go-radix, go-immutable-radix and critbitgo: each is an abstract map (`Backends.RadixTree`, `Backends.ImmutableTree`, `Backends.CritbitTrie`). Walk order, structural sharing and node layout are not modelled, and a walk returns its keys in an unspecified order.
- The `unsafe.Pointer` string cast in `stringKey`: the key is a byte sequence compared by value.
- `nlri.String()` for families other than IPv4 and IPv6: `StringKey` of such a record is its text form, as an opaque value.
- Slice aliasing: `append(T.Prefix, byte(T.Length))` in `radixKey` may write into the decoder's buffer. The model builds a fresh sequence.
- `Rib.DeleteRadix`: the source reassigns the global `ir` after every delete. The model chains the deletes through a local tree and assigns `ir` once at the end. No other code runs in between, so the final state is the same.
- Go's out-of-range panics in the encoders (`binary.BigEndian.Uint32` on fewer than 4 bytes, `buffer.String()[:max]` beyond the buffer): `RibBench.AllEncodable` requires inputs that avoid them. Decoded records always do (`Prefixes.WellFormedIsEncodable`).
- The gRPC `GoBgp` target, the tokio runtime and the one-second sleep: network I/O and time.
- The infinite polling loop of `main`: one round is `UpdateWatcher.Watcher.Observe`, and the lemmas about `Window` and `Finished` cover rounds in sequence.
- Subprocess execution (`vtysh`, `birdc`, `bgpctl`, `iptables`), UTF-8 decoding, the regular expressions and `serde_json`. Scraper input is given already classified:
  - `Scrapers.FrrLine` and `Scrapers.BirdLine` say what a line's patterns capture;
  - `Scrapers.BgpctlNeighbor` holds the JSON fields of one neighbour;
  - a failed `unwrap` on a missing JSON field is not modelled.
- `Ipv4Addr::from_str`, `parse::<u64>` and `as_i64`: each is a `Scrapers.Capture`, either the parsed value or `Unparsable`. Text is not parsed.
- `assert_eq!(caps.len(), …)` in the FRR scraper: it always holds for these patterns.
- HashMap iteration order in `Counter::eq`: `Counters.Equals` picks the next key arbitrarily, and its result does not depend on the order.
