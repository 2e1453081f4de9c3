# CoVault: a verified model

CoVault runs privacy-preserving queries over device encounters in two-party computation, executed twice
with the parties' roles exchanged (dual execution).  Its own logic is a small set of oblivious algorithms
and inter-process protocols; this project models them in Dafny and proves what they are for.  In-circuit
integers are read as integers or bit sequences, garbled bits as booleans.  Hash, MAC and keystream are
uninterpreted functions; the malicious equality check is one joint step comparing its two inputs.

`dafny verify dfyconfig.toml` checks everything.  The modules, by what they model:

- `Powers`, `Integers`, `BitVectors`, `Wrappers`: powers of two and the split point, counters as bits, 256-bit vectors as bits.
- `Network`, `NetworkInPlace`, `NetworkCost`: the arbitrary-length bitonic network as a function, why it sorts
  (thresholds, virtual padding at the end, cyclically bitonic sequences), its action on a slice, its comparisons.
- `HashOrder`, `ShuffleSort`: the SIMD mask comparison and the masked in-place sort of path encounters.
- `ShuffleStore`, `Fields`, `PathShuffle`, `PathStore`: the store with its binary search, field packing, and the
  store / LEFT shuffle / RIGHT shuffle / fetch path.  `ContactStore` derives the contact walk's shuffles from it.
- `SharedSort`: the chunked sort on secret shares, refined to the same network.
- `SwappableRam`, `Revealer`, `RevealerCalls`: the four-mutex dance as a system of atomic steps over all
  interleavings; the garbler / non-garbler / checker protocol over the swaps it provides; the flags under any calls.
- `Rendezvous`: a swap as a meeting of two sides; the mutex dance refines it and the protocol runs on it.
- `Payloads`, `DualVerdicts`: the labels hashed by the equality check, in the revealer and in the reducer; the two
  machines' checks together, as the verdicts of the protocol.
- `Compaction`, `Reducer`, `Mapper`, `TopOne`: in-place compaction and what is built on it.
- `Bloom`, `BloomCounter`: the filter, and exactly when its three-bit counter is right.
- `FlowWalk`: the flow query.  `ContactWalk`, `ContactQuery`: the contact query in one shuffle and over all of them.
- `Ingress`, `Chains`: ingress with the count query, and the per-device chains.

A value `none` is a parameter of the compaction (its two overloads use different ones); elsewhere it is the least
32-bit integer, as in the code.

## Model

| member | source | states |
|---|---|---|
| `Network.SortCorrect` | include/store_path_encounter.hpp:240-248 | for every sequence of any length, either direction and any rank, the network leaves it sorted and a rearrangement of the same whole records |
| `Network.MergeSortsMergeable` | include/store_path_encounter.hpp:228-238 | merging sorts every sequence that, at each threshold and padded with +infinity at the end, is cyclically bitonic: low records an interval, or high records an interval when the length is a power of two |
| `Network.MergeCorrect` | include/store_path_encounter.hpp:228-238 | both directions: fall-then-rise is merged ascending and rise-then-fall descending, at any lengths of the two runs, keeping the records |
| `Network.CleanLowInterval` | include/store_path_encounter.hpp:231-234 | half-cleaner: when the low records are an interval, one level leaves one half uniform and the other mergeable again |
| `Network.CleanHighInterval` | include/store_path_encounter.hpp:231-234 | the same when the high records are an interval and the length is a power of two |
| `Network.FallRiseMergeable` | include/store_path_encounter.hpp:243-246 | two halves sorted in opposite directions form a mergeable sequence, whatever their lengths |
| `NetworkInPlace.MergeAtIsMerge` | include/store_path_encounter.hpp:228-238 | the recursion on a[low..low+count) merges exactly that slice and changes nothing before or after it |
| `NetworkInPlace.SortAtIsSort` | include/store_path_encounter.hpp:240-248 | the recursion on a[low..low+count) sorts exactly that slice and changes nothing before or after it |
| `NetworkCost.SortCost` | include/store_path_encounter.hpp:228-248 | with L = ceil(log2 count), four times the number of compared pairs is at most count * L * (L + 1) |
| `NetworkCost.MergeBound` | include/store_path_encounter.hpp:228-238 | a merge compares at most count * ceil(log2 count) / 2 pairs |
| `Powers.ShiftedSplitIsPowerBelow` | include/store_path_encounter.hpp:231 | 2^31 shifted right by lzcnt(count - 1) is the highest power of two below count, for every count from 2 to 2^32 |
| `ShuffleSort.XorSwap` | include/store_path_encounter.hpp:203-215 | the three masked xors exchange two vectors under the all-ones mask and leave both alone under zero |
| `ShuffleSort.CompareAndSwap` | include/store_path_encounter.hpp:199-226 | in place, key and both payload vectors together: exactly the comparator of the network |
| `ShuffleSort.BitonicMerge` | include/store_path_encounter.hpp:228-238 | the array ends as the network on the slice says, and the compared index pairs are a function of (low, count) alone |
| `ShuffleSort.BitonicSort` | include/store_path_encounter.hpp:240-248 | the same for the sort: obliviousness of the comparison sequence, and refinement of the network |
| `ShuffleSort.SortEncounters` | include/store_path_encounter.hpp:250-252 | the first size records end with no key followed by one that should come before it, a rearrangement of the same whole records, and the rest is untouched |
| `HashOrder.CompareHashIsRank` | include/store_path_encounter.hpp:135-138 | comparing the two movemask words is comparing base-256 numbers of the signed lanes, for any number of lanes |
| `HashOrder.CompareHashIsLex` | include/store_path_encounter.hpp:135-143 | compareHash is most-significant-lane-first lexicographic order, a lane exceeding another when only the other has the top bit or its byte is larger; compareHashEq is equality |
| `HashOrder.LaneSigned` | include/store_path_encounter.hpp:125-138 | lanes compare as the signed numbers of their bytes |
| `BitVectors.BitWeights` | include/store_path_encounter.hpp:44-52 | the bits of a byte of a key or payload, lowest weight first |
| `HashOrder.CompareHashTotalOrder` | include/store_path_encounter.hpp:125-138 | compareHash is irreflexive, asymmetric, total and transitive |
| `HashOrder.LexIsRank` | include/store_path_encounter.hpp:125-138 | lexicographic order on lanes is the order of the ranks |
| `ShuffleStore.Store.AddOrReplace` | include/store_path_encounter.hpp:78-86 | makes unfilled room of the given size under that id only, in place of any earlier shuffle there, and tells whether there was one |
| `ShuffleStore.SearchNarrows` | include/store_path_encounter.hpp:177-181 | on a sorted shuffle, the half the search drops does not hold the key |
| `ShuffleStore.Store.Fetch` | include/store_path_encounter.hpp:150-185 | what is returned was stored under the key; on a sorted shuffle the search succeeds exactly for the keys present; an unknown shuffle yields nothing |
| `Fields.FillInteger` | include/encounter.hpp:452-518 | the cursor loop packs the named fields of one encounter in the order given |
| `Fields.FillIntegers` | include/encounter.hpp:374-524 | for every encounter of the batch, in the order given or the traditional one when the first name is none; a dummy batch yields integers of the same width |
| `Fields.FromInteger` | include/encounter.hpp:560-625 | the reverse loop updates exactly the named fields of one encounter, in place |
| `Fields.FromIntegers` | include/encounter.hpp:528-629 | for every integer of the batch the record of the same index, no other; a dummy batch changes nothing |
| `Fields.UnpackOfPacked` | include/encounter.hpp:374-629 | round trip for every order, names repeated or unknown included: each field named is recovered, every other field keeps its value |
| `Fields.TraditionalLayout` | include/encounter.hpp:385-397 | without names the twelve fields stand one after the other in declaration order |
| `Fields.NamedLayout` | include/encounter.hpp:385-397 | when the first name is given, the order is the one named |
| `PathStore.Transfer` | include/store_path_encounter.hpp:331-394 | the switch loop brings the lookup and secret fields into the two buffers as reading the integer field by field would |
| `PathStore.CoveredParts` | include/store_path_encounter.hpp:282-394 | any order that contains the needed fields fills both buffers with exactly that encounter, whatever stood in them before |
| `PathStore.CtrInPlace` | include/store_path_encounter.hpp:448-454 | encryption in place is the keystream xor |
| `PathStore.StorePathEncounters` | include/store_path_encounter.hpp:285-484 | each output record gets the encounter's MAC key, and, if the equality check of that key passed, the encounter sealed under the RIGHT secret with the start of its MAC appended, though the buffers carry over between rounds |
| `PathStore.FillDummies` | include/store_path_encounter.hpp:257-262 | only the keys of the dummy records change, to the nonce with its low 64-bit word advanced |
| `PathStore.EncryptEncounters` | include/store_path_encounter.hpp:265-273 | each record is re-keyed by the keyed hash and re-encrypted under its new key, in place, the rest untouched |
| `PathStore.SendShuffle` | include/store_path_encounter.hpp:611-622 | what is sent is the LEFT shuffle of the encounters and the dummies |
| `PathStore.ReceiveShuffle` | include/store_path_encounter.hpp:626-645 | the room made under the id is filled, re-encrypted and sorted in place: the store gains the RIGHT shuffle of what was received, and nothing else changes |
| `PathStore.FetchAndDecrypt` | include/store_path_encounter.hpp:663-866 | the result is there exactly when the final key is, and decrypts a payload stored under it: some secret part and tag under three layers, with the fields of that secret part, the MAC reported correct if and only if the tag is the start of its MAC; after a failed equality check nothing is fetched |
| `PathShuffle.BothShufflesRecords` | include/store_path_encounter.hpp:611-645 | after both shuffles the store holds exactly the doubly encrypted records, in key order |
| `PathShuffle.DecryptTwice` | include/store_path_encounter.hpp:491-606 | undoing the three encryptions gives the secret part back field by field, and the truncated MAC matches |
| `PathShuffle.TagDecides` | include/store_path_encounter.hpp:565-591 | for every secret part and every tag under the three layers, the fields come back and the MAC check passes if and only if the tag is the start of the MAC of that secret part |
| `PathShuffle.AnyDataLayered` | include/store_path_encounter.hpp:509-563 | whatever 512 bits are stored, they are some secret part and some tag under the three layers |
| `PathShuffle.ChangedTagFails` | include/store_path_encounter.hpp:565-591 | data that differ from those of a correct record in the tag only fail the check |
| `PathShuffle.MacDependsOnBoth` | include/secrets.hpp:185-189 | where the hash does not collide, two MACs are equal if and only if the data are and the two secrets differ in the same places |
| `PathShuffle.OnlyPayload` | include/store_path_encounter.hpp:611-645 | under distinct final keys the only payload stored under a record's final key is that record's |
| `PathStore.FetchFinds` | include/store_path_encounter.hpp:663-866 | after both shuffles a fetch succeeds if and only if some stored record ends up under the key looked up |
| `PathStore.FetchReturnsStored` | include/store_path_encounter.hpp:647-662 | under distinct keys, fetching a stored encounter by device and time returns its own encountered, previous, duration and confirmed, and passes the MAC check |
| `PathStore.FetchChecksTag` | include/store_path_encounter.hpp:491-606 | whatever secret part and tag a record was stored with, after both shuffles a fetch under its key returns those fields and reports the MAC correct if and only if the tag is right |
| `PathStore.ChangedTagReported` | include/store_path_encounter.hpp:491-606 | a tag changed in the store is found and reported by a fetch |
| `PathStore.DummyFound` | include/store_path_encounter.hpp:257-262 | the i-th dummy is found under the in-circuit counter's i-th nonce while the low 64-bit word does not wrap |
| `PathStore.DummyFoundExactly` | include/store_path_encounter.hpp:257-262 | and only then: the i-th nonce finds something if and only if i is below the number of dummies and the low word does not wrap, where no encounter ends up under it |
| `PathStore.NonceFound` | include/store_path_encounter.hpp:257-262 | whatever nonce is looked up, something is found if and only if a dummy was laid under exactly that nonce |
| `ContactStore.LookupAgrees` | include/contact_path_query.hpp:111-129 | a fetch by device and time succeeds for exactly the keys of the walk's shuffle, and reveals the encountered, previous and confirmed that the walk reads there |
| `ContactStore.NonceAgrees` | include/contact_path_query.hpp:107-129 | a fetch by nonce succeeds exactly where the walk's shuffle has a dummy laid |
| `PathStore.StoreShuffleFetch` | include/store_path_encounter.hpp:117-122 | the whole path run on arrays and the store: store in any covering field order, dummies, LEFT shuffle, RIGHT shuffle, fetch, gives the k-th encounter's own fields with the MAC correct, when keys are distinct and the equality checks passed |
| `Integers.CountersAgree` | include/store_path_encounter.hpp:257-262 | the 64-bit increment of fill_dummies and the 256-bit in-circuit increment agree exactly as long as the low word does not wrap |
| `Integers.CounterReaches` | include/store_path_encounter.hpp:257-262 | the k-th key of fill_dummies is the in-circuit counter's c-th value if and only if k is c and the low word does not wrap, up to c = 2^64 |
| `Integers.AdvancedLowDistinct` | include/store_path_encounter.hpp:257-262 | dummy keys with different indices below 2^64 differ |
| `SwappableRam.SwappableRam.Init` | include/dualex_reveal.hpp:125-134 | succeeds once |
| `SwappableRam.SwappableRam.ChooseSide` | include/dualex_reveal.hpp:139-151 | succeeds once, after init, and sets the side; refused, it changes nothing |
| `SwappableRam.SwappableRam.Get` | include/dualex_reveal.hpp:157-164 | the patch the flag selects, nothing before a side is chosen |
| `SwappableRam.SwappableRam.Put` | include/dualex_reveal.hpp:153-164 | writing through the pointer given: the patch in hand holds the value, the other patch and the mutexes are as before |
| `SwappableRam.WrittenPatch` | include/dualex_reveal.hpp:153-164 | in the system too: a write is what the patch then holds, and touches nothing else |
| `SwappableRam.SwappableRam.BeginSwap` | include/dualex_reveal.hpp:170-174 | entering swap(): refused before a side is chosen, otherwise the process's next state in the two-process system |
| `SwappableRam.SwappableRam.StepSwap` | include/dualex_reveal.hpp:175-181 | each lock, unlock and flip on the object is the atomic step of the two-process system, and blocks exactly when that step does |
| `SwappableRam.InvNext` | include/dualex_reveal.hpp:67-97 | who holds which of the four mutexes, which patch still holds what, and how far one side can be ahead: kept by every step of either side |
| `SwappableRam.PatchesDisjoint` | include/dualex_reveal.hpp:34-38 | over every interleaving, outside swap() the two sides never hold the same patch |
| `SwappableRam.SwapsExchange` | include/dualex_reveal.hpp:166-182 | no side finishes its n-th swap before the other begins its n-th, and what it finds is what the other left on entering |
| `SwappableRam.WrittenIsFound` | include/dualex_reveal.hpp:166-182 | over every run: what a side last wrote before entering its n-th swap is what the partner finds on leaving its own n-th |
| `SwappableRam.UnwrittenGoesBack` | include/dualex_reveal.hpp:166-182 | what was found in a swap and not written over is handed back in the next |
| `SwappableRam.HeldIsFound` | include/dualex_reveal.hpp:166-182 | in every case the partner finds what the patch held when the side last stood outside swap(), the first patch included |
| `SwappableRam.PatchPrivate` | include/dualex_reveal.hpp:34-38 | between swaps nothing the other side does changes a side's patch |
| `SwappableRam.SwapNeverStuck` | include/dualex_reveal.hpp:170-182 | with both sides swapping, one of them can always step; a side that is behind always can |
| `SwappableRam.RestsOnlyWhenDone` | include/dualex_reveal.hpp:166-182 | two processes that each make n swaps come to rest only when both have completed all n |
| `SwappableRam.WantedIsFinite` | include/dualex_reveal.hpp:166-182 | and they do come to rest: every step uses up a bounded number |
| `Rendezvous.LastStepMeets` | include/dualex_reveal.hpp:170-182 | the last step of a swap is taken only once the partner has entered as often, and finds what the partner left at that meeting |
| `Rendezvous.StepMeets` | include/dualex_reveal.hpp:170-182 | every atomic step of the mutex dance is one event of the meeting system (enter or exit) or leaves it alone |
| `Rendezvous.DanceIsMeetings` | include/dualex_reveal.hpp:34-182 | every run of the mutex dance, over all interleavings, projects to a run of the meeting system |
| `Rendezvous.MeetingCompletes` | include/dualex_reveal.hpp:170-182 | conversely, a side that may leave its meeting can be brought to leave it by steps of the dance |
| `Rendezvous.ExitMeets` | include/dualex_reveal.hpp:322-566 | when the reveal protocol lets a process out of a swap, that exit is enabled in the meeting system of its channel and hands over what the meeting delivers |
| `Rendezvous.EnterMeets` | include/dualex_reveal.hpp:322-566 | every enabled entry of the reveal protocol is an entry of that meeting system, never refused |
| `Revealer.InvNext` | include/dualex_reveal.hpp:322-566 | the three-process invariant (position, flags, how often each channel was used, what was handed over and received, rendezvous) is kept by every event |
| `Revealer.VerdictsCorrect` | include/dualex_reveal.hpp:393-541 | over every interleaving the verdict a process receives in round i is the check of the labels, bools and bit count handed over in round i |
| `Revealer.ConcludesOnCollected` | include/dualex_reveal.hpp:425-520 | a checker reaches a verdict if and only if it has collected a request, both label arrays and the bools, and then it is the check of exactly these |
| `Revealer.RequestsWaitForVerdicts` | include/dualex_reveal.hpp:322-389 | no guard ever refuses in a run of reveal / get-results rounds, and no process requests again before collecting its verdict |
| `Revealer.RevealedValuesAgree` | include/dualex_reveal.hpp:754-776 | garbler and non-garbler output the same revealed values in the same order, and all of them once stopped |
| `Revealer.RestsOnlyWhenDone` | include/dualex_reveal.hpp:393-566 | no run deadlocks: when nothing can move, both processes have stopped with a verdict for every round and the checker has exited |
| `Revealer.RunsAreFinite` | include/dualex_reveal.hpp:393-566 | every run ends: each event advances a measure bounded by the number of rounds |
| `DualVerdicts.VerdictMeans` | include/dualex_reveal.hpp:393-541 | with the check of a round instantiated by the two machines' payload digests, a verdict holds whenever the wires agree, and only then unless the digest collides on the two payloads |
| `DualVerdicts.CheckUsesHandOver` | include/dualex_reveal.hpp:460-520 | the check passes if and only if the two halves assembled from what was handed over, in the order of the role, have the digest the other machine puts in |
| `DualVerdicts.VerdictsCompareResults` | include/dualex_reveal.hpp:393-541 | over every interleaving of a machine's processes, each verdict received in a round says, unless the digest collides on the two payloads, whether on every wire the two executions agree or neither garbling distinguishes the bits |
| `DualVerdicts.RevealsReachTheirSide` | include/dualex_reveal.hpp:754-776 | in every reachable state both processes of a machine have output exactly the values, in order, of the rounds so far whose side is both or that machine's; a round for the other side adds nothing |
| `DualVerdicts.RequestsNameTheRound` | include/dualex_reveal.hpp:344-389 | the i-th request handed to a checker asks for round i, with its side and number of bits, and the one after the last round asks for nothing |
| `RevealerCalls.AcceptedTakeTurns` | include/dualex_reveal.hpp:319-389 | whatever sequence of calls one process makes, the calls let through alternate request and results, start with a request, and end with a stop |
| `RevealerCalls.FlagsDecide` | include/dualex_reveal.hpp:319-389 | the two flags admit a call if and only if it may come next in that order |
| `RevealerCalls.DualExProcess.RequestEqCheck` | include/dualex_reveal.hpp:344-367 | flags, request written (0 bits means the maximum) and channels swapped, or a refusal that changes nothing |
| `RevealerCalls.DualExProcess.GetEqCheckResults` | include/dualex_reveal.hpp:322-338 | refused without a swap unless a check is in progress; otherwise the verdict found after one swap |
| `RevealerCalls.DualExProcess.StopEqChecker` | include/dualex_reveal.hpp:374-389 | clears the wish to reveal and swaps once, or refuses and changes nothing, the written request included |
| `Compaction.ComputeDistance` | include/primitives.hpp:97-112 | dead cells get distance 0, a live cell the number of dead cells before it |
| `Compaction.DistanceFits` | include/primitives.hpp:59 | every distance fits floor(log2(size - 1)) + 1 bits, so that many passes suffice |
| `Compaction.NoCollision` | include/primitives.hpp:68-78 | after any number of passes two live elements are never at the same position |
| `Compaction.LandsOnDeadCell` | include/primitives.hpp:68-92 | whenever an element moves, the cell it lands on is dead: no live element is ever overwritten |
| `Compaction.SkippedCellsAreHome` | include/primitives.hpp:69 | the cells below 2^i that pass i skips hold only elements whose remaining distance is 0 |
| `Compaction.HandleCell` | include/primitives.hpp:69-92 | one step on the two arrays: move or stay, halve or clear the distance, clear the vacated cell |
| `Compaction.StepKeeps` | include/primitives.hpp:68-93 | one step keeps the position of every element on schedule |
| `Compaction.Compact` | include/primitives.hpp:20-94 | the array ends as its live elements in their original order followed only by dead cells |
| `Reducer.ComputeDistanceMarkDuplicates` | include/reducer.hpp:13-35 | marks, in place, every cell equal to its right neighbour, and returns the distances of what is left |
| `Reducer.KeptDescend` | include/reducer.hpp:22-31 | on a sorted list what is left is strictly descending |
| `Reducer.KeptAll` | include/reducer.hpp:22-31 | and every value of the list is left exactly as one occurrence |
| `Reducer.MarkAndCompact` | include/map_reducer.hpp:31-35 | marking and compacting a descending list gives its strictly descending set followed only by none, so that the whole list stays descending |
| `Reducer.Reduce` | src/reducer_eq.cpp:92-104 | two ascending lists of equal length, the second pushed reversed and merged descending, give the strictly descending union of their elements followed by none |
| `Mapper.RunQueryUniqueDevices` | include/mapper.hpp:43-105 | in the bits stored: each record contributes the low 32 bits of the second device, in two's complement, if its first device is the sick one and its last bit is set, else none |
| `Mapper.RunQueryInPlace` | include/mapper.hpp:98-103 | the in-place variant writes the same entries into the cells from the start index on and no others |
| `Mapper.EntriesAreMet` | include/mapper.hpp:43-105 | apart from none the entries are exactly the fingerprints of the sick device's confirmed encounters |
| `Mapper.FingerprintBits` | include/mapper.hpp:92-102 | the fingerprint of a device is its low 32 bits in two's complement |
| `Mapper.SameFingerprint` | include/mapper.hpp:92-102 | two devices share a fingerprint if and only if their low 32 bits agree |
| `Mapper.ProcessFirstPair` | include/map_reducer.hpp:12-41 | the result is strictly descending and duplicate-free, followed only by none, and lists a 32-bit word other than none if and only if some stored record is a confirmed encounter of the sick device with a device of those low bits; the code looks the same key up twice |
| `TopOne.CountRuns` | test/top_1.cpp:173-181 | the scan of a chunk leaves each run's length on its last cell |
| `TopOne.SumRuns` | test/top_1.cpp:222-231 | the scan of a merged pair leaves each run's sum of frequencies on its last cell, in 32-bit arithmetic |
| `TopOne.SummedCounts` | test/top_1.cpp:173-231 | on a sorted list whose frequencies add up to the occurrences, the last cell of a run carries the exact number of occurrences |
| `TopOne.CountChunk` | test/top_1.cpp:166-184 | a chunk becomes the histogram of its categories: each once, descending, with its exact count, then null |
| `TopOne.OnlyNullsErased` | test/top_1.cpp:185-186 | what is erased beyond the number of categories is null |
| `TopOne.MergeChunks` | test/top_1.cpp:216-236 | reversing one histogram, merging, scanning and compacting gives the histogram of both inputs together |
| `TopOne.CountAll` | test/top_1.cpp:164-187 | after the first pass the list is one histogram per whole chunk and then the rest of the input untouched; together they account for the whole input |
| `TopOne.MergeAll` | test/top_1.cpp:213-237 | always merging the first two, the histograms of the chunks become that of the whole |
| `TopOne.CountCategories` | test/top_1.cpp:159-237 | the assertion after the first pass holds if and only if the input is made of whole chunks; then the merge tree leaves each occurring category once, in descending order, with its exact number of occurrences in the whole input |
| `SharedSort.LevelInParts` | test/sortEncounters.cpp:677-703 | doing a level's comparators in two parts is doing them at once, and the pairs compared are the same |
| `SharedSort.MergeChunks` | test/sortEncounters.cpp:580-661 | combining, comparing, re-blinding and storing back a chunk acts on the combined sequence as the comparators (lower + i, higher + i) |
| `SharedSort.LevelInChunks` | test/sortEncounters.cpp:677-703 | the chunks of a level do each of its comparators exactly once |
| `SharedSort.ChunksEndExactly` | test/sortEncounters.cpp:677-703 | the loop over the chunks of a non-empty level ends if and only if a circuit holds at least two encounters |
| `SharedSort.Merge2PC` | test/sortEncounters.cpp:663-757 | on the xor of the two share arrays the chunked merge is the unchunked merge, for every circuit size of at least 2 |
| `SharedSort.ChunkedSortCorrect` | test/sortEncounters.cpp:759-829 | splitting at the highest power of two and sorting small parts inside one circuit still sorts and keeps the records |
| `SharedSort.BitonicSort2PC` | test/sortEncounters.cpp:759-829 | on the xor of the two share arrays the procedure is that sort of the slice, the rest untouched, where circuits hold at least 2 or the whole slice |
| `SharedSort.Sort2PC` | test/sortEncounters.cpp:831-852 | the reconstructed sequence ends in order by the bits of its keys, in the direction asked (of two keys the earlier is equal, or alone has the sign bit, or has 0 at the most significant difference), a rearrangement of the whole records, for every circuit size of at least 2, and for smaller ones when everything fits one circuit |
| `SharedSort.KeyOrderIs` | test/sortEncounters.cpp:613-617 | the comparison is the signed comparison of the key bits |
| `SharedSort.CombinedBits` | test/sortEncounters.cpp:604-609 | a bit of what two shares stand for is set if and only if it is in exactly one of them |
| `Payloads.GetLabels` | include/dualex/labels.h:11-19 | all wire labels in order, integer after integer |
| `Payloads.GetGeneratorLabels` | include/dualex/labels.h:22-40 | each label xored with delta after its word 0 is cleared |
| `Payloads.ApplyLabels` | include/dualex/labels.h:42-50 | picks word 1 for a set bool and word 0 otherwise, into the given part of the output only |
| `Payloads.ApplyWords` | include/dualex/labels.h:52-60 | the overload on flat words, with its second index, picks the same |
| `Payloads.AppliedIsW` | include/dualex/labels.h:11-60 | generator blocks and the labels the evaluator holds yield the same halves for the same bits |
| `Payloads.XorWordsIs` | include/dualex/labels.h:22-40 | the xor of two words has the bits that exactly one of them has |
| `Payloads.LabelsDifferByDelta` | include/dualex/labels.h:22-40 | the two labels of a wire differ by delta |
| `Payloads.DistinguishesIs` | include/dualex/labels.h:22-60 | a wire fails to distinguish its bits if and only if the two words of its zero label differ by word 1 of delta |
| `Payloads.AssemblePayload` | include/dualex_reveal.hpp:460-466 | the order of the two halves by role |
| `Payloads.PayloadsAgree` | include/dualex_reveal.hpp:460-466 | the two checkers' payloads are equal if and only if on every wire the two results agree or neither garbling distinguishes the bits |
| `Payloads.CheckComparesResults` | include/dualex_reveal.hpp:460-466 | when each wire is distinguished by a garbling, the payloads are equal if and only if the results are |
| `Payloads.Check` | include/dualex_reveal.hpp:460-520 | the assembled buffers, compared by digest in the joint step, are found equal if and only if the digests of the two payloads are: whenever the wires agree, and only then unless the digest collides on them |
| `Payloads.HandOver` | src/reducer_eq.cpp:140-146 | the evaluator's buffer holds two words per wire, the second read from the next one and, at the last wire, from behind the array |
| `Payloads.Squeeze` | src/reducer_eq.cpp:180-183 | the in-place squeeze keeps every label, whatever was read past the end |
| `Payloads.ReducerCheck` | src/reducer_eq.cpp:159-230 | the reducer's payloads, in its own order and through its buffers, decide the same equality in the same sense |
| `Bloom.BloomFilter.Insert` | include/bloomfilter.h:44-75 | sets exactly the value's hash positions |
| `Bloom.BloomFilter.Contains` | include/bloomfilter.h:77-109 | leaves the filter alone; the three-bit count comparison; true whenever all positions are set, and with at most 7 hash functions only then |
| `Bloom.BloomFilter.ContainsAndInsert` | include/bloomfilter.h:111-149 | leaves what insert would leave and, with at most 7 hash functions, returns what contains would have returned before |
| `Bloom.AllFusedHits` | include/bloomfilter.h:117-141 | even where hash positions coincide the fused count is full exactly when every position was set before |
| `Bloom.NoFalseNegatives` | include/bloomfilter.h:38-149 | over any run of the four operations a value once inserted and not cleared is present |
| `Bloom.SetExactly` | include/bloomfilter.h:38-149 | over any run of the four operations a position is set if and only if it was set before and the filter never cleared, or a value hashing to it was inserted and the filter not cleared since |
| `Bloom.EmptySeemsFull` | include/bloomfilter.h:81-108 | an empty filter reports every value as contained if and only if the number of hash functions is a multiple of eight |
| `BloomCounter.MembershipExactly` | include/bloomfilter.h:77-109 | contains is right for every filter and value if and only if there are at most 7 hash functions (with a single reachable position: if and only if their number is not a positive multiple of 8) |
| `BloomCounter.FusedMisses` | include/bloomfilter.h:111-149 | the fused count misses one hit for each different position that was not set |
| `BloomCounter.FusedExactly` | include/bloomfilter.h:111-149 | contains_and_insert answers right for every filter and value if and only if there are at most 7 hash functions or at most 7 reachable positions |
| `FlowWalk.Walk` | include/flow_path_query.hpp:234-288 | the count is the number of distinct sink devices with an in-range record whose encountered device an earlier eligible source record had, modulo 2^32, in both modes |
| `FlowWalk.ReachedAtTimes` | include/flow_path_query.hpp:225-288 | after sorting by time, everyone met strictly later is reached and no one met strictly earlier is; only ties can go either way |
| `FlowWalk.Flow` | include/flow_path_query.hpp:225-288 | sort and walk together, in terms of the unsorted list |
| `ContactWalk.FetchesTheLatest` | include/contact_path_query.hpp:103-146 | on chained records the walk fetches exactly the device's latest encounters after the shuffle start, up to the limit |
| `ContactWalk.WalkDevice` | include/contact_path_query.hpp:102-153 | the lookups of one device: its encounters, then dummies under consecutive nonces; contact, previous-pointer and nonce afterwards; success exactly when all can be answered |
| `ContactWalk.WalkShuffle` | include/contact_path_query.hpp:98-155 | the same for all devices of a shuffle, with the count of devices in contact |
| `ContactWalk.NoKeyTwice` | include/contact_path_query.hpp:98-155 | with distinct device ids and decreasing previous-pointers no key is looked up twice within a shuffle |
| `ContactWalk.DummyIsLaid` | include/contact_path_query.hpp:107-149 | the c-th dummy lookup hits a key fill_dummies laid down if and only if there are more than c dummies and the low word does not wrap |
| `ContactWalk.AllLaidExactly` | include/contact_path_query.hpp:107-149 | the dummy lookups of a shuffle all hit if and only if there are as many dummies and the low word reaches the last of them |
| `ContactWalk.ShuffleAnsweredExactly` | include/contact_path_query.hpp:98-155 | every lookup of a shuffle is answered if and only if no device asks for an encounter the shuffle lacks and there is a dummy for every other lookup |
| `ContactWalk.ShuffleSucceeds` | include/contact_path_query.hpp:98-155 | on chained devices that is if and only if the shuffle is stocked with dummies |
| `ContactQuery.WalkLatest` | include/contact_path_query.hpp:102-153 | from a device's latest encounter within a bound, the lookups fetch exactly its latest ones in the shuffle up to the limit; the walk then stands at the latest encounter before the shuffle if that was all of them, and at one this shuffle still holds if not |
| `ContactQuery.StandingLatest` | include/contact_path_query.hpp:88-155 | on shuffles ordered newest first with chains crossing their boundaries, a device within the limit so far enters each shuffle at its latest encounter not after the start of the one before |
| `ContactQuery.OverLimitBreaks` | include/contact_path_query.hpp:88-155 | a device with more encounters in a shuffle than the limit is asked for in the next one, which lacks what it is asked for |
| `ContactQuery.AnsweredExactly` | include/contact_path_query.hpp:88-155 | every lookup of the whole query is answered if and only if every device has at most limit encounters in every shuffle but the oldest (or no lookups are made) and every shuffle is stocked with the dummies that pad it |
| `ContactQuery.AllCounted` | include/contact_path_query.hpp:88-155 | what is counted then is the number of pairs of a shuffle and a device with, among its latest limit encounters there, a confirmed one in the window with someone in the filter |
| `ContactQuery.Contact` | include/contact_path_query.hpp:77-156 | the loop over the shuffles: on kept shuffles, success exactly under that condition, and then that count, in 32 bits; on any shuffles, success exactly when every lookup finds its record |
| `Ingress.SetEncounteredDeviceId` | include/ingress.hpp:74-82 | bit by bit, only the met field of one record changes |
| `Ingress.ConfirmEncounters` | include/ingress.hpp:84-106 | the in-place scan leaves every record with its own device and middle part, the device of the neighbour the code picks among the original ones, and the last bit set if and only if a neighbour has its id |
| `Ingress.DoubledMeansTwice` | include/ingress.hpp:84-106 | on a tile sorted by id the bit is set exactly on records whose id occurs at least twice |
| `Ingress.PartnerOfPair` | include/ingress.hpp:94-99 | where an id occurs exactly twice the device copied is the other occurrence's |
| `Ingress.PartnerOfDoubled` | include/ingress.hpp:94-99 | where an id occurs at least twice the device copied is that of an adjacent record of the same id |
| `Ingress.StoreGarbledData` | include/ingress.hpp:11-38 | the stored bits are the records one after the other |
| `Ingress.ReadBack` | include/mapper.hpp:68-89 | read back, each stored record has its own parts |
| `Ingress.StoredEncounter` | include/ingress.hpp:84-106 | end to end per record: own device, confirmed if and only if its id was uploaded at least twice, and then the device of another record of that id, of a pair the other one's |
| `Ingress.RunQueryCountEncounters` | include/mapper.hpp:110-158 | the count is exact: floor(log2(tile_size)) + 1 bits never overflow |
| `Ingress.CountPermuted` | include/mapper.hpp:110-158 | the count does not depend on the order of the records |
| `Ingress.IngestAndCount` | include/ingress.hpp:11-106 | upload to count: the query returns exactly the number of the sick device's uploaded encounters whose id was uploaded at least twice |
| `Chains.FillEncounters` | include/encounter.hpp:269-300 | every record keeps its device and time and carries the times of the nearest earlier and nearest later record whose device has the same hash, or the minimum and maximum time; where the hash does not collide, of the same device |
| `Chains.LinksInverse` | include/encounter.hpp:285-296 | j is i's predecessor exactly when i is j's successor |
| `Chains.HistoryComplete` | include/encounter.hpp:264-296 | following predecessors from the latest record visits every record of the device, once each, latest first |

## Where the code and its comments differ

The model follows the code.

- `include/mapper.hpp:47-48` calls none the maximum positive value; the code uses the least 32-bit integer, and the descending sort relies on it.
- `include/map_reducer.hpp:11-20` speaks of a pair of tiles; one key is looked up twice.
- `include/bloomfilter.h:81` counts in three bits for any number of hash functions; that is right exactly up to 7 (`BloomCounter.MembershipExactly`, `BloomCounter.FusedExactly`).
- `test/sortEncounters.cpp:677-703` takes any circuit size; the loop over chunks ends only from 2 encounters on (`SharedSort.ChunksEndExactly`).
- `include/contact_path_query.hpp:98-155` takes any per-device limit; the walk of the next older shuffle fails for a device with more encounters than that (`ContactQuery.AnsweredExactly`).
- `src/reducer_eq.cpp:140-146` reads one word past the labels at the last wire; the squeeze drops that word (`Payloads.Squeeze`).
- `include/contact_path_query.hpp:138` mentions a sufficient duration; no duration is compared.
- `include/store_path_encounter.hpp:578-580` means to excuse dummy fetches from the MAC check by a bit, and uses the pointer to it.

## Left out

Foreign code and representation:

- Gates, garbling, oblivious transfer, networking, AES, SHA-3, Redis and shared-memory allocation: not modelled; the functions they compute are parameters, and delivery is exact.
- `emp::sort`, `emp::bitonic_sort` and `emp::bitonic_merge` are read as the recursive network of `bitonicSort` and `bitonicMerge`; in `SharedSort`, `Reducer`, `TopOne`, `FlowWalk`, `Mapper` and `Ingress` they appear as the network function.
- Integer comparison inside circuits is comparison of signed integers; comparison by a wrapped difference is not modelled.
- The Bloom filter's size formula is floating point: the size is a parameter and is positive. A filter for no elements is not modelled.
- Counts above 2^32 in the shuffle sort, where the source truncates `count - 1` to 32 bits before lzcnt.

Behaviour narrowed or abstracted:

- The path is modelled with the orientation of `fetch_and_decrypt_encounter`'s defaults (LEFT sends, RIGHT stores and fetches); the sealing key is the RIGHT secret.
- PathStore.FetchAndDecrypt: the comparison of the MAC is a field of the result. The source only prints a message when it fails and returns true either way; in a dummy fetch it combines the comparison with the pointer `fetch_dummy`, whose value is not stated.
- PathStore.StorePathEncounters: follows the storing side's array; the other side's scratch record is not kept.
- `Revealer` keeps each process's state as a value stepped by events, the checker's while loop included, because the claims range over interleavings; the methods of the flags are in `RevealerCalls`. Each swap is entered and left as two events, as `Rendezvous` derives from the mutex dance.
- The peer machine enters `Revealer` through the equality-check function of a round, which `DualVerdicts` instantiates with the payloads of both; the three processes of the peer are not interleaved with it.
- SwappableRam.SwappableRam.Init: the size and the allocation of the two patches are left out; they exist from the start.
- RevealerCalls.DualExProcess.GetEqCheckResults: what the swapped patch holds is an argument.
- RevealerCalls.DualExProcess.StopEqChecker: writes a request with its wish cleared; the source writes one byte through a `bool` pointer to the same place.
- A process that requests without a matching reveal on the other side, and mismatched reveal sides or bit counts, are not modelled.
- FlowWalk.Walk: reads the Bloom filters as exact sets, which `Bloom` justifies up to false positives, and requires in-range records to name devices other than the dummy value 1.
- ContactQuery.Contact: reads the Bloom filter as an exact set.
- ContactWalk.NoKeyTwice: speaks of (device, time) pairs and nonces; the keys derived from them differ as far as the MAC does not collide.
- ContactStore.LookupAgrees: where the hash does not collide on the keys stored and the key looked up; so for ContactStore.NonceAgrees and PathStore.DummyFoundExactly.
- BloomCounter.MembershipExactly: for values wide enough to hold all hash groups; so for BloomCounter.FusedExactly. On narrower values the last hash functions all see zero.
- Payloads.Check: exact where the digest does not collide on the two payloads; so for Payloads.ReducerCheck and DualVerdicts.VerdictsCompareResults.
- `ContactWalk` takes the walk and filter lists as chosen (for equal counts the source walks and filters the sink list), and ignores the minimum duration as the source does. What a dummy lookup decrypts to is arbitrary.
- The flow query's fetch loop restarts the dummy nonce for the sink half, so distinctness of its lookups is not claimed; only its sort and walk are modelled.
- Mapper.ProcessFirstPair: looks one key up twice, as the code does, so two different tiles are not modelled; a fingerprint equal to `none` is lost, and the sets are stated apart from it.
- `Mapper` and `Ingress` return nothing for an absent key where the source exits.
- `Ingress` needs at least two records, since the scan reads its neighbour without a check.
- TopOne.CountCategories: requires chunks of at least max(2, number of categories) and from 1 to 2^31 - 1 inputs; where its assertion fails the query stops, so the padding branch behind it is not modelled.
- TopOne.CountChunk: what frequency a null cell carries is not stated.
- `SharedSort`: the index field outside the data and the timestamp-major key layout are not modelled; keys compare as signed integers. With circuits below two encounters a sort that does not fit one circuit never ends, so Sort2PC has no such case.
- `Chains` treats the pseudorandom contents as parameters.
- Fields.FillIntegers: what a dummy batch packs is whatever the buffer holds, so only its width is stated.

Not modelled at all:

- The repeated per-tile loops of `test/node_q2.cpp`, `test/microbm.cpp`, `src/L1reducer.cpp` and `src/L2reducer.cpp`, which do not hand the merge its lists in the orders it needs.
- `inner_product`, `filter` and `aggregate` of `include/primitives.hpp`, `remove_duplicates_and_sort_list`, and the HMAC, KMAC and Bristol-format circuits.
- Sharing and unsharing of encounters, random filling, JSON parsing, timing, printing and plotting.
