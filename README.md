# Set-associative cache simulator, modelled in Dafny

This project models the engine of a teaching cache simulator. The simulator
replays a trace of hexadecimal addresses against a set-associative cache and
reports, for every access, whether it hit or missed and whether a miss was
cold or a conflict miss. It also keeps running statistics.

The model covers these parts of the simulator:

- **The address decoder** (`AddressParsing`, `address_parser.dfy`). It parses an
  `x`-prefixed hexadecimal token and splits the address into offset, index and
  tag. It also keeps the set of addresses seen so far, which decides whether an
  access is cold.
- **The cache line** (`CacheEntry`, `cache_entry.dfy`). A line is a datatype
  value with the constructor's initial state.
- **The replacement policies.**
  - `Policies` (`policies.dfy`) holds the eight-value policy enumeration and
    `getPolicyName`.
  - `Plru` (`plru.dfy`) holds the pseudo-LRU bit tree. It is stored as a flat,
    heap-indexed `seq<bool>` with depth `ceil(log2 ways)`.
- **The cache set** (`CacheSets`, `cache_set.dfy`). A `class` whose fields are
  the lines, the per-set access counter, the FIFO queue, the per-tag hit counts
  and the PLRU bits. It has `Lookup`, `UpdateAccess`, `UpdatePlruBits`,
  `FindVictim` and the per-policy victim searches as loop methods. Each method
  is proved against value-level specification functions (`Touched`,
  `VictimSpec`).
- **The cache** (`Caches`, `cache.dfy`). It holds the constructor's
  configuration check and its power-of-two rounding, the access pipeline
  (decode, look up, classify, fill on a miss, record) and `formatHex`. The
  pipeline exists as a specification function `AccessSpec` and as the `Cache`
  class's `Access` method.
- **Statistics** (`Stats`, `stats.dfy`): `CacheStats` with `recordAccess`,
  `getHitRate`, `reset` and `setConfiguration`.
- **The future-access index** (`FutureAccesses`, `future_access.dfy`). This is
  the lower-bound search of `getNextAccess`.
- **The trace reader's line filter** (`TraceReader`, `trace_reader.dfy`). The
  input file is given as a sequence of lines.
- **Whole runs** (`Simulation`, `simulation.dfy`). A one-way cache under every
  policy except OPTIMAL is proved equal to a reference direct-mapped cache. The
  first homework fixture is worked through: N = 32, B = 8, I = 16, one way, LRU,
  13 addresses. The model gives M M H M M H H M H H M H H: 7 hits and 6
  misses, all of them cold.

Modelling choices:

- Addresses are natural numbers below 2^64. Shifts and masks are written as
  halvings and remainders by powers of two (`Base.Shr`, `Base.LowBits`).
- Floating-point `log2`, `pow` and `ceil` are replaced by integer functions:
  `FloorLog2`, `CeilLog2` and `NextPow2`.
- Every exception the source throws is an `Err` of a `Result`. This covers the
  configuration errors, a malformed address and the "Unknown replacement
  policy" runtime error.
- The random draw of RANDOM is an input `choice < ways`.
- ARC's score is 0.7 times a line's `accessCount` plus 0.3 times the seconds
  since its `insertionTime` (src/cache_set.cpp:198-210). The set constructor
  fills a set with copies of one prototype line (src/cache_set.cpp:7).
  Nothing rewrites `insertionTime` afterwards, since the miss path writes only
  tag and valid. So the time term is equal for every line of a set, and it
  cancels in the comparison. The model's ARC victim is the first way with the
  least `accessCount` (`VictimSpec`, `FindArcVictim`).
- `std::stoull` is modelled as follows. Take the text after the first `x`, or
  the whole token when it has no `x` (`npos + 1` wraps to 0). Read the longest
  run of leading hexadecimal digits. No digit is the `invalid_argument` error.
  A value of 2^64 or more is `out_of_range`.
- The split sources (`src/`, `include/`) and the single-file `CacheSim.cpp`
  run the same algorithms. They differ in three places:
  - The split constructor has a positivity check and the single-file one does
    not. Both are modelled (`Configure`, `ConfigureSingleFile`,
    `ConfigureVariants`).
  - The policy enumeration. The split header declares only five policies, so
    its `getPolicyName` gives "UNKNOWN" for PLRU, LFU and ARC
    (`PolicyName`). The enumeration used throughout is the eight-value one of
    `CacheSim.cpp`.
  - The statistics record. The split header (include/stats.hpp) adds the
    `ways` and `policy` fields, `setConfiguration` and `reset`, and gives
    `recordAccess` default arguments. `CacheSim.cpp`'s `CacheStats`
    (CacheSim.cpp:31-56) has none of these. `Stats.CacheStats` follows the
    split header, so its `ways` and `policy` fields, `SetConfiguration` and
    `Reset` model that header only. The counters, `recordAccess` and
    `getHitRate` are the same in both.
- The split set source uses `plruRoot` and `frequencyCount`, which its header
  does not declare. The model follows the single-file class, which declares
  both.

Three behaviours of the code that the model keeps and proves:

- In the first homework fixture (include/test_cases.hpp:15-28), x01, xB5,
  x02, xBE, x03, xBF and x2C hit. Each shares a block with an address already
  loaded into its set, so the run has 7 hits and 6 cold misses (`HW1Letters`,
  `HW1Run`).
- The miss path of `access` (src/cache.cpp:36-41) writes only the tag and the
  valid bit. A refilled line therefore keeps its old `lastUsed` and
  `accessCount` (`MissPathEffect`).
- The LRU counter `accessCount` belongs to each set and is bumped only by a
  hit in that set (src/cache_set.cpp:80-89). `TouchedEffect` and
  `MissPathEffect` state this.

## Model

| member | source | states |
|---|---|---|
| `AddressParsing.ParseHexToken` | src/address_parser.cpp:14 | A token parses to a value below 2^64. It is malformed exactly when no hex digit follows the first `x`. Overflow is a separate error. |
| `AddressParsing.CheckConfiguration` | src/address_parser.cpp:27-30 | Construction fails, with a configuration error, exactly when `N - log2(blockSize) - log2(numSets) < 0`. On success the widths are the two logarithms and `tagBits >= 0`. |
| `AddressParsing.Split` | src/address_parser.cpp:17-19 | `offset < 2^offsetBits` and `index < 2^indexBits`. Tag, index and offset shifted back into place rebuild the address. |
| `AddressParsing.SplitExact` | src/address_parser.cpp:17-20 | `tag*2^(offsetBits+indexBits) + index*2^offsetBits + offset == fullAddress`. |
| `AddressParsing.SplitUnique` | src/address_parser.cpp:17-19 | Any in-range fields that recombine to the address are the ones extracted, so the split is a bijection. |
| `AddressParsing.DecodeAgain` | src/address_parser.cpp:21-23 | Parsing the same value again is not cold. Any other address keeps its cold status. |
| `AddressParsing.DecodeTraceAddresses` | src/address_parser.cpp:14 | Across a trace, the k-th parse fails exactly when the k-th token is malformed. Otherwise it yields that token's value. |
| `AddressParsing.ColdIffFirstOccurrence` | src/address_parser.cpp:21-23 | Across a trace, an access is cold exactly when no earlier successful parse had the same address. |
| `AddressParsing.AddressParser.constructor` | src/address_parser.cpp:5-11 | Widths as accepted by the configuration check, `tagBits = N - offsetBits - indexBits >= 0`, and nothing seen yet. |
| `AddressParsing.AddressParser.ParseAddress` | src/address_parser.cpp:13-25 | The parse result, and the seen-set after it, match the decoder's specification. |
| `CacheEntry.NewLine` | include/cache_entry.hpp:17-19 | A new line is invalid and clean, with tag, lastUsed and accessCount 0, and `blockSize` zero bytes of payload. |
| `Policies.PolicyName` | include/policies.hpp:15-24 | The name is "UNKNOWN" exactly for a policy the header does not declare. Every name is a non-empty upper-case word. |
| `Policies.PolicyNameInjective` | include/policies.hpp:17-21 | The five declared names are pairwise distinct. |
| `Plru.InitialTree` | CacheSim.cpp:213-225 | The fresh tree has exactly the internal nodes of a tree of depth `ceil(log2 ways)`, all bits false. |
| `Plru.Victim` | src/cache_set.cpp:162-178 | The tree walk taken modulo `ways` is a valid way index. |
| `Plru.InitialVictimIsZero` | CacheSim.cpp:226-240 | On the freshly built tree every walk goes left, so the first PLRU victim is way 0. |
| `Plru.TouchEffect` | src/cache_set.cpp:180-189 | After a hit on way w, each node on w's path holds the negation of w's bit at that level, most significant bit at the root. Every other node is unchanged. |
| `Plru.VictimAvoidsTouched` | src/cache_set.cpp:162-189 | With a power-of-two number of ways (at least 2), the victim right after a hit on way w is not w. |
| `CacheSets.InitialSetWellFormed` | src/cache_set.cpp:6-17 | A new set is well formed, holds no valid line and has no duplicate tags. |
| `CacheSets.FindTagFrom` | src/cache_set.cpp:69-77 | The result is the lowest way at or after i that is valid with the tag. None means no such way. |
| `CacheSets.TouchedEffect` | src/cache_set.cpp:80-89 | A hit sets the hit line's `lastUsed` to the bumped per-set counter, strictly above every other line. It adds 1 to that line's accessCount and 1 to that tag's frequency. Every other line, tag count and the FIFO queue are unchanged. PLRU bits change only under PLRU. |
| `CacheSets.FirstInvalidFrom` | src/cache_set.cpp:93-100 | The result is the lowest invalid way at or after i. None means all those ways are valid. |
| `CacheSets.ArgMin` | src/cache_set.cpp:122-127 | `std::min_element` with a strict less-than: a least key, and the first one. |
| `CacheSets.ArgMax` | src/cache_set.cpp:129-134 | `std::max_element` with a strict less-than: a greatest key, and the first one. |
| `CacheSets.VictimMeaning` | src/cache_set.cpp:91-120 | An empty way wins first: the lowest one, queued under FIFO. In a full set: LRU gives the first least `lastUsed`, MRU the first greatest, and LFU the first least tag frequency (absent tag = 0). FIFO gives the queue front, rotated to the back with the same multiset. PLRU gives the tree walk. ARC gives the first least `accessCount`, the only part of its score that differs between lines. RANDOM gives the choice. OPTIMAL fails with the unknown-policy error, and that is the only failure. |
| `CacheSets.VictimKeepsWellFormed` | src/cache_set.cpp:91-100 | Victim selection returns a way in range and keeps the set well formed. |
| `CacheSets.MissPathEffect` | src/cache.cpp:36-41 | On a miss, only the victim's tag and valid bit change. Its `lastUsed` and accessCount are kept, the other lines are unchanged and the per-set counter is not bumped. The line then holds the tag, and tags stay distinct. |
| `CacheSets.NoHitLruEvictsWayZero` | src/cache_set.cpp:122-127 | Only a hit bumps the per-set counter (src/cache_set.cpp:80-89), so a set with no hit yet has counter 0. Its time stamps are therefore all 0, as derived from the set invariant. Once full, LRU evicts way 0. |
| `CacheSets.HitThenVictim` | src/cache_set.cpp:80-134 | Right after a hit on way w of a full set, MRU evicts w. With at least two ways, LRU does not. |
| `CacheSets.HitThenPlruVictim` | src/cache_set.cpp:162-189 | With power-of-two ways, right after a hit on w of a full PLRU set, the victim is not w. |
| `CacheSets.CacheSet.constructor` | src/cache_set.cpp:6-17 | `ways` new lines, counter 0, an empty queue, an empty frequency map and an all-false tree. |
| `CacheSets.CacheSet.Lookup` | src/cache_set.cpp:69-78 | Hits exactly when some valid line has the tag, at the lowest such way, and then applies the hit update. A miss changes nothing. |
| `CacheSets.CacheSet.UpdateAccess` | src/cache_set.cpp:80-89 | The new state is the hit update of the old one, and the set stays well formed. |
| `CacheSets.CacheSet.UpdatePlruBits` | src/cache_set.cpp:180-189 | The descending loop writes the negated path bits. No other field changes. |
| `CacheSets.CacheSet.FindVictim` | src/cache_set.cpp:91-120 | The returned way and the new queue follow the victim specification. An error changes nothing. |
| `CacheSets.CacheSet.FindLruVictim` | src/cache_set.cpp:122-127 | The first way of least `lastUsed`. |
| `CacheSets.CacheSet.FindMruVictim` | src/cache_set.cpp:129-134 | The first way of greatest `lastUsed`. |
| `CacheSets.CacheSet.FindFifoVictim` | src/cache_set.cpp:141-146 | Returns the queue front and moves it to the back. Nothing else changes. |
| `CacheSets.CacheSet.FindPlruVictim` | src/cache_set.cpp:162-178 | The walk loop computes the specified tree walk modulo `ways`. |
| `CacheSets.CacheSet.FindLfuVictim` | src/cache_set.cpp:191-196 | The first way whose tag has the least frequency. |
| `CacheSets.CacheSet.FindArcVictim` | src/cache_set.cpp:198-210 | The first way of least `accessCount`. Equal insertion times make that the least ARC score. |
| `CacheSets.MinElement` | src/cache_set.cpp:123-126 | The scan gives the first least key. |
| `CacheSets.MaxElement` | src/cache_set.cpp:130-133 | The scan gives the first greatest key. |
| `FutureAccesses.InitialCacheState` | include/cache_set.hpp:37-43 | The tracking record starts at position 0, with an empty trace, zero widths and an empty map. |
| `FutureAccesses.LowerBound` | include/cache_set.hpp:31 | Everything before the result is below the target. Everything from the result on is at least the target. |
| `FutureAccesses.LowerBoundSearch` | include/cache_set.hpp:31 | The binary search finds the lower bound. |
| `FutureAccesses.NextAccessIsSuccessor` | include/cache_set.hpp:30-32 | For ascending positions and p below SIZE_MAX, the result is the least position greater than p. It is SIZE_MAX when none is greater, and any other result is one of the positions. When no position is SIZE_MAX itself, SIZE_MAX means exactly that none is greater. |
| `FutureAccesses.NextAccessWraps` | include/cache_set.hpp:31 | At p = SIZE_MAX, `p + 1` wraps to 0, so the result is the first position, or SIZE_MAX if there is none. |
| `FutureAccesses.NextAccessMonotonic` | include/cache_set.hpp:30-32 | The result never decreases as p grows, up to SIZE_MAX - 1. |
| `FutureAccesses.GetNextAccess` | include/cache_set.hpp:30-33 | The const method's search gives the specified next access and leaves the positions untouched. |
| `Stats.HitRate` | include/stats.hpp:36-40 | 0 before any access. Otherwise `rate * total == hits * 100`, and the rate lies in [0, 100]. |
| `Stats.RecordedEffect` | include/stats.hpp:43-56 | `totalAccesses` goes up by 1, and exactly one of hits or misses goes up. A miss adds to exactly one kind: cold if flagged cold, else conflict if flagged conflict, else capacity. Exactly one history entry is appended, equal to the new hit rate. The counters stay consistent. |
| `Stats.RecordAllConsistent` | include/stats.hpp:43-56 | After any run of records from a consistent state, `hits + misses == total`, the misses add up by kind, and the history has one entry per access. |
| `Stats.CacheStats.constructor` | include/stats.hpp:13-27 | All counters 0, empty history and map, one way, LRU. |
| `Stats.CacheStats.GetHitRate` | include/stats.hpp:36-40 | 0 before any access. Otherwise hits/total*100, within [0, 100] when the counters are consistent. |
| `Stats.CacheStats.SetConfiguration` | include/stats.hpp:30-33 | Only `ways` and `policy` change. |
| `Stats.CacheStats.RecordAccess` | include/stats.hpp:43-56 | The new record is the specified record update. |
| `Stats.CacheStats.Reset` | include/stats.hpp:59-70 | Counters, history and address counts are cleared and the policy goes back to LRU. `ways` is kept. The result is consistent. |
| `TraceReader.ReadAddresses` | src/main.cpp:16-32 | Succeeds exactly when every non-empty line starts with 'x', and then returns the lines in order with the empty ones dropped. Otherwise it fails with the first offending line. |
| `TraceReader.NonEmptyMembers` | src/main.cpp:23-29 | The kept lines are exactly the non-empty input lines, and there are no more of them than input lines. |
| `TraceReader.NonEmptyAddressLines` | src/main.cpp:24-28 | On success every returned line is non-empty and starts with 'x'. |
| `TraceReader.NonEmptyAppend` | src/main.cpp:23-29 | Filtering distributes over concatenation, so order is preserved. |
| `TraceReader.NonEmptyIdentity` | src/main.cpp:23-29 | A file with no empty line is returned whole. |
| `Caches.Configure` | src/cache.cpp:8-18 | The parser's tagBits check comes first. Then non-positive N or ways is rejected. On success, the block size and set count are the next powers of two of B and I, and their logarithms are the decoder's widths. |
| `Caches.ConfigureSingleFile` | CacheSim.cpp:281-288 | The same rounding and tagBits check, with no positivity check. |
| `Caches.RoundedSizesLeast` | src/cache.cpp:10-11 | The block size and set count are the least powers of two at or above B and I. |
| `Caches.ConfigureVariants` | CacheSim.cpp:281-288 | The two constructors agree for every N other than 0. At N = 0 the split constructor always throws. The single-file one accepts exactly B = I = 1. |
| `Caches.UpperHex` | src/cache.cpp:65-69 | Upper-case hex digits with no leading zero, whose value is v. |
| `Caches.FormatHexRoundTrip` | src/cache.cpp:65-69 | Parsing `formatHex(v)` back gives v. |
| `Caches.FormatHexInjective` | src/cache.cpp:65-69 | Different values format differently. |
| `Caches.InitialCacheInv` | src/cache.cpp:20-24 | The constructed cache satisfies the cache invariant. |
| `Caches.Placed` | src/cache.cpp:32-41 | The set reports a hit exactly when it holds the tag. A failed victim search changes nothing. |
| `Caches.IndexInRange` | src/cache.cpp:32 | The decoded index is below the number of sets, so `sets[parsed.index]` is in bounds. |
| `Caches.AccessKeepsInvariant` | src/cache.cpp:27-59 | Every access keeps all sets well formed with distinct valid tags, and keeps the statistics consistent. |
| `Caches.AccessClassification` | src/cache.cpp:30-41 | A parse error changes nothing. A hit has neither miss flag. A miss has exactly one, cold exactly when the address was unseen. The only other failure is OPTIMAL on a full set, after the address was marked seen. Index and tag are reported through `formatHex`. |
| `Caches.PlacedEffect` | src/cache.cpp:32-41 | After a hit or a completed miss the set holds the tag. On a miss exactly one line changed, and only in tag and valid bit. |
| `Caches.AccessPlacement` | src/cache.cpp:32-41 | After an access the addressed set holds a valid line with the tag, and every other set is unchanged. On a miss exactly one line changed, and only in tag and valid bit. |
| `Caches.AccessCounting` | src/cache.cpp:46-48 | Every access is recorded once: one more access and one more count for its address. A capacity miss is never recorded. |
| `Caches.BuildSets` | src/cache.cpp:21-24 | The constructor's loop builds `numSets` distinct new sets, each in the initial state. |
| `Caches.Count` | src/cache.cpp:46-48 | `recordAccess`, then `addressFrequency[fullAddress]++`. |
| `Caches.Place` | src/cache.cpp:32-41 | Lookup, and on a miss the victim search and the tag and valid write, as specified. |
| `Caches.Cache.constructor` | src/cache.cpp:8-25 | The assembled cache is valid and empty. |
| `Caches.Cache.Access` | src/cache.cpp:27-59 | The result and the new decoder, set and statistics state are those of the access specification. The cache invariant is kept. |
| `Caches.Cache.Serve` | src/cache.cpp:32-58 | After decoding, the set placement and the statistics update give exactly the specified outcome and state. |
| `Caches.Cache.PlaceAt` | src/cache.cpp:32-41 | Only the addressed set changes, as the placement specifies. The hit flag and the way are reported. |
| `Caches.Cache.Tally` | src/cache.cpp:46-48 | The statistics are counted as specified and no set changes. |
| `Caches.Build` | src/cache.cpp:13-24 | With an accepted configuration, a fresh decoder, statistics record and sets make a valid cache that holds nothing. |
| `Caches.Assemble` | src/cache.cpp:13-24 | The decoder and statistics are new objects and the sets are the ones built. The cache is valid and empty. |
| `Caches.NewCache` | src/cache.cpp:8-25 | Fails exactly when the configuration is rejected. Otherwise it returns a valid, empty cache with the rounded configuration. |
| `Simulation.RunTrace` | CacheSim.cpp:340-341 | One access per trace line, in order. An exception ends the run, so every outcome before the last one is a success. The invariant holds at the end. |
| `Simulation.DirectStep` | src/cache.cpp:27-41 | In a one-way cache an access hits exactly when its set holds the tag. A miss is cold exactly on a new address, and the tag replaces that set's line. |
| `Simulation.StepCounts` | src/cache.cpp:46 | A completed access adds one access and one hit or miss, as reported, and never a capacity miss. An exception leaves the counters unchanged. |
| `Simulation.RunCounts` | CacheSim.cpp:340-341 | Over a run, the counters grow by the reported H and M letters and conflict flags. |
| `Simulation.DirectMappedAgrees` | src/cache.cpp:27-48 | A one-way cache under any policy but OPTIMAL is the reference direct-mapped cache, access for access. |
| `Simulation.HW1Addresses` | include/test_cases.hpp:19-20 | Every token of the fixture parses, to x00 xFD x01 xB4 x2B xB5 x02 xBC xBE x03 x58 xBF x2C. |
| `Simulation.HW1Config` | include/test_cases.hpp:22-26 | N = 32, B = 8, I = 16 gives offsetBits = 3 and indexBits = 4. |
| `Simulation.HW1Letters` | include/test_cases.hpp:15-28 | The fixture's report reads M M H M M H H M H H M H H. Every miss is cold and none is a conflict. |
| `Simulation.HW1Fixture` | include/test_cases.hpp:15-28 | From an empty cache, the fixture's accesses match the reference verdicts. The run ends with 13 accesses, 7 hits and 6 misses, all 6 cold. |
| `Simulation.HW1TraceTokens` | include/test_cases.hpp:19-20 | The trace is the fixture's thirteen tokens, x00 to x2C, as written. |
| `Simulation.HW1Run` | include/test_cases.hpp:15-28 | `Configure(32, 8, 16, 1, LRU)` builds the fixture's configuration. Fed the fixture's tokens from empty, that cache gives the reference verdicts, which `HW1Letters` reads as M M H M M H H M H H M H H with every miss cold. It ends with 13 accesses, 7 hits and 6 cold misses. |

## Left out

- Wall-clock time is left out. This covers the `chrono` timing of `access`,
  `totalAccessTime`, each line's `insertionTime`, and the reported elapsed time.
- ARC's floating-point score is not modelled. The model compares
  `accessCount` directly. That agrees with the source as long as adding the
  shared time term does not round two different scores to the same double,
  which would take counts near 2^52.
- The RANDOM victim is an input `choice < ways`, because `mt19937` is a random
  generator. The model does not say the draw is uniform.
- The OPTIMAL policy's victim search, `preprocessTrace`, `setOptimalTrace` and
  `insert` are declared without a body anywhere in the source. The model keeps
  only what the source does: a full set under OPTIMAL raises the
  unknown-policy error. `getNextAccess` and the `CacheState` record are
  modelled on their own.
- `Plru.InitialTree` is a flat heap-indexed sequence. The source builds the tree recursively
  with `unique_ptr`/`shared_ptr` nodes. The deep copy of `PLRUNode`, the copy
  and move constructors of `CacheSet`, and the tree's ownership are memory
  management and are left out. The leaf nodes the source allocates are never
  read or written, so they are not represented.
- The flat PLRU bits exist for every policy and are touched only under PLRU.
  The source allocates a tree only for PLRU.
- LFU's `frequencyCount[tag]` inside the comparator inserts zero entries as a
  side effect. The model reads absent tags as 0 and does not insert them,
  which gives the same result.
- `std::stoull`'s quirks are left out: leading whitespace, a sign, and an
  embedded `0x` after the `x`.
- 64-bit wrap-around of the counters (`accessCount`, `lastUsed` and the
  statistics) is not modelled. These are unbounded naturals.
- The hit rate is an exact `real`, not a `double`.
- `toBinaryString`'s `bitset` rendering is not part of the access result.
- The `data` payload is modelled only by its size and initial contents, since
  it is never read.
- The trace reader takes the file as a sequence of lines. Opening the file
  and its error are left out.
- The command-line parsing, report printing and plotting are not part of the
  model. The argument ranges (B and I in [1, 1024]) become preconditions of
  the constructors.
