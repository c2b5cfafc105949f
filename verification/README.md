# A verified model of ezbake-common

This project models the stateful core of ezbake-common in Dafny and proves what it promises.

- **The size-limited cache** (`Bimap.dfy`, `LruCache.dfy`). Entries live in two views at once, a hash
  multimap with buckets in arbitrary order and a list in recency order. Every operation is a method
  that works through one view; its contract says what it does to the plain recency list of
  `RecencyList.dfy`. On those lists `LruRuns.dfy` proves what the cache holds after any history and
  how caches of different capacities relate, and `KeyFairness.dfy` how the values of one key take turns.
- **The timed cache** (`OrderedSets.dfy`, `TimedList.dfy`, `TimedCache.dfy`). Values are stamped with
  whole seconds and expire lazily. The clock is an object whose readings never go back; a method that
  reads it several times may see it advance.
- **The timed cache under concurrency** (`Interleaving.dfy`). A state machine over any number of
  threads; locked blocks and unlocked clock readings are its steps. Freshness and the safety of lazy
  expiry are proved for all runs.
- **The vendored test runner**: wildcard filters (`GlobFilter.dfy`), the small regular expressions
  (`SimpleRegex.dfy`, `RegexFullMatch.dfy`), death tests first under shuffling (`TestSchedule.dfy`),
  sharding (`Sharding.dfy`) and the registry that applies them (`TestRunner.dfy`). Both pattern
  languages get their meaning from `Pieces.dfy`, by cutting a text into accepted pieces; zero-terminated
  strings are in `CStrings.dfy`.
- **Password-based encryption** (`PasswordEncryption.dfy`) and **property merging** (`PropertyMerge.dfy`).

`Sequences.dfy` and `Wrappers.dfy` hold general helpers. `dafny verify dfyconfig.toml` checks everything.

## Where the code and its documentation differ

The model follows the code.

- The timed `get` is documented to return the cached object if the key exists
  (`LRUTimedCache.h:156-160`). It looks at the key's least recently used entry only, so it can return
  nothing while another entry of the key is live: `GetMissesLiveValueExactly` says when,
  `LiveValueIsMissed` is a run, and `RetryProgress` says what repeating the get achieves.
- `RE::FullMatch` is documented to match the entire string (`gtest-all.cc:8615`). For an expression
  that ends in an escaped dollar sign the end anchor is left out: `FullMatchIsExact` gives the exact condition,
  `EscapedDollarAcceptsMore` an instance.
- Both `GetTestCase(int)` accessors of the test registry have the same comment
  (`gtest-all.cc:985-997`), but only one follows the shuffled order; see `AccessorsAgreeExactly`.
- Registering a death test after a shuffle can break the order, as a comment warns
  (`gtest-all.cc:5676-5679`); `RegisterShuffledExactly` says when,
  `HistoriesAreSoundExactly` what that means for whole histories, and `RegisteringAfterShuffleBreaks` is one
  that breaks it.
- A smaller cache need not hold a part of a larger one once values are looked up; nothing promises it, but
  `InclusionOverRuns` would invite it. `GetKeepsInclusionExactly` and `PopKeepsInclusionExactly` say when it stays so.

## Assumptions

- Insertion appends to the bimap's list view, which `LRUCacheTests.cpp:95-119` relies on. Buckets may
  be in any order.
- Keys and values are values with decidable equality, not references into the heap. Where the source collects
  them in a `std::set` (`entrySet`, `valueSet`, and the lookups and removals of the timed cache), `operator<` on
  both is a strict total order that agrees with equality.
- Signed counting below the least `long` wraps around; C++ leaves it undefined. It matters only for iteration
  counts below one.
- The block cipher, the digest and the Base64 coding satisfy the laws in `PasswordEncryption.Primitives.Lawful`.

## Model

| member | source | states |
|---|---|---|
| `LruRuns.LruOverRuns` | src/main/cpp/include/ezbake/common/lrucache/LRUCache.h:165-277 | after any run of put and get on an empty cache the recency list is exactly the last `capacity` distinct touched pairs (all of them for capacity 0) in the order of their last touch, where a successful get touches the pair it returns |
| `LruRuns.LruIsUnique` | src/main/cpp/include/ezbake/common/lrucache/LRUCache.h:165-277 | that description leaves only one list |
| `RecencyList.GetIsPutOfTheReturnedPair` | src/main/cpp/include/ezbake/common/lrucache/LRUCache.h:165-184 | a get that returns a value leaves the list that putting the pair again would leave |
| `LruRuns.RunIsPutAll` | src/main/cpp/include/ezbake/common/lrucache/LRUCache.h:165-277 | a run of puts and gets equals the run of puts of its touched pairs |
| `LruRuns.PutAllUnlimited` | src/main/cpp/include/ezbake/common/lrucache/LRUCache.h:257-277 | the unlimited cache lists every touched pair by last touch |
| `LruRuns.PutAllIsSuffix` | src/main/cpp/include/ezbake/common/lrucache/LRUCache.h:268-272 | a capacity cuts the unlimited list down to its last entries, exactly that many once there are enough |
| `LruRuns.ReachableIsConsistent` | src/main/cpp/include/ezbake/common/lrucache/LRUCache.h:257-277 | after any sequence of put, get, pop, both removes and clear no pair occurs twice and the size is within the capacity |
| `LruRuns.InclusionOverRuns` | src/main/cpp/include/ezbake/common/lrucache/LRUCache.h:257-326 | under the same puts, removes and clears a smaller cache always holds a suffix of a larger one |
| `LruRuns.PutKeepsInclusion` | src/main/cpp/include/ezbake/common/lrucache/LRUCache.h:257-277 | one put keeps the smaller cache a suffix of the larger |
| `LruRuns.GetKeepsInclusionExactly` | src/main/cpp/include/ezbake/common/lrucache/LRUCache.h:165-184 | a get keeps the inclusion if and only if the larger cache holds no extra entry of the key, or the smaller is empty |
| `LruRuns.GetBreaksInclusion` | src/main/cpp/include/ezbake/common/lrucache/LRUCache.h:165-184 | an instance: capacities 1 and 2, two values put for one key, then a get of the key |
| `LruRuns.PopKeepsInclusionExactly` | src/main/cpp/include/ezbake/common/lrucache/LRUCache.h:233-247 | a pop keeps the inclusion if and only if the larger cache holds no extra entry of the key, or the smaller holds none, or the front of the smaller is one |
| `LruRuns.PopBreaksInclusion` | src/main/cpp/include/ezbake/common/lrucache/LRUCache.h:233-247 | an instance: capacities 2 and 3, another key's entry put between two values for one key, then a pop of the key |
| `RecencyList.PutEvictsOnlyTheFront` | src/main/cpp/include/ezbake/common/lrucache/LRUCache.h:257-277 | a put removes at most one other pair: the front of the list, exactly when the cache was full and did not hold the pair; the rest keeps its order |
| `RecencyList.GetOnlyReorders` | src/main/cpp/include/ezbake/common/lrucache/LRUCache.h:165-184 | a get loses nothing and leaves the other keys' entries in their order |
| `RecencyList.GetMovesTheFirst` | src/main/cpp/include/ezbake/common/lrucache/LRUCache.h:165-184 | a get moves the key's first entry behind all others; the key's other entries and the other keys keep their order |
| `RecencyList.PopTakesTheFirst` | src/main/cpp/include/ezbake/common/lrucache/LRUCache.h:233-247 | a pop takes exactly the key's first entry out, and nothing when the key is absent |
| `RecencyList.LruOfIsFirst` | src/main/cpp/include/ezbake/common/lrucache/LRUCache.h:367-384 | the least recently used entry of a key is its first one in list order |
| `KeyFairness.RoundRobin` | src/main/cpp/include/ezbake/common/lrucache/LRUCache.h:157-184 | n gets on a key with n values return each value once, least recent first, and rotate the key's entries behind all others in their old order |
| `KeyFairness.ServeRest` | src/main/cpp/include/ezbake/common/lrucache/LRUCache.h:165-184 | the same when some of the key's entries have already been served |
| `KeyFairness.RangesAddUp` | src/main/cpp/include/ezbake/common/lrucache/LRUCache.h:331-345 | the value ranges of the keys add up to the size |
| `LruCache.LruCache.constructor` | src/main/cpp/include/ezbake/common/lrucache/LRUCache.h:75 | an empty cache of the given capacity, 0 by default |
| `LruCache.LruCache.FindEntry` | src/main/cpp/include/ezbake/common/lrucache/LRUCache.h:357-365 | finds the entry with this key and value if there is one, whatever the bucket order |
| `LruCache.LruCache.GetLruEntry` | src/main/cpp/include/ezbake/common/lrucache/LRUCache.h:367-384 | comparing list distances over the bucket finds the key's first entry in list order, whatever the bucket order |
| `LruCache.NearestIsLru` | src/main/cpp/include/ezbake/common/lrucache/LRUCache.h:373-381 | the bucket id nearest to the front of the list view is the key's least recently used entry |
| `LruCache.LruCache.Get` | src/main/cpp/include/ezbake/common/lrucache/LRUCache.h:165-184 | both views after a get: the key's least recently used entry moved to the back, its value returned |
| `LruCache.LruCache.Pop` | src/main/cpp/include/ezbake/common/lrucache/LRUCache.h:233-247 | both views after a pop: that entry removed, its value returned |
| `LruCache.LruCache.Put` | src/main/cpp/include/ezbake/common/lrucache/LRUCache.h:257-277 | both views after a put: duplicate dropped, front evicted when full, pair appended |
| `LruCache.LruCache.RemoveKey` | src/main/cpp/include/ezbake/common/lrucache/LRUCache.h:286-302 | the key's entries are gone, the rest keeps its order; returns their values as a multiset |
| `LruCache.RangeHoldsTheKey` | src/main/cpp/include/ezbake/common/lrucache/LRUCache.h:292-295 | a bucket is the key's part of the list view up to order: same number, same multiset of values |
| `LruCache.LruCache.Remove` | src/main/cpp/include/ezbake/common/lrucache/LRUCache.h:312-326 | the pair is gone, the rest keeps its order; returns the value if the pair was there |
| `LruCache.LruCache.Clear` | src/main/cpp/include/ezbake/common/lrucache/LRUCache.h:110-113 | the cache is empty |
| `LruCache.LruCache.ContainsKey` | src/main/cpp/include/ezbake/common/lrucache/LRUCache.h:94-98 | true exactly when some entry has the key |
| `LruCache.LruCache.GetKey` | src/main/cpp/include/ezbake/common/lrucache/LRUCache.h:193-207 | the key of the first entry in recency order with the value; nothing exactly when there is none |
| `LruCache.LruCache.EntrySet` | src/main/cpp/include/ezbake/common/lrucache/LRUCache.h:120-131 | inserting into an ordered set, whatever the visiting order, gives exactly the entries, as many as the cache's size: keys ascend, and so do the values of one key |
| `LruCache.LruCache.ValueSet` | src/main/cpp/include/ezbake/common/lrucache/LRUCache.h:141-155 | exactly the values of a present key, sorted by the given order |
| `LruCache.LruCache.Size` | src/main/cpp/include/ezbake/common/lrucache/LRUCache.h:331-335 | the length of the recency list |
| `LruCache.LruCache.IsFull` | src/main/cpp/include/ezbake/common/lrucache/LRUCache.h:220-222 | true exactly when the capacity is limited and reached |
| `LruCache.LruCache.ValueRange` | src/main/cpp/include/ezbake/common/lrucache/LRUCache.h:340-345 | the number of entries of the key |
| `Bimap.Bimap.Insert` | src/main/cpp/include/ezbake/common/lrucache/LRUCache.h:56-57 | both views gain the entry: anywhere in its bucket, at the back of the list |
| `Bimap.Bimap.Erase` | src/main/cpp/include/ezbake/common/lrucache/LRUCache.h:265 | both views lose exactly this entry |
| `Bimap.Bimap.EraseKey` | src/main/cpp/include/ezbake/common/lrucache/LRUCache.h:298 | both views lose exactly the key's entries |
| `Bimap.Bimap.RelocateToEnd` | src/main/cpp/include/ezbake/common/lrucache/LRUCache.h:179 | the entry moves to the back of the list; the hash view stays |
| `TimedList.Lifetime` | src/main/cpp/include/ezbake/common/lrucache/LRUTimedCache.h:36-40 | a stamp is live while fewer than `expiration` whole-second boundaries have passed: more than expiration - 1 and less than expiration seconds; forever for expiration 0 |
| `TimedList.ValueLessIsTotal` | src/main/cpp/include/ezbake/common/lrucache/LRUTimedCache.h:44-53 | the order of stamped values is a strict total order agreeing with equality whenever the value order is |
| `OrderedSets.EntryLessIsTotal` | src/main/cpp/include/ezbake/common/lrucache/LRUCache.h:50-52 | the order of pairs, by key and then by value, is a strict total order agreeing with equality whenever the orders of keys and values are |
| `OrderedSets.AscendingPairs` | src/main/cpp/include/ezbake/common/lrucache/LRUCache.h:50-52 | in a set of pairs the keys ascend, and the values of one key ascend |
| `OrderedSets.InsertOrderedLosesNone` | src/main/cpp/include/ezbake/common/lrucache/LRUTimedCache.h:277-284 | inserting into a set ordered that way loses no element |
| `TimedList.LookupFindsFirstLive` | src/main/cpp/include/ezbake/common/lrucache/LRUTimedCache.h:188-215 | at a fixed clock getKey returns the key of the first live entry with the value, drops exactly the expired entries with the value before it, keeps the remaining order, and when it returns nothing no entry with the value is left |
| `TimedList.GetMissesLiveValueExactly` | src/main/cpp/include/ezbake/common/lrucache/LRUTimedCache.h:156-179 | a get, or a pop, returns nothing although the key has a live value if and only if the key's least recently used entry has expired and not all of its entries have |
| `TimedList.GetServesLive` | src/main/cpp/include/ezbake/common/lrucache/LRUTimedCache.h:161-179 | a get of a live entry returns it and moves it behind all others; nothing else changes its place |
| `TimedList.PopTakesFirst` | src/main/cpp/include/ezbake/common/lrucache/LRUTimedCache.h:226-241 | a pop takes the key's first entry out, live or expired, and returns its value exactly if it is live |
| `TimedList.PopsDrainTheKey` | src/main/cpp/include/ezbake/common/lrucache/LRUTimedCache.h:226-241 | as many pops as the key has entries, at whatever times, return the values live at their turn, least recently used first, and leave the key absent and the other keys alone |
| `TimedList.FailedGetDropsOne` | src/main/cpp/include/ezbake/common/lrucache/LRUTimedCache.h:161-179 | an unsuccessful get of a present key drops exactly the key's first entry, which has expired; other keys are untouched |
| `TimedList.RetryProgress` | src/main/cpp/include/ezbake/common/lrucache/LRUTimedCache.h:161-179 | at a fixed clock, after at most as many failing gets as the key has expired entries, get returns the key's first live value in line or the key is gone |
| `TimedCache.TimedCache.constructor` | src/main/cpp/include/ezbake/common/lrucache/LRUTimedCache.h:103-106 | an empty cache with the default or given capacity and expiration |
| `TimedCache.TimedCache.IsExpired` | src/main/cpp/include/ezbake/common/lrucache/LRUTimedCache.h:298-305 | expired at the moment the clock is read; never for expiration 0 |
| `TimedCache.TimedCache.Get` | src/main/cpp/include/ezbake/common/lrucache/LRUTimedCache.h:161-179 | looks at the key's least recently used entry only: drops it if expired, otherwise returns it and moves it to the back |
| `TimedCache.TimedCache.Pop` | src/main/cpp/include/ezbake/common/lrucache/LRUTimedCache.h:226-241 | removes that entry and returns its value unless expired |
| `TimedCache.TimedCache.Put` | src/main/cpp/include/ezbake/common/lrucache/LRUTimedCache.h:249-251 | puts the pair stamped with the current second |
| `TimedCache.TimedCache.GetKey` | src/main/cpp/include/ezbake/common/lrucache/LRUTimedCache.h:188-215 | while the clock moves during the scan: drops exactly entries with the value that are expired by its end, stops at one that was live at its start |
| `TimedCache.TimedCache.RemovePair` | src/main/cpp/include/ezbake/common/lrucache/LRUTimedCache.h:272-295 | removes and returns exactly the entries with the key and value whatever their stamps, oldest stamp first; the others keep their order |
| `Interleaving.RunIsSafe` | src/main/cpp/include/ezbake/common/lrucache/LRUTimedCache.h:161-179 | in every interleaving every state respects capacity and has no duplicate, and an entry a get is about to remove has expired |
| `Interleaving.LookupsDropOnlyExpired` | src/main/cpp/include/ezbake/common/lrucache/LRUTimedCache.h:161-215 | whatever other threads do in between, get and getKey remove only entries expired at that moment, none that was stamped within the last expiration - 1 seconds, and none for expiration 0 |
| `Interleaving.GetDropsAtMostOne` | src/main/cpp/include/ezbake/common/lrucache/LRUTimedCache.h:167-172 | the removing step of a get drops at most the entry whose expiry was checked |
| `Interleaving.ReturnedValuesAreFresh` | src/main/cpp/include/ezbake/common/lrucache/LRUTimedCache.h:161-179 | every value get or pop returns was put as that pair by an earlier put stamped strictly less than `expiration` seconds before |
| `Interleaving.WithheldValuesAreOld` | src/main/cpp/include/ezbake/common/lrucache/LRUTimedCache.h:226-241 | a value found but not returned was stamped more than expiration - 1 seconds before, and expiration is not 0 |
| `Interleaving.LifetimesAreNotExtended` | src/main/cpp/include/ezbake/common/lrucache/LRUTimedCache.h:161-179 | no step but the commit of a put brings in an entry, and that entry carries the stamp taken before the lock |
| `Interleaving.AllEntriesWerePut` | src/main/cpp/include/ezbake/common/lrucache/LRUTimedCache.h:249-251 | everything in the cache or in a thread's hands was stamped by an earlier put |
| `Interleaving.NoNewEntries` | src/main/cpp/include/ezbake/common/lrucache/LRUTimedCache.h:161-251 | each step's entries were there before, or are the entry its put commits |
| `Interleaving.UninterruptedGetIsTimedGet` | src/main/cpp/include/ezbake/common/lrucache/LRUTimedCache.h:161-179 | the steps of a get taken in a row are the sequential get |
| `Interleaving.UninterruptedPopIsTimedPop` | src/main/cpp/include/ezbake/common/lrucache/LRUTimedCache.h:226-241 | the steps of a pop taken in a row are the sequential pop |
| `Interleaving.TakePopRemoves` | src/main/cpp/include/ezbake/common/lrucache/LRUTimedCache.h:226-241 | the locked step of a pop removes exactly the key's first entry and hands it to the thread |
| `Interleaving.RemovalsRemove` | src/main/cpp/include/ezbake/common/lrucache/LRUTimedCache.h:272-295 | removing a key, removing a pair and clearing leave exactly the other entries; other keys keep their order |
| `Interleaving.GoneUntilPut` | src/main/cpp/include/ezbake/common/lrucache/LRUTimedCache.h:226-251 | in every run a key that is gone stays gone until an entry of it is committed |
| `Interleaving.ScannerHoldsLock` | src/main/cpp/include/ezbake/common/lrucache/LRUTimedCache.h:188-215 | in every run the thread that scans is the one that holds the lock |
| `Interleaving.ScanSeesOneList` | src/main/cpp/include/ezbake/common/lrucache/LRUTimedCache.h:188-215 | in every run nothing changes the list while a getKey is under way |
| `Interleaving.LiveValueIsMissed` | src/main/cpp/include/ezbake/common/lrucache/LRUTimedCache.h:156-179 | an instance, as a run: expiration 2 s, values put at 0 s and 1 s, a get at 2 s returns nothing and drops the first value, although the second is live |
| `Pieces.FirstPart` | src/test/cpp/contrib/gtest/gtest-all.cc:1924-1939 | a text is described by a list of parts exactly when the first part accepts a prefix and the other parts describe the rest |
| `GlobFilter.PatternLaws` | src/test/cpp/contrib/gtest/gtest-all.cc:1924-1939 | `?` takes any one character, `*` any number of them, every other character itself; the empty pattern matches the empty name |
| `GlobFilter.SinglePattern` | src/test/cpp/contrib/gtest/gtest-all.cc:1941-1960 | a text without a colon is one pattern |
| `GlobFilter.Alternatives` | src/test/cpp/contrib/gtest/gtest-all.cc:1941-1960 | a colon separates alternatives, wherever it stands |
| `GlobFilter.PositiveAndNegative` | src/test/cpp/contrib/gtest/gtest-all.cc:1964-1990 | the first dash splits a filter; nothing before it admits every name, and what matches behind it is excluded |
| `GlobFilter.MatcherIsGlob` | src/test/cpp/contrib/gtest/gtest-all.cc:1924-1939 | the recursive matcher decides exactly whether the name can be cut into pieces that the pattern's characters accept, for the pattern up to the first `:` |
| `GlobFilter.MatchesFilter` | src/test/cpp/contrib/gtest/gtest-all.cc:1941-1960 | true exactly when some `:`-separated pattern of the filter matches the name |
| `GlobFilter.FilterMatchesTest` | src/test/cpp/contrib/gtest/gtest-all.cc:1964-1990 | true exactly when some pattern before the first `-` matches (any name if nothing stands before it) and none after it does |
| `GlobFilter.DeathTestNames` | src/test/cpp/contrib/gtest/gtest-all.cc:1642 | the death test filter admits exactly the names that end in DeathTest or contain DeathTest/ |
| `GlobFilter.DisabledNames` | src/test/cpp/contrib/gtest/gtest-all.cc:1637 | the disabling filter admits exactly the names that start with DISABLED_ or contain /DISABLED_ |
| `SimpleRegex.ValidateRegex` | src/test/cpp/contrib/gtest/gtest-all.cc:8467-8521 | accepts exactly the texts of well-formed expressions |
| `SimpleRegex.IsValidText` | src/test/cpp/contrib/gtest/gtest-all.cc:8476-8520 | the scanning loop accepts exactly the texts that can be read as an expression |
| `SimpleRegex.ReadInvertsPrint` | src/test/cpp/contrib/gtest/gtest-all.cc:8467-8521 | reading is the exact inverse of printing: the notation is unambiguous |
| `SimpleRegex.PlainAtoms` | src/test/cpp/contrib/gtest/gtest-all.cc:8467-8521 | which characters stand for an atom on their own |
| `SimpleRegex.Escapes` | src/test/cpp/contrib/gtest/gtest-all.cc:8432-8434 | which characters may follow a backslash: ASCII punctuation and the eleven listed letters |
| `SimpleRegex.Repetitions` | src/test/cpp/contrib/gtest/gtest-all.cc:8424 | the three repetition characters and what they are read as |
| `SimpleRegex.PlainCharacters` | src/test/cpp/contrib/gtest/gtest-all.cc:8456 | `.` describes every one-character string but a newline, every other plain character exactly itself |
| `SimpleRegex.CharacterClasses` | src/test/cpp/contrib/gtest/gtest-all.cc:8420-8451 | the classes of digits, white space and word characters, by ranges and characters, and their complements among the one-character strings |
| `SimpleRegex.ControlCharacters` | src/test/cpp/contrib/gtest/gtest-all.cc:8443-8449 | each of the five control escapes describes exactly its character |
| `SimpleRegex.EscapedPunctuation` | src/test/cpp/contrib/gtest/gtest-all.cc:8421-8453 | an escaped punctuation mark describes exactly itself |
| `SimpleRegex.OptionalIsNoneOrOne` | src/test/cpp/contrib/gtest/gtest-all.cc:8530-8552 | an optional atom describes what none or one of it describes |
| `SimpleRegex.StarIsNoneOrMore` | src/test/cpp/contrib/gtest/gtest-all.cc:8530-8552 | a starred atom describes what none, or one and again the starred atom, describes |
| `SimpleRegex.PlusIsOneThenStar` | src/test/cpp/contrib/gtest/gtest-all.cc:8530-8552 | an atom with a plus describes what one and then the starred atom describes |
| `SimpleRegex.MatchRepetitionAndRegexAtHead` | src/test/cpp/contrib/gtest/gtest-all.cc:8530-8552 | true exactly when some admissible number of atoms stands at the head and the rest of the expression matches behind them |
| `SimpleRegex.MatchRegexAtHead` | src/test/cpp/contrib/gtest/gtest-all.cc:8557-8583 | true exactly when a prefix, or the whole string for an expression ending in `$`, is in the language |
| `SimpleRegex.MatchRegexAnywhere` | src/test/cpp/contrib/gtest/gtest-all.cc:8593-8606 | true exactly when a substring is in the language, at the ends that `^` and `$` ask for |
| `SimpleRegex.FirstItem` | src/test/cpp/contrib/gtest/gtest-all.cc:8530-8552 | an expression matches at the head exactly when its first item accepts a prefix and the rest matches behind it |
| `RegexFullMatch.RE.constructor` | src/test/cpp/contrib/gtest/gtest-all.cc:8627-8658 | keeps the validated text and builds the anchored one |
| `RegexFullMatch.BuildFullPattern` | src/test/cpp/contrib/gtest/gtest-all.cc:8639-8657 | the buffer holds the anchored text, terminated, within its size |
| `RegexFullMatch.RE.FullMatch` | src/test/cpp/contrib/gtest/gtest-all.cc:8616-8618 | searches for the expression with the anchors that the text got |
| `RegexFullMatch.RE.PartialMatch` | src/test/cpp/contrib/gtest/gtest-all.cc:8622-8624 | true exactly when the expression is valid and some substring matches |
| `RegexFullMatch.FullTextIsAnchored` | src/test/cpp/contrib/gtest/gtest-all.cc:8646-8655 | the anchored text denotes the same items from the start, and to the end unless they end in an escaped dollar sign |
| `RegexFullMatch.Anchors` | src/test/cpp/contrib/gtest/gtest-all.cc:8562-8599 | a caret in front and a dollar sign behind an expression are read as its anchors |
| `RegexFullMatch.FullMatchIsExact` | src/test/cpp/contrib/gtest/gtest-all.cc:8615-8618 | a full match decides the whole string, for all strings, if and only if the expression does not end in an escaped dollar sign |
| `RegexFullMatch.AcceptsTrailingText` | src/test/cpp/contrib/gtest/gtest-all.cc:8654-8655 | such an expression fully matches some string outside its language |
| `RegexFullMatch.EscapedDollarAcceptsMore` | src/test/cpp/contrib/gtest/gtest-all.cc:8654-8655 | an instance: the expression `a\$` fully matches `a$x`, which is not in its language |
| `TestRunner.Congruential` | src/test/cpp/contrib/gtest/gtest-all.cc:1775-1789 | every number drawn is below the range |
| `TestRunner.Random.Generate` | src/test/cpp/contrib/gtest/gtest-all.cc:1775-1789 | the next number of the generator, within the range |
| `TestRunner.ShuffleRange` | src/test/cpp/contrib/gtest/gtest-all.cc:712-729 | in place, the shuffle of Fisher and Yates with the generator's next numbers |
| `TestRunner.ShuffledPermutes` | src/test/cpp/contrib/gtest/gtest-all.cc:722-728 | that shuffle permutes its range and leaves the rest alone |
| `TestRunner.SeedOneNumbers` | src/test/cpp/contrib/gtest/gtest-all.cc:1775-1789 | the generator's first numbers for the seed 1, and what is drawn from them |
| `TestRunner.ShuffledDraws` | src/test/cpp/contrib/gtest/gtest-all.cc:722-728 | the generator advances once for each place but the last |
| `TestRunner.ShuffledLast` | src/test/cpp/contrib/gtest/gtest-all.cc:722-728 | the first number drawn says which item goes to the end of the range |
| `TestRunner.EveryOrderIsReached` | src/test/cpp/contrib/gtest/gtest-all.cc:722-728 | every permutation of the range is the result of some draws |
| `TestRunner.SeedOneSwapsTwo` | src/test/cpp/contrib/gtest/gtest-all.cc:722-728 | an instance: with the seed 1 two items are swapped |
| `TestRunner.ShuffledScheduleDraws` | src/test/cpp/contrib/gtest/gtest-all.cc:6085-6097 | both blocks of cases and the tests of every case take part: the draws add up |
| `TestRunner.ShuffledScheduleIsShuffle` | src/test/cpp/contrib/gtest/gtest-all.cc:6085-6097 | shuffling permutes the death tests among themselves, the others among themselves and the tests within each case; one index slot per case and test remains, and a sound schedule stays sound |
| `TestRunner.TestCase.AddTestInfo` | src/test/cpp/contrib/gtest/gtest-all.cc:3907-3910 | the test is appended with its own index; each test keeps one slot |
| `TestRunner.TestCase.ShuffleTests` | src/test/cpp/contrib/gtest/gtest-all.cc:3947-3949 | the whole index vector is shuffled; each test keeps one slot |
| `TestRunner.TestCase.UnshuffleTests` | src/test/cpp/contrib/gtest/gtest-all.cc:3952-3956 | the tests are back in their registration order |
| `TestRunner.TestCase.Run` | src/test/cpp/contrib/gtest/gtest-all.cc:3913-3925 | exactly the marked tests, if the case is marked, in the order of their slots; otherwise none |
| `TestRunner.UnitTest.GetTestCase` | src/test/cpp/contrib/gtest/gtest-all.cc:5657-5690 | finds the case or registers it, a death test behind the death tests so far, and appends its index |
| `TestRunner.UnitTest.AddTestInfo` | src/test/cpp/contrib/gtest/gtest-all.cc:1055-1075 | the case of this name, registered first if it is new, gains the test at its end; other cases keep theirs |
| `TestRunner.UnitTest.GetMutableTestCase` | src/test/cpp/contrib/gtest/gtest-all.cc:994-997 | the case in a slot, following the shuffled order |
| `TestRunner.UnitTest.GetConstTestCase` | src/test/cpp/contrib/gtest/gtest-all.cc:987-990 | the case registered at a place, not following the shuffled order |
| `TestRunner.UnitTest.ShuffleTests` | src/test/cpp/contrib/gtest/gtest-all.cc:6085-6097 | the whole new schedule and generator state: the two blocks of cases and then the tests of each case are shuffled one after the other |
| `TestRunner.UnitTest.UnshuffleTests` | src/test/cpp/contrib/gtest/gtest-all.cc:6100-6107 | restores the registration order of cases and tests |
| `TestRunner.UnitTest.RunAllTests` | src/test/cpp/contrib/gtest/gtest-all.cc:5797-5800 | lists, in the order in which they run, exactly those of the schedule's visits that are marked |
| `TestRunner.UnitTest.ChosenAreRun` | src/test/cpp/contrib/gtest/gtest-all.cc:5983-5985 | after filtering, the tests that run are exactly the chosen ones |
| `TestSchedule.SoundScheduleRunsAll` | src/test/cpp/contrib/gtest/gtest-all.cc:5797-5800 | a sound schedule visits every test of every case exactly once, and no test of a death test case after a test of another case |
| `TestSchedule.VisitsFollowSlots` | src/test/cpp/contrib/gtest/gtest-all.cc:5797-5800 | the visits follow the order of the slots, and within a case that of its own slots |
| `TestSchedule.SelectedRunOnce` | src/test/cpp/contrib/gtest/gtest-all.cc:5797-5800 | so whatever is selected runs exactly once, the tests of death test cases first |
| `TestSchedule.HistoriesAreRegistered` | src/test/cpp/contrib/gtest/gtest-all.cc:5657-5690 | after any history of registering, adding, shuffling and unshuffling every case and every test has exactly one slot |
| `TestSchedule.HistoriesAreSoundExactly` | src/test/cpp/contrib/gtest/gtest-all.cc:5673-5690 | in any such history all schedules are sound if and only if every registration met the condition of `CanRegister` |
| `TestSchedule.HistoriesAreSound` | src/test/cpp/contrib/gtest/gtest-all.cc:5645-5648 | registering only while the cases are in registration order, as the caller is asked to, is enough; unshuffling restores that order |
| `TestSchedule.RegisterUnshuffled` | src/test/cpp/contrib/gtest/gtest-all.cc:5673-5690 | registering while unshuffled keeps the schedule sound and unshuffled |
| `TestSchedule.RegisterShuffledExactly` | src/test/cpp/contrib/gtest/gtest-all.cc:5676-5679 | registering after a shuffle keeps the schedule sound if and only if the case is known or no death test, or there are only death tests, or the first other slot holds its own index |
| `TestSchedule.RegisteringAfterShuffleBreaks` | src/test/cpp/contrib/gtest/gtest-all.cc:5676-5679 | an instance, as a history: two other cases are swapped by a shuffle, and the death test registered then is visited between them |
| `TestSchedule.ShuffleKeepsRegistered` | src/test/cpp/contrib/gtest/gtest-all.cc:6085-6097 | any permutation within the blocks and within the cases keeps one slot per case and test |
| `TestSchedule.ShuffleKeepsSound` | src/test/cpp/contrib/gtest/gtest-all.cc:6085-6091 | and keeps the schedule sound |
| `TestSchedule.UnshuffledInOrder` | src/test/cpp/contrib/gtest/gtest-all.cc:6100-6107 | unshuffling puts every index into its own slot, cases and tests alike: the visits are in registration order |
| `TestSchedule.RegisterInOrder` | src/test/cpp/contrib/gtest/gtest-all.cc:5673-5690 | a new case stands behind all known cases of its kind, and the known cases keep their order |
| `TestSchedule.RegistrationOrderIsKept` | src/test/cpp/contrib/gtest/gtest-all.cc:5673-5690 | in every history two cases of the same kind, death tests or not, stand in the order of their first registration |
| `TestSchedule.AccessorsAgreeExactly` | src/test/cpp/contrib/gtest/gtest-all.cc:985-997 | the two accessors agree on every slot if and only if the cases are not shuffled |
| `TestRunner.UnitTest.FilterTests` | src/test/cpp/contrib/gtest/gtest-all.cc:5939-5990 | a test is disabled exactly if its case's name or its own starts with DISABLED_ or contains /DISABLED_, and admitted exactly if the filter selects case, dot, test; without sharding it runs exactly if admitted and not disabled or disabled tests run too; the number returned is the number of tests that run; which tests are runnable is the same on every shard |
| `TestRunner.RowsSay` | src/test/cpp/contrib/gtest/gtest-all.cc:5961-5975 | which tests are runnable, by the names of their cases and their own |
| `TestRunner.FilterCase` | src/test/cpp/contrib/gtest/gtest-all.cc:5952-5987 | the same for one case, continuing the count of runnable tests |
| `TestRunner.FilterTest` | src/test/cpp/contrib/gtest/gtest-all.cc:5957-5985 | the marks of one test |
| `Sharding.ExactlyOneShard` | src/test/cpp/contrib/gtest/gtest-all.cc:5928-5930 | every runnable test is selected on exactly one shard, and no other test on any |
| `Sharding.NumbersIncrease` | src/test/cpp/contrib/gtest/gtest-all.cc:5977-5982 | the numbers of the runnable tests increase in registration order and stay below their count |
| `Sharding.ShardsAreBalanced` | src/test/cpp/contrib/gtest/gtest-all.cc:5939-5990 | the numbers that filtering returns on the shards add up to the runnable count; each is its quotient by the number of shards, plus one for the first remainder-many shards |
| `Sharding.SelectedCount` | src/test/cpp/contrib/gtest/gtest-all.cc:5977-5983 | how many tests a shard selects depends on their numbers only |
| `PasswordEncryption.EncryptionRoundTrip` | src/main/cpp/security/PbeMd5AndDesEncryptor.cpp:35-65 | decryption undoes encryption under the same password, salt of at least eight bytes and any iteration count |
| `PasswordEncryption.CbcRoundTrip` | src/main/cpp/security/PbeMd5AndDesEncryptor.cpp:45-60 | deciphering a chain of blocks gives back the data |
| `PasswordEncryption.NcbcEncrypt` | src/main/cpp/security/PbeMd5AndDesEncryptor.cpp:45-46 | block after block, the buffer receives the chained encryption of the input |
| `PasswordEncryption.NcbcDecrypt` | src/main/cpp/security/PbeMd5AndDesEncryptor.cpp:59-60 | block after block, the buffer receives the chained decryption of the input |
| `PasswordEncryption.EncryptedBlock` | src/main/cpp/security/PbeMd5AndDesEncryptor.cpp:45-46 | every enciphered block is that of its plain block mixed bit by bit with the enciphered block before it, the first with the initial vector |
| `PasswordEncryption.DecryptedBlock` | src/main/cpp/security/PbeMd5AndDesEncryptor.cpp:59-60 | every deciphered block is mixed bit by bit with the enciphered block before it |
| `PasswordEncryption.PaddedIsPadded` | src/main/cpp/security/PbeMd5AndDesEncryptor.cpp:37-39 | padding keeps the text and appends one to eight bytes that each say how many they are |
| `PasswordEncryption.PaddingIsUnique` | src/main/cpp/security/PbeMd5AndDesEncryptor.cpp:37-39 | that leaves only one padded text |
| `PasswordEncryption.EncryptedIsPadded` | src/main/cpp/security/PbeMd5AndDesEncryptor.cpp:35-49 | the chain behind the result of an encryption deciphers to the text so padded |
| `PasswordEncryption.UnpaddedCuts` | src/main/cpp/security/PbeMd5AndDesEncryptor.cpp:62-64 | for any last byte: as many bytes are cut as it says if it is at most 127 and there are as many, otherwise none |
| `PasswordEncryption.UnpadPadded` | src/main/cpp/security/PbeMd5AndDesEncryptor.cpp:37-64 | padding adds one to eight bytes up to whole blocks, and cutting by the last byte removes exactly them |
| `PasswordEncryption.GenerateDataHash` | src/main/cpp/security/PbeMd5AndDesEncryptor.cpp:85-117 | the digest of password and first eight salt bytes, applied as often as the countdown says, which for a count below one runs through the negative numbers; refused for a shorter salt |
| `PasswordEncryption.DigestedLaws` | src/main/cpp/security/PbeMd5AndDesEncryptor.cpp:97-112 | the digest applied once, and applications one after the other |
| `PasswordEncryption.KeyOf` | src/main/cpp/security/PbeMd5AndDesEncryptor.cpp:71-75 | the first half of the hash is the key, the second the initial vector |
| `PasswordEncryption.GenerateKey` | src/main/cpp/security/PbeMd5AndDesEncryptor.cpp:68-82 | key and initial vector are the halves of that hash |
| `PasswordEncryption.Encrypt` | src/main/cpp/security/PbeMd5AndDesEncryptor.cpp:35-49 | the encoded chain of the padded text; refused for a short salt |
| `PasswordEncryption.Decrypt` | src/main/cpp/security/PbeMd5AndDesEncryptor.cpp:52-65 | the deciphered chain, cut by its last byte read as a signed character; refused for a short salt |
| `PropertyMerge.EzProperties.GetCollisions` | src/main/java/ezbake/common/properties/EzProperties.java:274-278 | the names defined on both sides, defaults included |
| `PropertyMerge.EzProperties.MergeProperties` | src/main/java/ezbake/common/properties/EzProperties.java:290-298 | refused with the colliding names and no change, or the own entries copied |
| `PropertyMerge.EzProperties.LoadAll` | src/main/java/ezbake/common/properties/EzProperties.java:339-345 | files are merged in the order listed, up to the first collision |
| `PropertyMerge.LastFileWins` | src/main/java/ezbake/common/properties/EzProperties.java:290-298 | with overriding, a name has the value of the last listed file that has it, and its own value only if no file has it |
| `PropertyMerge.MergeSucceedsExactly` | src/main/java/ezbake/common/properties/EzProperties.java:274-298 | merging without override succeeds exactly when the files' names are pairwise disjoint and disjoint from the receiver's, and then gives exactly the union |
| `PropertyMerge.MergeStopsAtCollision` | src/main/java/ezbake/common/properties/EzProperties.java:339-345 | on failure exactly the files before the first colliding one have been merged |
| `PropertyMerge.MergeOrderIndependent` | src/main/java/ezbake/common/properties/EzProperties.java:339-345 | listing the same files in another order changes neither success nor the result |

## Left out

- Boost bimap internals, hashing and bucket layout: only the two views and their contract are modelled.
- Mutexes: each locked block is one step; recursive locking does not occur across steps.
- Overflow of 32 and 64 bit counters, sizes and times: numbers are unbounded, except in the random number generator and the repetition bound of the regular expressions.
- The timed `containsKey`, `size`, `isFull`, `entrySet`, `valueSet`, `valueRange`, `remove(key)` and `clear` ignore expiry and forward to the base cache; they would only add easy members.
- LruCache.LruCache.ValueSet: requires the key to be present, because the source dereferences the range before it tests it.
- SimpleRegex.MatchRegexAnywhere: requires strings no longer than the largest repetition count, beyond which the source leaves the behaviour undefined.
- TestRunner.UnitTest.FilterTests: takes the shard as a checked parameter, and tests of which none is registered twice; reading and validating the environment variables is not modelled.
- TestRunner.UnitTest.ShuffleTests: at most 2^31 cases and tests per case, the range of the generator, beyond which the source aborts; that the permutations are uniformly distributed is not stated.
- PasswordEncryption.Decrypt: once the salt is accepted, requires data of whole, non-empty blocks after decoding: the source reads the byte before the beginning of an empty buffer, and of a partial block the cipher reads beyond the end of the data.
- PasswordEncryption.GenerateDataHash: failures of the digest library are not modelled.
- PropertyMerge.EzProperties.LoadAll: the files are given as tables in the order listed; opening and parsing them is not modelled, nor are values that are not strings.
- TestRunner.UnitTest.RunAllTests: lists the tests that run; what they do, set-up and tear-down, listeners and repetitions are not modelled.
- Printers, XML output, sockets and death test processes of the test runner.
- Host and port parsing, string conversion, typed property getters and decryption of property values: short functions that would only add easy members.
- OpenShift, class path, TLS and date utilities: plumbing to the environment.
- DES, MD5, Base64 and key parity themselves.
