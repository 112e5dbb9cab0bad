# Cache eviction, key codec and worker shutdown

The program keeps the caches of a web server within a byte limit. It decides what to evict
(LRU, or LFU with dynamic aging), keeps that decision in SQLite or in memory, encodes tuples as
Redis keys, and hands files and URLs to background threads that delete or purge them. The modules
here describe those parts and prove what they promise.

| part of the program | modules |
|---|---|
| byte-limited LRU over a table with sequence numbers | `LruRecency` (the recency list and its steps), `LruProperties` (one call), `LruSteps` (each call by rows and bytes), `LruRuns` (whole runs), `LruTable` (table and adapter), `LruEngine` (the class), `LruEviction` (its loop on any table), `LruRestart` (restarts) |
| LFU with dynamic aging over a table | `LfudaRows` (states, steps), `LfudaProperties` (one call), `LfudaSteps` (each call by rows and bytes), `LfudaGrowth` (growing an entry), `LfudaRuns`, `LfudaLog` (where the counters come from), `LfudaEngine`, `LfudaRestart` |
| order-preserving codec of the Redis adapter | `MachineWords`, `RedisCodec`, `RedisCodecOrder` |
| purge queue | `PurgeQueue` (the protocol), `PurgeProperties` (every step), `PurgeRuns`, `PurgeOrder` (who is served when) |
| asynchronous deleter | `AsyncDeleter` |
| in-memory caches | `MemoryCache`, `MemoryLfuda`, `MemoryLru` |
| shared | `Options`, `CacheEngine`, `RemoveCallback` |

Classes that update their fields in place are classes here, with the same fields. Each method's
contract ties the new state to a step function over values, and the properties are proved about
those steps. What a step does is stated a second time, not through the functions a step is built
from, by lemmas that speak of rows, byte counts and plain numbers (`LruSteps`, `LruEviction`,
`LruRestart`, `LfudaSteps`, `LfudaLog`, `LfudaRestart`, `PurgeOrder`). The LFU-DA table leaves ties
in its eviction order to the database, so a step of LFU-DA is a relation: every result holds for
any choice among equally bad rows. The two threaded components are step relations over which every
interleaving is a run.

## What is assumed

- The database handed to `init` is consistent, as `src/algo/algo_lru_sqlite.cpp:15` asks. `Init`
  itself is specified on other tables too, and `LruRestart` says which stale ones it accepts.
- `max_size` is below 2^63: the value passes through a signed 64-bit column. `NoSumWrapsIff`
  shows that this is exactly what keeps the sums in the eviction tests from wrapping around. A
  larger limit given to `resize` is taken, as in the code; what it does is specified, but the
  invariant is then no longer promised.
- The LFU-DA counters have room for one more access when a call counts one. `CountersBounded`
  shows that fewer than 2^63 calls cannot use that room up.
- The LRU sequence number does not overflow; `SequenceIsLastTouch` shows that it grows by one for
  each touch.
- Null keys, zero sizes, oversized entries, absent keys and malformed bytes are not excluded: they
  lead to the errors and results the code gives.

## What turned out false

- The codec does not keep the order of strings, and its source says so
  (`src/redis/redis_adapter.h:199`). `StringOrderNotKept` is an example, and
  `StringOrderIsByLength` says which order strings get instead.
- A string of 2^32 bytes or more does not survive the codec. `RoundTripIff` gives the exact
  condition.
- `init` of the LRU engine notices a missed touch, but not a missed size change:
  `StaleSizeNotNoticed` is an example, and `StaleMetaAcceptedIff` says exactly what is accepted.
- In the LFU-DA engine a duplicate `put` that asks for more bytes may evict the entry it has just
  renewed (`DuplicatePutMayLoseTarget`). `GrowthLosesTargetIff` says, from the state before the
  call, exactly when a growing entry can be lost and exactly when it must be; the two differ only
  by rows that tie with it. The LRU engine never loses the target (`DuplicatePutKeepsTarget`).
- In both in-memory caches a growing entry that evicts itself is used through an erased iterator.
  `GrowthMeetsErasedIterator` is a run of two `put`s that ends there, and the contracts of `Put`,
  `UpdateSize` and (for LFU-DA) `Update` say exactly when that happens.
- `init` of an in-memory cache can leave map and entries in disagreement. `RepeatedKeyBreaksInit` is
  an example for each class; for LRU this happens exactly when a key is repeated or already there,
  and for LFU-DA exactly when such an entry is not an empty one equivalent to those it meets.
- `AsyncDeleter::stop` can fail to return. It keeps `cv_lock` while it joins the io threads, and a
  handler that has decremented the counter but not yet notified waits for that lock.
  `ShutdownCanHang` is such a run with a single job. After the last `submit`, a call of `stop` can
  hang exactly when a job or the notification of one is still under way (`CallHangsIff`); when none
  is, it returns in every run (`IdleCallReturns`). `ReturnsIff` gives the condition for a call
  that has already stopped the io context. Without io threads, a job keeps `stop` waiting for ever
  (`NoThreadNoReturn`).

## Model

| member | source | states |
|---|---|---|
| MachineWords.FlipTopIsXor | src/redis/redis_adapter.h:169-231 | the arithmetic form of flipping the sign bit is the bitwise exclusive-or with the top bit, on 32-bit and on 64-bit words |
| RedisCodec.SerializeInt | src/redis/redis_adapter.h:166-176 | the four shifted bytes are the big-endian form of the value with its sign bit flipped |
| RedisCodec.FillBuffer | src/redis/redis_adapter.h:182-185 | the shifting loop of both 64-bit serializers fills the buffer with the big-endian bytes of the word |
| RedisCodec.SerializeInt64 | src/redis/redis_adapter.h:178-187 | eight big-endian bytes of the value with its sign bit flipped |
| RedisCodec.SerializeUInt64 | src/redis/redis_adapter.h:189-197 | eight big-endian bytes of the value |
| RedisCodec.SerializeString | src/redis/redis_adapter.h:199-207 | a 32-bit length prefix (the length modulo 2^32) and the bytes of the string |
| RedisCodec.Serialize | src/redis/redis_adapter.h:93-96 | the field encodings in order, which decode to the same fields if and only if every string is shorter than 2^32 |
| RedisCodec.ReadLoop | src/redis/redis_adapter.h:225-228 | accumulating byte by byte in a word of fixed width yields the big-endian number: the shifts drop no set bit |
| RedisCodec.DeserializeInt | src/redis/redis_adapter.h:219-234 | advances the offset past four bytes and yields the value they encode, or fails on a short input; never reads past the end |
| RedisCodec.DeserializeInt64 | src/redis/redis_adapter.h:236-251 | the same for eight bytes of a signed value |
| RedisCodec.DeserializeUInt64 | src/redis/redis_adapter.h:253-267 | the same for eight bytes of an unsigned value |
| RedisCodec.DeserializeString | src/redis/redis_adapter.h:270-285 | the same for a length-prefixed string, failing when the prefix or the body is cut short |
| RedisCodec.DeserializeAll | src/redis/redis_adapter.h:209-217 | threading one offset through all fields decodes the unread input, and accepts only if nothing is left over |
| RedisCodec.Deserialize | src/redis/redis_adapter.h:98-102 | accepts exactly the bytes that some field list of the requested types serializes to, and returns that list |
| RedisCodec.BigEndianAt | src/redis/redis_adapter.h:183-185 | byte i of the big-endian form is the word shifted right by 8*(n-1-i) bits |
| RedisCodec.WireFormat | src/redis/redis_adapter.h:166-207 | four or eight bytes that read as the value, offset by 2^31 or 2^63 when it is signed; a string is its length in four bytes, modulo 2^32, and then its bytes |
| RedisCodec.RoundTrip | src/redis/redis_adapter.h:93-102 | deserialize after serialize is the identity on lists with strings shorter than 2^32 |
| RedisCodec.RoundTripIff | src/redis/redis_adapter.h:199-207 | the round trip holds exactly when every string fits its 32-bit length prefix |
| RedisCodec.AcceptedIsEncoding | src/redis/redis_adapter.h:209-285 | whatever is accepted re-serializes to the same bytes, and has the requested types |
| RedisCodec.PrefixFree | src/redis/redis_adapter.h:93-96 | no encoding of one shape is a proper prefix of another, and encoding is injective |
| RedisCodec.TruncatedOrTrailingRejected | src/redis/redis_adapter.h:209-211 | any proper prefix of an encoding and any encoding followed by further bytes is rejected |
| RedisCodecOrder.OrderPreserved | src/redis/redis_adapter.h:164-207 | bytewise order of the encodings of two tuples of one shape is the lexicographic order of the tuples: by value at a number, by length and then content at a string shorter than 2^32 bytes, wherever it stands; equal tuples leave the decision to whatever bytes follow |
| RedisCodecOrder.StringOrderIsByLength | src/redis/redis_adapter.h:199-207 | encoded strings sort by length first and by content second |
| RedisCodecOrder.StringOrderNotKept | src/redis/redis_adapter.h:199 | a concrete pair of strings whose encodings sort the other way round |
| CacheEngine.NoSumWrapsIff | src/algo/algo_lru_sqlite.cpp:144-147 | no sum of a cache size and a request within max_size wraps if and only if max_size is below 2^63 |
| LruRecency.SurvivesIffFits | src/algo/algo_lru_sqlite.cpp:147-165 | eviction leaves the longest prefix of the recency list that fits |
| LruRecency.NextNothing | src/algo/algo_lru_sqlite.cpp:50-54 | a call that throws, or names an absent key without inserting it, changes nothing and evicts nothing |
| LruProperties.InvKept | src/algo/algo_lru_sqlite.cpp:50-190 | every call keeps cache_size equal to the sum of the row sizes and within max_size, keys and sequence numbers unique, and the newest row at the current sequence number |
| LruProperties.HitStays | src/algo/algo_lru_sqlite.cpp:74-82 | the row a call has just touched is never evicted by that call |
| LruProperties.DuplicatePutKeepsTarget | src/algo/algo_lru_sqlite.cpp:74-82 | a duplicate put leaves its key newest, with the larger of the two sizes, and does not report it |
| LruProperties.UpdateLosesTargetIff | src/algo/algo_lru_sqlite.cpp:171-190 | update loses its entry if and only if the entry and everything newer would not fit grown; otherwise the entry ends with the new size |
| LruProperties.VictimsAreOldestAndMinimal | src/algo/algo_lru_sqlite.cpp:143-169 | victims leave in increasing sequence order, all older than every survivor; sparing the last one would leave too little room; survivors and victims together are the list |
| LruSteps.PutNewKeeps | src/algo/algo_lru_sqlite.cpp:57-69 | a new row comes first, with the next sequence number; behind it stays the longest prefix that fits beside it, and the rest is reported |
| LruSteps.PutAgainKeeps | src/algo/algo_lru_sqlite.cpp:71-85 | a duplicate put moves its row first, with the larger size and the next sequence number; behind it stays the longest prefix of the others that fits beside it, and the rest is reported |
| LruSteps.RenewMoves | src/algo/algo_lru_sqlite.cpp:103-109 | a renewal moves the row first, counts one touch, and leaves every other row and all sizes alone |
| LruSteps.UpdateKeeps | src/algo/algo_lru_sqlite.cpp:121-131 | an update keeps in place the longest prefix that fits beside the growth, changes one size in it, and reports the rest |
| LruSteps.ResizeKeeps | src/algo/algo_lru_sqlite.cpp:137-141 | the new limit is set; the first n rows stay if and only if they fit it, a list that fits loses nothing, and putting back the last victim would exceed it |
| LruSteps.AbsentKey | src/algo/algo_lru_sqlite.cpp:111-134 | renew and update of an absent key return false and change nothing |
| LruSteps.Refusals | src/algo/algo_lru_sqlite.cpp:51-54 | exactly which calls throw which of the three argument errors, and that they change nothing |
| LruRuns.RunInv | src/algo/algo_lru_sqlite.cpp:50-190 | the invariant holds at the end of every run |
| LruRuns.SequenceIsLastTouch | src/algo/algo_lru_sqlite.cpp:56-68 | in every run from empty, each row's sequence number is the index of the last touch of its key and the counter is the number of touches |
| LruRuns.VictimsLeastRecentlyTouched | src/algo/algo_lru_sqlite.cpp:143-169 | in every run, what a call evicts was last touched before everything that is in the table after the call |
| LruRuns.LedgerOfCall | src/algo/algo_lru_sqlite.cpp:157-167 | per key, rows after the call and rows reported are the rows before plus the one inserted |
| LruRuns.Ledger | src/algo/algo_lru_sqlite.cpp:143-169 | over every run and for each key, residencies begun are those going on plus those handed to the remove callback, each once |
| LruRuns.InclusionRun | src/algo/algo_lru_sqlite.cpp:50-87 | two runs of one put trace keep the smaller cache's list a prefix of the larger one's, step by step |
| LruRuns.Inclusion | src/algo/algo_lru_sqlite.cpp:50-87 | from empty and with one size per key within the smaller limit, the larger cache never has more misses |
| LruTable.SqliteLru.InsertLru | src/db_adapter/db_sqlite_lru.h:48-51 | inserts a row, unless the primary key or the unique sequence number is taken |
| LruTable.SqliteLru.UpdateLruSeq | src/db_adapter/db_sqlite_lru.h:57-59 | rewrites the sequence number of a key, reports zero rows for an absent key, and is refused a number another row has |
| LruTable.SqliteLru.UpdateLruContent | src/db_adapter/db_sqlite_lru.h:61-63 | rewrites the size of a key and nothing else |
| LruTable.SqliteLru.QueryLruNew | src/db_adapter/db_sqlite_lru.h:87-92 | the head of the recency list, or the empty row |
| LruTable.SqliteLru.DeleteLruOld | src/db_adapter/db_sqlite_lru.h:118-123 | removes and returns the last row of the recency list, or reports that there is none |
| LruTable.SqliteLru.SelectAllAscending | src/sqlite/sql_statement.h:63-64 | rows by ascending sequence number are the recency list backwards |
| LruTable.SqliteLru.QueryLruAll | src/db_adapter/db_sqlite_lru.h:94-103 | the loop that turns the rows around returns exactly the recency list |
| LruTable.ListingUnique | src/sqlite/sql_statement.h:24-30 | a table stands for one recency list only |
| LruTable.InsertedList | src/sqlite/sql_statement.h:39-42 | inserting a row newer than all others pushes it to the front of the list |
| LruTable.DeletedList | src/sqlite/sql_statement.h:70-76 | deleting the row with the lowest sequence number drops the last element |
| LruTable.TouchedList | src/sqlite/sql_statement.h:44-46 | giving a row a number beyond all others moves it to the front |
| LruTable.ResizedList | src/sqlite/sql_statement.h:48-49 | rewriting a size changes that element in its place |
| LruEngine.DrainKeeps | src/algo/algo_lru_sqlite.cpp:143-169 | on a consistent table the eviction loop raises no error and keeps the longest prefix that fits |
| LruEviction.DrainLedger | src/algo/algo_lru_sqlite.cpp:143-169 | on any list: what is left and what is reported are the list, each victim went while the limit was exceeded, the size falls by their bytes, and exactly where the loop fails on an empty key, an empty table or a row the size does not cover |
| LruEngine.Lru.RemoveCache | src/algo/algo_lru_sqlite.cpp:143-169 | on any table, consistent or not: which rows go, what is reported, what cache_size becomes, which error is raised, and whether the marked key went |
| LruEngine.Lru.UpdateSize | src/algo/algo_lru_sqlite.cpp:171-190 | evicts for the growth only, rewrites the size if and only if the entry survived, keeps the accounting, and cannot throw |
| LruEngine.Lru.Put | src/algo/algo_lru_sqlite.cpp:50-87 | the table's list takes exactly one step of the recency list; result, errors and reported victims as specified; the database errors are unreachable |
| LruEngine.Lru.PutNew | src/algo/algo_lru_sqlite.cpp:57-69 | the insertion violates no constraint, and sequence and size are updated after it |
| LruEngine.Lru.PutDuplicate | src/algo/algo_lru_sqlite.cpp:71-85 | renewing and then growing the row leads the list through exactly the step of a duplicate put, reports its victims, and cannot throw |
| LruEngine.Lru.Renew | src/algo/algo_lru_sqlite.cpp:103-116 | moves the key to the front with a fresh sequence number, or reports an absent key, and evicts nothing |
| LruEngine.Lru.Update | src/algo/algo_lru_sqlite.cpp:121-135 | one step of the recency list, with its result, errors and victims |
| LruEngine.Lru.Resize | src/algo/algo_lru_sqlite.cpp:137-141 | one step of the recency list, for any 64-bit limit; what that step keeps is `ResizeKeeps`, and the invariant is kept for limits below 2^63 |
| LruEngine.Lru.Query | src/algo/algo_lru_sqlite.cpp:208-213 | the row of the key in the list, the empty row, or the error for a null key |
| LruEngine.Lru.Backup | src/algo/algo_lru_sqlite.cpp:45-47 | stores the meta fields as they are |
| LruEngine.Lru.Init | src/algo/algo_lru_sqlite.cpp:15-43 | on any table and meta row, the outcome, state and victims of `Initial`; what these are is `InitRefusals` and `InitEvicts` |
| LruRestart.InitRefusals | src/algo/algo_lru_sqlite.cpp:19-34 | a zero limit, bytes for no rows, another newest sequence number and a newest row larger than the total are refused, in this order, without any change |
| LruRestart.InitEvicts | src/algo/algo_lru_sqlite.cpp:36-42 | a table that its meta row describes is taken over even if it exceeds the limit: exactly the longest prefix within the limit stays, the rest is reported oldest first, and the invariant holds |
| LruRestart.BackupThenInit | src/algo/algo_lru_sqlite.cpp:15-47 | init after backup passes every check, evicts nothing and finds the same state |
| LruRestart.StaleMetaAcceptedIff | src/algo/algo_lru_sqlite.cpp:23-34 | exactly when init accepts a meta row that was stored before further calls |
| LruRestart.StaleTouchNoticed | src/algo/algo_lru_sqlite.cpp:28-30 | any touch since the last backup raises the sequence mismatch while a row remains |
| LruRestart.StaleSizeNotNoticed | src/algo/algo_lru_sqlite.cpp:32-34 | a concrete stale meta row after an update that init accepts although the total is wrong |
| LfudaProperties.EvictKeeps | src/algo/algo_lfuda_sqlite.cpp:133-136 | evicting any worst row never lowers the aging level, keeps aging <= eff <= aging + freq for every row, and takes exactly its bytes and accesses out |
| LfudaProperties.RunKeeps | src/algo/algo_lfuda_sqlite.cpp:121-148 | the same over an eviction loop; the aging level ends at the last victim's eff |
| LfudaProperties.InvKept | src/algo/algo_lfuda_sqlite.cpp:42-169 | every call, whatever ties are broken how, keeps the byte accounting and the two-sided bound on eff, never lowers aging, and accounts for exactly the access it makes |
| LfudaProperties.RenewMovesUp | src/algo/algo_lfuda_sqlite.cpp:78-97 | a renewal raises eff by at least one, never takes the timestamp back, evicts nothing, and moves the row strictly up in eviction order |
| LfudaProperties.WorstFirst | src/sqlite/sql_statement.h:155-162 | victims leave in non-decreasing order, none is better than a survivor, and the last one had to go |
| LfudaProperties.RunPartition | src/algo/algo_lfuda_sqlite.cpp:125-146 | each row is either still in the table or among the victims, once |
| LfudaProperties.LedgerOfCall | src/algo/algo_lfuda_sqlite.cpp:121-148 | per key, rows after the call and rows reported are the rows before plus the one inserted |
| LfudaSteps.EvictionTold | src/algo/algo_lfuda_sqlite.cpp:121-148 | victims are rows that leave, each while the bytes left and those needed exceeded the limit; other rows stay as they are, the size falls by the victims' bytes, and aging ends at the last victim's eff |
| LfudaSteps.RenewTold | src/algo/algo_lfuda_sqlite.cpp:78-92 | a renewal writes one row, with one more access, the later timestamp and eff = freq + aging, and nothing else |
| LfudaSteps.PutNewTold | src/algo/algo_lfuda_sqlite.cpp:49-62 | what a new row needs leaves, and the row comes in with freq 1 and eff = 1 + the aging level the last victim left |
| LfudaSteps.PutAgainTold | src/algo/algo_lfuda_sqlite.cpp:64-75 | a duplicate put counts an access as a renewal does, then evicts for the growth alone and writes the larger size if the row survived; without growth nothing is evicted |
| LfudaSteps.UpdateTold | src/algo/algo_lfuda_sqlite.cpp:99-109 | an update touches no counter; a smaller size is written at once, a larger one after eviction for the growth, if the row survived |
| LfudaSteps.ResizeTold | src/algo/algo_lfuda_sqlite.cpp:115-119 | the new limit is set, what exceeds it leaves, and rows that fit it already lose nothing |
| LfudaSteps.AbsentTold | src/algo/algo_lfuda_sqlite.cpp:94-112 | renew and update of an absent key return false and change nothing |
| LfudaSteps.Refusals | src/algo/algo_lfuda_sqlite.cpp:43-46 | exactly which calls throw which of the three argument errors, and that they change nothing |
| LfudaSteps.WorstIff | src/sqlite/sql_statement.h:155-162 | on a consistent table the statement may delete exactly the rows least in the lexicographic order of eff, freq, timestamp and size as plain numbers; a timestamp of 2^63 or more counts as the negative number its column stores |
| LfudaGrowth.BelowIsWeakOrder | src/sqlite/sql_statement.h:155-162 | the eviction order is a strict weak order on rows whose numbers fit their columns: irreflexive, asymmetric, transitive, and with transitive ties |
| LfudaGrowth.LosingRun | src/algo/algo_lfuda_sqlite.cpp:125-146 | a choice of worst rows that evicts the entry exists whenever it and everything not below it do not fit |
| LfudaGrowth.SparingRun | src/algo/algo_lfuda_sqlite.cpp:125-146 | a choice of worst rows that spares the entry exists whenever it and everything above it fit |
| LfudaGrowth.GrowthOutcome | src/algo/algo_lfuda_sqlite.cpp:150-169 | whatever is chosen, a growing entry is reported if and only if it is gone, and otherwise ends with the new size |
| LfudaGrowth.GrowthLosesTargetIff | src/algo/algo_lfuda_sqlite.cpp:150-169 | some choice of worst rows loses a growing entry if and only if it and everything not below it leave too little room, and every choice does if and only if it and everything above it do |
| LfudaGrowth.NoTieNoChoice | src/sqlite/sql_statement.h:155-162 | without a tie with the entry the two conditions are the same |
| LfudaGrowth.DuplicatePutMayLoseTarget | src/algo/algo_lfuda_sqlite.cpp:64-72 | a concrete duplicate put that evicts the entry it has just renewed |
| LfudaRuns.RunBudget | src/algo/algo_lfuda_sqlite.cpp:52-58 | over every run, access counts of resident and evicted rows grow by exactly the accesses made, and aging grows by no more than the evicted counts |
| LfudaRuns.CountersBounded | src/algo/algo_lfuda_sqlite.cpp:88-89 | from empty, every eff and the aging level are at most the number of accesses, so the counters cannot wrap within fewer than 2^63 calls |
| LfudaRuns.Ledger | src/algo/algo_lfuda_sqlite.cpp:121-148 | over every run and for each key, residencies begun are the one going on plus those reported |
| LfudaRuns.EvictionCostsPatience | src/algo/algo_lfuda_sqlite.cpp:133-136 | every eviction that spares an entry strictly lowers its potential: levels still to climb, and rows on the current one |
| LfudaRuns.StepCostsPatience | src/algo/algo_lfuda_sqlite.cpp:42-119 | no put, renew, update or resize that leaves the entry alone raises that potential, and its evictions all count against it |
| LfudaRuns.NoStarvation | src/algo/algo_lfuda_sqlite.cpp:121-148 | an entry that is never renewed or put again is gone after (eff - aging) * (limit + 1) + limit further evictions |
| LfudaLog.RowCountsVisits | src/algo/algo_lfuda_sqlite.cpp:50-92 | in every run from empty, a resident row's freq is the number of accesses since its key came in, its timestamp their latest, and eff - freq the aging level in force at the last of them |
| LfudaRestart.InitRefusals | src/algo/algo_lfuda_sqlite.cpp:15-26 | a zero limit, bytes for no rows, and a worst row larger than the total are refused, in this order, without any change |
| LfudaRestart.InitEvicts | src/algo/algo_lfuda_sqlite.cpp:28-31 | init accepts every consistent table and brings it within its limit, evicting and reporting worst rows only as long as it exceeds it |
| LfudaEngine.SqliteLfuda.InsertLru | src/db_adapter/db_sqlite_lfuda.h:66-69 | inserts a row, or raises the constraint violation if its key is taken |
| LfudaEngine.SqliteLfuda.UpdateLfudaTfe | src/db_adapter/db_sqlite_lfuda.h:76-79 | rewrites timestamp, freq and eff of a key and nothing else |
| LfudaEngine.SqliteLfuda.QueryLfudaWorst | src/db_adapter/db_sqlite_lfuda.h:108-114 | some minimal row in the eviction order, or the empty row |
| LfudaEngine.SqliteLfuda.DeleteLfudaOld | src/db_adapter/db_sqlite_lfuda.h:142-148 | removes and returns some minimal row, or reports that there is none |
| LfudaEngine.Lfuda.RemoveCache | src/algo/algo_lfuda_sqlite.cpp:121-148 | on any table, with sums that wrap around as in the code: evicts worst rows one by one exactly while the limit is exceeded, reports them, moves the aging level and tells whether the marked key went, or fails in one of two ways, each with the state it leaves; on a consistent table it cannot fail |
| LfudaEngine.Lfuda.UpdateSize | src/algo/algo_lfuda_sqlite.cpp:150-169 | evicts for the growth only, rewrites the size if and only if the entry survived, and cannot throw |
| LfudaEngine.Lfuda.Put | src/algo/algo_lfuda_sqlite.cpp:42-76 | one legal step of the state machine, with its result, errors and victims; the database errors are unreachable |
| LfudaEngine.Lfuda.Renew | src/algo/algo_lfuda_sqlite.cpp:78-97 | one step of the state machine with no victims, without a sum that wraps; what that step writes is `RenewTold` |
| LfudaEngine.Lfuda.Update | src/algo/algo_lfuda_sqlite.cpp:99-113 | one legal step of the state machine, with its result, errors and victims |
| LfudaEngine.Lfuda.Resize | src/algo/algo_lfuda_sqlite.cpp:115-119 | sets any 64-bit limit and evicts down to it; the invariant is kept for limits below 2^63 |
| LfudaEngine.Lfuda.Query | src/algo/algo_lfuda_sqlite.cpp:188-193 | the row of the key, the empty row, or the error for a null key |
| LfudaEngine.Lfuda.Backup | src/algo/algo_lfuda_sqlite.cpp:37-39 | stores the meta fields as they are |
| LfudaEngine.Lfuda.Init | src/algo/algo_lfuda_sqlite.cpp:11-35 | on any table and meta row: the checks in their order, on the worst row the database finds, then eviction down to the limit with its outcome; a consistent backup is found as it was |
| PurgeProperties.MassStep | src/utils/purger.cpp:66-97 | a step adds to or takes from the queue and the workers exactly the task it names |
| PurgeProperties.ConservedStep | src/utils/purger.cpp:66-97 | every step keeps each accepted task in one place: queued, in flight, succeeded or reported failed |
| PurgeProperties.RationedStep | src/utils/purger.cpp:69-95 | every step keeps requests made plus attempts left for a task within max(1, try_max) |
| PurgeProperties.WakeUpStep | src/utils/purger.cpp:53-64 | every step keeps queued tasks matched by notifications on their way and woken workers while somebody sleeps |
| PurgeProperties.InvStep | src/utils/purger.cpp:45-134 | all of these, the queue bound and the count of running workers survive every step of every interleaving |
| PurgeRuns.TaskFate | src/utils/purger.cpp:66-115 | in every run an accepted task is in exactly one place, is requested at most max(1, try_max) times, and the queue never exceeds queue_max; the order of service is `FirstInFirstOut` |
| PurgeRuns.NoWakeUpLost | src/utils/purger.cpp:82-112 | in every run, spurious wake-ups included, while not stopped and some worker sleeps, the queue is no longer than pending notifications plus woken workers |
| PurgeRuns.NobodySleepsAfterStop | src/utils/purger.cpp:125-131 | a notify_all leaves nobody asleep, and after the stop signal nobody falls asleep again |
| PurgeRuns.AwakeAfterNotifyAll | src/utils/purger.cpp:128-131 | in every run, from the notify_all of a stop on, no worker is ever asleep: one notification is enough |
| PurgeRuns.PendingStep | src/utils/purger.cpp:53-101 | every step the threads take by themselves strictly lowers a measure of what is left to do |
| PurgeRuns.StepsBounded | src/utils/purger.cpp:53-101 | in every run the threads' own steps are bounded by the workers and by the add and stop calls and spurious wake-ups from outside |
| PurgeRuns.RestIsDone | src/utils/purger.cpp:122-130 | when the threads come to rest, every accepted task is settled, or after a stop running_worker is zero |
| PurgeOrder.FirstInFirstOut | src/utils/purger.cpp:66-108 | in every run the requests are attempts at the tasks in the order in which add and retry queued them, each counted once more, and the queue is the rest |
| PurgeOrder.RequestedInOrder | src/utils/purger.cpp:66-108 | in every run no task is requested while one accepted earlier has never been |
| PurgeOrder.QueueComesFirst | src/utils/purger.cpp:66-108 | whatever is queued at a moment of a run is requested in that order before anything else |
| PurgeOrder.RetryGoesLast | src/utils/purger.cpp:84-91 | a task put back for a retry is not requested again before everything queued at that moment has been, and then it is next |
| PurgeOrder.NoRequestAfterStop | src/utils/purger.cpp:60-64 | once the stop signal is set, no run starts another request |
| PurgeOrder.Outcomes | src/utils/purger.cpp:81-103 | in every reachable state a task succeeds exactly when its request does, and is reported as failed exactly when a request fails that was at least the try_max-th made for it, or when its retry finds the queue full |
| AsyncDeleter.InvRun | src/io/async_deleter.cpp:50-77 | in every interleaving working_jobs is the number of jobs counted and not yet decremented |
| AsyncDeleter.NoLostWakeUp | src/io/async_deleter.cpp:53-75 | stop never sleeps with the counter at zero unless a handler is about to notify, can do so, and thereby wakes it; when the wait passes is `WaitPasses` |
| AsyncDeleter.WaitPasses | src/io/async_deleter.cpp:53-55 | the only steps on which stop goes on past its wait are taken with the counter at zero and no job counted, posted or executing |
| AsyncDeleter.StopWaitsForJobs | src/io/async_deleter.cpp:50-58 | in every interleaving whose submits precede that moment, no job is counted, posted or executing when the io context is stopped and ever after |
| AsyncDeleter.StuckForever | src/io/async_deleter.cpp:55-74 | a handler still to notify while stop joins the threads leaves both waiting in every continuation |
| AsyncDeleter.CallHangsIff | src/io/async_deleter.cpp:50-75 | with any pool of one or more threads, a call of stop after the last submit has a run that hangs if and only if a job, or the notification of one, is under way |
| AsyncDeleter.NoThreadNoReturn | src/io/async_deleter.cpp:30-54 | with no thread in the pool, a job that was submitted keeps stop waiting in every run |
| AsyncDeleter.IdleCallReturns | src/io/async_deleter.cpp:50-58 | when no job is counted, waiting or under way and no notification is due, every run of the call is a part of the one four-step run that returns |
| AsyncDeleter.ReturnsIff | src/io/async_deleter.cpp:55-75 | once the io context is stopped and nothing more is submitted, stop can return if and only if no handler is still to notify and none under way will have to, and it can hang if and only if that fails |
| AsyncDeleter.ShutdownCanHang | src/io/async_deleter.cpp:50-77 | a concrete run with one job after which stop never returns |
| MemoryLfuda.LessIsTotalOrder | src/algo/algo_lfuda.h:35-41 | the comparison is a strict order in which equivalent entries agree in everything but freq, hence in their key |
| MemoryLfuda.LessIsLexicographic | src/algo/algo_lfuda.h:35-41 | smaller eff comes first, then smaller timestamp, then smaller size, then the key that is smaller where the two first differ |
| MemoryLfuda.AgreeInsert | src/algo/algo_lfuda.cpp:39-43 | an entry with a new key meets no equivalent one, and map and set agree after its insertion |
| MemoryLfuda.Reinserted | src/algo/algo_lfuda.cpp:60-63 | an extracted and changed node is never dropped on its way back, and map and set agree again |
| MemoryLfuda.Lfuda.BstInsert | src/algo/algo_lfuda.cpp:10 | a set insertion: an equivalent element keeps the new one out, and an equivalent element is what the iterator points to |
| MemoryLfuda.Lfuda.Init | src/algo/algo_lfuda.cpp:8-15 | what set, map and cache size become, repeated keys included; map, set and size agree afterwards if and only if no entry met another one of its key, other than empty equivalent ones; entries with new keys join those that are there |
| MemoryLfuda.TakenOverIff | src/algo/algo_lfuda.cpp:8-13 | init takes an entry over if and only if no equivalent one was there before or stands behind it in the vector |
| MemoryLfuda.Lfuda.Backup | src/algo/algo_lfuda.cpp:17-26 | hands out every entry in increasing order and leaves the object empty |
| MemoryLfuda.Lfuda.RemoveCache | src/algo/algo_lfuda.cpp:91-104 | erases least entries exactly while the limit is exceeded and something is left, keeps map, set and size in agreement, and reports the entries |
| MemoryLfuda.Lfuda.Put | src/algo/algo_lfuda.cpp:28-55 | errors, rejected duplicates, insertion above the aging level, growth, and exactly when growth meets an erased iterator; afterwards the entries fit or a single oversized one is held |
| MemoryLfuda.Lfuda.UpdateSize | src/algo/algo_lfuda.cpp:106-116 | evicts for the growth and rewrites the entry if it survived, which it does unless it and everything not less leave too little room |
| MemoryLfuda.Lfuda.Update | src/algo/algo_lfuda.cpp:71-83 | rewrites a size that differs, reports an absent key, and says exactly when the entry is erased |
| MemoryLfuda.Lfuda.Renew | src/algo/algo_lfuda.cpp:57-69 | counts the access and recomputes eff; map and set still hold the same entries |
| MemoryLfuda.Lfuda.Resize | src/algo/algo_lfuda.cpp:85-89 | sets the limit and erases least entries down to it |
| MemoryLfuda.Restart | src/algo/algo_lfuda.cpp:8-26 | init of a fresh object with what backup returned restores set, map, size and aging |
| MemoryLfuda.LeastFirst | src/algo/algo_lfuda.cpp:93-100 | entries leave in strictly increasing order, below every entry that stays, and the last one had to go |
| MemoryLfuda.EvictionTold | src/algo/algo_lfuda.cpp:91-104 | eviction takes exactly the entries it reports, each while there was too little room, leaves the others as they are, and lowers the size by their bytes |
| MemoryLfuda.EvictionKeepsLevel | src/algo/algo_lfuda.cpp:93-96 | eviction never lowers the aging level, and keeps every eff between it and it plus freq; every method keeps both |
| MemoryLfuda.GrowthErasesTargetIff | src/algo/algo_lfuda.cpp:106-114 | growing an entry erases it, and so runs into an erased iterator, if and only if it and everything not less leave too little room |
| MemoryLfuda.GrowthMeetsErasedIterator | src/algo/algo_lfuda.cpp:49-52 | a concrete run from a fresh object that reaches the erased iterator |
| MemoryLfuda.RepeatedKeyBreaksInit | src/algo/algo_lfuda.cpp:8-15 | a concrete vector after which the set holds two entries and the map one |
| MemoryLru.AgreePushed | src/algo/algo_lru.cpp:43-44 | pushing a node for a new key keeps the map a bijection onto the nodes and the list in order of last touch |
| MemoryLru.AgreePopped | src/algo/algo_lru.cpp:109-114 | so does erasing the oldest node |
| MemoryLru.AgreeSpliced | src/algo/algo_lru.cpp:77-79 | so does splicing a node to the front, with the map unchanged |
| MemoryLru.StaysIffFits | src/algo/algo_lru.cpp:106-115 | eviction leaves the longest prefix that fits |
| MemoryLru.Lru.Init | src/algo/algo_lru.cpp:8-19 | puts new nodes for the vector, in its order, in front of the nodes that are there, with the map leading to the newest node of each key; map and list are in bijection if and only if no key is repeated or already there |
| MemoryLru.Lru.PushFront | src/algo/algo_lru.cpp:10-12 | a new node in front of the nodes that are there, found by the map and counted |
| MemoryLru.Lru.Backup | src/algo/algo_lru.cpp:21-30 | hands out the entries newest first and leaves the object empty |
| MemoryLru.Lru.RemoveCache | src/algo/algo_lru.cpp:106-119 | drops and reports nodes from the old end until the request fits or nothing is left |
| MemoryLru.Lru.Put | src/algo/algo_lru.cpp:32-59 | errors, rejected duplicates, insertion of a new node in front of the nodes that stay, growth in place, and exactly when growth meets an erased iterator |
| MemoryLru.Lru.PutNew | src/algo/algo_lru.cpp:40-46 | evicts for the new entry and pushes a new node in front of the nodes that stay; afterwards the entry fits or is alone |
| MemoryLru.Lru.UpdateSize | src/algo/algo_lru.cpp:121-126 | evicts for the growth and rewrites the size of the same node in its place if it survived, which it does unless it and the newer entries leave too little room |
| MemoryLru.Lru.Renew | src/algo/algo_lru.cpp:75-85 | splices the very same node to the front, leaves the map alone, and reports an absent key |
| MemoryLru.Lru.Resize | src/algo/algo_lru.cpp:100-104 | sets the limit and drops the suffix that no longer fits |
| MemoryLru.Restart | src/algo/algo_lru.cpp:8-30 | init of a fresh object with what backup returned rebuilds the same entries in the same order |
| MemoryLru.GrowthTold | src/algo/algo_lru.cpp:121-126 | growing an entry drops exactly the oldest entries that do not fit with the growth and the newer ones, and changes one size in its place; it meets an erased iterator if and only if the entry is among those dropped |
| MemoryLru.ReversedAt | src/algo/algo_lru.cpp:108-118 | a report lists the dropped entries oldest first |
| RemoveCallback.OneReport | src/algo/algo_lru.cpp:107-118 | a call adds its victims in order to what was reported before, in one vector, never an empty one |
| MemoryLru.GrowthErasesTargetIff | src/algo/algo_lru.cpp:121-126 | growing an entry cuts the list back to it if and only if it and the newer entries leave too little room |
| MemoryLru.GrowthMeetsErasedIterator | src/algo/algo_lru.cpp:52-55 | a concrete run from a fresh object that reaches the erased iterator |
| MemoryLru.RepeatedKeyBreaksInit | src/algo/algo_lru.cpp:8-19 | a concrete vector after which the list holds two nodes and the map one |

## Left out

- MemoryLru.Lru.Put: with MemoryLfuda.Lfuda.Put and both UpdateSize methods, it stops where the code would use an erased iterator, since what happens then is undefined.
- RedisCodec.Deserialize: a failed call leaves no fields; in the source the references before the failing one have already been assigned.
- `LRU::update` of the in-memory class (`src/algo/algo_lru.cpp:87-98`): its test is inverted, so it dereferences the end iterator for an absent key and ignores a present one.
- Wrap-around in the in-memory classes: their `size_t` sums and `uint64_t` counters are unbounded numbers here.
- SQLite itself and `src/sqlite/sqlite_base.*`: a table is a map from keys to rows, with the statements' effects as contracts; transactions, I/O errors and the columns `hash` and `download_time` are not modelled.
- `query_lfuda_all`, `display`, the query-count and delete-single statements: no engine operation depends on them.
- `src/algo/algo_lru_redis.*` and `src/db_adapter/db_redis_lru.h`: a copy of the SQLite engine over an unfinished adapter.
- Any claim that the in-memory and SQLite classes behave alike: a duplicate `put` renews only in the SQLite classes, and their tie-breaks differ.
- The purger's HTTP requests and path strings: a request ends in success or failure, whichever; a task is the number of its `add`. Creating the threads, the polling of `running_worker` and the unsynchronized early test in `stop` are not steps.
- In the purger, reporting a task after a queue overflow happens with the lock held; reporting is part of the step that takes the lock, and what the callback does is not modelled.
- `run`, `force_stop`, the destructor and several concurrent `stop` calls of the deleter; what a handler deletes and reports.
- Redis networking, subscriptions, the receiver, logger, configuration and JSON parsing: thin layers over libraries.
