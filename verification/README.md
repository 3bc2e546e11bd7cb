# VaeDB: a Dafny model of its query core

VaeDB serves queries over an in-memory XML tree. This project models the parts of it that are
algorithms or protocols rather than glue, and proves what they promise.

| file | what it models |
|---|---|
| `NaturalTokens.dfy`, `NaturalCompare.dfy` | natural-order comparison: tokenising, fusing decimals, comparing with an epsilon |
| `SortOrder.dfy`, `Sorting.dfy` | the multi-key comparator, and what sorting with it means |
| `Floats.dfy` | rounding to binary32, as far as a ceiling depends on it |
| `Paging.dfy`, `Filtering.dfy`, `Responses.dfy` | the result pipeline: filter, unique, sort, skip, page, group |
| `LruSpec.dfy`, `LruCaches.dfy`, `QueryCaches.dfy` | the LRU cache, and its use as a query cache by interleaved threads |
| `Strings.dfy`, `Permalinks.dfy` | splitting and joining, and digits; where a query starts |
| `Rewriting.dfy`, `QueryText.dfy` | the rewrite loops, on one part and on a whole query |
| `QueryGuards.dfy` | the guard on the first step, and the normal form |
| `ConnectionPools.dfy` | the MySQL and memcached connection pools |
| `SiteRegistries.dfy` | loading, sharing and reloading of sites |
| `SitewideLocks.dfy` | the table-backed lock with stale-lock expiry |
| `LongTermCaches.dfy` | the two-level long-term cache |
| `NodeIndexes.dfy`, `NodeSearches.dfy` | the tree pass with its pruning and its indexes |

Code that updates state is modelled by classes and loops, each proved against a function or a
predicate; the results are lemmas about those. Concurrent code is modelled as a step relation over
its critical sections, with an invariant for every reachable state. Foreign calls are parameters:
evaluating a query is a function of its key, std::sort and the shuffle are permutations, the clock and
the random numbers are arguments.

## Where the code and expectations part

- The epsilon of the comparison is harmless up to ten fractional digits per decimal and breaks
  transitivity from eleven on (`PreorderExactlyUpToTen`).
- The id branch of the sort callback does not go on when two ids are equal, so a list whose first id
  field is descending is not a strict weak order on any non-empty set of contexts
  (`StrictWeakOrderExactly`), and std::sort is formally undefined. As long as it never compares an
  element with itself, there is a sorted permutation exactly on lists without such ties
  (`SortExistsExactly`).
- `fetch_ptr` takes a flag that is documented to control touching and ignores it. This shows exactly
  when the flag is off and the entry is there but not the most recent one (`FetchPtrFlagExactly`,
  `FetchPtrMoves`).
- The query cache fetches without touching, so it is first in, first out (`HoldsLastMisses`).
- In the last two rewrite patterns the character before a name must not be '@', but the pattern can
  also take the start of an attribute name for that character. An attribute name is left alone exactly
  when no character but its first and its last is a letter or an underscore (`AtGuardExactly`):
  `@a12]` is, `@abc]` is not (`AtGuardFails`).
- The guard on the first step can make a rewritten query match a pattern again, exactly when it goes
  behind an operand of a boolean operator (`GuardKeepsNormalFormExactly`, `OperandExample`).
- Group sizes and page "last" are computed from the number of results before filtering. The groups
  still tile the matches (`GroupPagesTile`) and never grow, but they are balanced only in the cases of
  `GroupPagesBalancedExactly`, and page "last" can be empty (`LastPageExactly`, `LastPageEmpty`).
- The joined uniqueness key merges different tuples when a value other than the last hides a separator
  (`UnambiguousExactly`, `JoinedKeyMerges`).
- A get of the long-term cache that a set, delete or emptying overtakes can write back an old value,
  and so breaks coherence exactly when that value is not empty and MySQL holds another one by then
  (`WriteBackExactly`, `LateWriteBackBreaks`).
- A reload does not stop a load that is under way: what that load installs is stale exactly when the
  reload comes between its reading and its install (`HitStaleExactly`, `StaleHit`).
- Emptying the long-term cache leaves memcached alone, and so breaks coherence exactly when memcached
  still holds a value of that site (`EmptyingExactly`, `CoherentRunsExactly`, `EmptyingBreaks`).

## Model

| member | source | states |
|---|---|---|
| `NaturalTokens.TokenEnd` | util.cpp:31-35 | the end of the maximal run of digits or non-digits from a position |
| `NaturalTokens.TokenizeString` | util.cpp:37-50 | the pushed tokens spell the string, alternate between text and digits, end in an empty token and have no other empty one but possibly the first; terminates although the first token may be empty |
| `NaturalTokens.TokensAreTokenization` | util.cpp:37-50 | the recursive token list meets that declarative description |
| `NaturalTokens.TokenizationUnique` | util.cpp:37-50 | only one list meets it, so the description determines the tokens |
| `NaturalTokens.MergeFloats` | util.cpp:52-71 | the two loops over the tokens compute the fused list |
| `NaturalTokens.MergeKeepsSpelling` | util.cpp:61-65 | fusing keeps the concatenation |
| `NaturalTokens.FusedIsDecimal` | util.cpp:61-63 | a fusion only happens at a number position, makes a `digits.digits` token and never swallows the last token |
| `NaturalTokens.MergeKeepsShape` | util.cpp:52-71 | fusing keeps the parity of positions: text at even, numerals at odd ones, an empty token at the end |
| `NaturalTokens.PiecesShape` | util.cpp:52-71 | shape and spelling of the fused list of a whole string; it has one token exactly for the empty string |
| `NaturalCompare.NumeralCasts` | util.cpp:102-107 | every non-empty token at a number position can be cast, so the catch branch is dead |
| `NaturalCompare.ScaledValue` | util.cpp:103-104 | with at most ten fractional digits the cast value is a multiple of 10^-10 |
| `NaturalCompare.EpsilonIsEquality` | util.cpp:105 | then the epsilon test is equality of values |
| `NaturalCompare.StrCompareNat` | util.cpp:73-117 | words compare as in a dictionary, numbers by value, and the empty string comes first; in general the loop with its parity flag computes the lexicographic comparison of fused tokens |
| `NaturalCompare.NumberedWordsCompare` | util.cpp:73-117 | a word with a number behind it compares by the word, and then by the number |
| `NaturalCompare.DecimalsCompare` | util.cpp:102-107 | decimals with the same number of fractional digits, at most ten, compare by their digits |
| `NaturalCompare.DigitsOrder` | util.cpp:103-104 | the values of equally many digits compare as the digits do, from the left |
| `NaturalCompare.CompareAntisymmetric` | util.cpp:73-117 | swapping the arguments flips the sign, for all strings |
| `NaturalCompare.CompareChains` | util.cpp:73-117 | transitivity: up to ten fractional digits, two non-descents make a non-descent, and a tie only if both are ties |
| `NaturalCompare.ElevenDigitsBreakTransitivity` | util.cpp:105 | 0, 6e-11 and 12e-11 written with eleven digits tie pairwise except for the outer two |
| `NaturalCompare.PreorderExactlyUpToTen` | util.cpp:105 | the comparison is a transitive preorder on strings with up to n fractional digits if and only if n is at most ten |
| `NaturalCompare.TieIsSameKey` | util.cpp:86-116 | two strings tie if and only if they spell the same words and the same numbers |
| `NaturalCompare.LengthTestOnlyForEmpty` | util.cpp:115-116 | the final length test decides only between the empty string and a string that starts with a digit |
| `SortOrder.SortCallback` | response.cpp:293-316 | the first field in which two contexts differ decides, by id, by count, by a word in a dictionary or by a number: an ascending field puts the smaller one first, a descending one the other; the loop computes the recursive comparator |
| `SortOrder.CallbackMeaning` | response.cpp:293-316 | the comparator is the lexicographic rank, or true on a DESC(id) tie |
| `SortOrder.RankOpposite` | response.cpp:293-316 | swapping two contexts flips the rank, and a DESC(id) tie is symmetric |
| `SortOrder.RankChains` | response.cpp:293-316 | the multi-key rank is transitive with transitive ties |
| `SortOrder.StrictWeakOrderExactly` | response.cpp:293-316 | on any non-empty set of contexts the comparator is a strict weak order if and only if the first id field is not descending |
| `Sorting.SortExistsExactly` | response.cpp:275-277 | a sorted permutation exists if and only if no two positions tie on a DESC(id) |
| `Sorting.SortUniqueUpToTies` | response.cpp:275-277 | any two sorted permutations agree position by position up to ties |
| `Sorting.SortedIsRanked` | response.cpp:275-277 | a permutation is sorted if and only if it is ranked and free of DESC(id) ties |
| `Sorting.SortedByFirstField` | response.cpp:275-277 | in a sorted list no later context is smaller in the first field, or larger if that field descends |
| `Paging.FloatCeilIsExact` | response.cpp:215 | converting both operands to the nearest binary32 numbers and rounding the quotient does not change its ceiling, for a remainder of less than 2^24 in either direction and any positive int as divisor |
| `Paging.ComputeWindow` | response.cpp:205-231 | a page number of zero or less shows the first page, page n starts n - 1 pages behind what is skipped, page "last" is the rounded-up number of pages, and groups follow the grouping loop; all with the clamps at zero and one |
| `Paging.GroupStepBounds` | response.cpp:213-216 | invariant of the grouping loop: each group takes the ceiling of the average of what is left, and the last one takes the rest |
| `Paging.GroupPagesTile` | response.cpp:209-243 | pages 1..g concatenate to exactly the items from skip on, also when filtering shortens the list and when g exceeds the number of items |
| `Paging.GroupPagesNeverGrow` | response.cpp:209-243 | with or without filtering, a later group is never larger than an earlier one |
| `Paging.GroupPagesBalancedExactly` | response.cpp:209-243 | group sizes differ by at most one if and only if nothing is filtered out, or at most one match, one result per group or one group is left to balance, or one result is filtered out of groups of equal size |
| `Paging.FilteredGroupsUnbalanced` | response.cpp:209-243 | three matches among six results make groups of three and none |
| `Paging.PlainPagesTile` | response.cpp:218-243 | plain pages 1..ceil concatenate to exactly the items from skip on |
| `Paging.PlainPagesInRange` | response.cpp:218-243 | a page is non-empty if and only if its number is at most the number of pages of matches, with or without filtering |
| `Paging.LastPageExactly` | response.cpp:218-220 | page "last" is non-empty if and only if filtering leaves the number of pages as it was, and then it is the final page in range |
| `Paging.LastPageEmpty` | response.cpp:218-220 | one match among two results, on pages of one: page "last" is empty |
| `Filtering.MissingCompose` | response.cpp:183-197 | erasing found terms text by text is erasing them at once, whatever the order |
| `Filtering.JoinInjective` | response.cpp:318-323 | the joined key determines the field values when no value but the last hides a separator; with one field it always does |
| `Filtering.TildeFreeIsUnambiguous` | response.cpp:318-323 | in particular when no value contains a tilde |
| `Filtering.UnambiguousExactly` | response.cpp:318-323 | for any number of fields, no tuple has the same key and, where it first differs, a shorter value, if and only if no value but the last hides a separator |
| `Filtering.AmbiguousCollides` | response.cpp:318-323 | every other value collides: its tuple has the key of one with a shorter value at that field |
| `Filtering.Criteria.KeepsFirstOfTuple` | response.cpp:251 | when no value but the last hides a separator, a node is kept if and only if it is the first passing node with its tuple of field values |
| `Filtering.JoinedKeyMerges` | response.cpp:318-329 | of two nodes with the values `a~!~b`, `c` and `a`, `b~!~c` the second is dropped although its tuple is new |
| `Filtering.Criteria.MatchedAtMost` | response.cpp:249-263 | the matches are result nodes, no more than there are, and all of them when nothing is filtered |
| `Responses.Response.FilterMatch` | response.cpp:177-181 | true if and only if every term is, in any case of its letters, in a text node of the node or directly below one of its elements |
| `Responses.Response.FilterMatchRecursive` | response.cpp:183-197 | leaves exactly the terms that occur in no text node down to the depth limit |
| `Responses.Response.EraseFound` | response.cpp:188-195 | the erasing loop leaves exactly the terms that the text does not contain |
| `Responses.Response.UniqueMatch` | response.cpp:318-329 | true if and only if the key is new, and records it |
| `Responses.Response.Accepts` | response.cpp:251 | filter first, then uniqueness among the nodes that passed |
| `Responses.Response.Collect` | response.cpp:244-263 | the streaming loop counts all matches and keeps exactly the window over them |
| `Responses.Response.CollectPlain` | response.cpp:264-270 | the plain loop keeps the contexts of the window |
| `Responses.Response.Arrange` | response.cpp:271-277 | nothing, the positions counted from the end, some permutation, or a sorted permutation |
| `Responses.Response.RandomShuffle` | response.cpp:273-274 | some permutation, for any random numbers |
| `Responses.Response.Cut` | response.cpp:278-289 | erase and resize are drop and take |
| `Responses.Response.Query` | response.cpp:199-291 | appends one answer: total is the number of matches, and the contexts are the window over them in order, for every sort type, filter and unique setting; unsorted or reversed, entry i is the match at skip + i, counted from the end when reversed |
| `Responses.AnswersArePages` | response.cpp:226-291 | when all result nodes have contexts, the early-window path and the sort-erase-resize path both answer take(paginate, drop(skip, order(matched))) |
| `Responses.GroupedAnswersTile` | response.cpp:199-291 | unsorted or reversed, entry i of the concatenated answers for groups 1..g is the match at skip + i, counted from the end when reversed, up to the last one, filtered or not |
| `Responses.GroupedAnswersBalance` | response.cpp:199-291 | the sizes of these answers never grow, and differ by at most one under exactly that condition |
| `Responses.PlainAnswersTile` | response.cpp:199-291 | the same for plain pages |
| `LruSpec.InsertEvictsShortestSuffix` | lru_cache.h:214-236 | insertion evicts exactly the shortest least recent suffix that brings the size to at most the maximum, even for an entry larger than the cache |
| `LruSpec.RunIsRecent` | lru_cache.h:147-260 | after any run the list has no duplicate keys, is ordered by last insertion or touching use, and holds the data last inserted for each key and not taken out since |
| `LruSpec.RunFits` | lru_cache.h:147-236 | after any run the entries fit the maximum size |
| `LruSpec.TotalWithout` | lru_cache.h:266-270 | removing an entry takes exactly its size off the total, so the counter cannot underflow |
| `LruSpec.TouchChangesNothing` | lru_cache.h:254-260 | a touch leaves the list as it is if and only if the key is missing or in front |
| `LruSpec.FetchPtrFlagExactly` | lru_cache.h:164-191 | fetch_ptr does what its flag says, like fetch, if and only if the flag is set, the key is missing, or its entry is in front |
| `LruSpec.FetchPtrMoves` | lru_cache.h:164-175 | without its flag, fetch_ptr on the older of two entries still moves it to the front |
| `LruCaches.LruCache.Lookup` | lru_cache.h:127-142 | the index answers every lookup as a search of the list would |
| `LruCaches.LruCache.Clear` | lru_cache.h:124-129 | empties list, index and counter |
| `LruCaches.LruCache.Exists` | lru_cache.h:136-142 | true if and only if the key is listed |
| `LruCaches.LruCache.Remove` | lru_cache.h:147-154 | takes out the entry with the key and no other, and keeps list, index and counter in agreement |
| `LruCaches.LruCache.Touch` | lru_cache.h:159-162 | moves the entry to the front, or does nothing |
| `LruCaches.LruCache.TouchKey` | lru_cache.h:254-260 | the splice keeps the entry that the index points at and the total size |
| `LruCaches.LruCache.RemoveEntry` | lru_cache.h:266-270 | unlinks one list node, its index entry and its size |
| `LruCaches.LruCache.FetchPtr` | lru_cache.h:169-175 | finds the data and touches whatever the flag says |
| `LruCaches.LruCache.Fetch` | lru_cache.h:182-191 | finds the data and touches only on request |
| `LruCaches.LruCache.Insert` | lru_cache.h:214-236 | replaces the entry, puts it first and evicts from the end until it fits, which leaves nothing if it does not fit by itself; terminates |
| `LruCaches.LruCache.GetAllKeys` | lru_cache.h:241-248 | the keys, most recent first |
| `QueryCaches.QuerySite.FetchQuery` | site.cpp:153-160 | returns what evaluating the key gives, from the cache or afresh; a miss puts it in front, a hit or an error changes nothing |
| `QueryCaches.HoldsLastMisses` | site.cpp:153-160 | sequentially the cache holds exactly the last min(max, n) of its n misses, newest first, however often older ones were hit |
| `QueryCaches.InvStep` | site.cpp:153-160 | every fetch, evaluation and insertion of any thread keeps the invariant |
| `QueryCaches.InterleavedFetchesAreFresh` | site.cpp:153-160 | in every interleaving every call returns what evaluating its key gives, and at most 384 entries are cached |
| `Strings.JoinSplit` | query.cpp:28-36 | joining the parts of a split text gives the text back |
| `Strings.SplitJoin` | query.cpp:28-36 | splitting a joined list of separator-free parts gives the list back |
| `Permalinks.ResolvePermalink` | query.cpp:26-48 | the loop over shrinking prefixes computes the resolution |
| `Permalinks.ResolutionIsLongest` | query.cpp:26-48 | no result if and only if no non-empty list of leading parts is a permalink; the whole path wins; else the longest prefix does, and it rejoins with the rest to the path |
| `Permalinks.LocateById` | query.cpp:50-63 | however the id pattern matches the query, it starts at the node with that id, or has no result if there is none, and goes on in the context of that node; if the pattern does not match, context and query are left alone |
| `Permalinks.LocateStart` | query.cpp:21-63 | a leading slash drops the context of the caller; then a permalink path answers with its node or goes on below its longest permalink, an id starts at its node, and any other query stays where it is |
| `Permalinks.PermalinkRestartsBelow` | query.cpp:26-63 | a permalink answers with its node, and what follows it is looked up from that node, independently of the context of the caller |
| `Rewriting.AtGuardExactly` | query.cpp:86-87 | the last two patterns spare a name after an '@' if and only if no character but its first and its last is a letter or an underscore |
| `Rewriting.AtGuardFails` | query.cpp:86-87 | `@ab` and `@a12` are spared, `@abc` is not |
| `Rewriting.MunchIsExact` | query.cpp:84-87 | greedy matching decides each pattern: giving back characters cannot make it match |
| `Rewriting.ReplaceFirst` | query.cpp:84-87 | finds the leftmost place where the pattern, part by part as written, matches, and puts `/text()` behind its name; a strictly smaller number of live places |
| `Rewriting.RewriteLoop` | query.cpp:84-87 | the while loop terminates and computes the rewriting |
| `Rewriting.CountAfter` | query.cpp:84-87 | an insertion takes its place off the count of live places and adds none |
| `Rewriting.RewriteSettles` | query.cpp:84-87 | each loop leaves no match of its own pattern and makes no other pattern match again |
| `Rewriting.RewriteLength` | query.cpp:84-87 | the loops for brackets, and for names before an operator or a closing bracket, insert exactly once at every place that matched in the beginning; the loop for names after an operator does at most that |
| `Rewriting.OperatorLengthExactly` | query.cpp:85 | that loop inserts at all of these places if and only if no two of its matches overlap |
| `Rewriting.RewriteOnlyInserts` | query.cpp:84-87 | a loop changes nothing but the `/text()` it inserts |
| `Rewriting.RewriteIds` | query.cpp:83 | turns every whole number behind a slash into `[@id='...']` and leaves the rest alone; replacing the leftmost step until there is none is a single left-to-right pass, and leaves none |
| `Rewriting.StepsExist` | query.cpp:83 | every text can be read as texts without numeric steps between whole numbers behind slashes, so that this says what every text becomes |
| `QueryText.NormalizePart` | query.cpp:83-87 | the five loops in the order of the source |
| `QueryText.NormalizeReachesNormalForm` | query.cpp:83-87 | after all five loops none of the five patterns matches any more |
| `QueryText.NormalFormIsFixed` | query.cpp:83-87 | a part in normal form is left alone |
| `QueryText.NormalizeOnlyInserts` | query.cpp:83-87 | apart from `/text()`, a part only has its whole numbers behind slashes turned into selectors |
| `QueryText.QuotesNormalize` | query.cpp:83 | rewriting adds quotes only in pairs |
| `QueryText.RewriteQuery` | query.cpp:79-92 | an error if and only if some rewritten part outside quotes has two slashes in a row; else the quoted parts as they were between the rewritten ones |
| `QueryText.RewriteQueryIdempotent` | query.cpp:79-92 | rewriting a rewritten query succeeds and changes nothing |
| `QueryText.QuotedPartsSurvive` | query.cpp:79-92 | every quoted part is again a quoted part of the rewritten query, unchanged |
| `QueryGuards.AddGuard` | query.cpp:94-102 | inserts the guard before the first slash exactly when the query has a slash, no bracket, and no dot in its first step |
| `QueryGuards.GuardKeepsNormalFormExactly` | query.cpp:79-102 | a query that rewriting leaves alone is still left alone with its guard, if and only if the guard does not go, outside quotes, behind a boolean operator and a name |
| `QueryGuards.RewriteThenGuard` | query.cpp:79-102 | so for every query that is rewritten and then guarded |
| `QueryGuards.OperandExample` | query.cpp:79-102 | rewriting leaves `x or ab/c` alone, but not when it has been guarded |
| `ConnectionPools.ConnectionPool.TakeFree` | mysql_proxy.cpp:64-71 | takes the first free entry and counts it off; None stands for the throw |
| `ConnectionPools.ConnectionPool.FreeConnection` | mysql_proxy.cpp:74-81 | frees every entry of the connection and counts them |
| `ConnectionPools.EnterInv` | mysql_proxy.cpp:59-72 | entering or resuming getConnection keeps the pool invariant |
| `ConnectionPools.ReleaseInv` | mysql_proxy.cpp:74-83 | freeing a handle and notifying one waiter keeps it |
| `ConnectionPools.PoolSafe` | mysql_proxy.cpp:59-83 | in every interleaving the counter is the number of free entries, no connection has two live handles, the throw is unreachable, and no wakeup is lost |
| `ConnectionPools.NeverStuck` | memcache_proxy.cpp:32-56 | if a thread waits while a connection is free, some notified thread can run and gets one |
| `SiteRegistries.RunInv` | server.cpp:150-209 | both mutexes have one owner, a site being loaded is absent from the map, and the map is what the log of accesses says, in every reachable state |
| `SiteRegistries.LoadsNeverOverlap` | server.cpp:150-185 | no two threads load the same key at once |
| `SiteRegistries.NoDeadlock` | server.cpp:150-209 | the wait graph of the mutexes has no cycle |
| `SiteRegistries.SameSiteUntilReload` | server.cpp:150-209 | two accesses to a key with no reload of it in between see the same site object, and the later one is a hit |
| `SiteRegistries.HitStaleExactly` | server.cpp:150-209 | a hit is on a site installed and not reloaded since; a reload came after its data was read if and only if one came between the reading and the install |
| `SiteRegistries.StaleHit` | server.cpp:150-209 | a reachable run in which a reload overtakes a load and the next access hits the old data |
| `SiteRegistries.AsksUnderKey` | server.cpp:150-152 | a request asks under the subdomain, with `.staging` appended in staging mode |
| `SiteRegistries.ReloadDrops` | server.cpp:197-209 | a reload drops the site with and without `.staging`, or all sites for `all`, and no others |
| `SiteRegistries.HitAfterReload` | server.cpp:150-209 | what is hit after a reload has been installed after it |
| `SitewideLocks.LockTable.Insert` | mysql_proxy.cpp:244-252 | one more event of the protocol; succeeds if and only if there is no row for the key, adds that row and no other, and then every acquisition of the key that was not given back is more than a minute old |
| `SitewideLocks.LockTable.DeleteStale` | mysql_proxy.cpp:253-260 | one more event; leaves exactly the rows that are at most a minute old, unchanged |
| `SitewideLocks.LockTable.Lock` | mysql_proxy.cpp:244-263 | extends the run by an acquisition, or by a refusal and a sweep; a key is got only if every acquisition of it that was not given back is more than a minute old, and a refused attempt leaves only fresh rows |
| `SitewideLocks.LockTable.Unlock` | mysql_proxy.cpp:265-277 | extends the run by an unlock, after which the key is free, and changes no other row |
| `SitewideLocks.RowStays` | mysql_proxy.cpp:244-277 | the row of an acquisition stays until an unlock or a sweep more than a minute later |
| `SitewideLocks.SecondAcquisitionNeedsLateSweep` | mysql_proxy.cpp:244-277 | two acquisitions without an unlock are separated by such a sweep, run by a client whose last attempt was refused |
| `SitewideLocks.ExclusiveForAMinute` | mysql_proxy.cpp:244-277 | so a key is not given out twice within a minute |
| `SitewideLocks.LateSweepFrees` | mysql_proxy.cpp:255-257 | a sweep more than a minute after an acquisition leaves the key free |
| `LongTermCaches.LongTermKeyInjective` | server.cpp:215-217 | long-term keys of colon-free subdomains never collide |
| `LongTermCaches.KeysAliasExactly` | server.cpp:215-221 | a short-term key collides with a long-term key if and only if its subdomain is the other with "LongTerm2" appended |
| `LongTermCaches.KeysSpelled` | server.cpp:215-221 | the two kinds of keys, character by character |
| `LongTermCaches.LockKeyInjective` | server.cpp:407-419 | two sites never contend for the same lock row |
| `LongTermCaches.CacheServer.LongTermCacheGet` | server.cpp:363-377 | answers from memcached if that holds something, else from MySQL, and then writes memcached; after any run with emptyings and write-backs in time, and always when it bypasses memcached, the answer is what was last set and neither deleted nor emptied, unless subdomains in use clash |
| `LongTermCaches.CacheServer.LongTermWriteBack` | server.cpp:374-376 | the end of a get that other requests overtook writes memcached only |
| `LongTermCaches.CacheServer.LongTermCacheSet` | server.cpp:379-388 | writes the value to its row and to its key in memcached, and nothing else |
| `LongTermCaches.CacheServer.LongTermCacheDelete` | server.cpp:390-396 | afterwards the row and the key in memcached are gone, and no other row or key has changed |
| `LongTermCaches.CacheServer.LongTermCacheEmpty` | server.cpp:398-401 | deletes all rows of the subdomain from MySQL and leaves memcached alone |
| `LongTermCaches.CacheServer.ShortTermCacheGet` | server.cpp:318-323 | after any run of operations and evictions, answers what was last set and not deleted under the key, or nothing, and without evictions exactly that, unless subdomains in use clash |
| `LongTermCaches.CacheServer.ShortTermCacheSet` | server.cpp:325-333 | writes the value under the short-term key, and nothing else |
| `LongTermCaches.CacheServer.ShortTermCacheDelete` | server.cpp:335-340 | deletes the short-term key from memcached, and nothing else |
| `LongTermCaches.CoherentExactly` | server.cpp:318-401 | over all runs with arbitrary evictions, and emptyings and write-backs in time, a read through memcached equals a direct read, if and only if no subdomain in use is another with "LongTerm2" appended |
| `LongTermCaches.CoherentRunsExactly` | server.cpp:318-401 | without such subdomains, a run with gets that other requests overtake is coherent after every operation if and only if every emptying finds no long-term value of its subdomain in memcached, and every value written back is nothing or still what MySQL holds |
| `LongTermCaches.EmptyingExactly` | server.cpp:398-401 | emptying keeps coherent stores coherent if and only if memcached holds no long-term value of the subdomain |
| `LongTermCaches.WriteBackExactly` | server.cpp:363-377 | the write-back of a get keeps coherent stores coherent if and only if its value is nothing or still what MySQL holds |
| `LongTermCaches.LateWriteBackBreaks` | server.cpp:363-388 | a get that reads the old value and writes it back after a set leaves the old value to be read |
| `LongTermCaches.RememberedExactly` | server.cpp:318-401 | over all runs with arbitrary evictions, a short-term read answers what was last set and not deleted, or nothing, if and only if no subdomain in use is another with "LongTerm2" appended |
| `LongTermCaches.RunRecalls` | server.cpp:318-340 | without evictions and clashes, a short-term read answers exactly what was last set and not deleted |
| `LongTermCaches.DirectIsLast` | mysql_proxy.cpp:97-168 | after every run MySQL answers what was last set and neither deleted nor emptied |
| `LongTermCaches.ClashBreaks` | server.cpp:325-377 | the failing run otherwise |
| `LongTermCaches.EmptyingBreaks` | server.cpp:398-401 | emptying leaves memcached alone, so the old value is still read |
| `NodeIndexes.PopulateAttrs` | context.cpp:152-167 | killed if and only if there is a staging attribute outside staging mode; else id, type and permalink are those of the last attribute of that name, or zero and none |
| `NodeIndexes.AtoiMeaning` | context.cpp:152-167 | white space, a sign and digits spell a number, whatever follows |
| `NodeIndexes.AssociationsEnd` | context.cpp:26-31 | a node of an association type is entered and recorded, and what is below it is left alone |
| `NodeIndexes.SiteIndex.BuildContext` | context.cpp:17-52 | enters exactly the stated visits in post-order and returns the pruned node |
| `NodeIndexes.SiteIndex.BuildChildren` | context.cpp:31-46 | the unlinking loop over the children |
| `NodeIndexes.SiteIndex.LoadXmlDoc` | site.cpp:96-109 | the pass from the root; in staging mode the document stays as it is, else no node with a staging attribute is left down to the items of associations |
| `NodeSearches.Find` | query.cpp:113-119 | on a loaded site, answers the last node in post-order with the id among those that the pass reaches, or nothing if none has it |
| `NodeSearches.VisitsAreSearch` | context.cpp:17-52 | the pass enters exactly the nodes on no staging path and below no association item, in post-order |
| `NodeSearches.IdIndexIsSearch` | context.cpp:51 | the id map has an id if and only if such a node has it, and then it has the last one in post-order |
| `NodeSearches.PermalinkIndexIsSearch` | context.cpp:48-50 | so does the permalink map |
| `NodeSearches.PruneKeepsSurvivors` | context.cpp:31-46 | unlinking while walking keeps exactly the survivors, in their order |
| `NodeSearches.PruneKeepsBelow` | context.cpp:17-46 | and so it does below every node but the items of associations |
| `NodeSearches.ForestLabels` | context.cpp:17-52 | a pass over the pruned tree enters the same ids and permalinks again, in the same order |

## Left out

- XPath evaluation and libxml2 memory handling: a foreign library; a query is evaluated by an uninterpreted function of its key.
- Association splicing and teardown: it aliases nodes into cyclic graphs, so the node index is stated before that step.
- `prev()` and `next()`: a constant query text is substituted.
- Errors raised while data is fetched for sorting or uniqueness, such as an empty field name: fetching is total here.
- Machine integers: mathematical integers throughout, so overflow of page numbers, sizes and `atoi` is not modelled.
- Doubles: numerals are exact decimals and the epsilon is exactly 10^-10.
- `Paging.FloatCeilIsExact`: covers remainders of less than 2^24; beyond that the source rounds the remainder itself.
- `Paging.ComputeWindow`: excludes the inputs that divide by zero, a page number above a positive number of groups and page "last" with a page size of zero.
- `Responses.Response.Query`: takes the result nodes of the fetched query as an argument, and asks for a context on every node that the uniqueness test reads, as the source dereferences it.
- `Responses.Response.Arrange`: when the comparator cannot rank the contexts, std::sort is undefined and only a permutation is promised; std::sort is taken never to compare an element with itself.
- `Responses.Response.RandomShuffle`: says nothing about the distribution of the result.
- Bytes and locales: strings are sequences of characters, and case is folded for ASCII letters only.
- Parsing of response options and of sort terms.
- Handles of the connection pools that are copied: a handle counts as live until its last copy goes.
- Requests that overtake a set or a delete of the long-term cache between its two writes: these handlers are atomic here.
- MySQL details: column widths, collation of keys, and backend errors.
- Expiry in the long-term cache: renewal changes only the expiry date, and the sweeper, like emptying, does not touch memcached.
- Sessions, the reaper, HTTP, JSON, ZeroMQ, S3, logging and the query log.
