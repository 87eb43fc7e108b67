# A learned index and community-detection helpers, in Dafny

This project models two small C programs from a programming course.

**The learned index** (`comp10002/a1/program.c`) works on a sorted array of
`DATASET_SIZE` (100) integers:
- It sorts them with a three-way-partition quick sort.
- It fits lines `(a, b)` that map a value `key` to its predicted position
  `ceil((key + a) / b)`, or to `a` when `b == 0`.
- Stage two reports the largest prediction error of a single line, fitted
  through positions 0 and 1.
- Stage three makes one greedy pass over the array. It stores a mapping
  `{a, b, max}` whenever the line in force misses a position by more than
  `max_err`, then fits a new line.
- Stage four answers a query in three steps: a range check, a binary search
  over the stored boundaries `max` that picks a mapping, and a binary search
  of the positions within `max_err` of that mapping's prediction.

**The community-detection program** (`comp10002/a2/program.c`) contributes:
- array helpers: a membership test, and the friends of a user read off a 0/1
  friendship matrix;
- intersection and union counts of two friend lists;
- the strength of connection of two users, as a pair of counts;
- a singly linked list of hashtags with head and foot references, kept in
  `strcmp` order and free of duplicates.

The modules follow the programs:
- `Sorting` (`sorting.dfy`): `cmp`, `swap_data`, `partition`, `quick_sort`.
  They work in place on an `array<int>`.
- `LinearModel` (`linear_model.dfy`): `compute_ab`, `compute_f_key` with
  `ceil`, `compute_err`, `max`, `min`, `map_t`.
- `Search` (`search.dfy`): `search_mappings` and `search_key`, as functions
  that return a status and a location.
- `LearnedIndex` (`learned_index.dfy`): stages two to four. Stage two is a
  method with a loop. Stage three is a method that writes into the caller's
  buffer and is proved equal to a step function folded over the positions.
  Stage four is a function per query plus the query loop.
- `Community` (`community.dfy`): `array_contains`, `get_friends`,
  `sum_intersection`, `sum_union`, `compute_soc`. These are loops over arrays
  and over an `array2<int>` matrix.
- `TagLists` (`tag_list.dfy`): `strcmp`, and the list as a `TagList` class
  of heap `Node`s. The class has ghost `Contents`, `Nodes` and `Repr`.
  `insert_unique_in_order` walks and relinks the real `next` fields, and is
  proved to produce the tags of a sequence function, `InsertSorted`.

The dataset size `DATASET_SIZE` is the length of the dataset sequence. The
rules that depend on it (the last position, the single-point rule at
position N-2) use that length. The lemmas that exhibit behaviour at the
source's own size use `DATASET_SIZE`.

## Model

| member | source | states |
|---|---|---|
| Sorting.Cmp | comp10002/a1/program.c:342-344 | the difference of the two values, whose sign orders them: negative, zero or positive exactly when the first is below, equal to or above the second |
| Sorting.SwapData | comp10002/a1/program.c:292-297 | the array afterwards holds the two cells exchanged and is otherwise unchanged |
| Sorting.Partition | comp10002/a1/program.c:302-321 | ends with `0 <= first_eq <= first_gt <= n`; the section holds values below the pivot, then equal to it, then above it; the section is a permutation of its input; the cells outside it are untouched |
| Sorting.PartitionStep | comp10002/a1/program.c:305-315 | one iteration of partition's loop keeps the three-region invariant and the permutation, and shrinks the unexamined region by one |
| Sorting.PartitionStepBelow | comp10002/a1/program.c:306-309 | swapping a value below the pivot to the front of the equal run grows the below region and keeps the invariant |
| Sorting.PartitionStepAbove | comp10002/a1/program.c:310-312 | swapping a value above the pivot to the back grows the above region and keeps the invariant |
| Sorting.PartitionStepEqual | comp10002/a1/program.c:313-315 | a value equal to the pivot extends the equal run in place |
| Sorting.PivotRunNonEmpty | comp10002/a1/program.c:333-336 | because the pivot is taken from the section, the equal run is non-empty, so both recursive sorts work on shorter sections |
| Sorting.SortedThreeWay | comp10002/a1/program.c:333-336 | sorted values below the pivot, then the pivot run, then sorted values above it, form a sorted sequence |
| Sorting.QuickSortCombine | comp10002/a1/program.c:333-336 | partitioning and then sorting the below and above regions sorts the whole section as a permutation |
| Sorting.QuickSort | comp10002/a1/program.c:326-337 | the section `[lo, lo+n)` ends sorted non-decreasing and a permutation (equal multiset) of its start; the rest of the array is unchanged |
| LinearModel.CeilDiv | comp10002/a1/program.c:108-112 | the exact ceiling of `n / d`, bounded between `(q-1)*d` and `q*d` on both signs of `d` |
| LinearModel.CeilDivOfMultiple | comp10002/a1/program.c:108-112 | the ceiling of an exact multiple is the quotient itself |
| LinearModel.Predict | comp10002/a1/program.c:108-112 | the predicted position `p` satisfies `(p-1)*b < key+a <= p*b` for `b > 0`, and is `a` for `b == 0` |
| LinearModel.ComputeAb | comp10002/a1/program.c:93-105 | `b == 0` exactly when the two values are equal, and then `a == y0`; a larger second value gives `b > 0` |
| LinearModel.ComputeAbThroughPoints | comp10002/a1/program.c:93-105 | for distinct neighbouring values the line passes through both points: `x + a == y*b` at each |
| LinearModel.ComputeErr | comp10002/a1/program.c:115-120 | the error is non-negative, zero exactly when the prediction is the index, and `abs(a - index)` when `b == 0` |
| LinearModel.ErrWithinWindow | comp10002/a1/program.c:115-120 | the error is at most `w` exactly when the index lies within `w` of the prediction |
| LinearModel.FitPoints | comp10002/a1/program.c:93-120 | a line fitted through positions y0 and y0+1 has error 0 at y0, and error 0 at y0+1 unless the two values are equal (then 1) |
| LinearModel.Max | comp10002/a1/program.c:123-127 | the result is one of the two arguments and at least both |
| LinearModel.Min | comp10002/a1/program.c:130-134 | the result is one of the two arguments and at most both |
| Search.SearchMappings | comp10002/a1/program.c:351-373 | always Found, with `lo <= locn <= hi`; either the boundary at `locn` equals the key, or the boundary before `locn` is below the key and the one at `locn` is above it (the insertion point) |
| Search.SearchMappingsSplits | comp10002/a1/program.c:351-373 | on non-decreasing boundaries the result either holds the key, or every boundary in `[lo, locn)` is below the key and every one in `[locn, hi)` is above it |
| Search.SearchMappingsInside | comp10002/a1/program.c:351-373 | a key no larger than the last boundary gets a location inside the range whose boundary is at least the key |
| Search.SearchKey | comp10002/a1/program.c:376-395 | a Found location lies in `[lo, hi)` and holds the key; an empty range is NotFound; on a sorted range NotFound means no position of the range holds the key |
| LearnedIndex.FirstLine | comp10002/a1/program.c:166-167 | the line through positions 0 and 1 predicts position 0 exactly |
| LearnedIndex.StageTwo | comp10002/a1/program.c:161-185 | the reported error is the largest error over all positions, is attained at the reported index, and no earlier position attains it (ties go to the earliest position) |
| LearnedIndex.Store | comp10002/a1/program.c:204-219 | an iteration keeps the stored mappings as a prefix and appends at most one; it appends exactly when position `i` breaks the bound and `dataset[i-1]` is not negative (the boundary is then `dataset[i-1]`), or when `i` is the last position, keeps the bound and `dataset[i]` is not negative (the boundary is then `dataset[i]`); the appended mapping carries the line in force |
| LearnedIndex.Step | comp10002/a1/program.c:199-231 | an iteration stores as Store says, and changes the line only when position `i` broke the error bound |
| LearnedIndex.StepCoversPosition | comp10002/a1/program.c:221-230 | away from the last two positions, position `i` is within `max_err` of the line in force after iteration `i`: the old line if it kept the bound, otherwise the new line through positions `i` and `i+1` |
| LearnedIndex.SinglePointRefitOffByOne | comp10002/a1/program.c:222-226 | when position N-2 breaks the bound, the new line is `a = N-1, b = 0`, with error 0 at N-1 and error exactly 1 at N-2 itself |
| LearnedIndex.Segments | comp10002/a1/program.c:199-231 | the mappings of the whole pass, the state FitAfter reaches by folding Step over positions 2 to N-1; at most N-2 of them |
| LearnedIndex.StageThree | comp10002/a1/program.c:188-234 | writes exactly the mappings of the greedy pass into the buffer's first `mps_len` cells, returns `mps_len <= N-2`, and leaves the rest of the buffer untouched |
| LearnedIndex.StageThreeIteration | comp10002/a1/program.c:200-230 | one iteration's buffer writes and refit agree with Step, and the cells past the new length are untouched |
| LearnedIndex.SegmentCount | comp10002/a1/program.c:199-219 | before iteration `i` at most `i-2` mappings are stored |
| LearnedIndex.StoreKeepsBoundaries | comp10002/a1/program.c:204-219 | each stored boundary is some `dataset[j]` with `j < i+1`; on a sorted dataset, non-decreasing boundaries bounded by `dataset[i-1]` stay non-decreasing and become bounded by `dataset[i]` |
| LearnedIndex.SegmentBoundaries | comp10002/a1/program.c:199-231 | every boundary stage_three stores is a dataset value; over a sorted dataset the boundaries are non-decreasing, which is what search_mappings needs |
| LearnedIndex.AsWrittenStep | comp10002/a1/program.c:199-231 | an iteration as the source writes it, refitting after the last position too: it stores as Store says and changes the line only when position `i` broke the bound |
| LearnedIndex.AsWrittenFitAfter | comp10002/a1/program.c:199-231 | the as-written pass folded up to iteration `i` holds at most `i-2` mappings |
| LearnedIndex.AsWrittenAgrees | comp10002/a1/program.c:221-230 | the as-written pass, which refits past the end of the dataset, agrees with the guarded Step in every state before the last iteration, and stores the same mappings whatever value lies past the dataset |
| LearnedIndex.StraightPrefixState | comp10002/a1/program.c:199-231 | when the first `i` values are their own positions, no mapping is stored and the first line is still in force before iteration `i` |
| LearnedIndex.LastValueUncovered | comp10002/a1/program.c:206-210 | a dataset whose last value jumps makes the pass refit past the end; the only stored boundary is below the last value, so the comment at line 208 ("last element is always covered") does not hold |
| LearnedIndex.LastStepBreaks | comp10002/a1/program.c:204-229 | under the first line `a = 0, b = 1`, a last value more than `max_err` above its position breaks the bound, and the last iteration stores the line with boundary `dataset[N-2]` |
| LearnedIndex.LastValueUncoveredAtDatasetSize | comp10002/a1/program.c:206-229 | the same at size 100 (0..98 then 1000, `max_err = 0`): the pass reads past the dataset and stores only the mapping up to 98 |
| LearnedIndex.SearchWindow | comp10002/a1/program.c:264-270 | the clamped window `[max(0, p-max_err), min(N-1, p+max_err)+1)` lies inside `[0, N]` |
| LearnedIndex.WindowMembers | comp10002/a1/program.c:264-270 | a position is in the window exactly when it is a position of the dataset within `max_err` of the prediction |
| LearnedIndex.Located | comp10002/a1/program.c:256-263 | the mapping picked for a key is one of the `mps_len` stored mappings or the slot just past them |
| LearnedIndex.QueryKey | comp10002/a1/program.c:244-277 | the outcome is out of range exactly when the key is below the first or above the last value; a found position holds the key |
| LearnedIndex.QueryFindsKeyWithinError | comp10002/a1/program.c:254-270 | on a sorted dataset, a key held at a position whose error under the picked mapping is within `max_err` is found |
| LearnedIndex.SinglePointStep | comp10002/a1/program.c:222-226 | at position N-2 a broken bound stores the line and sets the constant line `a = N-1, b = 0` |
| LearnedIndex.LastStepConstant | comp10002/a1/program.c:206-219 | under that constant line the last position has error 0 and is stored with boundary `dataset[N-1]` |
| LearnedIndex.SinglePointSegments | comp10002/a1/program.c:199-231 | the segments when the values are their positions up to N-3 and then jump twice, with `max_err = 0` |
| LearnedIndex.SinglePointRuleCanMissKey | comp10002/a1/program.c:222-270 | with those segments, the query for `dataset[N-2]`, a value that is in the dataset, reports "not found" |
| LearnedIndex.SinglePointRuleCanMissKeyAtDatasetSize | comp10002/a1/program.c:222-270 | the same at size 100: 0..97, then 500 and 1000, with `max_err = 0`; the query for 500 reports "not found" |
| LearnedIndex.StageFour | comp10002/a1/program.c:238-279 | one outcome per key read, each the outcome of the three-step query over the whole mapping buffer |
| Community.CountIn | comp10002/a2/program.c:159-167 | the number of elements of the first list found in the second is at most the first list's length |
| Community.CountNotIn | comp10002/a2/program.c:170-178 | the number of elements of the first list missing from the second is at most the first list's length |
| Community.ArrayContains | comp10002/a2/program.c:109-116 | returns 0 or 1, and 1 exactly when `value` occurs in `arr[0..count)` |
| Community.FriendsOf | comp10002/a2/program.c:146-156 | the friends of a row among the first `n` columns: every entry is a column index below `n` |
| Community.FriendsOfMembers | comp10002/a2/program.c:146-156 | the friends list holds exactly the columns `j < user_count` with a nonzero entry in the row, strictly increasing, and at most `user_count` of them |
| Community.GetFriends | comp10002/a2/program.c:146-156 | `ret[0..count)` is the friends list of the row, with `0 <= count <= user_count`, and the cells from `count` on are untouched |
| Community.SumIntersection | comp10002/a2/program.c:159-167 | the count of elements of `arr1[0..count1)` that occur in `arr2[0..count2)` |
| Community.SumUnion | comp10002/a2/program.c:170-178 | `count1` plus the count of elements of `arr2[0..count2)` missing from `arr1[0..count1)` |
| Community.CountsSplit | comp10002/a2/program.c:159-178 | found and missing elements together make up the whole list |
| Community.CountInIsSetSize | comp10002/a2/program.c:159-167 | for a duplicate-free first list, the intersection count is the size of the set intersection |
| Community.CountNotInIsSetSize | comp10002/a2/program.c:170-178 | for a duplicate-free first list, the missing count is the size of the set difference |
| Community.UnionIsSetUnion | comp10002/a2/program.c:170-178 | for duplicate-free lists, `sum_union` is the size of the set union and equals `count1 + count2 - sum_intersection` |
| Community.FriendCounts | comp10002/a2/program.c:181-198 | for two friends, the counts are the Jaccard set sizes, the union is non-empty (user 2 is a friend of user 1) and the intersection is no larger than the union |
| Community.ComputeSoc | comp10002/a2/program.c:181-198 | zero exactly when the matrix entry is zero; otherwise the pair (intersection, union) of the two friend sets, with `1 <= union` and `0 <= intersection <= union` |
| TagLists.Strcmp | comp10002/a2/program.c:393 | the sign of the result lies in `-1..1` and is zero exactly when the tags are equal |
| TagLists.StrcmpAntisymmetric | comp10002/a2/program.c:393 | swapping the arguments flips the sign |
| TagLists.StrcmpTransitive | comp10002/a2/program.c:393 | the order is transitive |
| TagLists.InsertSorted | comp10002/a2/program.c:392-417 | the tags after inserting one value into a list: the list grows by one tag or stays as it was |
| TagLists.InsertSortedElems | comp10002/a2/program.c:380-421 | after insertion the tags are the old tags and the new value |
| TagLists.InsertSortedSorted | comp10002/a2/program.c:380-421 | insertion keeps the list strictly increasing under strcmp |
| TagLists.InsertSortedPresent | comp10002/a2/program.c:403-407 | inserting a tag the sorted list already holds leaves it unchanged |
| TagLists.InsertSortedIdempotent | comp10002/a2/program.c:403-407 | inserting the same tag twice equals inserting it once |
| TagLists.SortedUnique | comp10002/a2/program.c:380-421 | two strictly sorted lists with the same tags are equal, so the result of insertion is determined by its tags |
| TagLists.InsertSortedAt | comp10002/a2/program.c:392-417 | stopping the walk at the first tag the value precedes (or at the end) puts the value exactly where InsertSorted puts it |
| TagLists.InsertSortedFound | comp10002/a2/program.c:403-407 | stopping the walk at a tag equal to the value leaves the tags as InsertSorted does |
| TagLists.InsertAll | comp10002/a2/program.c:201-206 | the tags after inserting a user's tags in turn: the list grows by at most one tag per inserted tag |
| TagLists.InsertAllSortedElems | comp10002/a2/program.c:201-206 | inserting a user's tags keeps the list strictly sorted, and the tags afterwards are the old tags and the user's |
| TagLists.Node.constructor | comp10002/a2/program.c:381-384 | a new node holds the copied tag and has no successor |
| TagLists.TagList.constructor | comp10002/a2/program.c:349-358 | an empty, valid list: no nodes, head and foot null |
| TagLists.TagList.InsertUniqueInOrder | comp10002/a2/program.c:380-421 | the list stays valid (a distinct chain from head to foot, the last node linked to nothing), only fresh nodes are added, and its tags become InsertSorted of the old tags |
| TagLists.TagList.LinkFirst | comp10002/a2/program.c:386-388 | the first node of an empty list becomes both head and foot |
| TagLists.TagList.LinkBefore | comp10002/a2/program.c:394-402 | relinking `prev` (or head) to the new node and the new node to `curr` splices it into the chain at position `k` and keeps the list valid |
| TagLists.TagList.LinkAtFoot | comp10002/a2/program.c:414-417 | linking the new node after the foot appends it to the chain and makes it the foot |
| TagLists.InsertTags | comp10002/a2/program.c:201-206 | the list stays valid and its tags become those of inserting the user's tags in order |

## Left out

- Console I/O: reading the dataset, `max_err`, the queries, the profiles and
  the matrix; the stage headers; the traces of compared values printed by
  `search_mappings` and `search_key`; and all the printed results. Stage four
  takes its keys as a sequence and returns one outcome per key. `read_matrix`
  and `stage_one` are not part of this model.
- `print_list`, `print_tags` and `free_list` (output and deallocation), and
  `malloc`'s failure `assert`s. A node that holds a duplicate tag is simply
  never linked in, where the source frees it.
- The stages of the community-detection program (`stage_one` to
  `stage_four`), apart from the helpers they call. This includes the float
  threshold comparison of `stage_four`.
- LinearModel.Predict: `compute_f_key` divides in `float` and rounds up with
  `ceil`. The model uses the exact ceiling of the integer quotient, which
  agrees with it only while the float quotient is exact.
- Community.ComputeSoc: the float quotient `intersect_count / union_count` is
  returned as the pair of counts, not as a float.
- Sorting.Cmp: like the source, the model returns the difference `x1 - x2`.
  It computes it on unbounded integers, so it never overflows, where the C
  subtraction overflows for extreme `int`s. Its contract states only the
  sign. All other `int` arithmetic is unbounded too (no 32-bit wrap-around).
- TagLists.Strcmp: only the sign is modelled, not the magnitude of the
  character difference. Tags are unbounded strings, not `char[21]` buffers
  (MAX_TAG_LENGTH), and a user's tag array is modelled as a sequence, not as
  up to `MAX_TAGS` entries with a count.
- LearnedIndex.StageThree: the dataset is a sequence of any length at
  least 2, not exactly 100 values. The rules that use `DATASET_SIZE` use its
  length instead.
- LearnedIndex.Step: after the last position the model does not refit, where
  the source reads past the dataset (see Findings). Every stored mapping is
  the same (AsWrittenAgrees).
- LearnedIndex.QueryKey: the mapping buffer is the caller's whole buffer, so
  the slot just past the stored mappings, which stage_three never writes and
  search_mappings can pick, holds whatever the caller left there.
- LearnedIndex.StepCoversPosition: it states coverage one iteration at a
  time. That every position of the dataset lies within `max_err` of the
  mapping stored for its segment, over the whole pass, is not stated.
- The step-by-step prefix property of stage three across iterations (that
  the mappings stored before an iteration are a prefix of those stored
  after it) is stated only per iteration, by Store.
- Sorting.PartitionStep, LearnedIndex.StageThreeIteration,
  TagLists.TagList.LinkFirst, TagLists.TagList.LinkBefore and
  TagLists.TagList.LinkAtFoot are bodies of the source's loops and branches,
  split out as methods of their own. They run the same statements on the
  same state.

## Findings

| source | as written | input that shows it | evidently intended | confidence | as-written member | corrected member |
|---|---|---|---|---|---|---|
| comp10002/a1/program.c:222-229 | when the last position (`i == DATASET_SIZE-1`) breaks the error bound, stage_three refits the line through `compute_ab(dataset, i, i + 1, ...)`, which reads `dataset[100]`, one past the array | the values 0..98 then 1000, with `max_err = 0` | no refit after the last position, since no position is left to predict | not executed | LearnedIndex.AsWrittenStep (exhibited by LearnedIndex.LastValueUncovered and LearnedIndex.LastValueUncoveredAtDatasetSize) | LearnedIndex.Step (reads only inside the dataset; LearnedIndex.AsWrittenAgrees proves it stores the same mappings as the as-written pass) |
