# Term search query path: a Dafny model

This project models the query path of the search engine's term-search driver,
`searchd/run/test-term-search.c`. It covers the pieces that sit between the
posting-list merge engine and the ranked result set:

- **Posting cursor** (`posting_cursor.dfy`, module `PostingCursor`). The disk
  cursor is a strictly increasing list of posting items plus the index of the
  current item. `term_posting_jump_wrap` refuses any 64-bit target at or above
  `UINT_MAX` before narrowing it to `doc_id_t`, and leaves the cursor as it was.
  `term_posting_cur_item_id_wrap` widens the current 32-bit id without loss.
- **Occurrence capture** (`occurrences.dfy`, module `Occurrences`). `new_hit`
  walks the postings in index order. It copies the positions of every posting
  whose current id is the document into a buffer of `n_save_occurs` entries,
  and stops when the buffer is full.
- **Merge callback** (`merge_callback.dfy`, module `MergeCallback`).
  `term_posting_on_merge` totals the matching term frequencies in a wrapping
  `uint32_t`. It caps the saved occurrences at `MAX_HIGHLIGHT_OCCURS` and
  admits a hit only when the ranked set is not full or the score beats the
  set's minimum.
- **Ranked set** (`ranked_results.dfy`, module `RankedResults`). The bounded
  best-of-K queue, seen only through `full`, `min score` and `add or replace`.
  The queue's update rule is assumed, since its implementation is not part
  of this model (see "## Left out"). Given that rule, ghost bookkeeping
  proves that the set always holds the best of the scores offered.
- **Occurrence sort** (`position_sort.dfy`, module `PositionSort`). The
  in-place `bubble_sort` over `position_t`.
- **Highlighter** (`highlighter.dfy`, module `Highlighter`). The
  `highlighter_arg` state and `add_highlight_seg`, fed one segment index at a
  time. It is proved to print exactly the segments whose index is an
  occurrence, provided the occurrences strictly increase.
- **Query set-up** (`term_search.dfy`, module `TermSearch`). The per-term loop
  of `test_term_search` picks a null, forked (in-memory) or disk posting for
  each term. The `-o` option of `main` maps to AND, OR or UNDEF.

`doc_id_t`, `position_t` and `uint32_t` are 32-bit unsigned (`U32`), and
`uint64_t` is `U64`. Wrap-around is written out where the source relies on
it: the `n_tot_occurs` sum, the narrowing `doc_id_t docID = cur_min`, and
`cur_lex_pos++`. Scores are an opaque ordered value (`real`).

Behaviour of the code that the model keeps and states:

- The guard `to_id >= UINT_MAX` also refuses `0xFFFFFFFF`, which is itself a
  valid `doc_id_t`. `CurIdThenJumpWrap` states this. The comment at lines
  47-49 of `searchd/run/test-term-search.c` says the guard is there for
  values wider than `doc_id_t`, but the `>=` also catches the largest
  `doc_id_t`. The model follows the code.
- `add_highlight_seg` advances its occurrence cursor at most once per
  segment. A repeated position stops it for good, so later occurrences are
  never printed. `RepeatedOccurrenceStalls` exhibits this. A query that names
  the same term twice gives two postings with the same positions, and
  `new_hit` copies both, so the hit's occurrences then repeat. Whether the
  index can store a repeated position within one posting is not part of
  this model.
- When the ranked set is full, a score equal to its minimum is turned away
  and the set is untouched.

## Model

| member | source | states |
|---|---|---|
| PostingCursor.Jump | searchd/run/test-term-search.c:53 | the underlying jump moves forward to the first item whose id is at least the target; it reports false and leaves the cursor exhausted when no such item exists; items are never changed |
| PostingCursor.JumpWrap | searchd/run/test-term-search.c:43-56 | a target at or above UINT_MAX returns false and leaves the cursor unchanged; any smaller target is forwarded as the same value and its result returned |
| PostingCursor.CurItem | searchd/run/test-term-search.c:31-34 | the item returned is the one under the cursor; every item before it has a smaller id and every item after it a larger one |
| PostingCursor.CurItemIdWrap | searchd/run/test-term-search.c:36-41 | the 64-bit id equals the item's 32-bit doc id, so it never exceeds UINT_MAX |
| PostingCursor.CurIdThenJumpWrap | searchd/run/test-term-search.c:36-56 | the widened current id equals the 32-bit doc id; jumping to it through the guard equals the plain jump for ids below UINT_MAX and fails without moving for UINT_MAX itself |
| PostingCursor.JumpFindsFirst | searchd/run/test-term-search.c:53 | a jump succeeds iff some item at or after the cursor reaches the target; a successful jump lands on an index iff that index is the first one reaching the target |
| PostingCursor.FirstAtLeastUnique | searchd/run/test-term-search.c:53 | the first index at or after the cursor that reaches the target is unique, so it pins down where a jump lands |
| PostingCursor.JumpToCurrentIsNoOp | searchd/run/test-term-search.c:53 | jumping to an id no greater than the current one leaves the cursor where it is |
| PostingCursor.JumpSkipsOnlySmallerIds | searchd/run/test-term-search.c:53 | after a jump every item from the new position on has id at least the target |
| Occurrences.MatchingOccurrencesLength | searchd/run/test-term-search.c:104-114 | the concatenated positions of the matching postings number exactly the summed tf of those postings |
| Occurrences.MatchingOccurrencesPrefix | searchd/run/test-term-search.c:73-86 | visiting more postings only extends the concatenation, so a truncated copy is a prefix of the full one |
| Occurrences.MatchingOccurrencesMembers | searchd/run/test-term-search.c:73-76 | a position is captured iff it belongs to a posting whose current id is the document |
| Occurrences.CopyPositions | searchd/run/test-term-search.c:79-83 | memcpy writes the first count positions at the buffer offset and leaves the rest of the buffer unchanged |
| Occurrences.NewHit | searchd/run/test-term-search.c:58-89 | the hit carries the doc id, the score and n_occurs = n_save_occurs in a buffer of that size; its first min(n_save_occurs, total) entries are the matching postings' positions concatenated in posting order |
| MergeCallback.SumMatchingTf | searchd/run/test-term-search.c:104-114 | n_tot_occurs is the sum of tf over exactly the postings whose current id is cur_min, modulo 2^32 |
| MergeCallback.TermPostingOnMerge | searchd/run/test-term-search.c:91-159 | a hit is built and added iff the set is not full or the score beats its minimum; otherwise the set is untouched; the hit holds min(MAX_HIGHLIGHT_OCCURS, n_tot_occurs) occurrences, never more than the cap; for an id below 2^32 its buffer is filled completely with the leading captured positions; the best-of-K invariant is kept |
| RankedResults.RankHit.constructor | searchd/run/test-term-search.c:67-71 | a fresh hit with the given id, score and occurrence count, and a buffer of exactly that many positions |
| RankedResults.RankQueue.constructor | searchd/run/test-term-search.c:455 | the ranked set starts empty with the given positive capacity |
| RankedResults.RankQueue.Full | searchd/run/test-term-search.c:150 | the set is full exactly when it holds at least its capacity of hits |
| RankedResults.RankQueue.MinScore | searchd/run/test-term-search.c:151 | the minimum score is the score of a held hit and no held hit scores lower |
| RankedResults.RankQueue.AddOrReplace | searchd/run/test-term-search.c:157 | below capacity the hit is appended; at capacity it replaces a lowest-scoring hit if it scores strictly higher, else nothing changes; the best-of-K invariant is kept |
| RankedResults.RankQueue.NoteRefused | searchd/run/test-term-search.c:150-151 | turning a candidate away at capacity keeps the held hits and the best-of-K invariant |
| RankedResults.RankQueue.HeldAreBest | searchd/run/test-term-search.c:150-158 | the set holds min(capacity, offered) hits and every offered score not held is at most every held score |
| RankedResults.BestOfKHeldAreBest | searchd/run/test-term-search.c:150-158 | the score-level form of the best-of-K property, derived from the invariant |
| PositionSort.Swap | searchd/run/test-term-search.c:200-202 | the exchange swaps two entries, changes nothing else and permutes the array |
| PositionSort.PlaceLeast | searchd/run/test-term-search.c:198-203 | the inner loop leaves arr[i] as the least of arr[i..n), permutes the array, touches nothing outside [i, n) and keeps a lower-bounding prefix |
| PositionSort.BubbleSort | searchd/run/test-term-search.c:192-204 | arr[0..n) ends non-decreasing and a permutation of its old contents; entries from n on are unchanged, so n = 0 is a no-op |
| PositionSort.SortedPermutationUnique | searchd/run/test-term-search.c:192-204 | two sorted permutations of the same positions are equal, so the sort's contract determines its result |
| Highlighter.StepInvariant | searchd/run/test-term-search.c:234-241 | one segment at lexical position t prints iff t is the next occurrence, and the cursor then has passed exactly the occurrences below t + 1 |
| Highlighter.RunInvariant | searchd/run/test-term-search.c:229-242 | after t segments from the reset state the printed segments are exactly the occurrences below t in order, and the cursor has passed exactly those |
| Highlighter.HighlightsExactlyOccurrences | searchd/run/test-term-search.c:229-242 | over strictly increasing occurrences, a segment among the first t is printed iff its index is an occurrence, and printed indices increase |
| Highlighter.SortedWithoutRepeatsIncreasing | searchd/run/test-term-search.c:304 | sorted occurrences in which no position occurs twice are strictly increasing, which the highlighter lemmas require |
| Highlighter.HighlightResult | searchd/run/test-term-search.c:294-328 | after sorting the hit's occurrences in place, resetting the highlighter onto them and feeding it the document's segments, the occurrences are sorted and permuted, and the printed segments are the run over them; without repeated occurrences a segment is printed iff its index is one of the hit's occurrences, in increasing order |
| Highlighter.RepeatedOccurrenceStalls | searchd/run/test-term-search.c:236-238 | occurrences [0, 0, 1] over three segments print only segment 0, although 1 is an occurrence, and the cursor stays on the repeated entry |
| Highlighter.HighlighterArg.constructor | searchd/run/test-term-search.c:286 | the static highlighter state starts with every counter zero |
| Highlighter.HighlighterArg.Prepare | searchd/run/test-term-search.c:320-323 | the reset points the highlighter at the hit's occurrences with both counters zero |
| Highlighter.HighlighterArg.AddHighlightSeg | searchd/run/test-term-search.c:229-242 | when pos_arr_now == pos_arr_sz nothing changes; otherwise cur_lex_pos advances by one (wrapping) and pos_arr_now advances exactly when cur_lex_pos equals the current occurrence, which is when the segment prints; pos_arr_now <= pos_arr_sz is kept |
| Highlighter.HighlighterArg.FeedSegments | searchd/run/test-term-search.c:286-292 | handing n segments to the callback one at a time prints the segments and reaches the state that the run specification gives |
| TermSearch.SetupTermPostings | searchd/run/test-term-search.c:407-443 | exactly one slot per term, in query order, and n_postings = n_terms; id 0 gives a null posting with no callbacks and df 0; the forked id gives the cached posting with the mem callbacks; any other id gives its disk posting with the disk callbacks and its df |
| TermSearch.ParseOp | searchd/run/test-term-search.c:537-542 | "AND" iff AND, "OR" iff OR, anything else iff UNDEF |
| TermSearch.MergeOpFromArgs | searchd/run/test-term-search.c:499-545 | the mode is AND when no -o is given, and otherwise the mapping of the last -o argument |

## Left out

- BM25 and proximity scoring (`BM25_idf`, `BM25_term_i_score`, `prox_*`, the `bm25args` constants) are floating-point code declared in headers that are not part of this model. The merge callback takes the total score as a parameter. Scores are exact reals, so float rounding is not modelled.
- `posting_merge` and the internals of `priority_Q_*` are not modelled, and neither are `priority_Q_sort`, `rank_window_*` and the paging loop. Their headers are not part of this model. The ranked set is a sequence with a capacity; its heap layout, which minimum it evicts among equal scores, and the final sort are not modelled.
- `priority_Q_add_or_replace`, `priority_Q_min_score` and `priority_Q_full` are not part of this model. `AddOrReplace`, `MinScore` and `Full` assume that the queue is full when it holds its capacity of hits and that `priority_Q_add_or_replace` appends below capacity and otherwise replaces a lowest-scoring hit when the new score is strictly higher. `HeldAreBest` is proved for that rule.
- `term_posting_jump` itself is not part of this model. `Jump` assumes that it moves forward to the first id at or above the target and leaves the cursor exhausted when there is none. The other cursor callbacks (`term_posting_start`, `_next`, `_finish` and the `mem_posting_*` family) are only registered by the driver and are not modelled. `SetupTermPostings` records which table a slot uses.
- `postcache_fork_term_posting`, `mem_posting_print_info` and `mem_posting_free` are not modelled. The forked posting is represented by the tag `ForkedPosting`.
- `get_blob_string` is not modelled: blob reads, gzip decompression and the static text buffer.
- The tokenizer and lexer are not modelled: `foreach_seg`, `seg_iteration`, `text_segment`, `lex_eng_file`, `fmemopen` and the `g_lex_handler` registration. `FeedSegments` stands for the lexer handing segments to the callback, reduced to segment indices. Segment text, offsets and slice types are not modelled.
- Printing is not modelled (`print_seg`, the `printf` calls of `print_res_item`, `print_all_rank_res`, every other `printf`). `HighlightResult` keeps only the sort, reset and lexer steps of `print_res_item`. A printed highlight is the returned flag of `AddHighlightSeg`.
- Most of `main` is not modelled: `getopt` except `-o`, index open/close, the `getchar` pause, and the unbounded `strcpy` into `query[]`. Term lookup (`term_lookup`) and document frequency (`term_index_get_df`) are function parameters. The idf values are not computed, but the df they come from is recorded.
- `MAX_HIGHLIGHT_OCCURS` and `RANK_SET_DEFAULT_VOL` are defined in headers that are not part of this model. The first is a parameter. The second is the capacity given to the `RankQueue` constructor, which requires it to be positive.
- NewHit: `malloc` never fails here. Buffer entries past the copied total are zero in the model but left unconstrained by its contract, since the source leaves them uninitialised.
- TermPostingOnMerge: states the buffer's contents only for a candidate id below 2^32. Above that, the narrowed `docID` and `cur_min` select different postings. For disk postings the merge ids come from `term_posting_cur_item_id_wrap`, so they stay below 2^32. For the forked posting they come from `mem_posting_cur_item_id`, which is not part of this model, and the same bound is assumed.
- HighlightResult: states the printed segments as occurrences only when the hit has no repeated occurrence and fewer than 2^32 segments are fed. Otherwise it states only that they are the run over the sorted occurrences.
- HighlightsExactlyOccurrences: proved only for strictly increasing occurrences and fewer than 2^32 segments. With repeated occurrences the highlighter stalls, as `RepeatedOccurrenceStalls` shows.
- Terms and option arguments are `seq<char>`. `strcmp` against "AND"/"OR" is sequence equality, which is exact for NUL-terminated C strings.
