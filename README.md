# PopPUNK sparse-graph extension and k-mer counters, in Dafny

This project models two C++ parts of PopPUNK and proves properties of them.

**`SparseExtend`** (`sparse_extend.dfy`, from `src/extend.cpp`). PopPUNK keeps
its k-nearest-neighbour graph as a sparse coordinate list: three parallel
vectors holding row, column and distance, sorted by row.

- `extend` adds nq query samples to a graph over nr reference samples. Each
  row is one of nr + nq rows, and each row has two distance lists. Position
  idx of the first list (`qr_dists` in the source) stands for the query
  column nr + idx. The second list (`rr_dists`) stands for reference columns:
  - A reference row i < nr takes row i of the reference–query matrix as its
    first list. Its second list is its own existing entries, with their stored
    columns.
  - A query row i >= nr takes row i − nr of the query–query matrix as its
    first list. Its second list is column i − nr of the reference–query
    matrix, with reference columns idx.

  For each row it:
  1. sorts both lists;
  2. merges the two sorted lists;
  3. drops the self pair;
  4. keeps only the first kNN distinct distances, where ties within `epsilon`
     count as one.

  The per-row vectors are then concatenated.
- `lower_rank` applies the same kNN cap to every row of an existing graph.
- `row_start_indices` finds where each row begins.
- `combine_vectors` concatenates the per-row vectors.

Each loop is a Dafny method. It is proved against a specification function:
- `Merge` for the merge;
- `Sparsify` for the kNN cap;
- `RowStart` / `CountBelow` for row starts;
- `Concat` for concatenation;
- `Assemble` for the output graph.

The lemmas prove that the output graph:
- is well formed (row-sorted, with rows in range);
- has no self pair;
- keeps every row sorted by distance;
- holds at most kNN distinct values per row;
- uses only columns that exist in the input.

They also prove that the merge emits the smallest remaining candidates, the
first list winning ties (`MergeEmitsSmallest`), and that `lower_rank` applied
to its own output rows gives the same rows again (`LowerRankIdempotent`).

**`KmerCounters`** (`kmer_counters.dfy`, from `src/countmin.cpp`).

- `CountMin` is a class over a mutable `array2<u8>` table of saturating 8-bit
  cells. `add_count` splits each 64-bit hash word into `hash_per_hash` masked
  sub-hashes, one per table row, increments the addressed cells and returns
  a running value. Ghost fields keep:
  - the table as a sequence (`cells`);
  - the list of k-mers added so far (`history`).

  The method is proved against `AfterAdd` (the new table) and `Estimate`
  (the returned value). The lemmas prove:
  - the returned value is the largest incremented cell;
  - a saturated cell ends its word;
  - the estimate never falls below the true number of occurrences, capped
    at 255.
- `HashCounter` is an exact counter, a map from the first hash word to a
  saturating count. It is proved against the functions `Increment` and
  `Probed`.

How the code behaves, as modelled:
- **The merge loop stops when either list runs out.** So a row gets no
  entries when either of its two lists is empty. A reference row with no
  existing entries is one case; every row when nq = 0 is another. In
  particular `extend` with nq = 0 returns the empty graph, not the graph
  `lower_rank` would produce (`ExtendGraph`).
- **The first list wins ties.** On equal distances the merge takes the entry
  of the first list. For a reference row that is the reference–query entry.
  For a query row it is the query–query entry, so a reference sample at the
  same distance can be dropped (`MergeEmitsSmallest`).
- **The row cursor has no bounds check.** The cursor loop of
  `row_start_indices` runs without one. The model states what keeps it
  inside the vector as the precondition `RowStartSafe`: some entry has row
  >= n−1 when n >= 2. A graph whose last rows are empty does not satisfy it.
- **`CountMin::add_count` returns the maximum.** It returns the largest
  post-increment cell value. The variable is called `min_count`, but the
  value is not a minimum. On a saturated cell it returns 255 and leaves the
  rest of that hash word's rows untouched.
- **`HashCounter::add_count` returns 0 at saturation.** It returns 0, not
  255, once the count is already 255 (`Increment`, `RepeatedAddCount`).
- **The mask is `0x4FFFFF` as written.** This is not the 24 low bits its
  comment describes. The model keeps the literal, so columns are at most
  `0x4FFFFF`.

## Model

| member | source | states |
|---|---|---|
| SparseExtend.IsNew | src/extend.cpp:110 | a distance is new iff it lies at least epsilon (1e-10) above or below the last new value |
| SparseExtend.CombineVectors | src/extend.cpp:32-42 | the result has length len and its first TotalLength(vec) entries are the concatenation of vec, in order |
| SparseExtend.CopyAt | src/extend.cpp:38-39 | the copy writes v at offset pos, keeps everything before pos and leaves the array beyond the copied range unchanged |
| SparseExtend.ConcatAt | src/extend.cpp:36-40 | element k of vector r lands at offset (sum of the earlier lengths) + k of the concatenation |
| SparseExtend.CountBelowIsCut | src/extend.cpp:24-27 | a cut p with every earlier row below r and every later row at least r is exactly the number of entries below row r |
| SparseExtend.CountBelowMonotone | src/extend.cpp:23-28 | row starts never decrease with the row |
| SparseExtend.RowSlice | src/extend.cpp:68-70 | in a row-sorted graph the entries of row r are exactly those at offsets [RowStart(r), RowStart(r+1)) |
| SparseExtend.RowStartIndices | src/extend.cpp:16-30 | n+1 starts, first 0 and last the entry count; start[r] = RowStart(r); starts are monotone; offset k lies in [start[r], start[r+1]) iff entry k has row r |
| SparseExtend.FillRowStarts | src/extend.cpp:19-28 | entry r (0 < r < n) is the number of entries with row below r; entry 0 is 0 and entry n the vector length |
| SparseExtend.SkipBelow | src/extend.cpp:24-26 | the cursor stops at the first entry whose row is at least i, never past the entry known to have row >= i |
| SparseExtend.RowStartsSlice | src/extend.cpp:16-30 | starts equal to RowStart are monotone and slice the vector into the rows |
| SparseExtend.SortIndexes | src/extend.cpp:78-79 | the order lists every index of the distances exactly once, in ascending distance |
| SparseExtend.InsertSorted | src/extend.cpp:78-79 | inserting index x at its place keeps a sorted order of the first x+1 indices |
| SparseExtend.QrCandidates | src/extend.cpp:94-96 | the first list in sorted order (reference–query for a reference row, query–query for a query row): one candidate per distance, columns in [nr, nr+nq), sorted by distance |
| SparseExtend.RrCandidates | src/extend.cpp:98-104 | the second list in sorted order (the row's own entries for a reference row, the reference–query column for a query row): one candidate per distance, sorted by distance |
| SparseExtend.RrColumns | src/extend.cpp:98-102 | for a reference row the columns come from the row's slice of the column vector; for a query row they are reference indices in [0, nr) |
| SparseExtend.Merge | src/extend.cpp:87-105 | the merge is empty iff either list is empty, and otherwise shorter than both lists together |
| SparseExtend.MergeEmitsSmallest | src/extend.cpp:87-105 | for sorted lists every emitted candidate is at most every candidate left in either list; an emitted second-list candidate is strictly below every first-list candidate left, so the first list wins ties; the first emitted is the first-list head iff that head is not larger |
| SparseExtend.BelowQrRest | src/extend.cpp:87-96 | nothing emitted is larger than a first-list candidate the merge leaves |
| SparseExtend.BelowRrRest | src/extend.cpp:87-105 | nothing emitted is larger than a second-list candidate the merge leaves |
| SparseExtend.RrBeforeQrRest | src/extend.cpp:91-105 | a second-list candidate is emitted only when strictly below every first-list candidate left |
| SparseExtend.MergeFrom | src/extend.cpp:87-105 | every merged candidate comes from one of the two lists |
| SparseExtend.MergeSorted | src/extend.cpp:87-105 | merging two distance-sorted lists gives a distance-sorted list |
| SparseExtend.MergeCut | src/extend.cpp:87 | the merge consumes a prefix of each list and exhausts at least one of them |
| SparseExtend.MergeTakesPrefixes | src/extend.cpp:87-105 | the merge is, as a multiset, exactly the two consumed prefixes |
| SparseExtend.TakeQrHead | src/extend.cpp:91-96 | when the first-list head is not larger (ties included) the merge still equals the consumed prefixes |
| SparseExtend.TakeRrHead | src/extend.cpp:97-105 | when the second-list head is smaller the merge still equals the consumed prefixes |
| SparseExtend.Sparsify | src/extend.cpp:107-121 | the capped row is no longer than its input and never holds the self pair |
| SparseExtend.SparsifyFrom | src/extend.cpp:107-121 | every kept candidate comes from the input list |
| SparseExtend.SparsifySorted | src/extend.cpp:107-121 | capping a sorted list keeps it sorted |
| SparseExtend.SparsifyIsCutPrefix | src/extend.cpp:107-121 | the capped row is a prefix of the input with self pairs dropped; when it stops early, the next candidate is a new value arriving with the cap reached |
| SparseExtend.SparsifyCap | src/extend.cpp:111-117 | at most kNN distinct values are accepted |
| SparseExtend.SparsifyZeroCap | src/extend.cpp:84-111 | with kNN = 0 and non-negative distances nothing is kept, since the first distance is new against −1 |
| SparseExtend.TieExample | src/extend.cpp:110-118 | with kNN = 1, values within epsilon of the first one are kept after the cap is reached |
| SparseExtend.SparsifyIdempotent | src/extend.cpp:107-121 | capping an already capped row changes nothing |
| SparseExtend.NextCandidate | src/extend.cpp:87-105 | one merge step emits the head of the remaining merge and advances exactly one cursor |
| SparseExtend.MergeRow | src/extend.cpp:83-122 | the row's three vectors are the distances, row index and columns of Sparsify(Merge(qr candidates, rr candidates)) |
| SparseExtend.Assemble | src/extend.cpp:127-131 | the assembled graph's three vectors have equal length |
| SparseExtend.AssembleWellFormed | src/extend.cpp:127-131 | rows without self pairs assemble into a well-formed, row-sorted graph with no self pair |
| SparseExtend.AssembleEmpty | src/extend.cpp:127-131 | all-empty rows assemble into the empty graph |
| SparseExtend.RowDists | src/extend.cpp:68-70 | the reference row's distances span exactly [RowStart(i), RowStart(i+1)) |
| SparseExtend.QrList | src/extend.cpp:66-75 | the first list of a row has nq entries: row i of the reference–query matrix for a reference row, row i − nr of the query–query matrix for a query row |
| SparseExtend.RrList | src/extend.cpp:66-75 | the second list of a query row is column i − nr of the reference–query matrix, with nr entries; for a reference row it is the row's own distances, spanning exactly [RowStart(i), RowStart(i+1)) |
| SparseExtend.ExtendRow | src/extend.cpp:62-122 | an output row of extend is empty when either of its lists is, is otherwise shorter than both lists together, and never holds the self pair |
| SparseExtend.ExtendRowProperties | src/extend.cpp:62-122 | an extended row has no self pair, is sorted by distance, holds at most kNN distinct values, uses only valid columns, and is empty when either input list is |
| SparseExtend.ExtendRowColumns | src/extend.cpp:91-105 | each column is a query column in [nr, nr+nq), a column of the row's existing entries, or a reference index for a query row |
| SparseExtend.QrColumnsOk | src/extend.cpp:94 | reference–query candidates have valid columns |
| SparseExtend.RrColumnsOk | src/extend.cpp:98-102 | reference–reference candidates have valid columns |
| SparseExtend.CappedColumns | src/extend.cpp:107-121 | a column property holding for both lists holds for the capped merge |
| SparseExtend.ExtendOneRow | src/extend.cpp:62-123 | the row's vectors are those of ExtendRow under the sort orders used |
| SparseExtend.GatherRows | src/extend.cpp:62-124 | after the row loop every row equals ExtendRow and the vectors concatenate to Assemble(rows) with total length len |
| SparseExtend.CombineRows | src/extend.cpp:127-131 | the combined vectors are the assembled graph |
| SparseExtend.ExtendGraph | src/extend.cpp:44-132 | the extended graph is well formed over nr+nq rows, has no self pair, and is empty when nq = 0 |
| SparseExtend.Extend | src/extend.cpp:44-132 | the output is Assemble of the ExtendRow rows: well formed over nr+nq rows, no self pair, empty when nq = 0 |
| SparseExtend.LowerRankRow | src/extend.cpp:144-171 | a row of lower_rank is no longer than the input row and never holds the self pair |
| SparseExtend.LowerRankRowProperties | src/extend.cpp:144-172 | a reduced row has no self pair, is sorted, holds at most kNN distinct values, is no longer than the input row, and every entry is an entry of that row; with kNN = 0 it is empty |
| SparseExtend.LowerRankRowEntry | src/extend.cpp:152-158 | each kept entry is, column and distance both, an entry of the input row |
| SparseExtend.LowerRankGraph | src/extend.cpp:134-174 | the reduced graph is well formed, has no self pair and is no larger than the input |
| SparseExtend.CapRow | src/extend.cpp:150-171 | the row loop appends exactly the capped sorted entries of the row to the output vectors |
| SparseExtend.NextEntry | src/extend.cpp:154-155 | the fetched column and distance are the next candidate of the sorted row |
| SparseExtend.LowerRank | src/extend.cpp:134-174 | the output is Assemble of the LowerRankRow rows: well formed, no self pair, no more entries than the input |
| SparseExtend.LowerRankIdempotent | src/extend.cpp:134-174 | the rows lower_rank produced are again the rows of lower_rank over its own output, with each sorted row kept in order |
| SparseExtend.LowerRankRowAgain | src/extend.cpp:144-171 | row i of lower_rank over the assembled output is row i again, and that row's distances are sorted by the identity order |
| SparseExtend.AssembleCandidates | src/extend.cpp:150-155 | reading row i of an assembled graph back as sorted candidates gives exactly rows[i] |
| SparseExtend.AssembleRowStart | src/extend.cpp:16-30 | row i of an assembled graph starts after the entries of the earlier rows |
| SparseExtend.AssembleRow | src/extend.cpp:150-155 | row i of an assembled graph spans exactly as many entries as rows[i] holds, with that row's distances and columns |
| KmerCounters.HashPerHashIsFloor | src/countmin.cpp:17-18 | hash_per_hash is floor(64 / table_width_bits) = 2, with table_width_bits = 24 |
| KmerCounters.MaskWithinWidth | src/countmin.cpp:17-19 | the mask 0x4FFFFF is below 2^24 − 1, so it is not the 24 low bits a row of table_width_bits would need |
| KmerCounters.Bump | src/countmin.cpp:53-55 | one increment of a cell is the cell plus one, saturated at 255 |
| KmerCounters.ShiftRightIsDivision | src/countmin.cpp:65 | the right shift by n bits is division by 2^n |
| KmerCounters.ShiftedIsDivision | src/countmin.cpp:49-65 | before row i of a word the hash value has been shifted i times by table_width_bits, so it is the word divided by 2^(24·i) |
| KmerCounters.Reached | src/countmin.cpp:60-64 | the first row of every word is reached; a later row only while the word's earlier cells were below 255 |
| KmerCounters.EstimateUpTo | src/countmin.cpp:46-68 | the running value is 0 before any row and positive once a row has been visited |
| KmerCounters.Estimate | src/countmin.cpp:46-68 | add_count returns a positive value iff the table has rows |
| KmerCounters.BitAnd | src/countmin.cpp:52 | a bitwise and never exceeds either operand |
| KmerCounters.SubHash | src/countmin.cpp:49-65 | every sub-hash, that is the word shifted by k·24 bits and masked, is at most the mask |
| KmerCounters.Column | src/countmin.cpp:49-52 | every row's column fits the mask |
| KmerCounters.Columns | src/countmin.cpp:47-52 | one column per row, each inside the table |
| KmerCounters.RowColumn | src/countmin.cpp:49-65 | row start+i uses the word of its row pair, shifted i times by 24 bits and masked |
| KmerCounters.AfterAdd | src/countmin.cpp:53-64 | the table after add_count has the same shape |
| KmerCounters.AfterAddFrame | src/countmin.cpp:53-64 | only the addressed cell of a row changes, and by at most one saturating step; a reached unsaturated cell gains one; rows not reached stay the same |
| KmerCounters.EstimateIsMax | src/countmin.cpp:46-68 | the returned value is the largest incremented value of the reached rows, attained by one of them, 0 for no rows and at least 1 otherwise |
| KmerCounters.EstimateAbove | src/countmin.cpp:55-57 | every reached row's incremented value is at most the returned value |
| KmerCounters.EstimateAttained | src/countmin.cpp:55-62 | some reached row attains the returned value |
| KmerCounters.SaturationEndsWord | src/countmin.cpp:60-64 | a saturated reached cell makes the result 255, skips the rest of its word's rows, and every word's first row is still reached |
| KmerCounters.RestNotReached | src/countmin.cpp:63 | after a saturated cell, the remaining rows of the word are not reached |
| KmerCounters.SaturatedStep | src/countmin.cpp:60-64 | a saturated cell leaves its word's remaining cells unchanged and the result 255 |
| KmerCounters.EstimateSkip | src/countmin.cpp:50-63 | rows that are not reached do not change the result |
| KmerCounters.WordStartReached | src/countmin.cpp:49-50 | the first row of every word is reached |
| KmerCounters.AddStep | src/countmin.cpp:53-58 | an unsaturated reached cell gains one, the running value becomes the maximum with it, and the next row of the word is reached |
| KmerCounters.AddsAppend | src/countmin.cpp:44-69 | adding one more k-mer applies AfterAdd to the table built from the earlier ones |
| KmerCounters.CellsCountHits | src/countmin.cpp:44-69 | a cell counts, up to 255, at most the k-mers addressing it, and exactly that in the first row of each word |
| KmerCounters.OccurrencesBelowHits | src/countmin.cpp:49-52 | occurrences of a hash word are at most the hits on its first-row cell |
| KmerCounters.NeverUnderestimates | src/countmin.cpp:44-69 | the value add_count returns is at least the number of times the k-mer's first hash word has been added, this call included, capped at 255 |
| KmerCounters.CountMin.constructor | src/countmin.cpp:23-37 | a zero table of the given shape; num_hashes_needed is table_rows / hash_per_hash; min_count is kept |
| KmerCounters.CountMin.AddCount | src/countmin.cpp:44-69 | the table becomes AfterAdd of the old one, the k-mer joins the history and the result is Estimate of the old table |
| KmerCounters.CountMin.AddRows | src/countmin.cpp:47-67 | the outer loop updates every row and returns Estimate |
| KmerCounters.CountMin.UpdatedAll | src/countmin.cpp:47-67 | once every row is updated, the array holds AfterAdd of the old table |
| KmerCounters.CountMin.AddWord | src/countmin.cpp:49-66 | one word updates its rows and the running value becomes the estimate over the rows so far |
| KmerCounters.CountMin.AddRow | src/countmin.cpp:53-64 | a cell below 255 is incremented and continues the word; a saturated one ends the word with result 255 |
| KmerCounters.CountMin.SaturatedState | src/countmin.cpp:60-64 | a saturated cell completes the word's state with value 255 |
| KmerCounters.CountMin.AboveMin | src/countmin.cpp:71-74 | true iff the value add_count returns exceeds min_count, with add_count's effect on the table |
| KmerCounters.Increment | src/countmin.cpp:76-91 | a new key stores 1, a key below 255 gains one and returns it, a saturated key returns 0 and leaves the map unchanged; other keys are untouched |
| KmerCounters.RepeatedAddCount | src/countmin.cpp:76-91 | after n adds a fresh key stores min(n, 255) and the next add returns n+1 below 255, else 0 |
| KmerCounters.Probed | src/countmin.cpp:93-96 | probing inserts the key, keeps its stored count (0 for a missing key) and changes no other entry |
| KmerCounters.ProbeThenIncrement | src/countmin.cpp:76-96 | a probe before an add changes neither the add's result nor the resulting map |
| KmerCounters.HashCounter.constructor | src/countmin.cpp:39-42 | an empty map; num_hashes_needed is 0 |
| KmerCounters.HashCounter.AddCount | src/countmin.cpp:76-91 | the map and result are those of Increment on the first hash word |
| KmerCounters.HashCounter.Probe | src/countmin.cpp:93-96 | returns the stored count and the map becomes Probed |
| KmerCounters.HashCounter.AboveMin | src/countmin.cpp:71-74 | true iff the value add_count returns exceeds min_count |

## Left out

- OpenMP parallelism of the row loop in `extend` is not modelled. Rows are independent and the model runs them in order.
- Distances are `real`, not `float`. Rounding and `abs` on floats are not modelled.
- `sort_indexes` (extend.hpp) is not part of this model. `SortIndexes` states its contract: an ascending permutation of the indices. It is written as an insertion sort, and the order of equal distances is left open. `Extend` and `LowerRank` return the orders they used as ghost outputs.
- Eigen matrices are sequences of rows (`Matrix`). A sparse graph is a value of three sequences.
- The ntHash iterator is not modelled. A k-mer is its sequence of 64-bit hash words.
- countmin.hpp is not part of this model. `table_rows` and `table_width` are constructor parameters: rows a multiple of 2, width above the mask.
- src/gpu.hpp is not modelled. It declares `GPUCountMin` and `DeviceReads`, a device-side count-min table and read buffer, and `get_signs`, which runs the counting on a GPU.
- visualise.py and sparse_mst.py are not modelled. They only call or use the graph.
- Bit operations are modelled on naturals: shifts are halvings and `&` is bit by bit. The narrowing to `uint32_t` is not modelled, because a masked value already fits it.
- KmerCounter is a base class; Dafny traits are not used here. `min_count`, `num_hashes_needed` and `AboveMin` appear in each of the two classes.
- CombineVectors: the entries beyond the total length, which the source value-initialises, are left unspecified.
- RowStartIndices: it requires a row-sorted graph and `RowStartSafe`. On a graph that is not row-sorted the source still returns, but the result is not a table of row offsets: `i_vec` = [1, 0] with n = 2 gives [0, 0, 2]. When no entry has row >= n − 1 (n >= 2), the cursor reads past the row vector, which has no defined result to model.
- Merge: its own contract states only when the merge is empty and its length. Which candidates it emits, and in what order, is proved separately in `MergeEmitsSmallest`, `MergeSorted` and `MergeTakesPrefixes`.
- LowerRank: idempotence (`LowerRankIdempotent`) is proved over the rows, not as a second run of the `LowerRank` method. The second pass uses the order that keeps each sorted row in place, because `sort_indexes` leaves the order of equal distances open. The method also needs `RowStartSafe` of its input, which its own output can fail: with kNN = 0 and n >= 2 the output has no entries.
- EstimateUpTo, Estimate, Reached and Bump: their own contracts state only bounds. What the value means (the largest incremented reached cell) is proved in `EstimateIsMax`, `EstimateAbove`, `EstimateAttained` and `SaturationEndsWord`.
- ExtendRow and LowerRankRow: their own contracts state emptiness, length and the missing self pair. Sortedness, the kNN cap and the columns are proved in `ExtendRowProperties`, `ExtendRowColumns` and `LowerRankRowProperties`.
- CountMin.AddCount: it requires at least `num_hashes_needed` hash words. The source reads them from the iterator without checking.
- HashCounter.AddCount, HashCounter.Probe and HashCounter.AboveMin: they require at least one hash word. The source reads word 0 unconditionally.
