# Verified models of openGauss contrib code

This project models five groups of code under `contrib/` and proves that a fast, packed or heuristic form agrees
with a simple definition.

- **Edit distance.** The two-row and the banded Levenshtein distance of `fuzzystrmatch`, over multibyte text, against
  the least cost of an edit script, for costs of any sign (`EditDistance`, `EditSigns`, `EditBand`, `BandRun`,
  `MultibyteText`, `Levenshtein`, `LevenshteinCosts`).
- **GiST keys.** Truncated `bytea` keys (`VarKey`, `VarKeyIndex`, `VarKeyHistory`, `VarKeyLoss`), ranges (`NumKey`),
  boxes (`Cube`, `CubeOrder`, `CubeIndex`) and hashed signatures (`HstoreGist`, `HstoreGistIndex`). A search must not
  prune a row, whatever history of unions and page splits the keys on the way down have.
- **hstore.** The packed format, its construction, the grammar of the text form, text input and output, the binary
  form, and the in-place upgrade of old values (`HstoreFormat`, `HstorePairs`, `HstoreText`, `HstoreGrammar`,
  `HstoreRoundTrip`, `HstoreBinary`, `HstoreMessage`, `HstoreLimits`, `HstoreCompat`, `HstoreQuery`).
- **GIN scans.** hstore items (`HstoreGin`) and the comparison operators of `btree_gin` (`BtreeGin`).
- **Scheduling of files to datanodes.** `Scheduler`, `SchedulerLocation`, `SchedulerRun`, `SchedulerHdfs`,
  `SchedulerRequest`.

`Bytes`, `Order`, `Options` and `PageOffsets` hold what several of these share.

Results of `qsort`, random numbers, hash functions, comparison functions, the encoding's character lengths and the
answers of the catalog and the file system are parameters; the theorems hold for all of them. Doubles are `real`,
C integers are `int` except where a bound is stated.

Several properties that one might expect do not hold of the code. Each has a concrete failing input and an exact
condition:

- A page split of *inner* `bytea` keys can lose a row. Both halves are cut at one shared length, so a half's upper bound
  may go on past an entry whose own bound was cut shorter, and then values that extend the entry's bound are out of reach
  (`InnerSplitLosesRow`). At every level of the tree a split finds every row that its keys may stand for, at the half and
  above it, if and only if no entry is loose in that way, or the half's lower bound has only zero bytes and is a prefix
  of its upper bound (`SplitExact`). Which entries can be loose depends on their level: a key of a leaf page was cut from
  whole rows (`OpenAt`). Unions and splits of leaf pages are always safe.
- `cube_cmp_v0` has cycles (`ConcreteCycle`). For dimensions p <= q <= r it is transitive if and only if p = q, or p = 0
  and q = r (`TransitiveIff`).
- A `cube` search for "contained by" can prune a matching row if the query has more dimensions than the row
  (`ContainedByLosesRow`, `ContainedByExact`).
- `btree_gin` searches with `<` and `<=` on `"char"` miss every key from 0 to 127, because the leftmost value used is
  -128 and compares as 128 (`CharLosesLetter`, `CharMisses`). On `bigint`, and `money`, they miss the least value, because
  the leftmost value used is one above it (`Int8LosesLeast`, `Int8Misses`). In general see `ExactIffLeast`.
- `hstore_in` refuses texts that `hstore_out` writes, if the hstore has more than 2^24 pairs, because the array of pairs
  cannot be doubled again (`RefusedByIn`, `OutThenIn`).
- `hstore_recv` refuses messages that `hstore_send` writes, if the hstore has more pairs than fit an allocation at 40
  bytes each (`RefusedByRecv`, `SendThenRecv`).
- An old-format hstore keeps its meaning in the upgrade if and only if it is not below 32768 bytes with a null as first
  value that has a stored length of at least 32768 (`MisreadOld`, `FastPathOnOld`, `MisreadAlways`, `Stored.Upgrade`).
- A new-format hstore that the upgrade keeps may still have a null flag on its first key, or null values with a length:
  it is well formed exactly if it has neither (`KeptNullKey`, `KeptWellFormedIff`).
- The flags of cached replicas are written behind the nodes they belong to, and may be written past the end of their
  buffer (`FlagsPassBuffer`; `Locate` and `HdfsFileScheduling` state exactly when).
- With negative costs the bounded edit distance can be wrong (`NegativeCostFails`). It is right for all strings and bounds
  if and only if no cost is negative, or neither insertions nor deletions cost anything, or neither a replacement nor a
  deletion with an insertion gains anything and one of the two is free (`Sound`; `Bounded`, `WrongUnlessSound`).

## Model

| member | source | states |
|---|---|---|
| `EditDistance.DistanceIsLeast` | contrib/fuzzystrmatch/levenshtein.cpp:37-48 | The last cell of the matrix is the least cost of a script of insertions, deletions and replacements that turns s into t: some script costs that much, none costs less, for costs of any sign. |
| `EditDistance.NoScriptIsCheaper` | contrib/fuzzystrmatch/levenshtein.cpp:262-276 | Each cell is at most the cost of every script between the two prefixes. |
| `EditDistance.SomeScriptAttains` | contrib/fuzzystrmatch/levenshtein.cpp:262-276 | Each cell is the cost of some script between the two prefixes. |
| `EditDistance.ClampKeepsDist` | contrib/fuzzystrmatch/levenshtein.cpp:145-146 | Lowering the replacement cost to one insertion plus one deletion changes no cell, for costs of any sign. |
| `EditDistance.DiagonalRises` | contrib/fuzzystrmatch/levenshtein.cpp:216-219 | With nonnegative costs values never fall along a diagonal. |
| `EditDistance.HopelessRowStays` | contrib/fuzzystrmatch/levenshtein.cpp:358-360 | If every cell of a row plus the least cost still to come exceeds the bound, so does every later row. |
| `EditSigns.LeastForced` | contrib/fuzzystrmatch/levenshtein.cpp:142-144 | Unless a replacement, or a deletion with an insertion, gains something, the distance is at least the cost of evening out the lengths. |
| `EditDistance.TheoreticalMaximum` | contrib/fuzzystrmatch/levenshtein.cpp:147-149 | Unless a replacement gains something, the distance is at most that plus a replacement for every character of the shorter string. |
| `EditSigns.SoundBounds` | contrib/fuzzystrmatch/levenshtein.cpp:142-150 | For all sound costs both bounds hold where they decide, and where they do not no cost is negative. |
| `EditDistance.BeyondStopColumn` | contrib/fuzzystrmatch/levenshtein.cpp:163-168 | Row-zero columns from the initial stop column on cannot be part of a result within the bound. |
| `EditBand.CellTracks` | contrib/fuzzystrmatch/levenshtein.cpp:262-276 | If three neighbours are exact where their value plus residual is within the bound and beyond it elsewhere, so is the new cell. |
| `EditBand.RowTracks` | contrib/fuzzystrmatch/levenshtein.cpp:250-299 | That invariant passes from a row and its left end along the whole next row. |
| `EditBand.NextBand` | contrib/fuzzystrmatch/levenshtein.cpp:222-237 | A banded row filled from a banded row, with its sentinels, is again banded one column further right. |
| `EditBand.LastBand` | contrib/fuzzystrmatch/levenshtein.cpp:369 | In a last row that has a live column the last cell is the distance and is within the bound. |
| `EditBand.EmptyBand` | contrib/fuzzystrmatch/levenshtein.cpp:358-360 | When start and stop column cross, the distance exceeds the bound. |
| `EditBand.ResidualIsProduct` | contrib/fuzzystrmatch/levenshtein.cpp:327-334 | The product computed from the zero point is the least cost of evening out what remains. |
| `MultibyteText.CountGlyphs` | src/common/backend/utils/mb/mbutils.cpp:790-806 | Counts the characters of a well-encoded string. |
| `MultibyteText.GlyphsLaidOut` | contrib/fuzzystrmatch/levenshtein.cpp:181-191 | The characters lie end to end in the bytes and use them all. |
| `MultibyteText.SingleBytes` | contrib/fuzzystrmatch/levenshtein.cpp:173-180 | If there are as many characters as bytes, character k is byte k: the premise of the fast path. |
| `Levenshtein.RestOfCharSame` | contrib/fuzzystrmatch/fuzzystrmatch.cpp:163-171 | True exactly when the two stretches of bytes are equal. |
| `Levenshtein.SameGlyph` | contrib/fuzzystrmatch/levenshtein.cpp:268-270 | Last byte, lengths and remaining bytes together decide equality of two characters. |
| `Levenshtein.CacheLengths` | contrib/fuzzystrmatch/levenshtein.cpp:181-191 | The cache holds the byte length of every character and ends in zero. |
| `Levenshtein.FirstRow` | contrib/fuzzystrmatch/levenshtein.cpp:205-206 | The cells before the stop column are those of row zero of the matrix. |
| `Levenshtein.FillRowMultibyte` | contrib/fuzzystrmatch/levenshtein.cpp:250-280 | Fills exactly the columns asked for, each the cheapest of its three neighbours, reading whole characters. |
| `Levenshtein.FillRowSingleByte` | contrib/fuzzystrmatch/levenshtein.cpp:281-299 | Does the same, to the same specification, when every character is one byte. |
| `Levenshtein.Rows` | contrib/fuzzystrmatch/levenshtein.cpp:205-304 | The two alternating rows end with the distance, with or without the character cache. |
| `Levenshtein.Unbounded` | contrib/fuzzystrmatch/levenshtein.cpp:67-370 | levenshtein_internal returns the least script cost, and refuses exactly nonempty strings of which one is over the limit. |
| `Levenshtein.Bounded` | contrib/fuzzystrmatch/levenshtein.cpp:65-370 | levenshtein_less_equal_internal, with sound costs, returns the distance if it is at most max_d and max_d + 1 otherwise; with any costs the plain distance if a string is empty or max_d is negative, and otherwise what giving up, dropping the bound or the band yields; and refuses exactly what the unbounded form refuses. |
| `LevenshteinCosts.NegativeCostFails` | contrib/fuzzystrmatch/levenshtein.cpp:127-144 | From "a" to "bc" with deletions at -5 the distance is within the bound 0 and the answer is 1. |
| `LevenshteinCosts.WrongUnlessSound` | contrib/fuzzystrmatch/levenshtein.cpp:127-370 | For all costs that are not sound some strings of at most two characters and some bound get a wrong answer. |
| `LevenshteinCosts.SentinelInserted` | contrib/fuzzystrmatch/levenshtein.cpp:222-225 | With a negative insertion cost the sentinel right of the band gets into the answer. |
| `LevenshteinCosts.SentinelDeleted` | contrib/fuzzystrmatch/levenshtein.cpp:340-356 | With a negative deletion cost the sentinel left of the band does. |
| `Levenshtein.Tighten` | contrib/fuzzystrmatch/levenshtein.cpp:127-170 | Gives up exactly if evening out the lengths costs more than max_d; with sound costs the distance then exceeds max_d, and the bound is dropped only if the distance is within it; keeps the distance under the clamped cost, and with nonnegative costs leaves out only hopeless columns. |
| `Levenshtein.FirstStop` | contrib/fuzzystrmatch/levenshtein.cpp:150-169 | Columns from the initial stop column on are hopeless in row zero. |
| `Levenshtein.BandedRows` | contrib/fuzzystrmatch/levenshtein.cpp:205-369 | With nonnegative costs the banded matrix yields the distance if it is within the bound and bound + 1 otherwise; with any costs exactly what the rows and slides of the band yield. |
| `Levenshtein.NextRow` | contrib/fuzzystrmatch/levenshtein.cpp:209-362 | One row and one slide keep the band invariant and both pointers; an emptied band means the distance exceeds the bound. |
| `Levenshtein.BandedRow` | contrib/fuzzystrmatch/levenshtein.cpp:222-299 | One row inside the band keeps the band invariant and the sentinels left of it. |
| `Levenshtein.SlideStop` | contrib/fuzzystrmatch/levenshtein.cpp:329-337 | Moving the stop column left keeps the band invariant. |
| `Levenshtein.SlideStart` | contrib/fuzzystrmatch/levenshtein.cpp:339-356 | Moving the start column right keeps the band invariant, leaves sentinels in both rows, advances s_data by whole characters and stops on a live column. |
| `VarKey.CutUnionCovers` | contrib/btree_gist/btree_utils_var.cpp:162-226 | United keys cut at the common prefix and two bytes or later cover what an entry covers, unless the entry is loose below the cut bound. |
| `VarKey.FoldBounds` | contrib/btree_gist/btree_utils_var.cpp:249-280 | The bounds of united keys lie outside those of each of them. |
| `VarKey.FoldAttained` | contrib/btree_gist/btree_utils_var.cpp:249-280 | Each bound of united keys is the bound of one of them. |
| `VarKey.TightBound` | contrib/btree_gist/btree_utils_var.cpp:162-186 | A value that extends the bound of an entry that is not loose is up to the wider bound or extends it. |
| `VarKey.UnionNeverLoose` | contrib/btree_gist/btree_utils_var.cpp:249-280 | gbt_var_union leaves no entry loose. |
| `VarKey.LeafNeverLoose` | contrib/btree_gist/btree_utils_var.cpp:370-445 | Entries of leaf pages are never loose, wherever the split cuts. |
| `VarKeyIndex.NodePrefixLen` | contrib/btree_gist/btree_utils_var.cpp:94-128 | The common prefix length of the two bounds. |
| `VarKeyIndex.BinUnion` | contrib/btree_gist/btree_utils_var.cpp:188-226 | Replaces exactly the bounds that the new entry exceeds. |
| `VarKeyIndex.UnionLoop` | contrib/btree_gist/btree_utils_var.cpp:249-280 | The union of all entries cut to the common prefix and two bytes. |
| `VarKeyIndex.PickSplit` | contrib/btree_gist/btree_utils_var.cpp:370-445 | The first half of the sorted entries, rounded down, goes left and the others right, so no entry on the left has a greater lower bound than one on the right, or the same and a greater upper bound; each datum is the union of its half, both cut at the longer prefix and two bytes. |
| `VarKeyIndex.LeafExact` | contrib/btree_gist/btree_utils_var.cpp:450-500 | On a row's own key gbt_var_consistent is the operator, for all six strategies. |
| `VarKeyIndex.ReachesIsEqual` | contrib/btree_gist/btree_utils_var.cpp:470-477 | A node key reaches a value if and only if it is consistent with a search for that value. |
| `VarKeyIndex.ReachedIsConsistent` | contrib/btree_gist/btree_utils_var.cpp:450-500 | A node key that reaches a satisfying value is consistent, prefix matches included; with equal bounds, if it covers the value. |
| `VarKeyIndex.NodeExact` | contrib/btree_gist/btree_utils_var.cpp:450-500 | An inner key is consistent if and only if it reaches some value that satisfies the operator, with < taken as <= and > as >=; for "not equal" exactly if a bound differs from the query. |
| `VarKeyHistory.LeafSplitSafe` | contrib/btree_gist/btree_utils_var.cpp:370-445 | A split of rows' own keys is safe. |
| `VarKeyHistory.LeafPageCovers` | contrib/btree_gist/btree_utils_var.cpp:188-445 | Every key of a leaf page covers its rows: a row beyond the upper bound extends it, and then the bound was cut for the page's own rows or for rows beside them. |
| `VarKeyHistory.KeyKeepsRow` | contrib/btree_gist/btree_utils_var.cpp:188-280 | In every history of unions and safe splits each key is ordered and covers every row below, or its lower bound is a prefix of the row with only zero bytes. |
| `VarKeyHistory.NoRowLost` | contrib/btree_gist/btree_utils_var.cpp:450-500 | In every such history, if a row below satisfies the operator then every key above it is consistent. |
| `VarKeyLoss.Realise` | contrib/btree_gist/btree_utils_var.cpp:162-445 | At every level a key whose bound may have been cut can come about with any extension of the bound as a row below it, on pages with entries of one level. |
| `VarKeyLoss.SplitExact` | contrib/btree_gist/btree_utils_var.cpp:370-445 | At every level a split of a sorted page finds every row that the same keys may stand for, at the half and at every key made from it, if and only if it is safe. |
| `VarKeyLoss.InnerSplitLosesRow` | contrib/btree_gist/btree_utils_var.cpp:414-441 | On a concrete page of four inner keys the left datum that gbt_var_picksplit computes leads an equality search away from a row under the first entry. |
| `NumKey.Union` | contrib/btree_gist/btree_utils_num.cpp:90-115 | The least range that spans all entries. |
| `NumKey.BinUnion` | contrib/btree_gist/btree_utils_num.cpp:136-158 | Keeps the least range that spans the entries so far; the first entry starts it. |
| `NumKey.PickSplit` | contrib/btree_gist/btree_utils_num.cpp:226-264 | Each offset goes to exactly one half, half of them left, both nonempty from two entries on; no lower bound on the left exceeds one on the right; each datum is the least range of its half. |
| `NumKey.LeafExact` | contrib/btree_gist/btree_utils_num.cpp:166-204 | On a row's own key gbt_num_consistent is the operator; other strategies fail. |
| `NumKey.NodeExact` | contrib/btree_gist/btree_utils_num.cpp:166-204 | An inner key is consistent if and only if its range holds a satisfying value, for all six operators with < taken as <= and > as >=; other strategies fail. |
| `NumKey.NodeWithin` | contrib/btree_gist/btree_utils_num.cpp:90-158 | In every history of unions and splits each node's range lies within those above it. |
| `NumKey.NoRowLost` | contrib/btree_gist/btree_utils_num.cpp:166-204 | In every history no key above a satisfying row is inconsistent. |
| `NumKey.NodeDistance` | contrib/btree_gist/btree_utils_num.cpp:210-224 | In every history a node's distance is at most that of every node below, for any distance that grows away from the query. |
| `NumKey.LeafDistance` | contrib/btree_gist/btree_utils_num.cpp:210-224 | On a row's own key it is the distance of the row. |
| `NumKey.NodeDistanceExact` | contrib/btree_gist/btree_utils_num.cpp:210-224 | An inner key's distance is zero inside its range and otherwise that of its nearer bound. |
| `NumKey.FloatDistanceGrows` | contrib/btree_gist/btree_utils_num.h:84 | The distance is the larger value less the smaller one, and grows away from the query. |
| `Cube.Union` | contrib/cube/cube.cpp:653-696 | The least box around two zero-padded boxes, corners in order, for any dimensions and corner orders. |
| `Cube.Inter` | contrib/cube/cube.cpp:712-766 | The bounds of the intersection of two zero-padded boxes. |
| `Cube.ContainsV0` | contrib/cube/cube.cpp:956-986 | Containment in every dimension, except those only the container has. |
| `Cube.ContainsIffPoints` | contrib/cube/cube.cpp:954-986 | That is: no point of the contained box, as far as its dimensions go, lies outside the container. |
| `Cube.OverlapV0` | contrib/cube/cube.cpp:1016-1052 | The zero-padded boxes meet in every dimension. |
| `Cube.OverlapIffCommonPoint` | contrib/cube/cube.cpp:1014-1052 | That is: they have a point in common. |
| `Cube.CompareV0` | contrib/cube/cube.cpp:803-868 | The sign of the first difference of lower bounds, then upper bounds, of common then of other dimensions; zero exactly for the same box. |
| `Cube.OrderAntisymmetric` | contrib/cube/cube.cpp:803-868 | Exchanging the boxes changes the sign. |
| `CubeOrder.TransitiveIff` | contrib/cube/cube.cpp:803-868 | Among boxes of dimensions p <= q <= r the comparison is transitive if and only if p = q, or p = 0 and q = r. |
| `CubeOrder.ConcreteCycle` | contrib/cube/cube.cpp:803-868 | Three boxes of dimensions 1, 2 and 2 of which each is below the next, in a cycle. |
| `Cube.Distance1DIsGap` | contrib/cube/cube.cpp:1111-1123 | distance_1D is how far apart two intervals are, whatever the order of their ends. |
| `Cube.SquaredDistance` | contrib/cube/cube.cpp:1071-1098 | The sum of the squared gaps over all dimensions of both boxes. |
| `Cube.DistanceIsLeast` | contrib/cube/cube.cpp:1066-1098 | That sum is the least squared Euclidean distance between points of the zero-padded boxes, and is attained. |
| `Cube.DistanceSymmetric` | contrib/cube/cube.cpp:1071-1098 | The distance is symmetric. |
| `Cube.ZeroIffOverlap` | contrib/cube/cube.cpp:1066-1098 | The distance is zero exactly when the boxes overlap. |
| `CubeIndex.UnionAll` | contrib/cube/cube.cpp:359-383 | g_cube_union yields exactly the zero-padded bounding box of all entries; for a single entry it yields no box. |
| `CubeIndex.Size` | contrib/cube/cube.cpp:787-799 | The product of the sides. |
| `CubeIndex.BoundsVolume` | contrib/cube/cube.cpp:787-799 | A box that bounds others has the volume they span. |
| `CubeIndex.Seeds` | contrib/cube/cube.cpp:467-494 | The seeds are the first of the pairs, the last entry aside, whose union wastes most space beyond their intersection; of three offsets the first two entries. |
| `CubeIndex.PickSplit` | contrib/cube/cube.cpp:436-563 | From those seeds, every other offset in turn goes left exactly if the box spanned by the left entries and it grows by less volume than on the right; the two lists are nonempty, strictly increasing and hold each offset once; each datum is exactly the zero-padded bounding box of its list. |
| `CubeIndex.LeafConsistent` | contrib/cube/cube.cpp:588-614 | The operator of the strategy, old spellings included; other strategies fail. |
| `CubeIndex.InternalConsistent` | contrib/cube/cube.cpp:616-640 | Overlap for overlap and contained-by, containment for same and contains. |
| `CubeIndex.KeySpansRow` | contrib/cube/cube.cpp:359-383 | In every history of unions and splits each key spans every row below in every dimension. |
| `CubeIndex.NoRowLost` | contrib/cube/cube.cpp:588-640 | In every history a satisfying row is never pruned, for contained-by if the query's excess dimensions meet zero. |
| `CubeIndex.ContainedByExact` | contrib/cube/cube.cpp:616-640 | A row contained by the query survives under every key if and only if the query's excess dimensions meet zero; so always if the query has no more dimensions than the row. |
| `CubeIndex.ContainedByLosesRow` | contrib/cube/cube.cpp:632-635 | A concrete row, query and parent key for which it does not. |
| `HstoreGist.CompressLeaf` | contrib/hstore/hstore_gist.cpp:96-124 | A row's signature has exactly the bits that its keys and non-null values hash to, modulo 128. |
| `HstoreGist.CompressInner` | contrib/hstore/hstore_gist.cpp:125-142 | An inner key keeps its bits, and becomes all-true exactly if it has them all. |
| `HstoreGist.UnionKey` | contrib/hstore/hstore_gist.cpp:223-233 | Adds exactly the bits of a signature, or reports an all-true key and changes nothing. |
| `HstoreGist.Union` | contrib/hstore/hstore_gist.cpp:235-267 | A key with exactly the bits that some entry has. |
| `HstoreGistIndex.SizeBitVec` | contrib/hstore/hstore_gist.cpp:184-195 | The number of bits set. |
| `HstoreGistIndex.HemDist` | contrib/hstore/hstore_gist.cpp:197-221 | The Hamming distance of the bits the keys stand for, shortcuts for all-true keys included. |
| `HstoreGistIndex.Seeds` | contrib/hstore/hstore_gist.cpp:316-336 | The seeds are the first of the pairs farthest apart, the last entry aside; of three offsets the first two entries. |
| `HstoreGistIndex.Absorb` | contrib/hstore/hstore_gist.cpp:394-420 | A side's datum gains exactly the bits of the entry placed on it. |
| `HstoreGistIndex.PickSplit` | contrib/hstore/hstore_gist.cpp:291-429 | From those seeds and in any order the cost sort leaves, every entry goes left exactly if its distance to the left half, plus the cube of the left half's lead over 10000, is below its distance to the right half; each offset goes to exactly one of two nonempty halves, and each datum has exactly the bits of its half. |
| `HstoreGistIndex.Consistent` | contrib/hstore/hstore_gist.cpp:431-515 | True exactly if the key has the bits the query needs; always asks for a recheck. |
| `HstoreGistIndex.RowBitsSet` | contrib/hstore/hstore_gist.cpp:223-267 | In every history each key has every bit of every row below. |
| `HstoreGistIndex.NoRowLost` | contrib/hstore/hstore_gist.cpp:431-515 | In every history, for any hash function, a key above a row that satisfies contains, exists, exists-all or exists-any is consistent. |
| `HstoreFormat.EntryUnique` | contrib/hstore/hstore.h:22-29 | A word is determined by its two flags and its end position. |
| `HstoreFormat.PackedReadsBack` | contrib/hstore/hstore.h:27-31 | The accessor macros read exactly the pairs that were packed. |
| `HstoreFormat.WellFormedPacks` | contrib/hstore/hstore.h:57-78 | A well-formed hstore is the packing of the pairs it decodes to. |
| `HstoreFormat.PackedWellFormed` | contrib/hstore/hstore.h:57-78 | Every packing is well formed. |
| `HstoreFormat.PackedWords` | contrib/hstore/hstore.h:22-26 | The words of a packed hstore bit by bit: each text's end, bit 31 on the first word, bit 30 on null values; the size word and the varlena size. |
| `HstoreFormat.PacksUnique` | contrib/hstore/hstore.h:109-141 | The packing of given pairs is unique. |
| `HstorePairs.DedupKeeps` | contrib/hstore/hstore_io.cpp:228-266 | However the sort breaks ties, what is kept has keys of increasing length and, at equal length, of increasing first differing byte; it comes from the input and represents every input key. |
| `HstorePairs.StrictIsLengthThenBytes` | contrib/hstore/hstore_io.cpp:205-226 | Strictly increasing in the comparison of pairs is: shorter first, and at equal length the smaller first differing byte. |
| `HstorePairs.StrictIsFixed` | contrib/hstore/hstore_io.cpp:234-266 | Pairs with strictly increasing keys come out of sorting and removal of duplicates unchanged. |
| `HstorePairs.UniquePairs` | contrib/hstore/hstore_io.cpp:234-266 | Leaves the first pair of every run of equal keys at the front of the array and counts exactly their bytes. |
| `HstorePairs.AddItem` | contrib/hstore/hstore.h:109-126 | Writes the two words and the bytes of one pair where they belong and disturbs nothing before them. |
| `HstorePairs.PackPairs` | contrib/hstore/hstore_io.cpp:282-308 | Builds exactly the packing of the pairs and fills exactly buflen bytes; fails exactly if it exceeds an allocation. |
| `HstoreText.HSParser.Append` | contrib/hstore/hstore_io.cpp:35-43 | Stores the character within a buffer that doubles, and fails exactly if the word would reach 2^29 bytes. |
| `HstoreText.HSParser.GetVal` | contrib/hstore/hstore_io.cpp:51-127 | Reads one word and stops on its last byte, finds none at the end of the text, or fails exactly where the text has none or a word of 2^29 bytes or more. |
| `HstoreText.HSParser.Run` | contrib/hstore/hstore_io.cpp:135-203 | Yields the pairs of the text, and fails exactly where Parse does: see the grammar below. The array of pairs doubles until 2^24 pairs. |
| `HstoreGrammar.ParsesIffDerives` | contrib/hstore/hstore_io.cpp:51-203 | A C string is read as the pairs ps if and only if it is a sentence of the grammar that means ps: quoted and bare words, escapes, white space, arrows, commas also at the end, the bare word null in any case, all given by their characters; words up to 2^29 - 1 bytes and up to 2^24 pairs. |
| `HstoreGrammar.RefusedIffNothingDerives` | contrib/hstore/hstore_io.cpp:51-203 | A C string is refused if and only if no sentence of the grammar spells it, or only too large ones. |
| `HstoreGrammar.SpelledIsRead` | contrib/hstore/hstore_io.cpp:51-203 | Every sentence is read as its meaning, or refused exactly if it is too large. |
| `HstoreGrammar.DocFound` | contrib/hstore/hstore_io.cpp:51-203 | Whatever is read from any place on is a sentence of the grammar with those pairs as its meaning. |
| `HstoreGrammar.OneMeaning` | contrib/hstore/hstore_io.cpp:51-203 | Two sentences spelled alike mean the same. |
| `HstoreText.EscapedLength` | contrib/hstore/hstore_io.cpp:926-936 | Escaping at most doubles a string. |
| `HstoreText.CopyEscaped` | contrib/hstore/hstore_io.cpp:926-936 | Appends the escaped string within twice its length; see the next rows for what that is. |
| `HstoreText.EscapedJoin` | contrib/hstore/hstore_io.cpp:926-936 | Strings are escaped byte by byte. |
| `HstoreText.EscapedByte` | contrib/hstore/hstore_io.cpp:926-936 | A quote or a backslash gets a backslash in front, any other byte stays as it is. |
| `HstoreText.EscapedMarks` | contrib/hstore/hstore_io.cpp:926-936 | Escaping adds exactly one byte for every quote and backslash, and changes nothing if there are none. |
| `HstoreText.WriteAll` | contrib/hstore/hstore_io.cpp:976-999 | Writes the printed form and stays within the bytes reserved for it. |
| `HstoreText.Out` | contrib/hstore/hstore_io.cpp:938-1000 | The printed form, or an error exactly if the reserved size exceeds an allocation; see the next rows for what that is. |
| `HstoreText.PrintedPair` | contrib/hstore/hstore_io.cpp:976-996 | A pair is printed as the quoted key, an arrow, and the quoted value or NULL without quotes. |
| `HstoreText.PrintJoin` | contrib/hstore/hstore_io.cpp:990-993 | Pairs are separated by a comma and a blank. |
| `HstoreRoundTrip.ReservedIs` | contrib/hstore/hstore_io.cpp:956-971 | The reserved size is 8 bytes for each pair, 2 more for each null, and twice the bytes of all keys and values. |
| `HstoreRoundTrip.DocOfItems` | contrib/hstore/hstore_io.cpp:938-1000 | The printed form of the pairs is a sentence of the grammar that means them, null apart from the string null, quotes and backslashes included; it fits exactly if there are at most 2^24 pairs and every word is below 2^29 bytes. |
| `HstoreRoundTrip.PrintedIsRead` | contrib/hstore/hstore_io.cpp:135-203 | The parser reads the printed form back as the pairs, in order, exactly if it fits, and fails otherwise. |
| `HstoreRoundTrip.TextRoundTrip` | contrib/hstore/hstore_io.cpp:312-327 | Text written by hstore_out is read exactly if it fits, and is then packed into the same hstore, whatever order the sort leaves ties in. |
| `HstoreRoundTrip.In` | contrib/hstore/hstore_io.cpp:312-327 | Fails on texts that Parse refuses, too many pairs and too long words included, and on results beyond an allocation; otherwise packs the kept pairs into a well-formed hstore with its keys ordered by length, then bytes. |
| `HstoreRoundTrip.OutThenIn` | contrib/hstore/hstore_io.cpp:312-1000 | hstore_out then hstore_in returns the same hstore, or an error exactly if the reserved text or the hstore exceeds an allocation or there are more than 2^24 pairs. |
| `HstoreRoundTrip.ReservedFitsInt` | contrib/hstore/hstore_io.cpp:956-973 | The reserved size of a storable hstore does not overflow an int. |
| `HstoreBinary.AppendTwice` | src/common/backend/lib/stringinfo.cpp:223-240 | Appending in two steps is appending at once, failures included. |
| `HstoreBinary.Int32Value` | src/include/libpq/pqformat.h:91-99 | A number is sent as four bytes, the highest first, in two's complement. |
| `HstoreBinary.Send` | contrib/hstore/hstore_io.cpp:1004-1035 | The message is the count and then every pair, length before text, minus one for a null value; an error exactly if it does not stay below the largest allocation. |
| `HstoreBinary.WireLength` | contrib/hstore/hstore_io.cpp:1016-1031 | The message is as long as the packed hstore less its length word. |
| `HstoreBinary.WireReadsBack` | contrib/hstore/hstore_io.cpp:354-376 | Every pair sent is received, in order, null or not. |
| `HstoreBinary.Recv` | contrib/hstore/hstore_io.cpp:331-383 | Fails on short or malformed messages, null keys and too many pairs; otherwise packs the kept pairs into a well-formed hstore with its keys ordered by length, then bytes. |
| `HstoreMessage.ReceivedIff` | contrib/hstore/hstore_io.cpp:331-376 | A message gives the pairs ps if and only if it is a count up to 26843545 and that many rows that stand for ps, each with a length and a text for the key, and the same or any negative length for the value. |
| `HstoreMessage.RefusedIff` | contrib/hstore/hstore_io.cpp:331-376 | Exactly the other messages are refused. |
| `HstoreBinary.SendThenRecv` | contrib/hstore/hstore_io.cpp:331-1035 | hstore_send then hstore_recv returns the same hstore if and only if it has no more pairs than hstore_recv accepts and is shorter than the largest allocation. |
| `HstoreLimits.RefusedByIn` | contrib/hstore/hstore_io.cpp:150-153 | Builds an hstore of 2^24 + 1 pairs that is stored and printed with room to spare, and whose text hstore_in refuses. |
| `HstoreLimits.RefusedByRecv` | contrib/hstore/hstore_io.cpp:347-352 | Builds an hstore, with keys that text can hold, that is stored and sent with room to spare, and whose message hstore_recv refuses. |
| `HstoreCompat.ValidOld` | contrib/hstore/hstore_compat.cpp:162-216 | Accepts exactly values with increasing key lengths and gapless positions that fit; answers 2 exactly if the size is exact. |
| `HstoreCompat.ValidNew` | contrib/hstore/hstore_compat.cpp:114-154 | Accepts exactly flagged, empty or new-shaped values; answers 1 exactly for unflagged ones with slack. |
| `HstoreCompat.NewShapeIs` | contrib/hstore/hstore_compat.cpp:114-154 | An unflagged nonempty value is accepted exactly if it fits its size, is laid out as a new value, its keys do not get shorter, and no key but the first has a null flag. |
| `HstoreCompat.FastPathOnOld` | contrib/hstore/hstore_compat.cpp:229-230 | A valid old value under 32768 bytes takes the fast path exactly if its first value is null with a stored length of at least 32768; never if its first value is not null. |
| `HstoreCompat.MisreadOld` | contrib/hstore/hstore_compat.cpp:229-230 | A concrete old value that means a null is returned as it is and read as an empty string. |
| `HstoreCompat.MisreadAlways` | contrib/hstore/hstore_compat.cpp:229-230 | Every valid old value that takes the fast path is misread. |
| `HstoreCompat.OldKeysInOrder` | contrib/hstore/hstore_compat.cpp:187-193 | Key lengths of a valid old value do not decrease. |
| `HstoreCompat.UpgradedPacks` | contrib/hstore/hstore_compat.cpp:304-328 | The rewritten words are the packing of the pairs the old words meant. |
| `HstoreCompat.Stored.Rewrite` | contrib/hstore/hstore_compat.cpp:304-328 | Rewrites the words in place into that packing and sets the exact size. |
| `HstoreCompat.KeptLayout` | contrib/hstore/hstore_compat.cpp:239-251 | A value kept as new-format is laid out as one, and means the same with its flag and exact size set. |
| `HstoreCompat.KeptWellFormedIff` | contrib/hstore/hstore_compat.cpp:140-147 | It is then well formed if and only if the first key has no null flag and null values have no length, which is not tested. |
| `HstoreCompat.KeptNullKey` | contrib/hstore/hstore_compat.cpp:140-147 | A concrete kept value with a null flag on its first key, which is not well formed. |
| `HstoreCompat.Stored.Upgrade` | contrib/hstore/hstore_compat.cpp:221-331 | Fast path: unchanged. Valid old value: the same pairs in the new format with the exact size; it keeps its meaning if and only if it is not stale. Otherwise a new-format value is kept and decodes as before, its flag and size set if writable, or an error if it is neither. |
| `HstoreQuery.FindKey` | contrib/hstore/hstore_op.cpp:35-67 | Finds the key at or after the low bound if it is there, and the next search may start where this one ended. |
| `HstoreQuery.ContainsAll` | contrib/hstore/hstore_op.cpp:879-917 | hstore_contains, with its narrowing searches, is true exactly if every pair of the template is in the value. |
| `HstoreGin.ItemsDisjoint` | contrib/hstore/hstore_gin.cpp:20-43 | Tagged items are equal only for equal keys or equal values; a key item is never a value or null item. |
| `HstoreGin.Extract` | contrib/hstore/hstore_gin.cpp:45-74 | Two items per pair, its key and its value or null. |
| `HstoreGin.ExtractQuery` | contrib/hstore/hstore_gin.cpp:79-131 | The items of the query without null keys, and full-scan mode exactly for contains and exists-all without items. |
| `HstoreGin.Consistent` | contrib/hstore/hstore_gin.cpp:136-181 | All items for contains and exists-all, always true otherwise; recheck exactly for contains. |
| `HstoreGin.Search` | contrib/hstore/hstore_gin.cpp:79-181 | Exact for exists, exists-any and exists-all over all rows and queries, empty ones included; for contains exactly the rows in which every key and every value of the query occurs, a superset of the answer that is rechecked. |
| `BtreeGin.FindItem` | src/gausskernel/storage/access/gin/ginentrypage.cpp:307-353 | The first key not below the entry, and whether it equals it. |
| `BtreeGin.PrefixDecides` | contrib/btree_gin/btree_gin.cpp:107-166 | For all five operators, from the entry on, GIN_COMPARE_PREFIX takes exactly the found keys, and once it stops none follows; only equality needs no range. |
| `BtreeGin.Collect` | src/gausskernel/storage/access/gin/ginget.cpp:131-211 | The forward scan collects exactly the found keys, each once, in order. |
| `BtreeGin.Search` | contrib/btree_gin/btree_gin.cpp:59-181 | Over any sorted keys, finds exactly the keys that satisfy the operator, less those below the leftmost value for the two operators that start there; an error for other strategies. |
| `BtreeGin.ExactIffLeast` | contrib/btree_gin/btree_gin.cpp:50-57 | Searches miss nothing, whatever is stored and asked, if and only if the leftmost value is least. |
| `BtreeGin.Int8Misses` | contrib/btree_gin/btree_gin.cpp:199-206 | A bigint that satisfies its operator is missed exactly if it is the least bigint and the operator is less or less-or-equal. |
| `BtreeGin.Int8LosesLeast` | contrib/btree_gin/btree_gin.cpp:199-206 | With the least bigint stored, a search for values below zero finds nothing. |
| `BtreeGin.CharMisses` | contrib/btree_gin/btree_gin.cpp:329-333 | A "char" that satisfies its operator is missed exactly if it is not negative and the operator is less or less-or-equal. |
| `BtreeGin.CharLosesLetter` | contrib/btree_gin/btree_gin.cpp:329-333 | With "a" stored, a search for values below "b" finds nothing. |
| `BtreeGin.NumericOrder` | contrib/btree_gin/btree_gin.cpp:365-382 | gin_numeric_cmp orders numerics and the null pointer totally, the null pointer strictly below. |
| `Scheduler.Table.AssignLocalNode` | contrib/hdfs_fdw/scheduler.cpp:1059-1119 | The split goes to the end of the list of a least-loaded location and no other list changes; of several such locations for analyze to the last, otherwise to the one that the random number modulo their count picks. |
| `Scheduler.Table.AssignRemoteNode` | contrib/hdfs_fdw/scheduler.cpp:1121-1187 | The split goes to the first node with the least load that is no coordinator: for analyze the first of the list, otherwise of the round that starts at the random number modulo the number of nodes; it fails, changing no list, exactly if there is none. |
| `SchedulerLocation.StatDn` | contrib/hdfs_fdw/scheduler.cpp:619-651 | One entry per address, by address, that spans exactly the nodes at it. |
| `SchedulerLocation.FindIp` | contrib/hdfs_fdw/scheduler.cpp:667-678 | The entry with the address, if there is one. |
| `SchedulerLocation.Locate` | contrib/hdfs_fdw/scheduler.cpp:387-421 | Table and search yield exactly the nodes at the replicas' addresses, replica by replica and in table order; it fails exactly if they are more than 256; and it tells exactly whether every cached replica's flags were written inside their 256 bytes. |
| `SchedulerLocation.FlagsPassBuffer` | contrib/hdfs_fdw/scheduler.cpp:413-417 | With 129 nodes at the address of one cached replica the nodes fit and the flags do not. |
| `SchedulerRun.AssignReplicaNode` | contrib/hdfs_fdw/scheduler.cpp:1042-1053 | The first node gets all files, the others an empty list. |
| `SchedulerRun.ObsFileScheduling` | contrib/hdfs_fdw/scheduler.cpp:294-331 | File i goes to the node at i modulo the number of nodes used; every file is on the list of exactly one of the nodes, in order, and the loads of any two nodes differ by at most one. |
| `SchedulerRun.LoadIsCount` | contrib/hdfs_fdw/scheduler.cpp:294-331 | A node's load is how often the run chose it. |
| `SchedulerRun.Conserved` | contrib/hdfs_fdw/scheduler.cpp:294-331 | The loads of all nodes add up to the number of files. |
| `SchedulerHdfs.LocatedIsLocal` | contrib/hdfs_fdw/scheduler.cpp:387-421 | The nodes found through the table are those that filtering all nodes by address gives. |
| `SchedulerHdfs.AssignOne` | contrib/hdfs_fdw/scheduler.cpp:423-438 | A file with local nodes goes to the one of them, and any other file to the datanode, that the rules above pick for the loads of that moment; it fails exactly if there is no candidate. |
| `SchedulerHdfs.HdfsFileScheduling` | contrib/hdfs_fdw/scheduler.cpp:343-455 | Over the whole run every file is on exactly one list, of the very node that the rules above pick from its candidates and the loads at that time; replicas are looked up for 256 files, and further if 25 of those were local; it stops short exactly at a file with too many locations or no candidate; a whole run tells exactly whether all flags of cached replicas were written inside their buffer. |
| `SchedulerHdfs.RunConserves` | contrib/hdfs_fdw/scheduler.cpp:343-455 | The loads of all nodes add up to the number of files placed. |
| `SchedulerHdfs.GreedyBalances` | contrib/hdfs_fdw/scheduler.cpp:1121-1187 | Choosing a least-loaded node every time keeps any two loads within one. |
| `SchedulerHdfs.RemoteRunBalanced` | contrib/hdfs_fdw/scheduler.cpp:343-455 | A run without local files leaves all datanodes within one of each other. |
| `SchedulerRequest.GatherLocal` | contrib/hdfs_fdw/scheduler.cpp:898-935 | Lists the node's first local files up to the requested number, or all of them if they are fewer. |
| `SchedulerRequest.FillRemote` | contrib/hdfs_fdw/scheduler.cpp:960-985 | Adds the first nonlocal files up to the requested number; fails exactly if there are not enough files. |
| `SchedulerRequest.AssignRequestFilesToDn` | contrib/hdfs_fdw/scheduler.cpp:863-993 | Yields a node exactly if between one and all files are requested: of the round from the random start the first with enough local files, otherwise the first with the most. It has exactly that many files: its first local ones if enough, otherwise all its local ones and then the first nonlocal ones. |
| `SchedulerRequest.GivenFromFiles` | contrib/hdfs_fdw/scheduler.cpp:863-993 | No file is given more often than it is listed. |
| `SchedulerRequest.RemoteOnlyIfNeeded` | contrib/hdfs_fdw/scheduler.cpp:951-954 | A nonlocal file is given only if no node has the requested number of local ones. |

## Left out

- Levenshtein.Bounded: does not model 32-bit overflow of costs times lengths. With costs that are not sound it leaves open what is read from a last cell that the last row did not fill.
- MultibyteText.CountGlyphs: requires well-encoded text; the source stops counting at a zero byte, which such text does not contain.
- VarKeyIndex.NodePrefixLen: models one-byte encodings; the character-boundary adjustment for multibyte text types is not modelled.
- VarKeyHistory.NoRowLost: requires that page splits of inner keys are safe; SplitExact shows what happens without that.
- NumKey.PickSplit: does not require two entries, and then one half may be empty.
- Cube.SquaredDistance: leaves out the final square root, rounding, infinities and not-a-number.
- HstoreGistIndex.PickSplit: any arrangement of the offsets takes the place of the cost sort; the tie-break is computed over reals.
- HstoreBinary.Recv: texts are taken as they are, without conversion between client and server encodings.
- HstoreBinary.Send: the same; a conversion may change the length of a text.
- HstoreGrammar.ParsesIffDerives: for C strings, which hold no NUL.
- HstoreText.HSParser.GetVal: white space is that of the C locale; isspace follows the locale for bytes from 128 on.
- SchedulerHdfs.HdfsFileScheduling: models the non-replicated branch; the replicated one only calls AssignReplicaNode. The values of the cached flags have no effect while best_effort_use_cahce is zero; only where they are written is modelled.
- Memory layout of variable-length keys (gbt_var_key_readable, gbt_var_key_copy), toast compression and palloc/pfree.
- Text, numeric and bit key types of btree_gist, with collation-dependent comparison and the bit type's leaf-to-node transform.
- Penalty functions of all GiST classes: heuristics that do not affect which rows are found.
- crc32: any function from bytes to numbers takes its place.
- Errors raised for unknown strategies in hstore_gist.cpp and hstore_gin.cpp; their strategies are a datatype here.
- hstore construction from records and arrays, hstore operators other than contains, slices and deletions.
- GIN page structure, posting trees, null items and concurrent page changes: the keys of an index are one sorted sequence.
- Scheduler spill to disk, file listing, partition pruning, carbondata, and the number of files chosen for analyze.
- metaphone, double metaphone, soundex and the remaining contrib modules.
