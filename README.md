# Huffman code table (mp2.c), modelled in Dafny

mp2.c reads bytes up to the first `;` and counts how often each byte value
occurs. It queues one leaf per byte value seen in a binary min-heap ordered
by `is_less_than`: frequency first, then the smallest symbol in the subtree.
`BUILD_HUFFMAN_TREE` then merges the two least nodes until one tree is left.
The first node extracted becomes the left child. `generate_codes_recursive`
walks the tree depth-first, writing '0' for left and '1' for right. A single
symbol gets the code "0", and no symbol gives an empty table. The entries
are sorted by code with `qsort` and `compare_huffman_codes`.

The project has these modules:

- `HuffmanTree` (tree.dfy)
  - The node record as a datatype, and the order `is_less_than`.
  - The order is a strict weak order.
  - Over disjoint symbol sets it is total.
- `PriorityQueues` (heap.dfy)
  - The queue as a class over an array, with `size` and `capacity` fields.
  - `HEAPIFY`, `PQ_INSERT` (including the doubling `realloc`) and
    `PQ_EXTRACT` are proved to keep the heap property. `HEAPIFY` keeps the
    multiset of nodes, `PQ_INSERT` adds exactly the new node, and
    `PQ_EXTRACT` removes exactly the node it returns.
  - Extract is proved to return the least node, or None on an empty queue.
- `HuffmanBuilder` (builder.dfy)
  - The merge loop is proved against a reference function `Huffman` on the
    multiset of queued trees.
  - No two queued trees share a symbol. Under that invariant the least node
    is unique. So the tree depends only on what was queued, not on the
    order of heap slots.
- `CodeExtraction` (codes.dfy)
  - The traversal is proved against a reference function `CodesFrom`.
  - The codes are proved prefix-free and binary. Each code decodes to its
    own leaf.
- `CodeTable` (table.dfy)
  - `strcmp` as a sign-valued function.
  - An insertion sort, `SortByCode`, stands for `qsort`.
  - Any ascending permutation of entries with distinct codes is unique. So
    every correct `qsort` gives the same table.
- `HuffmanMain` (driver.dfy)
  - `main` from the counting loop to the sort.
  - `HuffmanCodeTable` is proved to return the reference table
    `CodeTableOf(input)`.
  - `CodeTableIsPrefixCode` states what that table is.

The input is a parameter `seq<Byte>`, standing for what `getchar` returns
until EOF. The table is returned instead of printed.

`compare_huffman_codes` compares codes alone (`strcmp`), with no secondary
key on the symbol. The codes are distinct, so `SortedPermutationIsUnique`
and `QsortOutcomeIsTable` show that a secondary key would never change the
table.

## Model

| member | source | states |
|---|---|---|
| HuffmanTree.IsLessThan | mp2.c:53-61 | is_less_than: true when the first frequency is smaller; on equal frequencies, when the first min_char_in_subtree is smaller (its properties are the lemmas below) |
| HuffmanTree.MinChar | mp2.c:146 | min_char_in_subtree: a leaf's own symbol, an internal node's recorded key |
| HuffmanTree.IsLessThanIsLexicographic | mp2.c:53-61 | is_less_than is exactly the lexicographic order on (freq, min_char_in_subtree) |
| HuffmanTree.IsLessThanIrreflexive | mp2.c:53-61 | no node is less than itself |
| HuffmanTree.IsLessThanTransitive | mp2.c:53-61 | is_less_than is transitive |
| HuffmanTree.NotLessThanTransitive | mp2.c:53-61 | "not less than" is transitive, so the order is a strict weak order (what the heap proofs rely on) |
| HuffmanTree.IsLessThanTotalOnDistinctKeys | mp2.c:53-61 | two nodes with different min_char are always ordered one way or the other |
| HuffmanTree.Merge | mp2.c:161-166 | the parent node has the first extracted node on the left and the second on the right; its symbols and leaves are theirs joined, left then right; it keeps well-formedness (sum of frequencies, min of keys) and distinct leaves |
| HuffmanTree.MinCharIsLeast | mp2.c:163 | min_char_in_subtree of a well-formed tree is a symbol in it and the least of its symbols |
| HuffmanTree.DisjointTreesHaveDistinctKeys | mp2.c:53-61 | trees over disjoint symbols never tie in is_less_than: one is strictly less |
| HuffmanTree.DistinctLeavesHaveDistinctSymbols | mp2.c:178-185 | in a tree with distinct leaves, two positions of the leaf order hold different symbols |
| HuffmanTree.InternalCountIsLeavesMinusOne | mp2.c:156-169 | a tree over k leaves has k - 1 internal nodes, one per merge |
| HuffmanTree.HeightBelowLeafCount | mp2.c:242-244 | the depth is below the leaf count, so a code is shorter than the number of symbols |
| HuffmanTree.FreqIsLeafTotal | mp2.c:161 | a node's freq is the total count of its leaves, and at least their number |
| PriorityQueues.Parent | mp2.c:49 | parent(i) is the slot whose children are i; parent(0) is 0, as C's truncating division gives |
| PriorityQueues.Left | mp2.c:50 | left(i) is after i and its parent is i |
| PriorityQueues.Right | mp2.c:51 | right(i) is left(i) + 1 and its parent is i |
| PriorityQueues.RootIsLeast | mp2.c:103-107 | in a heap no slot is less than slot 0 |
| PriorityQueues.RootIsLeastOfAll | mp2.c:107 | no node of a heap is less than the one at the root |
| PriorityQueues.Swapped | mp2.c:42-47 | swapping two slots exchanges them, keeps the rest and the multiset |
| PriorityQueues.SiftDownStep | mp2.c:69-77 | swapping with the smaller child moves the only heap defect down to that child |
| PriorityQueues.SiftDownDone | mp2.c:74 | when neither child is less than idx, the sequence is a heap |
| PriorityQueues.SiftUpStart | mp2.c:93-94 | appending to a heap leaves a defect only at the new slot |
| PriorityQueues.SiftUpStep | mp2.c:96-99 | swapping with a greater parent moves the defect up to the parent |
| PriorityQueues.SiftUpDone | mp2.c:96 | the insert loop's exit condition leaves a heap |
| PriorityQueues.RootRemoval | mp2.c:107-108 | moving the last node to the root removes exactly the old root from the multiset |
| PriorityQueues.LastToRoot | mp2.c:108-111 | after moving the last node to the root, the heap property can fail only at the root |
| PriorityQueues.PriorityQueue.constructor | mp2.c:116-134 | create_priority_queue: an empty heap with room for `cap` nodes |
| PriorityQueues.PriorityQueue.SwapNodes | mp2.c:42-47 | swap_nodes on two occupied slots: the contents become Swapped of the old ones, free slots untouched |
| PriorityQueues.PriorityQueue.Heapify | mp2.c:63-79 | HEAPIFY turns a heap with one defect at idx into a heap with the same multiset, free slots untouched |
| PriorityQueues.PriorityQueue.Grow | mp2.c:83-92 | when full, the storage is replaced by one of twice the capacity holding the same nodes |
| PriorityQueues.PriorityQueue.Append | mp2.c:93-94 | the new node goes into slot `size`, which grows by one |
| PriorityQueues.PriorityQueue.Insert | mp2.c:81-101 | PQ_INSERT: still a heap, one more node, multiset plus x; the capacity doubles (fresh storage) exactly when the queue was full, else the storage is unchanged |
| PriorityQueues.PriorityQueue.Extract | mp2.c:103-114 | PQ_EXTRACT: None and nothing changed on an empty queue; otherwise the old root, which no remaining node is less than, with one node fewer and the rest still a heap |
| HuffmanBuilder.Huffman | mp2.c:151-171 | the tree BUILD_HUFFMAN_TREE computes from the multiset of queued trees: merge the least with the next least until one is left (its properties are HuffmanIsCodeTree, HuffmanOfOne, HuffmanOfTwo, MergeStep) |
| HuffmanBuilder.LeastOfRest | mp2.c:158-159 | what Extract promises makes the extracted node least in the multiset before the call |
| HuffmanBuilder.LeastIsUnique | mp2.c:53-61 | while no two queued trees share a symbol, there is only one least node, so extraction is deterministic |
| HuffmanBuilder.MergeKeepsForest | mp2.c:158-168 | replacing two queued trees by their merge keeps the trees well formed, with distinct leaves, pairwise disjoint |
| HuffmanBuilder.MergeKeepsLeaves | mp2.c:158-168 | a merge keeps the set of all queued leaves |
| HuffmanBuilder.HuffmanOfOne | mp2.c:170 | with one queued tree, the result is that tree |
| HuffmanBuilder.HuffmanOfTwo | mp2.c:158-166 | with two queued trees, the lesser by (freq, smallest symbol) becomes the left child, so it gets branch '0' |
| HuffmanBuilder.HuffmanIsCodeTree | mp2.c:151-171 | the built tree is well formed with distinct leaves, its leaves are exactly all queued leaves, and it is an internal node when two or more were queued |
| HuffmanBuilder.MergeStep | mp2.c:156-169 | one turn of the loop keeps the invariant and does not change the final result |
| HuffmanBuilder.MergeTwoLeast | mp2.c:158-168 | the loop body extracts the least node a and then the least remaining b, and queues Merge(a, b) |
| HuffmanBuilder.BuildHuffmanTree | mp2.c:151-171 | None exactly for an empty queue; otherwise the reference Huffman tree of the queued multiset after k - 1 merges, with the queue left empty |
| CodeExtraction.CodesFrom | mp2.c:173-192 | one entry per leaf, in depth-first left-to-right leaf order; each code extends the path so far by at most the tree's height, and strictly under an internal node |
| CodeExtraction.CodesDecode | mp2.c:173-192 | following an entry's code bits from the tree reaches exactly that entry's leaf |
| CodeExtraction.FollowedPathIsBinary | mp2.c:187-190 | a path that leads somewhere is made only of '0' and '1' |
| CodeExtraction.BranchesDiverge | mp2.c:187-191 | codes under the '0' branch and under the '1' branch are never prefixes of each other |
| CodeExtraction.JoinPrefixFree | mp2.c:187-191 | joining two prefix-free lists whose codes never prefix each other gives a prefix-free list |
| CodeExtraction.CodesArePrefixFree | mp2.c:173-192 | no code of the traversal is a prefix of another |
| CodeExtraction.CodesHaveDistinctSymbols | mp2.c:178-183 | no symbol gets two entries |
| CodeExtraction.Splice | mp2.c:187-191 | the two recursive calls write consecutive ranges of codes_array and leave the rest |
| CodeExtraction.GenerateCodes | mp2.c:173-192 | generate_codes_recursive: codes_count grows by the leaf count, codes_array[count..] gets CodesFrom(root, path so far), the rest of codes_array and the path prefix of the buffer are kept |
| CodeTable.StrCmp | mp2.c:198 | the sign of strcmp is in -1..1 and is 0 exactly for equal strings |
| CodeTable.StrCmpPrefixFirst | mp2.c:198 | a proper prefix sorts first |
| CodeTable.StrCmpAntisymmetric | mp2.c:198 | swapping the arguments negates the result |
| CodeTable.StrCmpTransitive | mp2.c:198 | the order is transitive |
| CodeTable.CompareHuffmanCodes | mp2.c:194-199 | compare_huffman_codes returns a sign, 0 exactly when the codes are equal |
| CodeTable.InsertByCode | mp2.c:260 | insertion adds exactly one entry |
| CodeTable.InsertKeepsSorted | mp2.c:260 | inserting into an ascending sequence keeps it ascending |
| CodeTable.SortByCode | mp2.c:260 | the reference sort: its result is a permutation of the input, ascending by code |
| CodeTable.SortedPermutationsShareHead | mp2.c:260 | two ascending permutations with distinct codes start with the same entry |
| CodeTable.SortKeepsEntries | mp2.c:260 | sorting keeps the length and the entries |
| CodeTable.SortKeepsCodeProperties | mp2.c:260 | sorting keeps the table prefix-free, its codes distinct and its symbols distinct |
| CodeTable.SortOne | mp2.c:260 | sorting one entry leaves it as it is |
| CodeTable.SortedPermutationIsUnique | mp2.c:260 | with distinct codes there is only one ascending permutation, so how qsort orders the entries does not matter |
| CodeTable.PermutationKeepsCodeProperties | mp2.c:260 | any permutation of a prefix-free table is prefix-free, with distinct codes and, if the original had them, distinct symbols |
| HuffmanMain.Scanned | mp2.c:217 | the counting loop reads the input up to, not including, the first ';' (or all of it) |
| HuffmanMain.ScannedIsUnique | mp2.c:217 | the three properties of Scanned determine it |
| HuffmanMain.NoSymbolsMeansEmpty | mp2.c:226-229 | no distinct symbol means nothing was scanned |
| HuffmanMain.CountStep | mp2.c:219-223 | one byte adds one to its count and grows the number of distinct symbols exactly when its count was 0 |
| HuffmanMain.CountFrequencies | mp2.c:214-224 | freq[b] is the number of b's before the first ';' and unique_char_count is the number of distinct such bytes |
| HuffmanMain.Frequencies | mp2.c:214-224 | the freq array once the counting loop is done: freq[b] is the number of b's before the first ';' (CountFrequencies is proved to produce it) |
| HuffmanMain.LeavesBelow | mp2.c:232-238 | the leaves queued for byte values below n: each has a positive count equal to freq[ch], and they come in ascending symbol order |
| HuffmanMain.LeafIsQueued | mp2.c:234-236 | every byte value with a positive count gets its leaf |
| HuffmanMain.LeavesBelowIsPrefix | mp2.c:232-238 | leaves queued earlier are a prefix of those queued later |
| HuffmanMain.PositiveBelowStep | mp2.c:234 | the set of byte values with a positive count grows by i exactly when freq[i] > 0 |
| HuffmanMain.LeavesBelowCount | mp2.c:232-238 | as many leaves are queued as there are byte values with a positive count |
| HuffmanMain.LeavesBelowStep | mp2.c:234-236 | turn i queues Leaf(i, freq[i]) if freq[i] > 0 and nothing otherwise |
| HuffmanMain.LeavesAreForest | mp2.c:232-238 | the queued leaves are distinct, well formed and over disjoint symbols |
| HuffmanMain.BuildQueue | mp2.c:231-238 | the result is a fresh heap holding exactly the leaves of the byte values with a positive count; when unique_char_count is positive and equals the number of those leaves, the capacity ends as unique_char_count, so the queue never doubled |
| HuffmanMain.QueueLeaf | mp2.c:234-237 | one turn of the queueing loop: the heap gets Leaf(i, freq[i]) if freq[i] > 0 |
| HuffmanMain.QueuedLeavesCount | mp2.c:214-238 | one leaf is queued per distinct scanned byte |
| HuffmanMain.QueuedLeavesCover | mp2.c:214-238 | every scanned byte's leaf, with its count, is queued |
| HuffmanMain.QueuedLeavesAreScanned | mp2.c:214-238 | every queued leaf is a scanned byte with its count |
| HuffmanMain.QueuedLeavesAreSymbols | mp2.c:214-238 | the queued leaves are a valid forest, one per distinct scanned byte with its count, and nothing else |
| HuffmanMain.QueuedLeavesDiffer | mp2.c:232-238 | no leaf is queued twice |
| HuffmanMain.SingleSymbolTree | mp2.c:248-253 | with one distinct symbol, the root is a single leaf of that byte counting every scanned byte |
| HuffmanMain.TreeLeavesAreQueued | mp2.c:240 | the built tree's leaves are exactly the queued leaves, and it is an internal node for two or more |
| HuffmanMain.HuffmanOfFits | mp2.c:242-244 | the tree has one leaf per distinct symbol (at most 256) and a smaller depth, so codes_array and current_code_str are large enough |
| HuffmanMain.HuffmanOf | mp2.c:240 | the root BUILD_HUFFMAN_TREE returns for an input with at least one symbol: Huffman of the queued leaves (its properties are HuffmanOfFits, TreeLeavesAreQueued, SingleSymbolTree) |
| HuffmanMain.PlantTree | mp2.c:231-240 | queueing the leaves and running BUILD_HUFFMAN_TREE yields the reference tree of the input |
| HuffmanMain.CodesOf | mp2.c:242-258 | one symbol gets the single entry (root's byte, "0"); otherwise the entries are the traversal's |
| HuffmanMain.CodeTableOf | mp2.c:226-260 | the table main prints: empty for no symbols, the single entry (symbol, "0") for one, otherwise the traversal's entries sorted by code (its properties are CodeTableIsPrefixCode and QsortOutcomeIsTable) |
| HuffmanMain.HuffmanCodeTable | mp2.c:214-260 | main up to the sort returns exactly the reference table CodeTableOf(input) |
| HuffmanMain.TreeCodesOf | mp2.c:256 | codes_array after generate_codes_recursive from the root with an empty path: CodesFrom(HuffmanOf(input), []) (its properties are TreeCodesAreCodes and the TreeCodes lemmas) |
| HuffmanMain.TreeCodesAreCodes | mp2.c:256 | with two or more symbols, the traversal gives one entry per distinct scanned byte, no byte twice, with prefix-free, nonempty binary codes that each decode to that byte's leaf |
| HuffmanMain.TreeCodesShape | mp2.c:256 | with two or more symbols, the traversal gives one entry per distinct symbol, prefix-free, with distinct symbols and nonempty codes |
| HuffmanMain.TreeCodesCoverSymbols | mp2.c:256 | every scanned byte has an entry |
| HuffmanMain.TreeCodesDecode | mp2.c:256 | every entry's code is binary and decodes to the leaf of its byte, with its count |
| HuffmanMain.TreeCodeDecodes | mp2.c:256 | the i-th entry's code is binary and decodes to the leaf of its byte |
| HuffmanMain.CodeTableIsPrefixCode | mp2.c:214-264 | the printed table has one entry per distinct scanned byte and no byte twice, ascending by code; with two or more symbols its codes are nonempty, binary, prefix-free and decode to their byte's leaf |
| HuffmanMain.TableOfOneSymbol | mp2.c:248-253 | a single symbol gets exactly the entry (symbol, "0") |
| HuffmanMain.TableOfSymbols | mp2.c:254-260 | with two or more symbols the table holds exactly the traversal's entries |
| HuffmanMain.TableSize | mp2.c:254-260 | with two or more symbols the table has one entry per distinct symbol |
| HuffmanMain.TableIsPrefixFree | mp2.c:254-260 | with two or more symbols the table is prefix-free with distinct symbols |
| HuffmanMain.TableCoversSymbols | mp2.c:254-260 | with two or more symbols every scanned byte has a table entry |
| HuffmanMain.TableDecodes | mp2.c:254-260 | with two or more symbols every table code is nonempty and binary and decodes to its byte's leaf |
| HuffmanMain.QsortOutcomeIsTable | mp2.c:260 | any ascending permutation of the traversal's entries is the reference table |

## Left out

- Reading standard input and printing the table (`getchar`, `printf`) are left out. The input is a byte sequence parameter, and the table is the result.
- Allocation failure and its `perror`/`exit` paths are not modelled.
- `free_huffman_tree` and the final `free` calls are not modelled: Dafny has no manual deallocation.
- The `qsort` algorithm itself is left out. Only its outcome is specified: an ascending permutation. `SortByCode` stands in for it, and `SortedPermutationIsUnique` shows that any such outcome is equal to it.
- A NULL node pointer has no counterpart in the datatype. The `P == NULL` check of BUILD_HUFFMAN_TREE and the `!root` check of generate_codes_recursive therefore have no model. A node with only one child cannot arise, because the tree is a datatype whose internal nodes always have two children.
- Frequencies are unbounded integers. The overflow of C's `int` counters past 2^31 - 1 bytes of input is not modelled.
- The parent node's `ch = '\0'` from `create_node` in BUILD_HUFFMAN_TREE is not modelled. `Node` has no symbol field, and code generation reads `ch` only at leaves.
- The signed `char` of the `ch` field is not modelled. Symbols are the unsigned byte values 0..255 that `freq` is indexed by, and printing `%c` shows the same byte either way.
- Optimality of the code (minimum weighted length) is not stated or proved.
- The NUL terminators and the fixed 256-character size of `HuffmanCode.code` are not modelled. Codes are sequences, and `HuffmanOfFits` shows they fit.
- PriorityQueues.PriorityQueue.constructor: requires a capacity of at least 1. `create_priority_queue(0)` followed by an insert doubles 0 to 0 and calls `realloc` with size 0. Depending on the C library, that either fails (`perror` and exit) or returns a block that the store into slot 0 overruns. `main` never passes 0: it passes a positive count, or 16.
