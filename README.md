# Huffify in Dafny

Huffify is a small Java command-line Huffman compressor. This is a Dafny model of its
core: the four classes `Huffify`, `FrequencyTable`, `HuffmanTree` and `HuffNode`.
Compression goes through these steps:

- It reads the text line by line and counts, for every ASCII code 0..127,
  how often that character occurs. Each line read adds one count to character 10,
  whether or not it ended in a terminator.
- It keeps one leaf `HuffNode` per character that occurs.
- It puts the leaves in a `PriorityQueue` ordered by the comparator `HUFF_COMP`:
  frequency first, then character.
- It builds the Huffman tree by polling two nodes at a time and adding back their
  merge. The merge is an internal node with character `'#'`.
- It walks the tree to build a `HashMap` from characters to strings of `'0'`/`'1'`.
- It adds up the total number of bits and packs the text into a `BitSet`.

Decompression starts from the stored set of leaves. It rebuilds the queue, the tree
and the code table the same way, computes the bit count again, and walks the tree
bit by bit.

The model keeps the program's own form:

- `HuffNode`, `FrequencyTable` and `HuffmanTree` are classes whose methods
  update their fields.
  - `buildTree`, `createTable`, `createSet`, `encode` and `writeDecompressedFile`
    are methods with loops, and `traverseTree` is a recursive method.
  - Each of these is proved against a specification function of its inputs and
    old state.
- The Java library classes the core calls are small classes in `JavaUtil`:
  `PriorityQueue`, `HashMap`, `StringBuilder` and `BitSet`.
  - Their state is a mathematical value: a sequence, a map, or a set of bit indices.
  - `poll` returns *some* minimal element under `HUFF_COMP`. When elements tie,
    which one it picks is left open.
- Exceptions the Java code raises at run time are recorded as the values of
  `Wrappers.Fault`:
  - `NullPointer` for a null root, a missing code, or decoding from a leaf;
  - `StringIndexOutOfBounds` for `deleteCharAt(-1)` on a one-leaf tree, which a
    text gets when all its lines are empty and the separator is its only symbol;
  - `NegativeArraySize` for a negative bit count;
  - `ArrayIndexOutOfBounds` for a character outside ASCII.

The specification side works on values:

- `CodeTree.Tree` is the shape a node stands for.
- `Huffman.Builds(f, t)` holds when the build loop, started on a queue holding the
  trees `f`, can end with `t`. The relation allows every way `poll` can break a tie.
- `Coding.Codes(t)` is the table `traverseTree` fills.
- `Packing.StreamCode` is the bit string `encode` writes.
- `Packing.Decode` is what the decompression loop outputs.

The text is a sequence of lines. Its separator-normalised form
`Text.Flatten(lines)` has each line followed by character 10.

The main results:

- The code table is prefix-free, and each code is the path to its character.
- The bit count `numOfBits` computes is exactly the length of the packed stream.
- Decoding the packed text with the same tree gives back `Flatten(lines)`.
- Compress followed by decompress gives back the text whenever the two runs build
  the same tree, in particular whenever the queue never holds two trees with equal
  keys.
- The loop is deterministic up to such ties.
- For the text `"abcde"`, ties let compression and decompression build different
  trees, and the round trip then garbles the text (see Findings).
- For the textbook frequencies a:5, b:9, c:12, d:13, e:16, f:45 no tie ever
  arises. The loop then builds one tree, whatever the queue order, and gives `f` a
  one-bit code and `a` and `b` four bits each (module `Classic`).

## Model

| member | source | states |
|---|---|---|
| Nodes.HuffNode.constructor | src/huffify/HuffNode.java:40-43 | the new node holds `c` and `fq`, has no children and stands for the leaf `Leaf(c, fq)` |
| Nodes.HuffNode.ValidFacts | src/huffify/HuffNode.java:26-29 | a valid node's character and frequency are those of the tree it stands for; `left == right` exactly when it is a leaf, and then both are null; an internal node has two distinct children |
| Nodes.HuffNode.GetCharacter | src/huffify/HuffNode.java:53-55 | returns the node's character |
| Nodes.HuffNode.GetFrequency | src/huffify/HuffNode.java:61-63 | returns the node's frequency |
| Nodes.HuffNode.GetLeftChild | src/huffify/HuffNode.java:69-71 | returns the left child, possibly null |
| Nodes.HuffNode.GetRightChild | src/huffify/HuffNode.java:77-79 | returns the right child, possibly null |
| Nodes.HuffNode.Key | src/huffify/Huffify.java:54-62 | the (frequency, character) pair `HUFF_COMP` reads from the node |
| Nodes.HuffNode.SetCharacter | src/huffify/HuffNode.java:85-87 | the character becomes `c` |
| Nodes.HuffNode.SetFrequency | src/huffify/HuffNode.java:93-95 | the frequency becomes `fq` |
| Nodes.HuffNode.SetLeftChild | src/huffify/HuffNode.java:101-103 | the left child becomes `s` |
| Nodes.HuffNode.SetRightChild | src/huffify/HuffNode.java:109-111 | the right child becomes `s` |
| Nodes.StillValid | src/huffify/HuffmanTree.java:108-112 | a node whose footprint no call changed is still valid and stands for the same tree |
| Nodes.ForestStill | src/huffify/HuffmanTree.java:52-55 | a queue of nodes whose footprints no call changed still stands for the same trees |
| Nodes.BelowValid | src/huffify/HuffmanTree.java:96-116 | every node reachable from a valid node is valid, and its footprint lies inside the root's |
| Nodes.KeysAreRanks | src/huffify/Huffify.java:51-65 | the keys the comparator reads from the nodes are the ranks of the trees they stand for |
| Nodes.ForestRemove | src/huffify/HuffmanTree.java:44-45 | polling one node leaves a valid queue whose trees are the old ones minus that one, disjoint from the polled node |
| Nodes.ForestAppend | src/huffify/HuffmanTree.java:55 | adding a valid node disjoint from the queue keeps the queue valid, and its trees gain that node's tree at the end |
| JavaUtil.PriorityQueue.constructor | src/huffify/Huffify.java:74 | a new queue is empty |
| JavaUtil.PriorityQueue.Size | src/huffify/Huffify.java:82 | the number of queued nodes |
| JavaUtil.PriorityQueue.AddAll | src/huffify/Huffify.java:75 | the queue keeps its old elements and gains exactly the elements of the set, each once |
| JavaUtil.PriorityQueue.Add | src/huffify/HuffmanTree.java:55 | the node is appended and nothing else changes |
| JavaUtil.PriorityQueue.Poll | src/huffify/HuffmanTree.java:44-45 | null from an empty queue; otherwise an element whose key is minimal under `HUFF_COMP`, removed from the queue |
| JavaUtil.StringBuilder.constructor | src/huffify/HuffmanTree.java:79 | the builder holds the given string |
| JavaUtil.StringBuilder.Length | src/huffify/HuffmanTree.java:114 | the builder's length |
| JavaUtil.StringBuilder.ToString | src/huffify/HuffmanTree.java:103 | the builder's contents |
| JavaUtil.StringBuilder.Append | src/huffify/HuffmanTree.java:108-111 | one character is appended |
| JavaUtil.StringBuilder.DeleteCharAt | src/huffify/HuffmanTree.java:104 | an index in range removes that character; any other index throws `StringIndexOutOfBounds` and changes nothing |
| JavaUtil.HashMap.constructor | src/huffify/HuffmanTree.java:77 | a new map is empty |
| JavaUtil.HashMap.Put | src/huffify/HuffmanTree.java:103 | the key maps to the value and every other entry is unchanged |
| JavaUtil.HashMap.ContainsKey | src/huffify/Huffify.java:124 | true exactly when the key has an entry |
| JavaUtil.HashMap.Get | src/huffify/Huffify.java:114 | the entry of the key, and null (`None`) exactly when it has none |
| JavaUtil.BitSet.constructor | src/huffify/Huffify.java:102 | a new bit set has no bit set |
| JavaUtil.BitSet.Set | src/huffify/Huffify.java:118 | bit k becomes set and no other bit changes |
| JavaUtil.BitSet.Get | src/huffify/Huffify.java:212 | true exactly when bit k is set |
| Ordering.Compare | src/huffify/Huffify.java:51-65 | negative exactly when the first key has the smaller frequency, or the same frequency and the smaller character; positive in the mirrored case; zero exactly for equal keys |
| Ordering.CompareAntisymmetric | src/huffify/Huffify.java:51-65 | swapping the arguments flips the sign of the comparison |
| Ordering.CompareTransitive | src/huffify/Huffify.java:51-65 | the comparator's order is transitive, strictly when one step is strict |
| Ordering.MinExists | src/huffify/HuffmanTree.java:44 | every non-empty queue has an element that is minimal under the comparator, so `poll` always has a candidate |
| Ordering.MinUnique | src/huffify/HuffmanTree.java:44 | all minimal elements have the same key; with pairwise distinct keys the minimum is at one position only |
| Huffify.HuffComp | src/huffify/Huffify.java:51-65 | negative for the lower frequency, positive for the higher, the character difference for equal frequencies; zero exactly for equal frequency and character |
| Huffify.HuffCompIsCompare | src/huffify/Huffify.java:51-65 | `HUFF_COMP` on two nodes has the sign of `Compare` on their keys |
| Huffify.CreatePQ | src/huffify/Huffify.java:72-77 | a fresh queue holding exactly the nodes of the frequency set |
| CodeTree.LeafCount | src/huffify/HuffmanTree.java:50-55 | a tree built by merging pairs has one more leaf than internal nodes |
| CodeTree.RootWeight | src/huffify/HuffmanTree.java:50 | in a tree whose every internal weight is the sum of its children's, the root's weight is the sum of the leaf weights |
| CodeTree.SymbolsAreLeaves | src/huffify/HuffmanTree.java:96-106 | the characters of a tree are exactly those of its leaves |
| CodeTree.LeafBagHoldsLeaves | src/huffify/HuffmanTree.java:96-106 | the leaf bag holds only leaves |
| Huffman.Merge | src/huffify/HuffmanTree.java:50-54 | the merged node has the first polled tree on the left, the second on the right, and key (sum of the weights, `'#'`) |
| Huffman.IsStep | src/huffify/HuffmanTree.java:44-45 | definition: polling index `i` and then index `j` of what remains is legal exactly when each polled tree is minimal under `HUFF_COMP` at the time it is polled |
| Huffman.Step | src/huffify/HuffmanTree.java:44-55 | the queue after one iteration is one tree shorter: both polled trees are removed and their merge is added |
| Huffman.Builds | src/huffify/HuffmanTree.java:42-62 | definition: the loop can end with `t` from a queue holding `f` when `f` is `[t]`, or when some legal iteration leads to a queue that can end with `t`; an empty queue ends with nothing, as the null root |
| Huffman.TotalsConcat | src/huffify/HuffmanTree.java:42-62 | total weight, leaf bag, symbols and internal-node count add up over joined forests |
| Huffman.TotalsRemove | src/huffify/HuffmanTree.java:44-45 | polling a tree takes exactly its share out of every total |
| Huffman.StepTotals | src/huffify/HuffmanTree.java:50-58 | one iteration keeps the total weight, the leaf bag and the symbols, and adds exactly one internal node |
| Huffman.StepWellWeighted | src/huffify/HuffmanTree.java:50-55 | one iteration keeps every internal node's weight the sum of its children's |
| Huffman.RemoveDistinct | src/huffify/HuffmanTree.java:44-45 | polling keeps the remaining trees' symbol sets pairwise disjoint and disjoint from the polled tree's |
| Huffman.StepDistinct | src/huffify/HuffmanTree.java:50-58 | one iteration keeps every tree's symbols distinct and no symbol in two trees |
| Huffman.BuildsConserves | src/huffify/HuffmanTree.java:42-62 | every tree the loop can end with has the forest's total weight, leaf bag and symbols and one internal node fewer than the forest has trees; it keeps weights well formed and symbols distinct |
| Huffman.BuildsStep | src/huffify/HuffmanTree.java:48-59 | a legal iteration followed by a run of the loop is a run of the loop |
| Huffman.LeafForest | src/huffify/Huffify.java:75 | a queue of leaves has those leaves as its bag, no internal nodes, well-formed weights, its characters as symbols, and is distinct when the characters are |
| Huffman.BuildsFromLeaves | src/huffify/HuffmanTree.java:42-62 | from n leaves the loop builds a full binary tree with exactly those leaves, n - 1 internal nodes, the total weight and the leaves' characters; it is internal exactly when n >= 2, with distinct symbols when the characters are distinct |
| Huffman.SortedForest | src/huffify/FrequencyTable.java:67-71 | leaves in increasing character order have pairwise distinct characters and form a distinct forest |
| Huffman.SortedLeavesBuild | src/huffify/HuffmanTree.java:42-62 | from such leaves the tree is internal exactly when there are at least two, and its symbols are distinct |
| Huffman.BuildsSmall | src/huffify/HuffmanTree.java:44-48 | an empty queue builds nothing and a one-element queue builds exactly that element |
| Trees.DropLast | src/huffify/HuffmanTree.java:114-115 | everything but the last character, and the empty string stays empty |
| Trees.Link | src/huffify/HuffmanTree.java:50-54 | a fresh valid internal node standing for the merge of the two polled trees, owning both footprints |
| Trees.PollOne | src/huffify/HuffmanTree.java:44 | null from an empty queue; otherwise a valid node standing for a minimal tree, removed from the queue, disjoint from what remains |
| Trees.PollPair | src/huffify/HuffmanTree.java:44-45 | two polls: with two results, a legal iteration's two trees removed from the queue; with fewer, the queue held at most one tree, which is `left` |
| Trees.LinkAdd | src/huffify/HuffmanTree.java:50-55 | merging the two polled nodes and adding the result leaves the queue standing for `Step` of the old forest |
| Trees.TreeStill | src/huffify/HuffmanTree.java:122-124 | a tree object nothing changed is still valid with the same shape |
| Trees.HuffmanTree.constructor | src/huffify/HuffmanTree.java:30-34 | the queue ends empty; the root is null exactly for an empty queue, and otherwise stands for a tree the build loop can make from the queued trees |
| Trees.HuffmanTree.BuildTree | src/huffify/HuffmanTree.java:42-62 | the queue ends empty; the root is null exactly when the queue was empty, and otherwise stands for a tree `Builds` allows from the queued trees |
| Trees.HuffmanTree.GetRoot | src/huffify/HuffmanTree.java:122-124 | returns the root |
| Trees.HuffmanTree.TraverseTree | src/huffify/HuffmanTree.java:96-116 | a null node throws `NullPointer` and changes nothing; a leaf with an empty builder is put with the empty code and then throws `StringIndexOutOfBounds`; otherwise the map becomes `Traverse` of the node from the old builder and the old map, and the builder loses its last character |
| Trees.HuffmanTree.BuildCodes | src/huffify/HuffmanTree.java:75-83 | a null root throws `NullPointer`, a leaf root throws `StringIndexOutOfBounds`, and an internal root yields exactly `Codes` of its tree |
| Coding.WalkConcat | src/huffify/HuffmanTree.java:107-112 | walking a path a + b is walking a and then b from where a ends |
| Coding.TraverseMeaning | src/huffify/HuffmanTree.java:96-116 | the traversal adds exactly the tree's symbols to the map; each symbol gets the builder's prefix followed by the path that leads to it; other entries are kept |
| Coding.CodesMeaning | src/huffify/HuffmanTree.java:75-83 | the table has a code for exactly the tree's symbols, and each code is a path to its symbol |
| Coding.PathUnique | src/huffify/HuffmanTree.java:96-116 | with distinct symbols, only one path leads to each symbol |
| Coding.CodeIsPath | src/huffify/HuffmanTree.java:96-116 | any path leading to a symbol is that symbol's code |
| Coding.PrefixFree | src/huffify/HuffmanTree.java:96-116 | no code is a prefix of another symbol's code |
| Coding.CodesNonEmpty | src/huffify/HuffmanTree.java:102-106 | an internal root gives every symbol a non-empty code; a leaf root gives its symbol the empty code |
| Coding.PathLengthIsDepth | src/huffify/HuffmanTree.java:107-112 | the length of a path to a symbol is the symbol's depth |
| Coding.CodeLengthIsDepth | src/huffify/HuffmanTree.java:96-116 | each code is as long as its symbol is deep |
| Coding.PathIsBinary | src/huffify/HuffmanTree.java:108-111 | paths are made only of `'0'` and `'1'` |
| Coding.Traverse | src/huffify/HuffmanTree.java:96-116 | definition: a leaf puts the builder's contents for its character; an internal node appends `'0'` and walks left, then appends `'1'` and walks right over the map the left walk left behind, so a later put for a character overwrites an earlier one |
| Coding.Codes | src/huffify/HuffmanTree.java:75-83 | definition: the walk from the root with an empty builder and an empty map |
| Text.CountSnoc | src/huffify/FrequencyTable.java:82-89 | reading one more line adds its occurrences of c, plus one if c is the separator |
| Text.CountIsOccurrences | src/huffify/FrequencyTable.java:78-95 | the count of c is its number of occurrences in the separator-normalised text |
| Text.FlattenFacts | src/huffify/FrequencyTable.java:82-89 | the normalised text has one separator per line beyond the lines' characters, and is ASCII when the lines are |
| Text.SeparatorInText | src/huffify/FrequencyTable.java:88 | a text with a line holds the separator |
| Text.TallyAppend | src/huffify/Huffify.java:90-98 | a per-slot weighted count gains one character's weight when that character is below the slot bound |
| Text.TallyIsSeqCost | src/huffify/Huffify.java:90-98 | over all 128 slots the weighted count of an ASCII text is the sum of its characters' weights |
| Text.SeqCostOnes | src/huffify/Huffify.java:90-98 | with weight one per character the sum is the length |
| Text.TotalCount | src/huffify/FrequencyTable.java:78-95 | the frequencies of all slots add up to the characters read plus one separator per line |
| Text.Flatten | src/huffify/FrequencyTable.java:82-89 | definition: the lines in order, each followed by one character 10, whether or not the file ended it with a terminator |
| Text.Count | src/huffify/FrequencyTable.java:82-89 | definition: a slot gains one count for every occurrence of its character in a line, and slot 10 one more for every line read |
| Text.OnlySeparatorsFlatten | src/huffify/FrequencyTable.java:82-89 | every character of every line is character 10 exactly when every character of the normalised text is |
| Frequencies.WeightedRemove | src/huffify/Huffify.java:93-96 | the sum over the set does not depend on which node is taken first |
| Frequencies.BelowSplit | src/huffify/FrequencyTable.java:67-71 | the node of slot n - 1 is the only node below slot n and not below n - 1 |
| Frequencies.BelowSame | src/huffify/FrequencyTable.java:68 | a slot with count zero contributes no node |
| Frequencies.BelowStep | src/huffify/Huffify.java:93-96 | each slot adds its count times its character's length to the sum over the set |
| Frequencies.WeightedIsTally | src/huffify/Huffify.java:90-98 | summed over the nodes below a slot, frequency times length equals the weighted count of the text's characters below that slot |
| Frequencies.SetCost | src/huffify/Huffify.java:90-98 | frequency times code length summed over the set is the sum of the code lengths over the text's characters |
| Frequencies.SetTotals | src/huffify/FrequencyTable.java:65-95 | the set's frequencies add up to the characters read plus one per line, and every frequency is positive |
| Frequencies.EmptyText | src/huffify/FrequencyTable.java:65-72 | an empty text gives an empty set |
| Frequencies.Leaves | src/huffify/FrequencyTable.java:65-72 | the leaves of the first n slots: one per non-zero slot, carrying its count, in strictly increasing character order |
| Frequencies.LeavesCover | src/huffify/FrequencyTable.java:68-69 | every non-zero slot has its leaf |
| Frequencies.LeafSlot | src/huffify/FrequencyTable.java:68-69 | a non-zero slot adds its leaf after those of the lower slots |
| Frequencies.LeavesSkip | src/huffify/FrequencyTable.java:68 | zero slots add no leaves |
| Frequencies.TextLeaves | src/huffify/FrequencyTable.java:65-95 | the leaves of a text's counts are exactly its characters, and there are none exactly when there are no lines |
| Frequencies.OneLeafText | src/huffify/FrequencyTable.java:65-95 | a text's counts give exactly one leaf exactly when it has a line and its lines hold nothing but separators; for lines from `nextLine`, exactly when it has a line and every line is empty |
| Frequencies.SlotLeaves | src/huffify/FrequencyTable.java:65-72 | definition: one leaf `(i, counts[i])` for every slot `i` whose count is not zero, in increasing slot order |
| Frequencies.Counts | src/huffify/FrequencyTable.java:78-95 | definition: the `fq` array `createTable` leaves for a text; 128 slots, and slot `c` holds `Count(lines, c)` for every ASCII `c` |
| Frequencies.IsLeafNode | src/huffify/FrequencyTable.java:69 | definition: a node as `new HuffNode((char) i, fq[i])` makes it: no children, a footprint of the node alone, standing for `Leaf(c, fq)` |
| Frequencies.IsSetOf | src/huffify/FrequencyTable.java:65-72 | definition: the set holds a valid leaf node `(i, counts[i])` for every slot `i` whose count is not zero, only such nodes, and no two nodes with the same character |
| Frequencies.Weighted | src/huffify/Huffify.java:93-96 | definition: frequency times code length summed over the set's nodes, one node at a time in any order, as the `for` loop over the `HashSet` adds them |
| Frequencies.ForestOfSet | src/huffify/Huffify.java:72-77 | a queue filled from the set holds valid leaf nodes of the set with pairwise distinct characters |
| Frequencies.SetInLeaves | src/huffify/FrequencyTable.java:65-72 | every node of the set has the character of some slot leaf |
| Frequencies.ModelInLeaves | src/huffify/Huffify.java:72-77 | every tree the queue stands for is a slot leaf |
| Frequencies.LeafInModels | src/huffify/Huffify.java:72-77 | every slot leaf is stood for by a queued node |
| Frequencies.QueueOfSet | src/huffify/Huffify.java:72-77 | the queue made from the set stands for the slot leaves, in some order |
| Frequencies.SetOfZero | src/huffify/FrequencyTable.java:68 | a zero slot keeps the set the set of the longer table |
| Frequencies.SetOfAdd | src/huffify/FrequencyTable.java:68-69 | adding the leaf of a non-zero slot gives the set of the longer table |
| Frequencies.FrequencyTable.Counting | src/huffify/FrequencyTable.java:47-50 | a fresh table of 128 zero counts |
| Frequencies.FrequencyTable.Restored | src/huffify/FrequencyTable.java:121-135 | a table without counts holding the persisted set |
| Frequencies.FrequencyTable.Length | src/huffify/FrequencyTable.java:161-163 | 128, the number of slots |
| Frequencies.FrequencyTable.Index | src/huffify/FrequencyTable.java:169-171 | the count of slot i; a table without counts throws `NullPointer` and an index out of range throws `ArrayIndexOutOfBounds` |
| Frequencies.FrequencyTable.CreateSet | src/huffify/FrequencyTable.java:65-72 | the set holds exactly one fresh leaf node (i, count) for every slot i with a non-zero count |
| Frequencies.FrequencyTable.CountLine | src/huffify/FrequencyTable.java:84-88 | on an ASCII line, every slot gains the line's occurrences of its character, and the separator's slot gains one more; the `ArrayIndexOutOfBounds` of a non-ASCII character is raised by `Huffify.Compress` before counting |
| Frequencies.FrequencyTable.CreateTable | src/huffify/FrequencyTable.java:78-95 | on ASCII lines, every slot gains the text's count of its character, and the set is then the set of the new counts; a text with a non-ASCII character gets its `ArrayIndexOutOfBounds` from `Huffify.Compress`, which checks the text before it creates the table |
| Packing.BitsOf | src/huffify/Huffify.java:210-212 | the first n bits of the set, each true exactly when that index is set |
| Packing.CharsCode | src/huffify/Huffify.java:112-122 | definition: the codes of a line's characters concatenated in order; a character without a code makes `map.get` return null, and the call on it throws `NullPointer` |
| Packing.SeparatorCode | src/huffify/Huffify.java:124-134 | definition: the code of character 10 after each line, or nothing when the map has no entry for it |
| Packing.StreamCode | src/huffify/Huffify.java:108-135 | definition: line by line, the line's code followed by the separator's code; the first failing line throws its `NullPointer` |
| Packing.SetBits | src/huffify/Huffify.java:116-121 | definition: bit `k` is set exactly when position `k` of the code stream is `'1'` |
| Packing.DecodeFrom | src/huffify/Huffify.java:210-229 | a clear bit moves left and a set bit right; reaching a node without children emits its character and resets to the root; bits left over at a leaf cursor give `NullPointer`; it fails only with `NullPointer`, and emits no more characters than it reads bits |
| Packing.Decode | src/huffify/Huffify.java:208-229 | the loop from the root; a null root fails with `NullPointer` on the first bit; no bits give the empty output; it fails only with `NullPointer` and emits at most one character per bit |
| Packing.ToBits | src/huffify/Huffify.java:116-121 | a code string read as bits: `'1'` is true |
| Packing.StreamCodeOk | src/huffify/Huffify.java:108-135 | packing fails exactly when some character of some line has no code, and then with `NullPointer` |
| Packing.StreamSnoc | src/huffify/Huffify.java:108-135 | one more line appends the codes of its characters and then, when the separator has a code, that code |
| Packing.CharsSnoc | src/huffify/Huffify.java:112-122 | one more character appends its code |
| Packing.SetBitsSnoc | src/huffify/Huffify.java:116-121 | one more code character sets its index exactly when it is `'1'` |
| Packing.BitsRoundTrip | src/huffify/Huffify.java:116-121 | reading back as many bits as were written gives the written bits |
| Packing.CharsCodeConcat | src/huffify/Huffify.java:112-122 | the codes of a joined text are the joined codes |
| Packing.CharsCodeOk | src/huffify/Huffify.java:112-122 | coding a string fails exactly when one of its characters has no code, and then with `NullPointer` |
| Packing.StreamIsFlatten | src/huffify/Huffify.java:108-135 | when the separator has a code, the stream is the code of the separator-normalised text |
| Packing.CharsCodeLength | src/huffify/Huffify.java:90-98 | the coded length is the sum of the characters' code lengths |
| Packing.DecodeOneCode | src/huffify/Huffify.java:210-228 | reading one character's code from the root emits that character and returns the cursor to the root |
| Packing.DecodeCodes | src/huffify/Huffify.java:210-228 | decoding the codes of a text over an internal tree with distinct symbols gives back the text |
| Packing.RoundTrip | src/huffify/Huffify.java:100-142 | with such a tree holding the separator and every character of the text, reading the packed stream back gives the separator-normalised text |
| Packing.PartialPathSilent | src/huffify/Huffify.java:210-228 | an incomplete code emits nothing |
| Huffify.NumOfBits | src/huffify/Huffify.java:90-98 | frequency times code length summed over the set when every node has a code; otherwise `NullPointer` |
| Huffify.WriteCode | src/huffify/Huffify.java:116-121 | the bit set becomes the bits of the written prefix followed by the code, and the index moves past the code |
| Huffify.EncodeLine | src/huffify/Huffify.java:112-122 | succeeds exactly when every character of the line has a code, and then appends the line's codes to the bits |
| Huffify.Encode | src/huffify/Huffify.java:100-142 | a negative bit count throws `NegativeArraySize`; a missing code throws `NullPointer`; otherwise the bit set is exactly the packed stream and that many bits were written |
| Huffify.JoinPrepend | src/huffify/Huffify.java:224-227 | a character written now comes before what the rest of the loop writes |
| Huffify.WriteDecompressed | src/huffify/Huffify.java:202-235 | the output is exactly `Decode` of the tree over the first `numBits` bits, including the `NullPointer` of a null or leaf root |
| Huffify.SymbolsOfText | src/huffify/HuffmanTree.java:42-62 | the tree built from a text's leaves has exactly the text's characters as symbols |
| Huffify.TreeOfCounts | src/huffify/HuffmanTree.java:42-62 | the tree from a table's leaves is internal exactly when there are two or more, with distinct symbols that cover every node of the set |
| Huffify.BitCount | src/huffify/Huffify.java:90-98 | the bit count summed over the set equals the length of the packed stream |
| Huffify.TextCodes | src/huffify/Huffify.java:172-180 | with two or more symbols, the tree is internal, every character has a code, every node of the set has one, and the bit count is the stream's length |
| Huffify.CountText | src/huffify/Huffify.java:166-167 | a fresh table whose set is that of the text's counts |
| Huffify.QueueTree | src/huffify/Huffify.java:172-174 | the tree object's root is null exactly when there are no slot leaves, and otherwise stands for a tree the loop can build from them |
| Huffify.PackText | src/huffify/Huffify.java:175-180 | the bit set holds exactly the packed stream of the text |
| Huffify.Compress | src/huffify/Huffify.java:163-183 | a non-ASCII character throws `ArrayIndexOutOfBounds`; no lines (no leaves) throw `NullPointer`; a text whose lines are all empty, so one leaf, the separator, is the only symbol, throws `StringIndexOutOfBounds`; otherwise (two or more leaves, so a text such as `aaa` compresses) the archive holds the text's set and the text packed with the codes of a tree the loop can build |
| Huffify.UnpackText | src/huffify/Huffify.java:262-266 | the output is `Decode` of the tree over as many bits as that tree's codes take for the set |
| Huffify.Decompress | src/huffify/Huffify.java:237-267 | no leaves throw `NullPointer`; one leaf throws `StringIndexOutOfBounds`; otherwise the output is `Decode` through a tree the loop can build, over the bit count of that tree |
| Huffify.TextRoundTrip | src/huffify/Huffify.java:163-267 | packing with a tree the loop builds and decoding with the same tree gives back the text |
| Huffify.TextTree | src/huffify/HuffmanTree.java:42-62 | that tree is internal with distinct symbols, holds the separator and every character of the text |
| Huffify.ArchiveRoundTrip | src/huffify/Huffify.java:163-267 | when the queue is never ambiguous, packing with one tree the loop builds and decoding with any other gives back the text |
| Huffify.CompressDecompress | src/huffify/Huffify.java:163-267 | compress then decompress: the same three exceptions; otherwise decoding through the second run's tree, which gives back the text when the two trees agree, in particular when the queue never holds a tie |
| Huffify.AbcdeCounts | src/huffify/FrequencyTable.java:78-95 | the counts of `"abcde"`: one for each letter and one for the separator |
| Huffify.AbcdeCount | src/huffify/FrequencyTable.java:82-89 | the count of each character in `"abcde"` |
| Huffify.AbcdeOccurrences | src/huffify/FrequencyTable.java:84-87 | the occurrences of each character in the line `"abcde"` |
| Huffify.AbcdeHead | src/huffify/FrequencyTable.java:67-71 | below `'a'` only the separator's slot has a leaf |
| Huffify.LetterStep | src/huffify/FrequencyTable.java:68-69 | a slot with count one adds its leaf |
| Huffify.AbcdeLetters | src/huffify/FrequencyTable.java:67-71 | the slots up to `'e'` give the leaves of the separator and the five letters |
| Huffify.AbcdeSlots | src/huffify/FrequencyTable.java:67-71 | those leaves are all the slot leaves |
| Huffify.AbcdeQueue | src/huffify/FrequencyTable.java:65-95 | the queue of `"abcde"` holds six leaves of weight one |
| Huffify.TieArchive | src/huffify/Huffify.java:237-267 | for `"abcde"` the loop can build two different trees, and packing with one and decoding with the other does not give back the text |
| Ties.SameMinimum | src/huffify/HuffmanTree.java:44 | queues with the same elements have minima with equal keys |
| Ties.MinTransfer | src/huffify/HuffmanTree.java:44 | a minimum of one queue is a minimum of any queue with the same elements |
| Ties.RemoveSame | src/huffify/HuffmanTree.java:44-45 | removing the same tree from queues with the same elements leaves queues with the same elements |
| Ties.MatchStep | src/huffify/HuffmanTree.java:44-58 | any iteration on one queue can be matched on a queue with the same elements, with the same resulting elements |
| Ties.BuildsPerm | src/huffify/Huffify.java:72-77 | the trees the loop can build depend only on which trees are queued, not on their insertion order |
| Ties.SamePolls | src/huffify/HuffmanTree.java:44-58 | with pairwise distinct keys, every iteration on queues with the same elements gives the same elements |
| Ties.BuildsDeterministic | src/huffify/HuffmanTree.java:42-62 | when no queue along the way holds two trees with equal keys, the loop builds one tree only |
| Ties.Unambiguous | src/huffify/HuffmanTree.java:44-58 | definition: the queue has pairwise distinct keys, and so has every queue a legal iteration leads to, so that `poll` never has a choice |
| Ties.SortedChain | src/huffify/HuffmanTree.java:44 | in key order the first tree is a minimum |
| Ties.SortedStep | src/huffify/HuffmanTree.java:44-58 | on a key-ordered queue the front two trees may be merged |
| Ties.SortedForced | src/huffify/HuffmanTree.java:44-58 | when the queue's trees, sorted, have pairwise distinct keys, every run of the loop from them starts by merging the two smallest |
| Ties.EqualKeysMin | src/huffify/HuffmanTree.java:44 | when all keys are equal, any tree may be polled |
| Ties.TieStepOne | src/huffify/HuffmanTree.java:44-58 | the first merge of the `"abcde"` queue |
| Ties.TieStepTwo | src/huffify/HuffmanTree.java:44-58 | the second merge |
| Ties.TieStepThree | src/huffify/HuffmanTree.java:44-58 | the third merge, leaving three internal nodes of weight two |
| Ties.TieFirstMerges | src/huffify/HuffmanTree.java:42-62 | whatever the loop builds from that middle queue it builds from the `"abcde"` queue |
| Ties.TieLeftSteps | src/huffify/HuffmanTree.java:44-58 | polling the tied nodes in one order ends with the left tree |
| Ties.TieRightSteps | src/huffify/HuffmanTree.java:44-58 | polling them in the other order ends with the right tree |
| Ties.TieLastMerges | src/huffify/HuffmanTree.java:42-62 | both trees can be built from the middle queue |
| Ties.TieSymbols | src/huffify/HuffmanTree.java:42-62 | both trees hold the separator and `a`..`e`, each once |
| Ties.TiePaths | src/huffify/HuffmanTree.java:96-116 | `a` sits at `101` in one tree and at `01` in the other, where `101` leads to `c` |
| Ties.TieCodes | src/huffify/HuffmanTree.java:75-83 | the two code tables give `a` different codes |
| Ties.TieStream | src/huffify/Huffify.java:100-142 | the packed `"abcde"` starts with `101` under the left tree |
| Ties.TieMisread | src/huffify/Huffify.java:202-235 | read through the right tree, any three or more bits of that stream decode to something other than the text, because the left tree's code for `a` is the right tree's code for `c` |
| Ties.TieRightLength | src/huffify/Huffify.java:90-98 | the right tree's bit count for the text is at least three |
| Ties.TieExample | src/huffify/HuffmanTree.java:42-62 | the `"abcde"` queue builds two different trees that code `a` differently, and the stream packed with one does not decode to the text with the other |
| Fixes.MinSymbol | src/huffify/Huffify.java:51-65 | the smallest character below a tree |
| Fixes.Before | src/huffify/Huffify.java:51-65 | definition: the corrected order, `HUFF_COMP` first and, when it sees a tie, the smaller smallest character first |
| Fixes.BeforeOrder | src/huffify/Huffify.java:51-65 | the corrected order is total and transitive; two trees tie only with equal keys and equal smallest characters |
| Fixes.FirstIsMin | src/huffify/Huffify.java:51-65 | the first tree under the corrected order is a minimum under `HUFF_COMP` |
| Fixes.FirstExists | src/huffify/HuffmanTree.java:44 | a non-empty queue has a first tree under the corrected order |
| Fixes.FirstUnique | src/huffify/HuffmanTree.java:44 | in queues with the same distinct trees, the first tree is the same one |
| Fixes.FixedStepIsStep | src/huffify/HuffmanTree.java:44-58 | an iteration under the corrected order is one `HUFF_COMP` allows |
| Fixes.IsFixedStep | src/huffify/HuffmanTree.java:44-45 | definition: the corrected loop polls the first tree under `Before`, then the first of what remains |
| Fixes.FixedBuilds | src/huffify/HuffmanTree.java:42-62 | definition: the corrected loop ends with `t`, taking only corrected iterations |
| Fixes.FixedIsLegal | src/huffify/HuffmanTree.java:42-62 | every tree built under the corrected order is one the original loop can build |
| Fixes.FixedExists | src/huffify/HuffmanTree.java:42-62 | the corrected loop always ends with a tree |
| Fixes.FixedDeterministic | src/huffify/HuffmanTree.java:42-62 | queues with the same distinct trees build the same tree under the corrected order |
| Fixes.FixedRoundTrip | src/huffify/Huffify.java:163-267 | with the corrected order, compression and decompression build the same tree and the text always comes back |
| Classic.Increasing | src/huffify/Huffify.java:51-65 | in a queue whose keys increase strictly from each tree to the next, they increase strictly between any two positions |
| Classic.ForcedRanks | src/huffify/HuffmanTree.java:44-45 | such a queue is sorted under `HUFF_COMP` and has pairwise distinct keys |
| Classic.ForcedStep | src/huffify/HuffmanTree.java:44-58 | from any filling order of such a queue, every run of the loop is a run from the queue after merging its two smallest trees |
| Classic.ClassicUnique | src/huffify/HuffmanTree.java:42-62 | for the leaves a:5, b:9, c:12, d:13, e:16, f:45, in whatever order they are queued, the loop builds one tree only |
| Classic.RootCodes | src/huffify/HuffmanTree.java:75-116 | the codes of that tree: f `0`, c `100`, d `101`, e `111`, a `1100`, b `1101` |
| Classic.ClassicCodes | src/huffify/HuffmanTree.java:42-116 | for those leaves, in any queue order, the code table gives the most frequent character `f` one bit, `c`, `d` and `e` three and the two rarest four |

## Left out

- `main`, the command-line dispatch and its messages, the `.ser`, `.huff` and `.dec` file names, and the `exists` checks. These are I/O around the core (`Huffify.java:237-254`, `272-310`).
- Reading files: the text is given as a sequence of lines. How `Scanner` splits a file into lines is not modelled, including `\r\n` and a last line without a terminator. Every line is taken to end in character 10, so the text that comes back is `Flatten(lines)`.
- `serializeSet`, `deserializeSet`, `writeCompressedFile` and `readBitSet`. These are Java serialisation. Decompression receives the same set of nodes and the same bit set that compression produced. It also does not model a failed read that leaves the set or the bit set null.
- `Frequencies.FrequencyTable.Restored`: covers the no-argument constructor followed by `deserializeSet`. It does not model the table before the set is read, when the set field is null.
- `Frequencies.FrequencyTable.CountLine`: requires an ASCII line, for the same reason as `CreateTable` below.
- `Frequencies.FrequencyTable.CreateTable`: requires ASCII lines. Java's `fq[c]++` throws `ArrayIndexOutOfBounds` on a character of code 128 or more; `Huffify.Compress` raises the same fault for such a text before creating the table. The counts such a run had already added before the throw are not modelled, because the exception ends the run.
- `Frequencies.FrequencyTable.Counting`: the set starts empty, where the Java constructor leaves the field null until `createSet` runs. No operation of the core reads the set in between.
- Writing the output file: the output is the sequence of characters written. The `(byte)` cast is not modelled; it is the identity on the ASCII characters the tree holds.
- `printPQ`, `printFrequencyTable`, `printFrequencySet` and the "number of bits" message. These are console output only.
- Output that a run writes before an exception. An exception is the run's whole result.
- `java.util.PriorityQueue` and `HashSet` internals. `poll` picks any minimal element, and the iteration order of the set is left open. This is exactly what makes ties visible (see Findings).
- Huffify.NumOfBits: does not model 32-bit `int` wrap-around of the total; the model's integers are unbounded. Frequencies and bit counts are also unbounded.
- Trees.HuffmanTree.BuildTree: the tree is stated through the relation `Builds` over every legal sequence of polls. It is not a single function of the queue, because the source's comparator leaves ties open.
- Fixes: the corrected comparator is stated on values only. The imperative classes keep `HUFF_COMP` as written.

## Findings

| source | as written | input that shows it | evidently intended | confidence | as-written member | corrected member |
|---|---|---|---|---|---|---|
| src/huffify/Huffify.java:51-65 | `HUFF_COMP` compares frequency, then character. Every merged node has character `'#'`, so two merged nodes of equal weight tie. Decompression rebuilds the queue from a deserialised `HashSet`, whose order need not be compression's. The two runs can break the tie differently, build different trees and decode with codes the text was not packed with. | the one-line text `abcde`: six leaves of weight one, then three merged nodes of weight two that tie | the tree built from a frequency set should not depend on the queue's insertion order or on how poll breaks ties, so that decompression rebuilds compression's tree | medium, not executed | Huffify.TieArchive | Fixes.FixedRoundTrip |
