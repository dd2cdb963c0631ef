# Huffman archiver: a verified model of the static codec

This project models the static Huffman codec of the `huffman_archiver`
command line tool. It covers three parts.

- **The `huffman_tree` object.** It counts the bytes of a file into a
  `std::map<char, int>` frequency table. It builds a code tree from a
  `std::list` of nodes: each pass stable-sorts the list by frequency, pops
  the two front nodes as left and right child, and appends their parent at
  the back. It derives a table of 0/1 codes by walking from the root to
  every leaf; a root that is itself a leaf gets the code "1".
- **The `binary_io` object.** It writes and reads the file layout: a header,
  then the packed code bits. The header holds the byte count, the alphabet
  size, and one (symbol byte, 4-byte frequency) pair per table entry in map
  order. The bit packer fills a byte from bit 7 down, emits it after eight
  bits, and pads the last byte with zero bits. The decoder is a bit-by-bit
  state machine over the current node and the count of symbols emitted.
- **The two drivers** `compress_file` and `decompress_file`, and the
  command line's empty-file short cut.

The model is written in the source's own form:

- `huffman_tree` and `binary_io` are classes whose fields the methods update,
  with `modifies` clauses.
- Their loops are `while`/`for` loops with invariants. Each method is proved
  against a specification function: `Frequencies`/`CountInto`, `BuildFromList`,
  `CodeTable`, `HeaderBytes`, `ParseHeader`, `Pack`/`EncodeBits`, and the
  decoder run `RunFrom`.
- The tree is a datatype. The node list is a sequence, sorted by a stable
  insertion sort. That sort is proved to be the unique stable sort, so it
  stands for `std::list::sort` whatever algorithm the library uses.

The model fixes these conventions:

- **Key order.** `std::map<char, V>` iterates its keys in ascending signed
  `char` order, so the bytes 0x80..0xFF come before 0x00..0x7F.
  `CharOrder.KeysInOrder` gives this order. Both the leaf order of the tree
  (and with it the tie-break of the merge) and the header order use it.
- **Integers.** An `int` in a file is 4 bytes of 32-bit two's complement,
  least significant byte first. Frequencies and counts are `int`s, so the
  compressor requires the input to be shorter than 2^31 bytes. An `int`
  stored into a `size_t` field wraps modulo 2^64 when it is negative.
- **Files.** A file is a sequence of bytes. A method that writes returns
  the bytes it appends; a method that reads takes the bytes still unread.
- **Faults.** What the C++ code would do on a malformed compressed file is
  modelled as an error value of `Common.Fault`:
  - `Truncated`: the header is cut short.
  - `EmptyAlphabet`: the header has no pairs, so `build` would take the front
    of an empty list.
  - `Overflow`: a parent frequency leaves the `int` range.
  - `NullDereference`: a 0-bit at a leaf root makes `node` null, and the
    code then dereferences it.
  - `UnsetSymbol`: an internal node's uninitialised symbol would be emitted.

  The undefined behaviours behind `EmptyAlphabet`, `Overflow` and
  `UnsetSymbol` are reported as such instead of being modelled.

The main theorems:

- **Core round trip.** `Encoding.RoundTrip`: for every non-empty input `s`
  shorter than 2^31 bytes, decompressing the compressed bytes of `s` gives
  `s` back.
- **Command line round trip.** `Encoding.ArchiveRoundTrip`: every file,
  empty or not, round-trips through the command line entry points.
- **Building blocks of the round trip:**
  - The header reads back exactly what was written.
  - The table rebuilt from the header equals the compressor's table.
  - The built tree is well formed, its root frequency is the input length,
    and its leaves are the table's entries.
  - The codes are root-to-leaf paths and are prefix-free.
  - The packed bits read back as the code bits followed by zero padding.
  - The decoder emits one symbol per code and never decodes the padding.

## Model

| member | source | states |
|---|---|---|
| TreeNode.MakeLeaf | src/huffman_tree.cpp:7-12 | the leaf constructor: both children null, the given symbol and frequency |
| TreeNode.MakeParent | src/huffman_tree.cpp:14-18 | the two-child constructor: both children set as given, frequency the sum of theirs, well-formedness kept |
| TreeNode.NodeComparingIsStrictWeakOrder | include/huffman_tree.h:55-59 | `node_comparing` is irreflexive and transitive, and two nodes are incomparable exactly when their frequencies are equal |
| TreeNode.StableSort | src/huffman_tree.cpp:54 | sorting the node list keeps its length and its multiset of nodes |
| TreeNode.StableSortIsStable | src/huffman_tree.cpp:54 | the sorted list is ordered by frequency and keeps the list order of the nodes of each frequency |
| TreeNode.StableSortIsUnique | src/huffman_tree.cpp:54 | any list that is ordered by frequency and keeps each frequency class in list order is the sorted list, so the model fixes the one result every stable sort gives |
| TreeNode.StableSortOfSorted | src/huffman_tree.cpp:54 | a list already ordered by frequency is left unchanged |
| TreeNode.InsertStable | src/huffman_tree.cpp:54 | inserting one node into the list adds exactly that node to its multiset |
| TreeNode.InsertStableSorted | src/huffman_tree.cpp:54 | inserting into a frequency-ordered list keeps it ordered |
| TreeNode.InsertStableClasses | src/huffman_tree.cpp:54 | the inserted node goes in front of the other nodes of its frequency, and the other classes are unchanged |
| TreeNode.ForestPermutation | src/huffman_tree.cpp:54 | reordering the node list keeps its total frequency and its multiset of leaves |
| CharOrder.SignedChar | include/huffman_tree.h:48 | a byte read as a signed `char` lies in -128..127 and is congruent to the byte modulo 256 |
| CharOrder.Rank | include/huffman_tree.h:48 | the position of a byte in the `char` key order is below 256, and the position determines the byte |
| CharOrder.KeysInOrder | include/huffman_tree.h:48 | the keys of the table in strictly ascending signed `char` order, holding exactly the table's keys |
| CharOrder.KeysInOrderUnique | include/huffman_tree.h:48 | any strictly ascending sequence of exactly the table's keys is that iteration order |
| CharOrder.KeysInOrderSameKeys | include/huffman_tree.h:48 | the iteration order depends only on the keys, not on the values |
| CharOrder.KeysInOrderLength | include/huffman_tree.h:48 | iteration visits each key exactly once, so it has as many steps as the table has entries |
| CharOrder.MapSizeBound | include/huffman_tree.h:48 | a table keyed by `char` has at most 256 entries |
| CharOrder.EntriesOf | src/encoding.cpp:19 | the pairs for a sequence of keys are those keys, in that order, with their values |
| CodeTree.CountIntoStep | src/huffman_tree.cpp:35-38 | counting one more byte creates its entry with 0 if missing and then adds one to it |
| CodeTree.FrequenciesCount | src/huffman_tree.cpp:29-43 | a byte has an entry exactly when it occurs in the input, and the entry is its number of occurrences, at least 1 |
| CodeTree.FrequencyConservation | src/huffman_tree.cpp:34-41 | the counts of the table add up to the number of bytes read |
| CodeTree.OccurrencesBound | src/huffman_tree.cpp:38 | no byte occurs more often than the input is long, so counts fit when the length does |
| CodeTree.LeavesOfEntries | src/huffman_tree.cpp:46-50 | the leaves made from table entries carry exactly those entries and their frequencies add up to the entries' sum |
| CodeTree.LeavesCount | src/huffman_tree.cpp:46-50 | one leaf is pushed per table entry |
| CodeTree.LeafAt | src/huffman_tree.cpp:46-50 | the i-th leaf pushed is the i-th key in map order with its count |
| CodeTree.MergeStep | src/huffman_tree.cpp:54-61 | one pass of the merge loop makes the node list shorter by exactly one |
| CodeTree.MergeStepParts | src/huffman_tree.cpp:54-61 | a pass sorts the list, drops the two front nodes and appends their parent, the first popped as the left child |
| CodeTree.MergeStepPreserves | src/huffman_tree.cpp:54-61 | a pass keeps the total frequency of the list and its multiset of leaves |
| CodeTree.MergeStepWellFormed | src/huffman_tree.cpp:54-61 | a pass over well-formed nodes yields well-formed nodes |
| CodeTree.MergeStepOfSorted | src/huffman_tree.cpp:54-61 | on a list already ordered by frequency, a pass joins the first two nodes and appends the parent at the back |
| CodeTree.BuildFromListPass | src/huffman_tree.cpp:53-62 | the tree the loop ends with is the tree built from the list after one pass |
| CodeTree.BuildFromListProperties | src/huffman_tree.cpp:53-63 | the last node left is well formed, its frequency is the list's total, and its leaves are the list's leaves |
| CodeTree.NonNegativeFits | src/huffman_tree.cpp:15 | with non-negative frequencies whose total is an `int`, no parent frequency of the merge overflows |
| CodeTree.MergeStepNonNegative | src/huffman_tree.cpp:54-61 | a pass over nodes of non-negative frequency yields nodes of non-negative frequency |
| CodeTree.BuildTreeProperties | src/huffman_tree.cpp:45-64 | the tree built from a non-empty table is well formed, its root frequency is the sum of all counts, and its leaves are the table's entries, each once |
| CodeTree.BuildTreeSymbols | src/huffman_tree.cpp:45-64 | the leaf symbols of the built tree are exactly the table's keys |
| CodeTree.FrequenciesFit | src/huffman_tree.cpp:45-64 | for a non-empty input shorter than 2^31 bytes the table is non-empty and building its tree never overflows an `int` |
| CodeTree.ExampleKeys | src/huffman_tree.cpp:46-50 | the keys a, b, c, d are visited in that order |
| CodeTree.ExampleLeaves | src/huffman_tree.cpp:46-50 | the table a:4, b:4, c:4, d:4 gives the leaves a, b, c, d in that order |
| CodeTree.ExampleMerge | src/huffman_tree.cpp:53-62 | four nodes of frequency 4 merge into ((first, second), (third, fourth)) with frequencies 16, 8 and 8 |
| CodeTree.TieBreakExample | src/huffman_tree.cpp:54-61 | the table a:4, b:4, c:4, d:4 builds the root ((a, b), (c, d)) of frequency 16 whose children have frequency 8 and whose left-left leaf has frequency 4 |
| CodeTree.SingleSymbolTree | src/huffman_tree.cpp:53-63 | a one-entry table builds a root that is itself the leaf, since the merge loop does not run |
| CodeTree.CodesFromDomain | src/huffman_tree.cpp:83-99 | the walk writes a code for exactly the symbols of the tree's leaves |
| CodeTree.CodesFromPaths | src/huffman_tree.cpp:93-98 | the code written for a symbol is the walk's prefix followed by a path, 0 for left and 1 for right, to a leaf holding that symbol |
| CodeTree.LeafPathPrefixFree | src/huffman_tree.cpp:93-98 | a root-to-leaf path that is a prefix of another is the same path, to the same leaf |
| CodeTree.CodeTableProperties | src/huffman_tree.cpp:81-99 | the table has a code for exactly the leaf symbols; a leaf root gets exactly "1"; otherwise every code is non-empty, is the path to its own leaf, and no code is a prefix of another's |
| Huffman.HuffmanTree.constructor | include/huffman_tree.h:27-53 | a fresh tree object: no root, empty maps and list, zero counters |
| Huffman.HuffmanTree.BuildFrequencyTable | src/huffman_tree.cpp:29-43 | the table after counting every input byte into the existing table; the byte count is the input length and the alphabet size the number of entries |
| Huffman.HuffmanTree.CountChar | src/huffman_tree.cpp:35-38 | one pass of the counting loop counts one more byte of the input |
| Huffman.HuffmanTree.Build | src/huffman_tree.cpp:45-64 | the root is the tree the merge loop builds from the leaves of the table appended to the list, and the list is left holding only that root |
| Huffman.HuffmanTree.PushLeaves | src/huffman_tree.cpp:46-50 | one leaf per table entry is appended to the list, in map order |
| Huffman.HuffmanTree.MergeList | src/huffman_tree.cpp:53-62 | the loop leaves exactly the one node that repeated passes build |
| Huffman.HuffmanTree.AddSymbol | src/huffman_tree.cpp:78 | a new symbol is inserted with its frequency; a symbol already present is left unchanged |
| Huffman.HuffmanTree.BuildTable | src/huffman_tree.cpp:81-99 | the code table of the root is written into the table |
| BitPacking.ShiftBitIsByteBit | src/encoding.cpp:90 | `(buf >> j) & 1` on the byte read as a signed `char` is bit 7 - j as the packer placed it: sign extension does not disturb bits 0..7 |
| BitPacking.PadLength | src/encoding.cpp:53-56 | the zero padding is fewer than 8 bits and completes the last byte |
| BitPacking.PackLength | src/encoding.cpp:38-56 | packing emits ceil(bits / 8) bytes |
| BitPacking.UnpackPack | src/encoding.cpp:38-56 | the packed bytes read bit 7 first are the code bits followed by the zero padding |
| BitPacking.UnpackAt | src/encoding.cpp:89-90 | bit m of byte k sits at index 8k + m of the bits read |
| BitPacking.PlacedPush | src/encoding.cpp:41 | setting the next bit of the buffer adds its place value, since that bit of the buffer is still clear |
| BitPacking.PackPlaced | src/encoding.cpp:44-55 | a buffer holding one to eight bits is the byte those bits pack into |
| BitPacking.PackAppend | src/encoding.cpp:44-49 | whole bytes already emitted pack separately from the bits that follow |
| BitPacking.EncodeBitsSnoc | src/encoding.cpp:38-39 | the code bits of the input grow by the code of each byte read |
| BitPacking.EncodeBitsSingle | src/encoding.cpp:38-39 | with the single code "1", n copies of the only symbol encode as n one bits |
| Header.Int32RoundTrip | src/encoding.cpp:63-64 | an `int` written as 4 bytes (lines 14-15) reads back as the same value |
| Header.EntryBytes | src/encoding.cpp:19-23 | each (symbol, frequency) pair takes 5 bytes |
| Header.EntryBytesSnoc | src/encoding.cpp:19-23 | each pass of the writing loop appends the symbol byte and the 4 frequency bytes |
| Header.HeaderBytes | src/encoding.cpp:9-26 | the header is 8 + 5 * (pairs) bytes |
| Header.ReadEntries | src/encoding.cpp:70-75 | reading k pairs either fails or gives k pairs from at least 5k bytes |
| Header.ReadEntriesStep | src/encoding.cpp:70-75 | reading pairs one at a time reads the same pairs as reading them all |
| Header.ReadEntriesRoundTrip | src/encoding.cpp:70-75 | the pairs written by lines 19-23 read back as the same pairs, whatever follows them |
| Header.ParseHeader | src/encoding.cpp:59-76 | a header that parses is 8 + 5 * (pair count) bytes long and holds that many pairs, none for a negative count |
| Header.ParseHeaderBytes | src/encoding.cpp:59-76 | a header written with k pairs by lines 9-26 reads back as the same byte count, alphabet size and pairs, followed by the body |
| Header.HeaderRoundTrip | src/encoding.cpp:59-76 | the header written for a table by lines 9-26 reads back the byte count, the table size and the table's entries in map order, and its size is 8 + 5 * (table size) |
| Header.InsertAllSnoc | src/encoding.cpp:73 | each `add_symbol` of the reading loop inserts one pair unless its symbol is already present |
| Header.InsertAllEntries | src/encoding.cpp:70-75 | adding a table's entries in map order to an empty table rebuilds the table |
| Decoder.NextByte | src/encoding.cpp:101-103 | the `break` resumes at the first bit of the next byte |
| Decoder.InternalStep | src/encoding.cpp:89-109 | at an internal node with an internal root a bit step never fails: it moves to the child, and at a leaf emits its symbol, counts it and returns to the root |
| Decoder.SingleLeafStep | src/encoding.cpp:93-96 | at a leaf root a 1-bit emits the root's symbol, counts it and leaves the node at the root |
| Decoder.RunFromBreak | src/encoding.cpp:101-103 | a step whose move brings the count to the byte count skips the rest of the byte |
| Decoder.RunFromNext | src/encoding.cpp:89-110 | otherwise the run goes on from the settled state at the next bit |
| Decoder.RunFromMoveFault | src/encoding.cpp:91-99 | a fault in the move is the fault of the run |
| Decoder.RunFromSettleFault | src/encoding.cpp:105-109 | a fault in the settle is the fault of the run |
| Decoder.DecodePath | src/encoding.cpp:89-109 | the bits of a path from an internal node to a leaf emit that leaf's symbol and return to the root |
| Decoder.DecodeCodes | src/encoding.cpp:86-111 | the codes of some bytes, one after another, emit exactly those bytes while the count stays within the byte count |
| Decoder.PaddingIgnored | src/encoding.cpp:101-103 | once the count reaches the byte count, the zero padding in the last byte is never decoded |
| Decoder.DecodeInternalRoot | src/encoding.cpp:78-112 | with an internal root, decoding the packed codes of s with the byte count |s| gives s and counts |s| symbols |
| Decoder.DecodeOnes | src/encoding.cpp:93-103 | at a leaf root each 1-bit emits the root's symbol, and the one that reaches the byte count ends the run |
| Decoder.DecodeLeafRoot | src/encoding.cpp:78-112 | with a leaf root, decoding n packed one bits with the byte count n gives n copies of the root's symbol |
| Decoder.PackedCode | src/encoding.cpp:38-56 | packed and read back, a code string is followed only by fewer than 8 zero bits, ending on a byte boundary |
| Encoding.SizeT | include/encoding.h:27-29 | an `int` stored into a `size_t` is unchanged when non-negative and wraps below 2^64 otherwise |
| Encoding.PackerPush | src/encoding.cpp:41-49 | one more bit keeps the packer state: the bits so far are the bytes emitted plus the buffer, and a full buffer is emitted as a byte |
| Encoding.PackerFinish | src/encoding.cpp:53-56 | the partly filled last byte completes the packed bytes, the count is ceil(bits / 8), and the position in the byte is the bit count modulo 8 |
| Encoding.BinaryIo.constructor | include/encoding.h:24-29 | a fresh `binary_io` with its counters at zero |
| Encoding.BinaryIo.WriteFrequencyTable | src/encoding.cpp:9-26 | the bytes written are the header of the byte count, the alphabet size and the table's entries in map order; the header size recorded is their number, 8 + 5 * (entries); the byte count is recorded |
| Encoding.BinaryIo.WriteEntries | src/encoding.cpp:19-23 | the loop appends 5 bytes per entry and counts them into the header size |
| Encoding.BinaryIo.WriteEntry | src/encoding.cpp:20-22 | one pass writes the symbol byte and its 4 frequency bytes and counts 5 bytes |
| Encoding.BinaryIo.WriteBits | src/encoding.cpp:29-57 | the bytes written are the input's codes packed bit 7 first with the last byte zero-padded; the compressed size is their number, ceil(code bits / 8); the position in the byte ends at the bit count modulo 8 |
| Encoding.BinaryIo.WriteCode | src/encoding.cpp:40-50 | the inner loop keeps the packer state over the bits of one code |
| Encoding.BinaryIo.PushBit | src/encoding.cpp:41-49 | one bit keeps the packer state, the position stays in 0..7 and every emitted byte is counted |
| Encoding.BinaryIo.ReadFrequencyTable | src/encoding.cpp:59-76 | a cut-short header is reported; otherwise the header size read, the byte count and the table after adding each pair with `add_symbol` are what the header holds |
| Encoding.BinaryIo.ReadPairs | src/encoding.cpp:69-75 | the loop reads the pair count of pairs into the table, 5 bytes each, or reports that the input ran out |
| Encoding.BinaryIo.ReadBits | src/encoding.cpp:78-112 | the output is what the decoder state machine emits on the body with the recorded byte count, and every body byte is counted as read |
| Encoding.ReadByte | src/encoding.cpp:89-110 | the loop over one byte's bits, bit 7 first, gives the state the run goes on from at the next byte, or the run's fault |
| Encoding.BitOf | src/encoding.cpp:90 | `(buf >> j) & 1` is the bit at index 8k + 7 - j of the body read bit 7 first |
| Encoding.ReadStep | src/encoding.cpp:91-109 | one bit step: its fault is the run's fault, a stop skips to the next byte, otherwise the run goes on from the next bit |
| Encoding.MoveNode | src/encoding.cpp:91-99 | the first half of the bit step follows the bit, or emits the root's symbol at a leaf root, faulting on a null node |
| Encoding.SettleNode | src/encoding.cpp:105-109 | the second half emits a reached leaf's symbol and returns to the root, faulting on a null node |
| Encoding.FrequenciesRange | src/huffman_tree.cpp:38 | every count of an input shorter than 2^31 bytes lies in 1..2^31 - 1 |
| Encoding.BuildCodes | src/encoding.cpp:135-139 | a fresh tree object holding the input's frequency table, its length and alphabet size, and the code table of the tree built from that table |
| Encoding.MakeCodes | src/encoding.cpp:155-156 | `build` then `build_table` (also lines 138-139) leave the tree built from the table and its code table |
| Encoding.CompressFile | src/encoding.cpp:132-147 | the compressed file is the header followed by the packed codes of the input |
| Encoding.CompressedBytesOf | src/encoding.cpp:141-142 | the bytes the writers emit for the counted tree are the compressed file |
| Encoding.DecompressFile | src/encoding.cpp:149-162 | the output is the header's fault, or what decoding the body with the table and byte count read from the header gives |
| Encoding.DecodeWithHeader | src/encoding.cpp:155-157 | on the table read from the header: an empty alphabet or an overflowing merge is reported, otherwise the body is decoded on the tree `build` makes |
| Encoding.HeaderRecoversTable | src/encoding.cpp:154-156 | the header of a compressed file parses, and gives the input length and a table equal to the compressor's, so both sides build the same tree and the rest is the packed body |
| Encoding.CodesOfInput | src/encoding.cpp:137-139 | every input byte's code is the path to its leaf; with a leaf root the table is the single code "1" and every input byte is the root's symbol |
| Encoding.RoundTrip | src/encoding.cpp:132-162 | decompressing the compressed bytes of a non-empty input shorter than 2^31 bytes gives the input back |
| Encoding.ArchiveBytes | src/main.cpp:52-61 | compressing gives an empty file exactly for an empty input |
| Encoding.Compress | src/main.cpp:52-61 | the `-c` mode: an empty file gives an empty result, any other file its compressed bytes |
| Encoding.Decompress | src/main.cpp:62-71 | the `-d` mode: an empty file gives an empty result, any other file what `decompress_file` gives |
| Encoding.ArchiveRoundTrip | src/main.cpp:52-71 | every file shorter than 2^31 bytes, empty or not, comes back through `-c` then `-d` |

## Left out

- Streams and files (`std::ifstream`, `std::ofstream`, text and binary open
  modes) are not modelled. Files are byte sequences, and a method's output
  is the sequence of bytes it would write.
- The argument parsing, `std::filesystem::exists` checks and console
  messages of src/main.cpp are left out. Only the empty-file short cut is
  kept: the core codec (`CompressFile`) requires a non-empty input, and
  `Compress`/`Decompress` handle the empty file before calling it.
- `binary_io::print_sizes` and the three size getters are left out: they
  only print or return field values. The size fields themselves are
  modelled.
- `huffman_tree::destroy`, and the `destroy_tree` call in the drivers, are
  left out. They release memory, which a datatype tree does not need.
- The `build_tree`/`destroy_tree` names used by the drivers are taken to be
  the class's `build`/`destroy`.
- `set_alphabet_power` and the getters of both classes are plain field
  accesses and are used as fields.
- The platform's native byte order for `int` is not modelled. A fixed 4-byte
  little-endian two's complement encoding is used on both sides.
- Node identity is not modelled. The tree is a value, so the pointer test
  `node != tree.get_root()` becomes a comparison of trees. That comparison
  differs from the pointer test only for a leaf that equals a leaf root,
  and then the node is the root itself.
- `buf |= bit << (7 - pos)` on a `char` is modelled as adding the bit's place
  value to a byte. The bit is still clear at that point, so OR and addition
  agree.
- Encoding.BinaryIo.ReadFrequencyTable: when the stream ends inside the
  header, the C++ loop goes on and adds stale buffer values to the table.
  The model reports `Truncated` instead.
- Encoding.DecodeWithHeader: a header without pairs, or with frequencies
  whose merge leaves the `int` range, is undefined behaviour in `build`,
  never reaching the end or overflowing. The model reports
  `EmptyAlphabet`/`Overflow` instead.
- Encoding.MoveNode: reading an internal node's uninitialised symbol is
  reported as `UnsetSymbol`. A null node is reported as `NullDereference`.
  The C++ program would crash or emit garbage.
- Huffman.HuffmanTree.BuildFrequencyTable requires that the counts stay
  below 2^31. The C++ `int` would overflow, and that overflow is not
  modelled.
- Huffman.HuffmanTree.Build requires a non-empty list whose merges stay in
  the `int` range. The C++ loop does not terminate, or overflows, otherwise.
