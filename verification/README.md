# Huffman codec and trial-division prime generator, in Dafny

This project models two small programs from a collection of scripts:

- **`huffman_coding.py`: a Huffman codec for text files.**
  - The characters of a text are counted (`get_table`).
  - A Huffman tree is built by repeatedly merging the two least-frequent trees of a priority queue (`Huffman_Coding`).
  - Every character gets the string of '0'/'1' characters on the path to its leaf (`get_codings`).
  - `sorted_table` lists the table in a canonical order.
  - `encode` concatenates the codes, pads the bit string with zeros to whole bytes, and packs it into bytes. It returns the table and the padding count.
  - `decode` expands the bytes back into bits, drops the padding, and reads codes greedily.
- **`p010_dan_generator.rs`: a prime generator and a summing driver.**
  - A generator closure yields 2, then every later candidate that no stored prime divides, and stores it.
  - `main` sums the yielded primes below two million.

Modules, one per part of the programs:

| file | module | what it holds |
|---|---|---|
| `wrappers.dfy` | `Wrappers` | `Option` and `Result` |
| `bit_strings.dfy` | `BitStrings` | '0'/'1' strings; `int(s, 2)` and `bin(n)[2:]`; the 8-bit expansion of a byte |
| `huffman_tree.dfy` | `HuffmanTree` | the tree, `get_codings`, prefix-freedom, code-to-leaf paths |
| `huffman_build.dfy` | `HuffmanBuild` | counting, the priority queue, the merge loop, `Huffman_Coding`, `get_table` |
| `huffman_sort.dfy` | `HuffmanSort` | `sorted_table` and its sort key |
| `huffman_codec.dfy` | `HuffmanCodec` | output name, bit string, padding, packing, expansion, greedy decoding, `encode` |
| `huffman_examples.dfy` | `HuffmanExamples` | the whole table construction worked through on the counts {a: 2, b: 3} |
| `prime_generator.dfy` | `PrimeGenerator` | the generator as an explicit state machine and the summing loop |

Bits are kept as strings of '0' and '1' characters, as in the source. Bytes are integers in `[0, 256)`.

The Python priority queue becomes a sequence of trees. `ExtractMin` removes *some* tree of least priority, so ties are left open and no particular tree shape is promised.

Errors are `Result` values:
- An empty frequency map makes `heap.get()` block forever (`NeverReturns`).
- A single-symbol map gives a leaf root, and `get_codings` then reads `None.data` (`NoneHasNoData`).
- An empty code has no `sorted_table` key, because `int('')` fails (`EmptyCodeKey`).

The Rust generator is a state value `Fresh | Suspended(primes, i)`, where `i` is the next candidate. `Resume` is one `resume()` call.

The codec keeps its state small:
- the padding count is returned by `encode`, not stored in the output file;
- the table is built from the text itself, not read from a persisted table file, and no baseline alphabet is merged into the counts;
- a single-symbol text fails in `get_codings` rather than being wrapped under a synthetic root;
- trailing bits that form no code are dropped silently, with no corruption error (`HuffmanCodec.DecodeDropsPartialCode`).

`HuffmanCodec.Encode` packs the bits as lines 103-104 do, including the lost last byte on a bit string whose length is a non-zero multiple of 8 (see "## Findings"). `HuffmanCodec.EncodeCorrected` is the same encoder with the corrected packing.

## Model

| member | source | states |
|---|---|---|
| BitStrings.Bin | huffman_coding.py:124 | `bin(n)[2:]` is a non-empty bit string, with a leading '1' for positive `n` |
| BitStrings.BinValueOfBin | huffman_coding.py:124 | reading `bin(n)[2:]` back with `int(_, 2)` gives `n` |
| BitStrings.ByteBits | huffman_coding.py:124-125 | the zero-padded expansion of a byte is exactly 8 bits whose base-2 value is the byte |
| BitStrings.ByteBitsOfBinValue | huffman_coding.py:103-104 | every 8-bit string is below 256, and expanding its `int(_, 2)` value gives the string back |
| HuffmanTree.MergedPriority | huffman_coding.py:45 | in a merged tree, every node's priority is the total frequency of its leaves |
| HuffmanTree.ChildCodings | huffman_coding.py:23-33 | the recursive `get_codings`: a leaf child records exactly its path for its symbol; for a node child (left subtree walked with '0' appended, then the right with '1', whose entries win) the keys, prefixes, prefix-freedom and walks of the result are stated by `ChildCodingsKeys`, `ChildCodingsExtendPath`, `ChildCodingsPrefixFree` and `ChildCodingsFollow` |
| HuffmanTree.ChildCodingsKeys | huffman_coding.py:23-33 | a subtree gives codes to exactly its leaf symbols |
| HuffmanTree.ChildCodingsExtendPath | huffman_coding.py:27-33 | each code below a subtree extends the path to it, strictly when the subtree is internal, and is a bit string |
| HuffmanTree.ChildCodingsPrefixFree | huffman_coding.py:23-33 | the codes of one subtree are prefix-free |
| HuffmanTree.GetCodings | huffman_coding.py:49-50 | the call `get_codings(coding, '', root)` fails, as reading `None.data` does, exactly on a leaf root; the table it returns otherwise is pinned by `CodingsCoverage` and `CodingsFollow` |
| HuffmanTree.CodingsCoverage | huffman_coding.py:23-33 | `get_codings` fails exactly on a leaf root; otherwise it gives a prefix-free table of non-empty bit codes, one per leaf symbol |
| HuffmanTree.ChildCodingsFollow | huffman_coding.py:23-33 | walking a recorded code below the subtree's path leads to a leaf holding that code's symbol |
| HuffmanTree.CodingsFollow | huffman_coding.py:23-33 | walking each code from the root ('0' left, '1' right) ends at a leaf holding its symbol |
| HuffmanBuild.Count | huffman_coding.py:76-79 | the counter has exactly the text's characters as keys, each mapped to its number of occurrences (at least 1) |
| HuffmanBuild.ExtractMin | huffman_coding.py:15-16 | `heap.get()` returns a queue element of least priority, and what remains is the queue with exactly that one element taken out (as multisets); no leaves are lost |
| HuffmanBuild.InitialQueue | huffman_coding.py:35-37 | the initial queue holds one leaf per symbol, carrying its frequency |
| HuffmanBuild.MergeTwo | huffman_coding.py:40-48 | one merge round takes out a least-priority tree `left`, then a least-priority tree `right` of the rest, and puts back `Node(Priority(left) + Priority(right), left, right)`; every other tree stays, so the queue shrinks by one and keeps its leaves |
| HuffmanBuild.StepBack | huffman_coding.py:39-48 | a round as `MergeTwo` takes it is a greedy round (a least-priority tree, then a least-priority tree of the rest, merged and put back), so every tree the loop can end with afterwards is one it can end with from the queue before |
| HuffmanBuild.MergeAll | huffman_coding.py:39-48 | the merge loop ends with one merged tree holding all leaves; it is internal when two or more trees were queued, and it is a tree the greedy loop can end with from the starting queue (`GreedyFrom`) |
| HuffmanBuild.Build | huffman_coding.py:35-48 | an empty map never returns; otherwise the root holds each symbol once, with its frequency, is a leaf exactly for one symbol, and is a tree the greedy merge loop builds from a queue of one leaf per symbol (`HuffmanTreeOf`) |
| HuffmanBuild.CodingsOfBuild | huffman_coding.py:49-51 | on a built tree, `get_codings` fails for one symbol; for two or more it gives a prefix-free table of non-empty bit codes over exactly the symbols, read off a greedily built tree of the counts (`HuffmanTable`) |
| HuffmanBuild.HuffmanCoding | huffman_coding.py:18-51 | 0 symbols never return and 1 symbol fails; 2 or more give a prefix-free table of non-empty bit codes over exactly the symbols, and the table is the codes of a tree the greedy merge loop builds from the counts (`HuffmanTable`) |
| HuffmanBuild.GetTable | huffman_coding.py:73-80 | the table of a text succeeds exactly when it has at least 2 distinct characters, and then covers exactly those and is the codes of a greedily built tree of the text's counts |
| HuffmanSort.SortKey | huffman_coding.py:56-65 | `coding_sort_key`: the key of a code of n > 0 characters is an n-digit decimal number (at least 10^(n-1), below 10^n), and the empty code has key 0; its order is stated by `SortKeyOrder` |
| HuffmanSort.SortKeyBounds | huffman_coding.py:56-65 | the key of a code of length n lies between 11…1 and 22…2 (n digits) |
| HuffmanSort.SortKeyOrder | huffman_coding.py:56-65 | on bit strings the key is injective, and a smaller key means a shorter code or an equal-length lexicographically smaller one |
| HuffmanSort.Insert | huffman_coding.py:70 | inserting into a key-sorted list keeps it sorted, and the result holds exactly the old elements plus the new one (as multisets) |
| HuffmanSort.InsertDistinct | huffman_coding.py:67-70 | inserting a pair with a new character keeps the characters distinct |
| HuffmanSort.SortedTable | huffman_coding.py:53-71 | fails exactly when some code is empty; otherwise lists every table entry exactly once, unchanged, in key order |
| HuffmanSort.SortedTableOrder | huffman_coding.py:53-71 | for distinct bit codes, the sorted list is strictly ordered: shorter first, then lexicographic |
| HuffmanCodec.LastDot | huffman_coding.py:90 | finds the last '.' of a name, or reports that there is none |
| HuffmanCodec.OutputName | huffman_coding.py:88-93 | a given output name is kept; otherwise the name ends in ".bin" |
| HuffmanCodec.OutputNameReplacesExtension | huffman_coding.py:89-91 | `stem.ext` becomes `stem.bin` when `ext` has no '.' |
| HuffmanCodec.OutputNameAppendsExtension | huffman_coding.py:92-93 | a name without '.' gets ".bin" appended |
| HuffmanCodec.Concat | huffman_coding.py:96-100 | the concatenated codes form a bit string at least as long as the text |
| HuffmanCodec.ConcatAppend | huffman_coding.py:96-100 | the bits of two texts in a row are the bits of the first followed by those of the second |
| HuffmanCodec.Padding | huffman_coding.py:102 | the padding is between 1 and 8 and brings the length to a multiple of 8 (8 on an aligned length) |
| HuffmanCodec.PackAsWritten | huffman_coding.py:103-104 | the packing as written yields ceil(L/8) bytes on a non-aligned length but only L/8 on a non-empty aligned one |
| HuffmanCodec.Pack | huffman_coding.py:103-104 | the corrected packing yields (L + padding) / 8 bytes |
| HuffmanCodec.ExpandAll | huffman_coding.py:122-126 | expanding k bytes gives a bit string of exactly 8k characters; `ByteBitsOfBinValue` and `ExpandPack` show it inverts the packing |
| HuffmanCodec.ExpandPack | huffman_coding.py:103-126 | expanding the packed bytes gives the bit string followed by the padding zeros |
| HuffmanCodec.DropLast | huffman_coding.py:127 | `s[:-padding]` is a prefix of `s` that is `padding` shorter, and empty for a padding of 0 or longer than `s` |
| HuffmanCodec.ReverseTable | huffman_coding.py:117 | the reverse table's keys are the codes, each mapped to a character that has that code |
| HuffmanCodec.Greedy | huffman_coding.py:129-135 | the greedy decoder emits at most one character per bit |
| HuffmanCodec.CodesRead | huffman_coding.py:129-135 | with a prefix-free table of non-empty codes, reading a code from a fresh path emits exactly its character and resets the path |
| HuffmanCodec.GreedyConcat | huffman_coding.py:129-135 | the concatenated codes of a text decode to the text, whatever bits follow |
| HuffmanCodec.DecodeDropsPartialCode | huffman_coding.py:129-135 | trailing bits that are a proper prefix of a code are dropped without an error |
| HuffmanCodec.Decode | huffman_coding.py:112-141 | `decode` emits at most one character per remaining bit: at most 8·bytes, and at most 8·bytes − padding when 0 < padding ≤ 8·bytes; what it returns is pinned by `RoundTrip`, `RoundTripAsWritten` and `DecodeAsWritten` |
| HuffmanCodec.RoundTrip | huffman_coding.py:102-135 | decoding the corrected packing, with its padding count, returns the text |
| HuffmanCodec.PackAsWrittenAgrees | huffman_coding.py:103-104 | on a non-aligned or empty bit string, the packing as written equals the corrected one |
| HuffmanCodec.RoundTripAsWritten | huffman_coding.py:102-135 | the codec as written round-trips whenever the bit length is not a non-zero multiple of 8 |
| HuffmanCodec.PackAsWrittenLosesLastByte | huffman_coding.py:103-104 | on a non-zero aligned length, the last byte as written is 0 and decoding reads only the first L - 8 bits |
| HuffmanCodec.TwoSymbolTable | huffman_coding.py:27-31 | the two-symbol table a = "0", b = "1" is prefix-free with non-empty bit codes |
| HuffmanCodec.ExampleBits | huffman_coding.py:96-100 | "abababab" under a = "0", b = "1" is the bit string "01010101" |
| HuffmanCodec.AlignedLengthCounterexample | huffman_coding.py:102-104 | "abababab" under a = "0", b = "1" decodes to "" from the bytes as written, but to itself from the corrected bytes |
| HuffmanCodec.DecodeAsWritten | huffman_coding.py:102-135 | on a non-empty text, the codec as written returns the text when the bit length L is not a multiple of 8; when it is (`AlignedLoss`), the padding is 8, only L / 8 bytes are written, the last of them 0, and decoding reads only the first L - 8 bits |
| HuffmanCodec.Encode | huffman_coding.py:82-110 | fails as the table construction does; otherwise returns the output name, a prefix-free table over the text's characters read off a greedily built tree of the text's counts, and padding `8 - L % 8`; the bytes are the packing as written: the text decodes back when L is not a multiple of 8, and otherwise only the first L - 8 bits are decoded |
| HuffmanCodec.EncodeCorrected | huffman_coding.py:82-110 | the encoder with the corrected packing: the table as in `Encode`, 8·bytes = L + padding, and the bytes decode to the text on every length |
| HuffmanExamples.TwoCountsTree | huffman_coding.py:35-48 | on the counts {a: 2, b: 3} the merge loop can build only the node of priority 5 with 'a' on the left and 'b' on the right |
| HuffmanExamples.TwoCountsTable | huffman_coding.py:18-51 | `Huffman_Coding` on {a: 2, b: 3} can return only the table {a: "0", b: "1"} |
| HuffmanExamples.LessCommonListedFirst | huffman_coding.py:53-71 | `sorted_table` on {a: "0", b: "1"} lists 'a' first, so on the counts {a: 2, b: 3} the less common character comes first |
| PrimeGenerator.PrimesBelowMembers | p010_dan_generator.rs:13-21 | the reference list holds exactly the primes below n, in increasing order |
| PrimeGenerator.HasDivisor | p010_dan_generator.rs:14-19 | the inner loop finds a divisor exactly when some stored prime divides the candidate |
| PrimeGenerator.TrialDivision | p010_dan_generator.rs:14-20 | with all primes below i stored, a stored prime divides i exactly when i is not prime |
| PrimeGenerator.ProductPlusOne | p010_dan_generator.rs:13-23 | no stored prime divides their product plus one, so the candidate search stops |
| PrimeGenerator.SkipCandidate | p010_dan_generator.rs:14-22 | a skipped candidate is composite and stores nothing; an accepted one is prime and is stored |
| PrimeGenerator.NextPrime | p010_dan_generator.rs:13-23 | a later resumption yields the least prime from the candidate on, and the stored primes become all primes up to it |
| PrimeGenerator.Resume | p010_dan_generator.rs:8-24 | each resumption yields the next prime, 2 first, larger than all yielded before, with no prime skipped, and stores it |
| PrimeGenerator.SumPrimesBelow | p010_dan_generator.rs:26-36 | the driver loop sums exactly the primes below m |
| PrimeGenerator.MainSum | p010_dan_generator.rs:25-37 | `main` computes the sum of the primes below 2000000 |

## Left out

- File I/O. The text of the input file, the table and the padding count are parameters, and `decode`'s input is its bytes.
- `decode`'s output-file branch, huffman_coding.py:137-139. Writing a file is I/O; `HuffmanCodec.Decode` is the returned string.
- The `queue.PriorityQueue` internals. Which of several equal-priority trees comes out first is left open, so the model promises no particular tree or table, only its properties.
- When two characters share a code, which one the reverse table keeps depends on dictionary order and is left open. Tables built by `Huffman_Coding` never share codes.
- The Rust generator machinery (`Pin`, `GeneratorState`) and the unreachable "problem with the generator" message, p010_dan_generator.rs:33. The closure never completes.
- The final `println!` of the sum.
- HuffmanSort.SortedTable: states the order the code sorts by, shorter codes first and then lexicographic (`HuffmanSort.SortedTableOrder`), not the "most common characters first" of the docstring at huffman_coding.py:54. Nothing orders the codes by count: for the counts {a: 2, b: 3} the less common 'a' gets "0" and is listed first (`HuffmanExamples.TwoCountsTable`, `HuffmanExamples.LessCommonListedFirst`). Python's sort is stable, so equal keys would keep the dictionary's insertion order; a map has no such order and the model leaves it open, but the distinct codes of a table never have equal keys.
- PrimeGenerator.SumPrimesBelow: does not model 64-bit overflow, because the integers are unbounded. The sum of the primes below two million fits in an `i64`.
- `plot_slope_field.py` and `sum_calculator.py`: unrelated scripts, outside this model.

## Findings

| source | as written | input that shows it | evidently intended | confidence | as-written member | corrected member |
|---|---|---|---|---|---|---|
| huffman_coding.py:103 | full chunks are taken for `range(0, len(binary_string) - 8, 8)`. When the length L is a non-zero multiple of 8, this stops one chunk early, and the tail byte at line 104 is all padding, so the last 8 code bits are lost | table a = "0", b = "1" and text "abababab": the bits "01010101" are packed as the single byte 0 with padding 8, and decoding gives "" | take every full chunk, `range(0, L - L % 8, 8)`, so that decoding returns the text | not executed | HuffmanCodec.AlignedLengthCounterexample | HuffmanCodec.EncodeCorrected |
