# A verified model of the DEFLATE decoder in gunzip/deflate.cpp

This project models the decoder core of `gunzip/deflate.cpp` in Dafny.
That core reads a DEFLATE stream (RFC 1951) made of dynamic-Huffman
blocks. The model covers:

- the bit `Reader`;
- `build_huffman_tree` and the trie it builds;
- `HuffmanNode::read`;
- the header decoding of `dynamic_huffman`;
- `inflate`;
- `read_block` and `deflate`.

Each source function becomes a Dafny method that has the same loops and
branches. Each method is proved against a specification function over
the input bytes, and lemmas prove what those functions mean.

The model has eight modules (plus `Seqs`, four small sequence lemmas):

- `Errors`: the ways a decode fails. Each exception or piece of undefined
  behaviour in the C++ becomes an `Error` value: a read past the input,
  a null child, `ranges.back()` on an empty list, `alphabet[-1]`, a
  repeat run past the end of the alphabet, the read one past the alphabet
  in the distance split, `extra_dist_addend[26..27]`, a back-reference
  before the start of the buffer, and a block type other than 2.
- `Bits`: the stream as bits, least significant bit of each byte first
  (RFC 1951 section 3.1.1). `Reader` is a class with the C++ fields: the
  byte index and the one-bit mask. `ReadBit` and `ReadBitsInv` are proved
  against `BitAt` and `BitsValue`.
- `Trie`: the Huffman trie as an arena, a sequence of nodes with child
  indices (-1 is a null child). `Insert` is the insertion walk of
  `build_huffman_tree`. `ReadSymbol` is `HuffmanNode::read`. The lemmas
  prove that a trie built from a code table decodes exactly those codes
  (`DecodeSound`, `DecodeComplete`).
- `Huffman`: range lists (`HuffmanRange`) and the steps of
  `build_huffman_tree`. The steps are `bl_count`, the first code of
  each length, and code assignment. The C++ never zeroes `bl_count[0]`,
  so every stored code is the RFC 1951 code plus `bl_count[0] * 2^len`.
  `SourceCodeAgrees` proves that the low `len` bits, the only ones the
  trie uses, are still the RFC code.
- `Canonical`: Kraft's inequality implies that the RFC 1951 canonical code
  is prefix-free. So a trie built from lengths that satisfy Kraft decodes
  every symbol's own code back to that symbol (`CanonicalRoundTrip`).
- `Inflate`: the length and distance tables, checked against RFC 1951
  section 3.2.5, and the overlapping back-copy. `Inflate` is proved
  against the token-level function `InflateFrom`.
- `Header`: the dynamic block header. It covers:
  - the three counts HLIT, HDIST and HCLEN;
  - the 19 code-length code lengths, written in the permuted order;
  - the run-coalescing loop, which builds `HuffmanRange` lists;
  - the run-length coded alphabet (symbols 16, 17 and 18);
  - the literal/distance split.
- `Blocks`: `dynamic_huffman`, `read_block` and `deflate`, proved against
  `DynamicBlockAt`, `BlockAt` and `DeflateFrom`.

The source's literal/distance split has two defects, listed under
"## Findings". Each as-written loop is modelled and its defect proved.
The decoder pipeline uses the corrected split `SplitAlphabet` instead.
`ReadCodeLengths` reads the whole alphabet of code lengths. `ReadHeader`
cuts it with `SplitRuns`, whose range lists are exactly those of
`SplitAlphabet`. `HeaderTrees` builds the two trees from the same lists
for `DynamicBlockAt`, and so for `DynamicHuffman`, `ReadBlock` and
`Deflate`.

## Model

| member | source | states |
|---|---|---|
| Bits.Reader.constructor | gunzip/deflate.cpp:12 | A new reader is on bit 0 of the given bytes: byte index 0, mask 1 |
| Bits.Reader.ReadBit | gunzip/deflate.cpp:14-26 | With input left, it returns the bit at the current stream position (bytes in order, least significant bit first) and moves on by exactly one bit; at the end of the input it fails with `EndOfStream` and leaves the byte index and mask unchanged |
| Bits.Reader.ReadBitsInv | gunzip/deflate.cpp:28-35 | With `count` bits left, the result is those bits read as a number whose bit `i` is the `i`-th bit read, and the position moves on by `count`; with fewer bits left it fails with `EndOfStream` |
| Bits.Reader.IsEof | gunzip/deflate.cpp:37-39 | True exactly when one bit of the input is left: the last byte with the mask at bit 7 |
| Bits.MaskTest | gunzip/deflate.cpp:18 | `byte & mask` is non-zero exactly when bit `k` of the byte is 1 |
| Bits.BitAt | gunzip/deflate.cpp:18 | Stream bit `p` is bit `p % 8` of byte `p / 8`: it is 1 exactly when that byte and the mask `1 << (p % 8)` have a bit in common, the test `read_bit` makes |
| Bits.BitsValue | gunzip/deflate.cpp:28-35 | The reference for `read_bits_inv`: the `n` bits from position `p` read as a number whose bit `i` is the `i`-th bit read |
| Bits.BitsValueBound | gunzip/deflate.cpp:28-35 | The value of `n` bits read is below `2^n` |
| Bits.BitsValueSplit | gunzip/deflate.cpp:28-35 | Reading `k` bits and then `n - k` more bits gives the value of all `n` bits, the second group worth `2^k` times its own value |
| Bits.BitsValueBit | gunzip/deflate.cpp:32 | Bit `k` of the value `read_bits_inv` builds is the `(k+1)`-th bit read, which is what `value | (bit << i)` puts there |
| Bits.BitsValueHead | gunzip/deflate.cpp:28-35 | The first bit read is the lowest bit of the value; the remaining bits make up the value divided by 2 |
| Trie.FollowGrows | gunzip/deflate.cpp:143-154 | Growing the trie by adding nodes and filling null children keeps every path that existed |
| Trie.FollowConcat | gunzip/deflate.cpp:143-154 | Following `p + q` is following `p`, then `q` from where `p` ends |
| Trie.FollowPath | gunzip/deflate.cpp:137-158 | Following bits `p` from node `m` ends on the node whose recorded path is `m`'s path followed by `p` |
| Trie.TrieFrom | gunzip/deflate.cpp:137-158 | Inserting the symbols below `n` keeps every child index inside the arena |
| Trie.InsertBits | gunzip/deflate.cpp:141-156 | One insertion walk keeps every child index inside the arena |
| Trie.BuildTrie | gunzip/deflate.cpp:137-158 | The insertion loop builds the trie of the code table: every node holding a symbol lies at the end of that symbol's code, and when the codes are prefix-free each code leads to its symbol |
| Trie.InsertSymbol | gunzip/deflate.cpp:140-157 | One turn of the insertion loop moves the loop invariant from `n` symbols inserted to `n + 1` |
| Trie.InsertedTrie | gunzip/deflate.cpp:137-158 | Once all symbols are inserted, the arena is the trie of the table |
| Trie.InsertedStep | gunzip/deflate.cpp:141-157 | Placing symbol `n` at the end of its code, changing no other node's code and no child pointer, extends the invariant to `n + 1` symbols |
| Trie.Insert | gunzip/deflate.cpp:141-156 | The insertion walk tests the code's bits from `len - 1` down to 0 and creates missing children on the way. Its end node lies at the end of the code's path and now holds `sym`; no other node's code and no existing child pointer change |
| Trie.PlaceLeaf | gunzip/deflate.cpp:156 | Storing the symbol in the node the walk ends on finishes the insertion, with all the facts `Insert` states |
| Trie.Descend | gunzip/deflate.cpp:143-154 | One step of the walk, creating the child first when it is null, moves the walk state one bit further along the code |
| Trie.DescendKeeps | gunzip/deflate.cpp:143-154 | Two growth steps compose: the nodes the walk adds are internal and old codes stay |
| Trie.DescendFollows | gunzip/deflate.cpp:148 | The child stepped into is the node one bit further along the path |
| Trie.ExtendValid | gunzip/deflate.cpp:145-152 | A new internal child fills exactly the null pointer, keeps the arena a tree and records its path |
| Trie.CodeBitsAt | gunzip/deflate.cpp:143-144 | The `i`-th bit the walk tests is bit `len - 1 - i` of the code |
| Trie.Walk | gunzip/deflate.cpp:58-69 | Decoding from node `m` ends with a code other than -1, at a position inside the input and not before `pos`; the only failures are the end of the input (`EndOfStream`) and a null child (`NullChild`) |
| Trie.ReadSymbol | gunzip/deflate.cpp:58-69 | `HuffmanNode::read` returns what the walk `Walk` from the root decodes at the reader's position and stops right after its last bit; end of input and null children are errors |
| Trie.WalkReadsPath | gunzip/deflate.cpp:58-69 | A successful walk has read the bits of a path that ends on a node holding a code, and returns that code |
| Trie.WalkAdvances | gunzip/deflate.cpp:58-69 | A walk from an internal root reads at least one bit and stays inside the input |
| Trie.WalkCodeBelow | gunzip/deflate.cpp:58-69 | In a trie whose codes are below `n`, every decoded symbol is below `n` |
| Trie.WalkAlongPath | gunzip/deflate.cpp:58-69 | Reading the bits of a path whose inner nodes are internal ends on the path's last node, after exactly those bits |
| Trie.DecodeSound | gunzip/deflate.cpp:58-69 | Decoding with a code table's trie returns only symbols that have a code, and consumes exactly that code's bits |
| Trie.DecodeComplete | gunzip/deflate.cpp:58-69 | With prefix-free codes, the bits of symbol `s`'s code decode to `s` and consume exactly `len(s)` bits |
| Trie.TrieOfSameBits | gunzip/deflate.cpp:137-158 | Whether an arena is a table's trie, and whether the table is prefix-free, depend only on the lengths and code bits, not on the high bits of the stored codes |
| Trie.HuffmanTree | gunzip/deflate.cpp:95-161 | The built tree has an internal root and holds only symbols below the number of symbols |
| Trie.InsertBitsShape | gunzip/deflate.cpp:141-156 | Insertion keeps every child after its parent, keeps the root's code, and stores only symbols in range |
| Trie.TrieFromShape | gunzip/deflate.cpp:137-158 | The trie after `n` insertions is tree-shaped, has an internal root and holds symbols below `n` |
| Trie.BuildHuffmanTree | gunzip/deflate.cpp:95-161 | An empty range list is an error. Otherwise the tree is the trie of the RFC 1951 canonical code of the described lengths, whatever `bl_count[0]` adds to the stored codes |
| Huffman.Expand | gunzip/deflate.cpp:123-134 | A range list describes `last end + 1` code lengths, each at most 15 |
| Huffman.ExpandAt | gunzip/deflate.cpp:123-129 | Symbol `n` in range `k` (after the previous range's end, up to this one's end) gets range `k`'s bit length |
| Huffman.CountPositive | gunzip/deflate.cpp:117 | The count of a length that some symbol has is positive |
| Huffman.SourceTable | gunzip/deflate.cpp:122-135 | The table has one entry per symbol |
| Huffman.FirstCodeStep | gunzip/deflate.cpp:114-120 | `code = (code + bl_count[bits - 1]) << 1` computes the first code of each length, `bl_count[0]` included |
| Huffman.CodeBitsLow | gunzip/deflate.cpp:143-144 | The walk tests only the low `len` bits, so adding a multiple of `2^len` to a code changes none of them |
| Huffman.SourceCodeAgrees | gunzip/deflate.cpp:113-133 | The stored code equals the RFC 1951 code modulo `2^len` and has the same `len` bits |
| Huffman.NextCode | gunzip/deflate.cpp:113-120 | The reference for the source's step 2, RFC 1951 section 3.2.2 step 2: the first code of each length, with the count of length 0 taken as 0. `FirstCodes` and `Canonical.NextCodeUsed` relate it to the source and to the shorter codes |
| Huffman.RfcCode | gunzip/deflate.cpp:127-133 | The reference for the source's step 3, RFC 1951 section 3.2.2 step 3: a symbol's code is the first code of its length plus the number of earlier symbols of that length. `Canonical.CodeRange` and `Canonical.CodesConsecutive` state its properties |
| Huffman.SourceCode | gunzip/deflate.cpp:113-133 | The code line 131 stores: the RFC code plus `bl_count[0] * 2^len`, since `bl_count[0]` is never zeroed. `SourceCodeAgrees` proves that its low `len` bits are the RFC code's |
| Huffman.CountLengths | gunzip/deflate.cpp:97-111 | `max_bit_length` is the largest bit length of the ranges (0 when every length is 0), at most 15, and bounds every symbol's length; `bl_count[b]` is the number of symbols of length `b`, length 0 included |
| Huffman.CountSymbols | gunzip/deflate.cpp:108-111 | Adding each range's width to the count of its length gives the number of symbols of each length |
| Huffman.LengthsBelow | gunzip/deflate.cpp:97-102 | A bound on the ranges' bit lengths bounds every symbol's length |
| Huffman.CountStep | gunzip/deflate.cpp:109-110 | Range `n` has positive width, and adding that width to the count of its length counts the first `n + 1` ranges |
| Huffman.FirstCodes | gunzip/deflate.cpp:113-120 | `next_code[b]`, for each length in use, is the first code computed with `bl_count[0]`: the RFC code plus `bl_count[0] * 2^b` |
| Huffman.AssignCodes | gunzip/deflate.cpp:97-135 | Every symbol gets its length. A symbol of length 0 keeps code 0; every other symbol gets the next code of its length, which is the RFC 1951 code plus `bl_count[0] * 2^len` |
| Huffman.AssignEntry | gunzip/deflate.cpp:123-134 | One pass of the assignment loop moves the active range onto symbol `n`, fills entry `n`, and keeps the next codes up to date |
| Huffman.CodeStep | gunzip/deflate.cpp:130-133 | A symbol of non-zero length takes the next code of its length as its code, and incrementing it gives the next symbol of that length its code |
| Huffman.ZeroStep | gunzip/deflate.cpp:127-134 | A symbol of length 0 takes no code and leaves every next code unchanged |
| Huffman.FilledStep | gunzip/deflate.cpp:127-133 | Setting entry `n` extends the filled part of the table by one |
| Huffman.RangeOf | gunzip/deflate.cpp:124-126 | Every symbol up to the last end lies in exactly the range the `active_range` loop finds |
| Canonical.NextCodeUsed | gunzip/deflate.cpp:114-119 | The first RFC code of length `b` follows all codes of the shorter lengths |
| Canonical.UsedGrows | gunzip/deflate.cpp:113-120 | The codes of lengths up to `a`, each extended to a longer length `b`, take no more than the codes of lengths up to `b` |
| Canonical.UsedBound | gunzip/deflate.cpp:113-120 | Under Kraft's inequality the codes up to length `a` fit in `a` bits |
| Canonical.CodeRange | gunzip/deflate.cpp:127-133 | A symbol's code lies between the first code of its length and the end of that length's codes |
| Canonical.CodeFits | gunzip/deflate.cpp:127-133 | Under Kraft's inequality every code fits in its length |
| Canonical.CodesAscend | gunzip/deflate.cpp:131-132 | Among symbols of one length, codes increase with the symbol |
| Canonical.CodesConsecutive | gunzip/deflate.cpp:131-132 | The next symbol of the same length gets the next code |
| Canonical.CodeBitsInjective | gunzip/deflate.cpp:143-144 | Two codes below `2^a` whose `a` code bits agree are equal |
| Canonical.LongerCodesAbove | gunzip/deflate.cpp:113-133 | A longer code cut to a shorter length lies past every code of the shorter length |
| Canonical.SameLengthDistinct | gunzip/deflate.cpp:131-132 | Two symbols of one length have different codes |
| Canonical.PrefixCode | gunzip/deflate.cpp:143-155 | If one code's bits begin another's, the longer code shifted down to the shorter length is the shorter code |
| Canonical.PrefixPair | gunzip/deflate.cpp:113-133 | Under Kraft's inequality no symbol's code is a prefix of another symbol's code |
| Canonical.CanonicalPrefixFree | gunzip/deflate.cpp:113-133 | Under Kraft's inequality the canonical table is prefix-free |
| Canonical.CanonicalEntry | gunzip/deflate.cpp:127-133 | Symbol `s`'s canonical entry has its length and its RFC code bits |
| Canonical.DecodeCanonical | gunzip/deflate.cpp:58-69 | In the trie of a prefix-free canonical table, symbol `s`'s code bits decode to `s` and consume `len(s)` bits |
| Canonical.CanonicalRoundTrip | gunzip/deflate.cpp:95-161 | Build then decode: in the trie of lengths that satisfy Kraft's inequality, the bits of symbol `s`'s code decode to `s` and consume exactly `len(s)` bits |
| Inflate.LengthExtraMatchesRfc | gunzip/deflate.cpp:192-206 | Each length symbol 257..285 reads the number of extra bits of the RFC 1951 length table |
| Inflate.LengthBaseMatchesRfc | gunzip/deflate.cpp:192-206 | Each length symbol 257..285 has the base length of the RFC 1951 length table |
| Inflate.LengthAddsExtra | gunzip/deflate.cpp:199-201 | The match length is the base length plus the extra bits' value, when the symbol has extra bits |
| Inflate.DistanceExtraMatchesRfc | gunzip/deflate.cpp:208-209 | Each distance symbol 0..29 reads the number of extra bits of the RFC 1951 distance table |
| Inflate.DistanceBaseMatchesRfc | gunzip/deflate.cpp:208-218 | Counting the `- 1` of the back pointer, each distance symbol 0..29 has the base distance of the RFC 1951 distance table |
| Inflate.DistanceAddsExtra | gunzip/deflate.cpp:212-213 | The distance is the base distance plus the extra bits' value, when the symbol has extra bits |
| Inflate.MatchLength | gunzip/deflate.cpp:192-206 | Every match length is at least 3, and at most 258 when the extra bits fit their width |
| Inflate.BackDistance | gunzip/deflate.cpp:208-218 | The back distance of a distance symbol 0..29 is at least 1, and at most 32768 when the extra bits fit their width |
| Inflate.LengthAt | gunzip/deflate.cpp:192-206 | Fails, with `EndOfStream`, exactly when the symbol's extra bits run past the input; otherwise it reads exactly those bits and gives a length 3..258 |
| Inflate.DistanceExtraAt | gunzip/deflate.cpp:207-218 | `EndOfStream` exactly when a symbol above 3 has too few bits left for its extra bits. `DistanceSymbolTooLarge` exactly when the symbol is 30 or 31 and its 14 extra bits were there to read, so the read comes before the failure. No other error; otherwise it reads exactly the extra bits and gives a distance 1..32768 |
| Inflate.DistanceAt | gunzip/deflate.cpp:207-218 | A distance symbol, then its extra bits: it ends inside the input, and fails only with `EndOfStream`, `NullChild` or `DistanceSymbolTooLarge` |
| Inflate.CopyBack | gunzip/deflate.cpp:218-222 | A copy of `n` bytes appends exactly `n` bytes |
| Inflate.CopyBackGrows | gunzip/deflate.cpp:219-222 | A longer copy extends a shorter one |
| Inflate.CopyBackAt | gunzip/deflate.cpp:218-222 | Each copied byte is the byte `distance` places before it in the growing buffer, overlap allowed |
| Inflate.CopyBackPeriodic | gunzip/deflate.cpp:218-222 | The copy repeats the last `distance` bytes of the buffer with period `distance` |
| Inflate.CopyEffect | gunzip/deflate.cpp:218-222 | A copy keeps the bytes already in the buffer, and each new byte equals the one `distance` before it |
| Inflate.InflateFrom | gunzip/deflate.cpp:176-224 | Tokens are applied one after the other up to the end-of-block symbol; decoding fails only with `EndOfStream`, `NullChild`, `DistanceSymbolTooLarge` or `DistanceTooFar` |
| Inflate.TokenAt | gunzip/deflate.cpp:177-216 | Decoding one token reads at least one bit and stays inside the input; a match's length is 3..258; the only failures are `EndOfStream`, `NullChild` and `DistanceSymbolTooLarge` |
| Inflate.Apply | gunzip/deflate.cpp:184-222 | A token other than the end of the block fails exactly when it is a match whose distance is below 1 or beyond the buffer, and then with `DistanceTooFar`. Otherwise the buffer grows by one byte for a literal and by `length` bytes for a match (`ApplyEffect` states which bytes) |
| Inflate.ApplyEffect | gunzip/deflate.cpp:184-222 | A literal appends exactly its byte. A match appends exactly `length` bytes, each equal to the byte `distance` before it, and fails exactly when the distance reaches outside the buffer. Bytes already in the buffer never change |
| Inflate.InflateExtends | gunzip/deflate.cpp:176-224 | A block's output extends whatever the buffer held before |
| Inflate.InflateAdvances | gunzip/deflate.cpp:176-224 | A block's data ends at least one bit after it starts, inside the input |
| Inflate.CopyMatch | gunzip/deflate.cpp:218-222 | The push loop, copying by index from `distance` bytes before the end, appends exactly the back-copy `CopyBack` (the copy the C++ loop intends; its iterator invalidation is listed under "## Left out") |
| Inflate.ReadLength | gunzip/deflate.cpp:192-206 | The match length after a length symbol, and the bits its extra bits take, as `LengthAt` defines them |
| Inflate.ReadDistanceExtra | gunzip/deflate.cpp:208-213 | The back distance after a distance symbol, extra bits included; symbols 30 and 31 are errors once their extra bits are read |
| Inflate.ReadDistance | gunzip/deflate.cpp:207-218 | A distance symbol read with the distance trie, then its extra bits, as `DistanceAt` defines them |
| Inflate.Inflate | gunzip/deflate.cpp:165-227 | The decoded bytes and the position after the end-of-block symbol are exactly what `InflateFrom` computes from an empty buffer, errors included |
| Header.ExpandSnocRange | gunzip/deflate.cpp:260-261 | Appending a range that ends at `e` extends the described lengths with copies of its bit length up to index `e` |
| Header.RunsMerge | gunzip/deflate.cpp:257-261 | An entry equal to the previous one moves the end of the last run |
| Header.MergeExpand | gunzip/deflate.cpp:260-261 | Moving the last range's end by one describes one more copy of its length |
| Header.GrowLast | gunzip/deflate.cpp:260-261 | Moving the last range's end one further keeps the list valid and describes exactly one more entry of that range's length |
| Header.MergeMaximal | gunzip/deflate.cpp:257-261 | Moving the last range's end keeps neighbouring ranges of different lengths |
| Header.RunsFresh | gunzip/deflate.cpp:257-261 | An entry that differs from the previous one opens a new run |
| Header.FreshMaximal | gunzip/deflate.cpp:257-261 | A new range of a different length keeps neighbouring ranges of different lengths |
| Header.RunsExpand | gunzip/deflate.cpp:253-262 | The runs of a list of code lengths are a valid range list with neighbouring runs of different lengths, whose last run ends at the last index, and expanding them gives the list back |
| Header.RunsStep | gunzip/deflate.cpp:256-262 | The runs of a list follow from the runs of all but its last entry |
| Header.CoalesceRuns | gunzip/deflate.cpp:255-262 | The coalescing loop (new range on a change of value, current range rewritten for every index) returns exactly the runs `Runs(xs)` |
| Header.FirstRun | gunzip/deflate.cpp:260-261 | Index 0 opens the first range |
| Header.OpenRun | gunzip/deflate.cpp:257-261 | A changed value opens the next range, keeping the prefix of the range list the runs so far |
| Header.ExtendRun | gunzip/deflate.cpp:260-261 | An equal value moves the end of the current range, keeping the prefix of the range list the runs so far |
| Header.Runs | gunzip/deflate.cpp:253-262 | The reference for the coalescing loop: the maximal runs of equal entries, each a `HuffmanRange` ending at its run's last index. `RunsExpand` proves that they are valid and expand back to the list |
| Header.OrderIsPermutation | gunzip/deflate.cpp:245-246 | `code_length_offsets` is a permutation of 0..18, and `OrderPosition` is its inverse on both sides |
| Header.OrderInverse | gunzip/deflate.cpp:245-246 | Place `i` holds symbol `k` exactly when `k`'s place is `i` |
| Header.MetaLengths | gunzip/deflate.cpp:244 | There are always 19 code-length code lengths |
| Header.MetaLengthsPlaced | gunzip/deflate.cpp:244-251 | Every code-length symbol gets the three-bit field at its place in the order when that place is among the first HCLEN + 4, and 0 otherwise; no length is above 7 |
| Header.PlacedStep | gunzip/deflate.cpp:247-251 | Storing the `n`-th field changes exactly the symbol of place `n` |
| Header.MetaStep | gunzip/deflate.cpp:248-250 | Storing the `i`-th three-bit field at the symbol that place `i` of the permuted order names turns the lengths after `i` fields into the lengths after `i + 1` |
| Header.MetaBounded | gunzip/deflate.cpp:244-251 | The code-length code lengths are valid code lengths (0..15) |
| Header.ReadMetaLength | gunzip/deflate.cpp:247-251 | One pass reads the next three-bit field and stores it at its place; it fails only when fewer than three bits are left |
| Header.MetaLengthsAt | gunzip/deflate.cpp:244-251 | The HCLEN + 4 three-bit fields fail, with `EndOfStream`, exactly when fewer than `3 * (HCLEN + 4)` bits are left; otherwise they take exactly those bits and give 19 lengths 0..7 |
| Header.ReadMetaLengths | gunzip/deflate.cpp:244-251 | The loop reads the 19 code lengths and the position after them as `MetaLengthsAt` defines them |
| Header.RunEntries | gunzip/deflate.cpp:294-301 | A repeat writes exactly `count` entries after the alphabet so far: copies of the previous entry for 16, zeros for 17 and 18. It fails exactly when 16 comes first, or when the run would not fit |
| Header.EntryAt | gunzip/deflate.cpp:281-305 | One code-length symbol adds at least one entry, stays within `total` entries, never changes earlier entries and never moves backwards in the input; it fails only with `EndOfStream`, `RepeatAtStart` or `RepeatOverflow` |
| Header.AlphabetStep | gunzip/deflate.cpp:270-307 | One turn of the alphabet loop decodes a symbol 0..18 with at least one bit, then adds its entries |
| Header.AlphabetFrom | gunzip/deflate.cpp:270-308 | The alphabet loop fails only with `EndOfStream`, `NullChild`, `RepeatAtStart` or `RepeatOverflow` (`AlphabetFacts` states what it decodes) |
| Header.ReadEntry | gunzip/deflate.cpp:281-305 | One decoded code-length symbol is handled as `EntryAt` defines it: a length is appended, a repeat symbol reads its extra bits and writes its run |
| Header.ReadRepeat | gunzip/deflate.cpp:282-301 | A repeat symbol reads 2, 3 or 7 extra bits for a run of 3..6, 3..10 or 11..138 entries, then writes it, as `EntryAt` defines it |
| Header.ReadAlphabet | gunzip/deflate.cpp:267-308 | The alphabet loop decodes exactly `total` entries, as `AlphabetFrom` defines them, errors included |
| Header.WriteRun | gunzip/deflate.cpp:294-301 | The `repeat_length--` loop writes exactly the run `RunEntries` describes, or fails as it does |
| Header.EntryBounded | gunzip/deflate.cpp:281-305 | Every entry written is a code length 0..15 |
| Header.AlphabetFacts | gunzip/deflate.cpp:267-308 | A decoded alphabet has exactly `total` entries, extends the entries it started from, and holds only lengths 0..15 |
| Header.SplitAlphabet | gunzip/deflate.cpp:312-338 | The corrected split: two non-empty range lists that describe exactly the first `litCount` entries and the rest |
| Header.SplitRuns | gunzip/deflate.cpp:312-338 | The corrected split loops compute the runs of the first `litCount` entries and of the rest: exactly the range lists `SplitAlphabet` gives |
| Header.LiteralRangesAsWritten | gunzip/deflate.cpp:312-325 | The as-written literal ranges are a valid range list |
| Header.SplitLiteralsAsWritten | gunzip/deflate.cpp:312-325 | The as-written loop coalesces entries 0..litCount, one entry too many, and hands on the ranges before `j2`: exactly the runs of those entries without the last run, as `LiteralRangesAsWritten` defines them |
| Header.LiteralSplitPrefix | gunzip/deflate.cpp:312-325 | The as-written literal ranges describe a prefix of the literal/length lengths that stops exactly before the last run of equal entries in 0..litCount |
| Header.TransferPrefix | gunzip/deflate.cpp:316-322 | The facts about the first `n + 1` entries hold on the whole alphabet |
| Header.RunsDropLast | gunzip/deflate.cpp:324-325 | All runs but the last describe the list up to the start of its last run, and the entry before that run differs from the last entry |
| Header.LastRunFront | gunzip/deflate.cpp:324-325 | The same, for any maximal runs of the list |
| Header.FrontOfRuns | gunzip/deflate.cpp:316-322 | Maximal runs are the runs before the last, then one run of the last entry up to the end of the list |
| Header.PrefixOfRuns | gunzip/deflate.cpp:316-322 | The runs before the last describe the list up to the last run, and every entry in the last run is the last entry |
| Header.RunBoundary | gunzip/deflate.cpp:316-322 | In maximal runs, the entry just before the last run differs from that run's length |
| Header.LiteralSplitDropsLastRun | gunzip/deflate.cpp:312-325 | The as-written literal ranges describe all literal/length lengths exactly when the last literal/length length differs from the first distance length |
| Header.LiteralSplitCounterexample | gunzip/deflate.cpp:312-325 | On 254 lengths of 8 then 4 of 9 (HLIT 0, HDIST 0), the as-written literal ranges cover only symbols 0..253, so the end-of-block symbol 256 gets no code |
| Header.SplitDistancesAsWritten | gunzip/deflate.cpp:327-338 | The as-written distance loop always reaches entry `litCount + distCount`, one past the alphabet, and so fails on every input |
| Header.CodeTree | gunzip/deflate.cpp:253-265 | The code-length tree built from the runs of its code lengths has an internal root and holds only symbols of the list |
| Header.HeaderTrees | gunzip/deflate.cpp:324-338 | The header's two trees, built from the range lists `SplitAlphabet` gives, have internal roots and hold only literal/length symbols below HLIT + 257 and distance symbols below HDIST + 1 |
| Header.HeaderCounts | gunzip/deflate.cpp:230-235 | HLIT and HDIST are below 32 and HCLEN below 16 |
| Header.CountsAt | gunzip/deflate.cpp:230-235 | The counts take 14 bits and give 257..288 literal/length, 1..32 distance and 4..19 code-length code lengths; they fail exactly when fewer than 14 bits are left |
| Header.CountsFields | gunzip/deflate.cpp:230-235 | Reading the three fields one after the other gives the counts |
| Header.PreambleAt | gunzip/deflate.cpp:230-265 | After the counts and the code-length code, the code-length tree has an internal root and holds only symbols 0..18 |
| Header.LengthsAfter | gunzip/deflate.cpp:267-308 | The decoded alphabet has exactly `litCount + distCount` code lengths 0..15, the first `litCount` of them for the literal/length alphabet |
| Header.HeaderAt | gunzip/deflate.cpp:229-308 | A dynamic header gives one list of code lengths 0..15, 257..288 of them for the literal/length alphabet and 1..32 after those for the distance alphabet, and takes at least one bit |
| Header.ReadCounts | gunzip/deflate.cpp:230-235 | Reads HLIT, HDIST and HCLEN as `CountsAt` defines them |
| Header.ReadPreamble | gunzip/deflate.cpp:230-265 | Reads the counts, the code-length code lengths and the code-length tree as `PreambleAt` defines them |
| Header.ReadCodeLengths | gunzip/deflate.cpp:229-308 | Reads the counts, the code-length tree and the whole alphabet of code lengths, as `HeaderAt` defines them |
| Header.ReadHeader | gunzip/deflate.cpp:229-338 | Reads the header and builds its two trees from the range lists `SplitRuns` gives, which are exactly `HeaderTrees`. Each tree is the trie of the canonical code of its part of the alphabet. An invalid header fails with the error `HeaderAt` gives |
| Blocks.DynamicBlockAt | gunzip/deflate.cpp:229-343 | A dynamic block's data ends after its header, inside the input |
| Blocks.DynamicHuffman | gunzip/deflate.cpp:229-343 | Header, trees, then `inflate`: the block's data and end position as `DynamicBlockAt` defines them |
| Blocks.BlockHeaderAt | gunzip/deflate.cpp:351-352 | BFINAL is one bit, BTYPE two bits; they fail exactly when fewer than three bits are left |
| Blocks.BlockBody | gunzip/deflate.cpp:358-362 | A block body of type 2 ends after it starts, inside the input; any other type is an error |
| Blocks.BlockAt | gunzip/deflate.cpp:350-368 | A block ends after its three header bits, inside the input |
| Blocks.BlockIsDynamic | gunzip/deflate.cpp:358-362 | A successful block has BTYPE 2, reports BFINAL, and is the dynamic block that follows its header |
| Blocks.ReadBlock | gunzip/deflate.cpp:350-368 | `read_block` reads BFINAL and BTYPE and decodes a type-2 block, as `BlockAt` defines it; other types are errors |
| Blocks.DeflateFrom | gunzip/deflate.cpp:370-379 | The reference for `deflate`: blocks one after the other up to the first with BFINAL set, their data appended in order |
| Blocks.DeflateExtends | gunzip/deflate.cpp:370-379 | The stream's output extends whatever earlier blocks decoded: bytes already output never change |
| Blocks.Deflate | gunzip/deflate.cpp:370-379 | `deflate` reads blocks until one has BFINAL set, and gives all their data in order, as `DeflateFrom` defines it |

## Left out

- Printing to `std::cout` throughout, and `HuffmanNode::print` (gunzip/deflate.cpp:71-82), are debug output; they are not modelled.
- gunzip/main.cpp (gzip framing, file reading) and ls/main.cpp are not part of this model.
- Stored (BTYPE 0) and fixed Huffman (BTYPE 1) blocks: the source throws for them, and the model returns `UnsupportedBlockType`.
- Blocks.Deflate: the C++ `deflate`, `read_block`, `dynamic_huffman` and `inflate` drop the decoded bytes (empty vectors, or `void`). The model returns each block's buffer so that the contracts can state what was decoded.
- Header.HeaderAt, Header.LengthsAfter, Header.ReadCodeLengths, Header.ReadHeader, Blocks.DynamicBlockAt, Blocks.DynamicHuffman, Blocks.BlockAt, Blocks.ReadBlock, Blocks.Deflate: these decode with the corrected literal/length and distance split of "## Findings" (`SplitAlphabet`), not with the split as written. As written (gunzip/deflate.cpp:327-338), every dynamic block reaches undefined behaviour at the read one entry past the alphabet. The model reports that read as `ReadPastAlphabet` (`SplitDistancesAsWritten`), so in the model no dynamic block decodes with the split as written.
- Inflate.CopyMatch, Inflate.CopyBack: the copy is by index into the growing buffer. In the C++ the back pointer is an iterator into `buffer`, and a `push_back` that reallocates the buffer invalidates it (gunzip/deflate.cpp:218-221), so a match that crosses the vector's capacity reads freed storage. The model copies what the loop evidently intends and does not capture that undefined behaviour.
- Trie.ReadSymbol: the nodes are `shared_ptr`s in the C++. The model keeps them in an arena of child indices, so it does not model sharing or node lifetime.
- The inline walk of the alphabet loop (gunzip/deflate.cpp:270-280) reads a bit before testing the node. The root is always internal, so that is the walk of `HuffmanNode::read`. It is modelled by `Trie.ReadSymbol`.
- Trie.BuildHuffmanTree: the source never checks Kraft's inequality. For lengths that violate it, the model builds exactly the trie the C++ builds (`InsertBits` overwrites nodes as the C++ does). The round-trip (`Canonical.CanonicalRoundTrip`) is proved only for lengths that satisfy it.
- Integer widths: `int`, `uint32_t` and `uint64_t` are unbounded integers here. No value in the modelled paths comes near a width limit: extra bits are at most 14 bits wide (distance symbols 30 and 31 read 14 before they fail), and a stored code, even with `bl_count[0]` added, stays below 2^25. A literal is at most 255, so `(char)` changes nothing.
- Bits.Reader.IsEof: the C++ compares the `char` mask with `-128`, which is the mask of bit 7 as a signed `char`; the model compares it with the byte 128.
- The reader's bit index within the current byte is a ghost field beside the C++ byte index and mask. It exists only to state the cursor as one bit position; `Valid()` ties the mask to it.
- `std::vector::at` and out-of-range `operator[]` use are modelled as the `Errors.Error` values listed above, not as exceptions or undefined behaviour.

## Findings

| source | as written | input that shows it | evidently intended | confidence | as-written member | corrected member |
|---|---|---|---|---|---|---|
| gunzip/deflate.cpp:312-325 | The loop runs over entries `0..code_lengths_literals`, one past the literal/length part, and the tree is built from ranges `[0, j2)`, dropping the last run | Code lengths 254 times 8, then 4 times 9 (HLIT 0, HDIST 0): the literal ranges cover symbols 0..253 only, so 254, 255 and the end-of-block symbol 256 get no code | Ranges that describe exactly the first `code_lengths_literals` entries | not executed | Header.LiteralSplitCounterexample | Header.SplitAlphabet |
| gunzip/deflate.cpp:327-338 | The loop runs up to and including `i == code_lengths_literals + code_lengths_distance_alpha`, reading `alphabet[i]` one past the end of the vector, and the tree is built from ranges `[0, j3)` | Every dynamic block: the read happens at the last turn, whatever the counts | Ranges that describe exactly the entries after the first `code_lengths_literals` | not executed | Header.SplitDistancesAsWritten | Header.SplitAlphabet |
