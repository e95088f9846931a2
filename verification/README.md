# TriePack, verified

A Dafny model of the TriePack repository: the `.trp` dictionary format with its encoder, its three
ways of reading a trie and the bindings' codec; the succinct second format; and terseml, a tree
notation with three implementations. Streams are specified as bit sequences, documents as byte
strings, tries and trees as datatypes. Objects whose methods change fields in place (the bit writer
and reader, the entry array of the encoder, the resumable iterator, the bindings' decoder, the rank
index, the radix trie, the terseml buffer and readers) are classes, loops over arrays are loops over
arrays, and each of them is proved against a function on values about which the theorems are stated.

`dafny verify dfyconfig.toml` (Dafny 4.11) checks the whole project.

## Main results

- **`.trp`, end to end** (`RoundTrip`). Whatever is added, with a stable sort in between: building
  succeeds exactly for representable entries, with the same file for every such sort; opening succeeds;
  iteration lists every distinct key once, ascending, with its last value, and then the end, if and only
  if the trie nests at most 256 branches; a prefix search lists exactly the matching part, if and only if
  the branches below the prefix do; lookup agrees with the map. A file damaged within 32 bits is refused.
- **To the byte** (`SharedPrefixSum`, `SingleNull`). Two cases of the conformance corpus are built into
  exactly the bytes of their fixtures, checksum included.
- **The one place where lookup is wrong** (`LookupPastEnd`, `Straying`, `AbsentKey`). A key that strictly
  extends the greatest key makes lookup read on into the value store, as if it were a branch of the
  trie. Lookup rejects every absent key if and only if those bits do not stray, which a scan of the
  file decides without looking at any key (`Straying.AbsentRejected`, `RoundTrip.BuiltRejects`); there
  is a file the encoder writes on which an absent key is found (`AbsentKey.AbsentKeyFound`); and for
  every other absent key the answer is NotFound on all files.
- **The dry run is exact** (`TrieWriter`, `TrieSize`). The sizing recursion returns the number of bits
  the writing recursion appends, so every SKIP distance lands on the next sibling.
- **The bindings** (`BindingEncoder`, `BindingDecoder`, `MapDecoder`). Their encoder returns the bytes
  of the C encoder wherever that one builds a file, and decode(encode(m)) == m if and only if
  configuration and trie together take less than 2^32 bits: past that, the value offset that bounds the
  trie loses its upper bits, and the walk never gets to the last key.
- **The succinct trie** (`Succinct`). For every sequence of insertions, the descent over LOUDS bits,
  labels, tail bits and tail pool accepts a key if and only if it was inserted, and rank over the key
  bits with the sampled offsets returns the value of its last insertion. On the way: path compression
  keeps the map and leaves at most two nodes a key (`RadixCompress`, `BreadthOrder`), rank and select
  agree with counting (`RankedBits`), LOUDS navigation is correct for every ordered tree (`Louds`),
  and one comparison a tail is enough for the suffix-merged pool (`Tails`).
- **Huffman** (`PrefixCodes`, `Huffman`). The sum of merged weights is the least cost of any binary
  prefix code for the frequencies.
- **CRC-32**. The table-driven loop equals the bitwise definition of section 8 of RFC 1952, and
  every burst of at most 32 bits is detected, at any alignment (`Crc`); data followed by its checksum has
  the residue 2144DF1C, and the nine digits have the customary checksum (`CrcCheck`).
- **Bits that no encoder writes** (`Truncation`, `Malformed`, `CutShort`). On a prefix of any stream every
  reader answers as on the whole of it, or the bits ran out, which lookup may report as an absent key; and
  where lookup, iteration, prefix search and the bindings disagree about the same malformed symbol.
- **terseml** (`TersemlRoundTrip`, `TersemlPrefix`, `TersemlDeep`, `TersemlShortest`, `TersemlGrammar`,
  `TersemlLiberties`, `TersemlApart`, `TersemlTags`, `TersemlDialects`). Round trip in front of arbitrary
  bytes up to depth 256 and a depth error past it, prefix-freeness, canonical re-encoding of everything
  that is accepted, no shorter way of writing a text, a grammar whose derivations are exactly the trees
  that documents are read as and its common ground with the grammar on paper, exactly when a document is
  read as a merged tree, exactly what the Python reader accepts of what the C reader does, three encoders
  with one output, and the C reader's measured buffers filled exactly.

## Where the code differs from its documentation

The model follows the code.

- The language that sections 2 to 4 of `terseml/GRAMMAR.md` describe and the one that is accepted differ in
  six liberties, and in nothing else (`TersemlGrammar.ReadIsDerived`, `TersemlLiberties.CommonGround`).
  The code takes an empty tag (of a document that is read or a tree that is written, exactly when
  `TersemlTags.NamedExactly` and `TersemlTags.WrittenNamed` say), an empty attribute key, and content
  behind the attributes without a comma (`TersemlLiberties.OnlyInCode`). It rejects a binary run directly
  behind a text, because it takes the run's command letter for an unknown escape
  (`TersemlApart.TextThenRunRejected`), elements and runs in a singleton, and text outside of elements
  (`TersemlLiberties.OnlyOnPaper`).
- Section 7, rule 6 of the same file says that a decoder returns at most one text between two elements.
  That holds of a document if and only if every binary run in it says something and stands directly
  before a brace (`TersemlApart.MergedExactly`); a run and a text behind it are returned as two texts
  (`TersemlApart.RunThenTextStaysApart`).
- The C reader takes lengths modulo 2^64, the Python reader does not. That is the only difference in what
  they accept (`TersemlDialects.AcceptedExactly`), and it is one (`TersemlDialects.WrappedClaim`).

## Layout

| files | content |
|---|---|
| Bits, BitOr, Results, Varint, BitStream, BitTransfer, Buffers, Leb128 | bit and byte streams, integers |
| Values, Keys, KeySets, Trie, TrieBuild, TrieWriter, TrieSize | values, keys, the trie of a sorted list and its bits |
| EntryOrder, SymbolTable, FileFormat, FileContents, Encoder, FileWriter | building and opening a file |
| Dictionary, Navigation, Subtree | what the bits of a dictionary hold at each place |
| Lookup, LookupAgrees, LookupPastEnd, Straying, AbsentKey, PrefixSearch, PrefixFinds, Decoder | lookup and prefix search |
| Iteration, IterationYields, IterateAll, IterationDepth, Iterators | the resumable iterator |
| DepthFirst, BindingDecoder, MapDecoder, BindingEncoder | the bindings |
| RoundTrip | the end-to-end theorems of the first format |
| Crc, CrcCheck, Damage | the checksum, and damaged files |
| HexDigits, HexTrie, ChecksumParts, SharedPrefix, SharedPrefixSum, SingleNull | two files to the byte |
| Truncation, Malformed, CutShort | streams that no encoder writes |
| RankedBits, Popcount, Louds, Tails | the library part of the second format |
| RadixTrie, RadixCompress, BreadthOrder, ValueStore, Sections, Succinct | the prototype of the second format |
| PrefixCodes, Huffman | the cost of Huffman coding |
| TersemlTree, TersemlMerge, TersemlWrite, TersemlRead, TersemlSteps, TersemlAppend | terseml trees and the specification of both directions |
| TersemlGrammar, TersemlLiberties | the accepted language, and the one on paper |
| TersemlRoundTrip, TersemlPrefix, TersemlDeep, TersemlShortest, TersemlExamples, TersemlApart, TersemlTags, TersemlDialects | theorems about terseml |
| TersemlPython, TersemlPythonReader, TersemlC, TersemlCReader, TersemlJs | the implementations |

## Model

| member | source | states |
|---|---|---|
| RoundTrip.BuiltIterates | src/core/decoder.c:528-708 | iterating the opened file of any additions yields each distinct key once, ascending, with its last value, then the end, if and only if the trie nests at most 256 branches; so it does for keys of at most 256 bytes, and for nested keys if and only if there are at most 257 |
| RoundTrip.BuiltSearches | src/core/decoder.c:745-920 | a prefix search on the opened file lists exactly the keys of the map that start with the prefix, a consecutive part of full iteration, with their values, and then the end; if and only if the branches below the prefix nest at most 256 deep |
| RoundTrip.BuiltLooksUp | src/core/decoder.c:189-400 | lookup on the opened file returns the last value added under a present key, and NotFound for every absent key that does not strictly extend the greatest key |
| RoundTrip.BuiltRejects | src/core/decoder.c:189-400 | lookup on the opened file rejects every key that was not added if and only if the dictionary is empty or the bits behind its trie do not stray |
| RoundTrip.BuiltOpens | src/core/decoder.c:69-150 | opening a built file succeeds, with or without the checksum test, and the dictionary holds exactly the map of the additions |
| RoundTrip.BuiltDamaged | src/core/decoder.c:69-108 | a built file that was damaged within 32 bits, bytes counted from their lowest bit, before its checksum or in it, is refused by both readers: for its magic or its version if those are hit, otherwise as corrupt |
| RoundTrip.BuildSucceeds | src/core/encoder.c:571-795 | building succeeds if and only if the keys use at most 249 distinct bytes, every value is of the eight encodable types and the data stream is shorter than 2^32 bits |
| RoundTrip.BuildErrors | src/core/encoder.c:571-795 | the alphabet error for more than 249 distinct bytes, else a parameter error for an array or a dictionary among the values, else an overflow for a stream of 2^32 bits or more |
| SharedPrefixSum.FileToTheByte | tests/conformance/cases.txt:24-27 | building this case of the conformance corpus gives the 66 bytes of its fixture, header, table, trie, values and checksum |
| SingleNull.FileToTheByte | tests/conformance/cases.txt:11-12 | and this one the 48 bytes of its fixture, padding included |
| RoundTrip.BuiltExactly | src/core/encoder.c:571-795 | some stable sort of the additions leads to a file if and only if what is left of them, the last one of every key, is representable; and every stable sort leads to the same file |
| FileWriter.Build | src/core/encoder.c:571-795 | sorts and deduplicates the entry array in place, and returns the file of the remaining entries or the first error |
| FileWriter.BuildFile | src/core/encoder.c:576-795 | from sorted distinct entries: alphabet error, value error, overflow, or exactly the file of the entries |
| FileWriter.WriteStream | src/core/encoder.c:606-706 | placeholder header and data stream, with the trie and value offsets where the stream really has them |
| FileWriter.Finish | src/core/encoder.c:717-795 | patching offsets and checksum into the detached bytes gives the final file |
| FileContents.OpenFile | src/core/decoder.c:69-150 | opening a file whose value offset fits 32 bits succeeds, however long its value store, and recovers alphabet, offsets and count |
| FileContents.FileEncodes | src/core/decoder.c:69-150 | the opened dictionary holds the trie and the value store of exactly the entries |
| Encoder.Encoder.Add | src/core/encoder.c:145-187 | appends the entry, a missing value becoming null; earlier entries stay |
| Encoder.Encoder.SortEntries | src/core/encoder.c:215-220 | the array ends up as the sorted permutation the library's sort chose |
| Encoder.Encoder.DedupEntries | src/core/encoder.c:223-240 | compacts in place to the last of each group of equal neighbours |
| EntryOrder.EntryCmp | src/core/encoder.c:200-213 | the sign of the comparison is byte order with a prefix first |
| EntryOrder.KeepLastSorted | src/core/encoder.c:223-240 | deduplicating a sorted list leaves strictly ascending keys |
| EntryOrder.KeepLastMap | src/core/encoder.c:223-240 | deduplication does not change the map of the list |
| EntryOrder.LastAdditionWins | src/core/encoder.c:223-240 | the map of the additions holds exactly the added keys, each with the value of its last addition |
| EntryOrder.StableSameMap | src/core/encoder.c:215-220 | a stable sort keeps the map of the additions: the last value of a key still wins |
| EntryOrder.PermutationKeys | src/core/encoder.c:215-220 | without stability a sort still keeps the keys, and each surviving value was added under its key |
| SymbolTable.AnalyzeSymbols | src/core/encoder.c:244-293 | the table is that of the bytes in use, in ascending order, at the least width that tells all symbols apart |
| SymbolTable.UsedExactly | src/core/encoder.c:248-256 | the alphabet lists exactly the bytes that occur in a key, each once, ascending |
| SymbolTable.TableCanonical | src/core/encoder.c:258-293 | up to 249 distinct bytes get codes of their own beside the six control codes, and decoding a code gives back its byte |
| SymbolTable.WriteConfig | src/core/encoder.c:629-674 | writes the configuration the parser reads |
| SymbolTable.ParseConfigAt | src/core/decoder.c:13-65 | parsing a written configuration, wherever it stands, gives back the encoder's own table |
| SymbolTable.ReadConfig | src/core/decoder.c:13-65 | the parser's result on every stream, errors included |
| TrieWriter.VarintBits | src/core/encoder.c:298-306 | the length of the integer's encoding in bits |
| TrieWriter.CommonPrefix | src/core/encoder.c:328-348 | the longest prefix all entries of the range share |
| TrieWriter.TrieSubtreeSize | src/core/encoder.c:323-444 | the dry run returns exactly the number of bits the range is written as, and the value index past it |
| TrieWriter.TrieWrite | src/core/encoder.c:446-567 | appends exactly the subtree's bits, each SKIP distance being the exact length of the child behind it |
| TrieWriter.RestStep | src/core/encoder.c:541-564 | one turn of the child loop: this child's bits and, when siblings follow, a SKIP over exactly those bits |
| TrieSize.TrieFits | src/core/encoder.c:446-567 | the trie of any dictionary whose keys fit in memory is shorter than 2^64 bits, so SKIP distances do not wrap |
| TrieBuild.TrieItems | src/core/encoder.c:446-567 | the trie the recursion writes holds exactly the entries of the range, in order, with ascending value indices |
| TrieBuild.TrieWellFormed | src/core/encoder.c:323-567 | a node without a key has at least two children and siblings ascend, which is why both recursions end |
| Encoder.WriteHeader | src/core/header.c:11-65 | writes the 32 header bytes field by field |
| Encoder.WriteValues | src/core/encoder.c:694-706 | writes the values in order, and fails at the first array or dictionary |
| FileFormat.ReadHeaderAt | src/core/header.c:67-122 | reading a header inverts writing it |
| FileFormat.OpenBuffer | src/core/decoder.c:69-150 | the result of opening on every buffer, each check in the source's order |
| Damage.HeadRefused | src/core/decoder.c:69-88 | what is shorter than 32 bytes (36 for the bindings), does not start with the magic 54 52 50 00 or has another version than 1 is refused, in this order |
| Damage.DamageRefused | src/core/decoder.c:90-100 | any file with the magic, the version and its checksum at the end, once damaged within 32 bits, is refused with the error that the place of the damage calls for |
| Damage.FourBytes | src/core/decoder.c:90-100 | damage to at most four neighbouring bytes is such a damage |
| Damage.SuffixRefused | src/core/decoder.c:103-107 | bit 1 of byte 7 asks for a suffix table, and such a file is refused for its version even if its checksum is right |
| Malformed.ConfigRefused | src/core/decoder.c:13-39 | a width outside of 1 to 8 and a number of symbols below 6 or above 2 to the width are alphabet errors |
| Decoder.LookupN | src/core/decoder.c:189-400 | the imperative lookup returns what the functional walk defines, on every dictionary |
| LookupAgrees.LookupPresent | src/core/decoder.c:189-400 | every stored key is found with its own value |
| LookupAgrees.LookupAbsent | src/core/decoder.c:189-400 | an absent key is NotFound unless it strictly extends the greatest key |
| LookupAgrees.ProbeNode | src/core/decoder.c:210-390 | the walk over a subtree reports what the trie holds for the key |
| LookupPastEnd.ProbePastEntries | src/core/decoder.c:189-400 | the walk along a key that strictly extends the greatest one arrives behind the trie with the rest of the key still to match |
| Straying.StraysExactly | src/core/decoder.c:189-400 | whether any longer key makes the walk end otherwise than in NotFound is decided by a scan of the bits alone |
| Straying.AbsentRejected | src/core/decoder.c:189-400 | lookup rejects every absent key of an encoded dictionary if and only if the bits behind the trie do not stray |
| AbsentKey.AbsentKeyFound | src/core/decoder.c:189-400 | three entries that the encoder writes to a file, and an absent key that lookup finds once that file is opened |
| Malformed.StrayControl | src/core/decoder.c:346-364 | a control code without a meaning where a node should go on: lookup, iteration, prefix search and the bindings answer in three different ways |
| Malformed.NoBranchBehindKey | src/core/decoder.c:340-345 | a symbol other than BRANCH behind the end of a key: absent for lookup, corrupt for iteration, a parameter error for the bindings |
| Malformed.SecondEnd | src/core/decoder.c:228-250 | a second end of key behind the first: lookup skips it, the others fail |
| Malformed.OutOfBits | src/core/decoder.c:210-226 | fewer bits than a symbol: all run out, except that lookup behind the end of a key reports the key as absent |
| Malformed.NoSkip | src/core/decoder.c:584-594 | another symbol in place of a SKIP: iteration and prefix search insist on it, lookup passes over the child by the distance behind it |
| Malformed.TrieOutside | src/core/decoder.c:198-208 | a trie said to start behind the last bit |
| Malformed.WideEntry | src/core/decoder.c:45-65 | a table entry of 256 or more is passed over |
| Truncation.LookupShort | src/core/decoder.c:189-400 | on any prefix of any stream lookup answers as on the whole stream, or the bits ran out, or the key is reported as absent; never with another value |
| Truncation.NextShort | src/core/decoder.c:528-708 | one call of an iterator in any state gives the same entry and the same state as on the whole stream, or the bits ran out |
| Truncation.PrefixShort | src/core/decoder.c:745-873 | a prefix search finds the same subtree, or the bits ran out |
| Truncation.DfsShortened | bindings/rust/src/decoder.rs:156-268 | the walk of the bindings collects the same keys, or the bits ran out |
| Iterators.Iterator.Next | src/core/decoder.c:528-708 | one call changes the iterator object exactly as the functional step prescribes, with the same key, value or error |
| Iterators.Iterator.Reset | src/core/decoder.c:710-722 | starts over with the same prefix, from any state |
| Iterators.Iterator.IterValueAt | src/core/decoder.c:464-500 | returns the value at an index and leaves the cursor where a scan of that many values ends |
| Iterators.Iterator.PushKey | src/core/decoder.c:454-461 | appends one byte to the key, growing the buffer when needed |
| Iterators.Iterator.MoveToSibling | src/core/decoder.c:568-607 | unwinds finished frames and moves to the next unvisited sibling with its end bound |
| Iterators.Iterator.WalkDown | src/core/decoder.c:613-706 | walks down until a key or a branch turns up, as the functional descent does |
| Iterators.Iterator.Seed | src/core/decoder.c:895-915 | restricts a fresh iterator to the subtree below a prefix |
| IterateAll.IterateLists | src/core/decoder.c:528-708 | repeated calls list every entry of an encoded dictionary once, ascending, with its value, then the end, if and only if branches nest at most 256 deep |
| IterationDepth.ShortKeysList | src/core/decoder.c:648-649 | keys of at most 256 bytes are always listed |
| IterationDepth.NestedList | src/core/decoder.c:678-679 | keys each of which is a proper prefix of the next are listed if and only if there are at most 257 |
| IterateAll.NextStep | src/core/decoder.c:528-708 | one call serves the next entry, or the end, or an overflow exactly when the stack has no room for a branch on the way |
| IterateAll.ValueAtIndex | src/core/decoder.c:464-500 | in every reachable state the value cursor decodes the entry's own value, in place or after a rescan |
| PrefixFinds.FindPrefixLists | src/core/decoder.c:875-920 | the iterator of a prefix search lists exactly the entries whose keys start with the prefix, then the end |
| PrefixFinds.LocatedEntries | src/core/decoder.c:745-873 | those entries are consecutive and make up one subtree |
| Decoder.DescendToPrefix | src/core/decoder.c:745-873 | the imperative descent finds the subtree and the bytes its path adds, as the functional one |
| Decoder.FindPrefix | src/core/decoder.c:875-920 | returns a fresh iterator in the state the functional search defines |
| DepthFirst.DfsNode | bindings/rust/src/decoder.rs:156-268 | the recursive walk over a written subtree collects exactly its keys in order and stops at its end |
| MapDecoder.MapDecoder.DfsWalk | bindings/rust/src/decoder.rs:156-205 | the object's walk leaves position, key stack and result map as the functional walk defines, on every stream |
| MapDecoder.MapDecoder.WalkBranchIfPresent | bindings/rust/src/decoder.rs:207-229 | behind a terminal: the children when the subtree goes on, an error on any other symbol |
| MapDecoder.MapDecoder.WalkBranch | bindings/rust/src/decoder.rs:231-268 | visits every child and seeks behind it by its SKIP distance |
| MapDecoder.Decode | bindings/python/triepack/decoder.py:22-182 | the whole decoder, errors in the source's order, on every buffer |
| BindingDecoder.DecodeInvertsEncode | bindings/rust/src/decoder.rs:27-147 | decode(encode(m)) == m if and only if configuration and trie together take less than 2^32 bits, however long the value store, although the walk's keys are re-sorted before values are matched |
| DepthFirst.DfsShort | bindings/rust/src/decoder.rs:27-147 | a walk that is told to stop too early succeeds with some of the first keys, but never with the last one |
| BindingDecoder.RefillAt | bindings/rust/src/decoder.rs:136-145 | matching values to the sorted keys gives each key its own value |
| BindingEncoder.Encode | bindings/rust/src/encoder.rs:70-224 | the alphabet error, or the file with its offsets cut to 32 bits: the very bytes of the C encoder unless that one refuses the size; decoding it gives the map back if and only if the value offset was not cut |
| BindingEncoder.GetChildRanges | bindings/rust/src/encoder.rs:406-418 | the listed ranges are the groups of entries that share the next byte, in order |
| BindingEncoder.SubtreeSize | bindings/rust/src/encoder.rs:237-313 | the dry run over listed ranges is exact to the bit |
| BindingEncoder.WriteSubtree | bindings/rust/src/encoder.rs:316-375 | writes the same bits as the C recursion and advances the value index past the range |
| BindingEncoder.CollectEntries | bindings/python/triepack/encoder.py:35-44 | the map's entries, sorted by key bytes |
| BitStream.BitWriter.EnsureCapacity | src/bitstream/bitstream_write.c:13-37 | grows the buffer so that n more bits fit; the contents stay and the bits past them are zero |
| BitStream.BitWriter.WriteBits | src/bitstream/bitstream_write.c:51-66 | appends the low n bits, most significant first; fails exactly outside 1..64 |
| BitStream.BitWriter.AlignToByte | src/bitstream/bitstream_write.c:98-112 | appends zero bits up to the byte boundary |
| BitStream.BitWriter.WriteBytes | src/bitstream/bitstream_write.c:136-147 | appends the bytes at any bit alignment |
| BitStream.BitWriter.WriteVarintU | src/bitstream/bitstream_varint.c:60-77 | appends the LEB128 groups of the value |
| BitStream.BitWriter.WriteVarintS | src/bitstream/bitstream_varint.c:79-87 | appends the groups of the zigzag image, computed as the shifted word exclusive-or the spread sign |
| BitStream.BitReader.ReadBits | src/bitstream/bitstream_read.c:88-100 | returns the n-bit number at the cursor and advances, or fails without moving |
| BitStream.BitReader.PeekBits | src/bitstream/bitstream_read.c:128-136 | the same without moving |
| BitStream.BitReader.ReadVarintU | src/bitstream/bitstream_varint.c:10-37 | the value of at most ten groups truncated to 64 bits, end of input or overflow, as specified on every stream |
| BitStream.BitReader.ReadVarintS | src/bitstream/bitstream_varint.c:39-56 | the inverse zigzag of that value |
| BitStream.BitReader.DirectBytes | src/bitstream/bitstream_read.c:197-209 | the slice under an aligned cursor, or the error that applies |
| Varint.ReadVarintAt | src/bitstream/bitstream_varint.c:10-77 | reading inverts writing for every 64-bit integer at every bit position, and consumes exactly what was written |
| Varint.VarintGroup | src/bitstream/bitstream_varint.c:60-77 | group k of an integer holds its bits 7k to 7k + 6, and its high bit is set unless it is the last |
| Varint.VarintLength | src/bitstream/bitstream_varint.c:60-77 | an integer takes as many groups as it needs, and at least one |
| Varint.VarintEnds | src/bitstream/bitstream_varint.c:10-37 | an integer ends at its first group without the high bit, the tenth at the latest; otherwise overflow, or the end of the input |
| Varint.ZigzagIsShiftXor | src/bitstream/bitstream_varint.c:79-87 | the zigzag map is the word shifted left by one exclusive-or the sign spread over 64 bits; its low bit is the sign |
| Varint.ZigzagBijection | src/bitstream/bitstream_varint.c:39-56 | zigzag and its inverse undo each other in both directions on all 64-bit values |
| BitOr.OrInWord | src/bitstream/bitstream_varint.c:28 | or-ing a shifted group into a 64-bit word that is clear from the shift on adds it, bits past the top dropped |
| BitTransfer.SignedReadsBack | src/bitstream/bitstream_read.c:37-55 | a signed n-bit field reads back if and only if the value fits n bits in two's complement |
| BitTransfer.SignedBits | src/bitstream/bitstream_write.c:68-82 | a value that fits stands as itself, a negative one as the number 2^n above it |
| BitTransfer.UnpackedBit | src/bitstream/bitstream_read.c:15-20 | bit i of a stream is bit 7 - i % 8 of byte i / 8 |
| BitTransfer.WriteBitsSigned | src/bitstream/bitstream_write.c:68-82 | appends the low n bits of the two's complement word |
| BitTransfer.ReadBitsSigned | src/bitstream/bitstream_read.c:102-114 | returns the sign-extended field, or fails without moving |
| BitTransfer.AppendBuffer | src/bitstream/bitstream_write.c:151-168 | appends the first bitLen bits of a buffer at any alignment |
| BitTransfer.CopyBits | src/bitstream/bitstream_write.c:172-192 | moves n bits from reader to writer at any alignment of either, or moves nothing when fewer are left |
| Bits.UnpackPack | src/bitstream/bitstream_read.c:15-20 | packing bits into bytes and reading them bit by bit, most significant first, is the identity |
| Values.EncodeValue | src/core/value.c:11-74 | appends the value's bits for the current alignment, and fails on arrays and dictionaries |
| Values.DecodeValue | src/core/value.c:76-170 | returns what the specification reads at the cursor, on every stream |
| Values.ReadValueAt | src/core/value.c:76-170 | decoding inverts encoding for each type at every bit offset and consumes exactly what was written |
| Values.ValueLayout | src/core/value.c:11-74 | types 0 to 7 in four bits, integers in groups, floats in 32 and 64 bits, lengths in groups, zero bits up to a byte, bytes |
| Values.UnknownTypes | src/core/value.c:160-170 | types 8 and 9 are refused, higher ones are read as values without a payload |
| CutShort.CutValue | src/core/value.c:76-170 | a value that is cut short, wherever, is refused for the end of the input |
| CutShort.CutStore | src/core/decoder.c:464-500 | in a store that is cut short the values before the cut read back, and reaching past it fails for the end of the input |
| Values.StoreReadsBack | src/core/decoder.c:464-500 | in an encoded store a scan over i values stands exactly on value i, which reads back |
| Crc.TableEntry | src/core/integrity.c:11-43 | every constant of the table is eight steps of the polynomial division of its index |
| Crc.Checksum | src/core/integrity.c:45-52 | the table-driven loop equals the bitwise checksum for every input |
| Crc.BurstDetected | src/core/integrity.c:45-52 | every burst of at most 32 bits, at any bit alignment, is detected: two inputs of one length that differ only inside it have different checksums |
| CrcCheck.Residue | src/core/integrity.c:45-52 | data followed by its own checksum, low byte first, has the checksum 2144DF1C, whatever the data |
| CrcCheck.NineDigits | docs/guide/testing.md:178 | the checksum of the digits 1 to 9 is CBF43926, that of nothing is 0 |
| RankedBits.RankedBits.constructor | src/v2/v2_bitvec.c:39-89 | stores the first nbits bits and indexes them, the position past the last bit included |
| RankedBits.RankedBits.BuildIndex | src/v2/v2_bitvec.c:70-87 | every superblock and block entry is the rank it stands for |
| RankedBits.WithinFits | src/v2/v2_bitvec.c:82 | a count within a superblock fits the 16-bit block entry |
| RankedBits.RankedBits.Get | src/v2/v2_bitvec.c:107-110 | the bit itself |
| RankedBits.RankedBits.Rank1 | src/v2/v2_bitvec.c:112-134 | the number of ones before min(i, size), by index, words, bytes and bits |
| RankedBits.RankedBits.Rank0 | src/v2/v2_bitvec.c:136-143 | the number of zeros before min(i, size) |
| RankedBits.RankedBits.Select | src/v2/v2_bitvec.c:147-165 | the position of the k-th matching bit, or the size when there is none |
| Popcount.FallbackCounts | src/v2/v2_bitvec.c:27-37 | the portable fallback, shifts, masks and one multiplication, returns the number of set bits of every 64-bit word |
| Popcount.FallbackIsPopcount | src/v2/v2_bitvec.c:27-37 | on every word the fallback returns the count that the rank index adds up |
| RankedBits.PopcountOfBits | src/v2/v2_bitvec.c:27-37 | counting the set bits of a word counts the set bits of the stretch it was read from |
| Louds.ChildBegin | src/v2/v2_bitvec.c:186-189 | where the node's run of ones starts |
| Louds.ChildCount | src/v2/v2_bitvec.c:191-196 | the degree of the node |
| Louds.Child | src/v2/v2_bitvec.c:198-201 | the number of the k-th child |
| Louds.NavigationCorrect | src/v2/v2_bitvec.c:186-201 | for every ordered tree in breadth-first order the numbered child is the tree's own k-th child, and its number is greater |
| Louds.OneParent | src/v2/v2_bitvec.c:198-201 | every node but the root is the child of exactly one node at exactly one place |
| Tails.CmpReversed | src/v2/v2_tails.c:33-45 | byte order read from the last byte, zero exactly for equal tails |
| Tails.CmpEntry | src/v2/v2_tails.c:33-49 | the whole comparison: reversed byte order, then input position; zero exactly for one and the same entry |
| Tails.OneOrder | src/v2/v2_tails.c:46-48 | only one order of the input is sorted, so the result cannot depend on the stability of the sort |
| Tails.OneComparison | src/v2/v2_tails.c:118-131 | comparing with the most recently emitted tail alone decides whether the tail ends any other one |
| Tails.EmitPool | src/v2/v2_tails.c:106-131 | the pool is the concatenation of the maximal tails in descending reversed order, and every reference slices out its own tail |
| Tails.BuildTailPool | src/v2/v2_tails.c:62-146 | the pool depends on the set of tails only, and every input finds its own bytes at its reference |
| RadixTrie.RadixTrie.ChildGetOrAdd | tools/v2_prototype.c:55-83 | the kid for a byte, added at its sorted place when missing; the map stays |
| RadixTrie.RadixTrie.Insert | tools/v2_prototype.c:85-92 | the trie stores the map updated with the key and its value |
| RadixCompress.FoldChain | tools/v2_prototype.c:98-123 | folds one-kid nodes until the node holds a key or branches; the map stays |
| RadixCompress.Compress | tools/v2_prototype.c:96-126 | the stored map stays, children stay sorted and distinct, and below the start every node holds a key or branches |
| RadixCompress.ThroughKid | tools/v2_prototype.c:96-126 | a node whose path extends another's is reached through the kid with the next byte |
| BreadthOrder.NumberNodes | tools/v2_prototype.c:485-495 | the queue numbers every node, kid k of node v at ChildNumber, and never exceeds its 4n+16 places |
| BreadthOrder.NodesBounded | tools/v2_prototype.c:485-495 | a compressed trie of n >= 1 keys has at most 2n nodes, and one node when there is no key |
| BreadthOrder.AllReached | tools/v2_prototype.c:485-495 | the finished queue holds every node of the trie |
| Sections.WriteSections | tools/v2_prototype.c:508-531 | one pass writes degree bits, key bits, values with their offsets, labels, tail bits and tails |
| Sections.Freeze | tools/v2_prototype.c:146-194 | pushing bits one by one and indexing them gives a bit vector of exactly those bits |
| Sections.DropDuplicates | tools/v2_prototype.c:538-551 | the distinct tails, strictly ascending from the last byte |
| Sections.FindTail | tools/v2_prototype.c:607-617 | binary search finds the tail among the distinct ones |
| Sections.PlaceTails | tools/v2_prototype.c:538-621 | every node with a tail refers to its own bytes in the pool |
| Sections.ValueByRank | tools/v2_prototype.c:741-741 | a node's rank among the key bits is the place of its value |
| Succinct.BuildIndex | tools/v2_prototype.c:437-570 | for every sequence of insertions the sections describe the map of the last insertions |
| Succinct.SuccinctTrie.constructor | tools/v2_prototype.c:497-570 | serialises a numbered trie into sections that describe its map |
| Succinct.SuccinctTrie.FindLabel | tools/v2_prototype.c:633-649 | binary search over the labels finds the kid with the byte, or none when there is none |
| Succinct.SuccinctTrie.Descend | tools/v2_prototype.c:625-662 | the descent ends on the key's node, or stops early only for a key that is not stored |
| Succinct.SuccinctTrie.Contains | tools/v2_prototype.c:625-664 | accepts a key if and only if it was inserted |
| Succinct.SuccinctTrie.Lookup | tools/v2_prototype.c:697-746 | returns the value of the key's last insertion, by rank over the key bits and the sampled offsets |
| Succinct.LastInsertionWins | tools/v2_prototype.c:85-92 | the map of a sequence of insertions holds exactly the inserted keys, each with its last value |
| ValueStore.LebRead | tools/v2_prototype.c:346-357 | reads back the integer written there and stops right behind it |
| ValueStore.SampleOffsets | tools/v2_prototype.c:685-690 | one offset for every 32 values, the true one |
| ValueStore.Fetch | tools/v2_prototype.c:741-746 | a value by its place, at most 31 skips behind a sample |
| Leb128.LebWrite | tools/v2_prototype.c:335-344 | appends the LEB128 groups of the integer |
| Leb128.LebIsVarint | tools/v2_prototype.c:335-344 | the bytes of an integer are, bit for bit, the groups of the bit stream |
| Huffman.HuffmanBits | tools/v2_prototype.c:364-411 | with two or more symbols the sum of merged weights is attained by a binary prefix code and no prefix code costs less |
| Huffman.MergeAll | tools/v2_prototype.c:386-410 | merging the two lightest slots until one is left sums up the optimal cost |
| Huffman.FindTwo | tools/v2_prototype.c:390-399 | the scan finds the two lightest open slots |
| PrefixCodes.KraftInequality | tools/v2_prototype.c:361-363 | the words of a prefix code leave room for one another |
| PrefixCodes.Siblings | tools/v2_prototype.c:361-363 | feasible lengths can be rearranged at no greater cost so that the two lightest symbols share the greatest length |
| PrefixCodes.MergeBound | tools/v2_prototype.c:400-404 | a lower bound for the merged alphabet is one for the original, one merge dearer |
| PrefixCodes.MergeReached | tools/v2_prototype.c:400-404 | a code for the merged alphabet gives one for the original, one merge dearer |
| TersemlRoundTrip.RoundTrip | terseml/terseml.py:165-393 | for every tree nested at most 256 deep, reading its encoding in front of arbitrary bytes consumes exactly it and returns the tree with adjacent text merged and empty text dropped |
| TersemlRoundTrip.RoundTripMerged | terseml/terseml.c:301-784 | the same for the C encoder, which does not merge, on trees already merged |
| TersemlDeep.DepthDecides | terseml/terseml.c:709-722 | a tree is read back from what would be written for it if it nests at most 256 deep; otherwise reading fails with the depth error and no other |
| TersemlDeep.FewBraces | terseml/terseml.c:709-724 | whatever is wrong with a document of at most 257 opening braces is reported as malformed, never as too deep |
| TersemlShortest.UnitsShortest | terseml/GRAMMAR.md:131-143 | whatever stands for a text in a slot is no shorter than what is written for it, and as short only if it is the same: not a byte is escaped without need |
| TersemlShortest.LeadShortest | terseml/GRAMMAR.md:106-116 | the same where a leading bracket has to be escaped |
| TersemlShortest.TerminatedOnly | terseml/GRAMMAR.md:60-63 | a terminated run can be written in one way only |
| TersemlShortest.GroupsShortest | terseml/GRAMMAR.md:75-76 | an integer is written with the fewest groups, in the only way that takes so few |
| TersemlShortest.PayloadShortest | terseml/GRAMMAR.md:192-200 | of all the ways in which the grammar lets a text child be written none is shorter than the one that is chosen |
| TersemlShortest.PayloadStands | terseml/GRAMMAR.md:192-200 | and the one that is chosen is one of them |
| TersemlExamples.PlainElement | terseml/GRAMMAR.md:147-160 | brace, tag, comma, text, brace, the text as it is but for a leading bracket, for every text without reserved bytes |
| TersemlExamples.Attributes | terseml/GRAMMAR.md:42-65 | two attributes with any value, brackets, colons and commas included |
| TersemlExamples.Children | terseml/GRAMMAR.md:42-65 | three children, one after another |
| TersemlRoundTrip.DocumentBack | terseml/terseml.py:404-409 | a document of several nodes is read back node by node |
| TersemlRoundTrip.KidsBack | terseml/terseml.py:369-393 | reading inverts writing a list of children, each text in whatever form was chosen |
| TersemlRoundTrip.PairsBack | terseml/terseml.py:349-362 | reading inverts writing attribute pairs |
| TersemlPrefix.PrefixRejected | terseml/terseml.py:325-401 | every proper prefix of an accepted document is rejected |
| TersemlPrefix.ElementStays | terseml/terseml.py:325-393 | what is read does not depend on the bytes behind it |
| TersemlPrefix.EncodingsPrefixFree | terseml/terseml.py:165-208 | an encoding that starts another one is the same, of the same tree |
| TersemlPrefix.Canonical | terseml/terseml.py:165-401 | for every accepted document, encoding what was read gives bytes that are read back as the merged tree and encode to themselves |
| TersemlPrefix.ElementShallow | terseml/terseml.py:325-330 | nothing that is read nests deeper than 256 |
| TersemlApart.MergedExactly | terseml/GRAMMAR.md:269-275 | what is read has no two neighbouring and no empty texts, at any depth, if and only if every binary run says something and stands directly before a brace; empty runs may stand anywhere for the reader that drops them |
| TersemlApart.RunThenTextStaysApart | terseml/GRAMMAR.md:269-275 | a document that fails the condition and is read with two neighbouring texts |
| TersemlApart.TextThenRunRejected | terseml/GRAMMAR.md:57-63 | a content in which a binary run follows a text, escapes in it or not, is rejected, although the grammar allows it |
| TersemlTags.NamedExactly | terseml/GRAMMAR.md:48-51 | all tags of what is read are nonempty, at any depth, if and only if no element of the document has a comma directly behind its opening brace |
| TersemlTags.WrittenNamed | terseml/terseml.py:165-208 | what is written has an empty tag if and only if the tree has one |
| TersemlTags.EmptyTag | terseml/GRAMMAR.md:48-51 | a document that is accepted, and a tree that is written, with an empty tag |
| TersemlGrammar.AcceptedIsDerived | terseml/terseml.py:325-401 | the readers accept a document if and only if the grammar of the code derives some tree from it, in whatever way it is cut up |
| TersemlGrammar.ReadIsDerived | terseml/terseml.py:325-401 | a document is read as a tree if and only if the grammar of the code, which speaks of characters and carries the tree along, derives that tree from it |
| TersemlExamples.SingletonText | terseml/terseml.py:333-336 | text between braces without a comma is read as the text of an element tagged #text, for every text |
| TersemlGrammar.DocumentIsDerived | terseml/terseml.py:404-409 | the same for documents of several elements, and the trees they are read as |
| TersemlLiberties.CommonGround | terseml/GRAMMAR.md:42-65 | a document that stands for a tree on paper is accepted if and only if it stands for it without any of the six liberties in which the two differ, and then it is read as that tree |
| TersemlLiberties.OnlyInCode | terseml/GRAMMAR.md:42-65 | three documents that are accepted, and the trees they are read as, although they stand for no tree on paper: an empty tag, an empty key, content behind attributes without a comma |
| TersemlLiberties.OnlyOnPaper | terseml/GRAMMAR.md:42-65 | three documents that stand for a tree on paper and are rejected: a run behind a text, an element in a singleton, a text outside of elements |
| TersemlDialects.AcceptedExactly | terseml/terseml.c:458-640 | the Python reader accepts a document if and only if the C reader does and no counted run on the way claims 2^64 bytes or more; the trees then differ by the empty texts alone |
| TersemlDialects.ReadersAgree | terseml/terseml.c:458-640 | what the Python reader accepts the C reader accepts, and both trees encode to the same bytes |
| TersemlDialects.WrappedClaim | terseml/terseml.c:466-487 | a document with such a claim: the C reader accepts it and the Python reader rejects it, because the length wraps |
| TersemlWrite.BestForm | terseml/GRAMMAR.md:199-200 | no form is shorter than the chosen one, and ties go counted, terminated, inline |
| TersemlTree.NormalHolds | terseml/terseml.py:152-162 | merging leaves no empty and no neighbouring texts at any depth |
| TersemlTree.NormalSame | terseml/terseml.py:152-162 | a merged tree stays as it is |
| TersemlMerge.MergeOnly | terseml/terseml.py:152-162 | the merged children are the only ones with no empty and no neighbouring texts that hold the same bytes of text and the same elements in the same order |
| TersemlMerge.NormalOnly | terseml/terseml.py:152-208 | the normal form keeps tag and attributes and merges the normal forms of the children |
| TersemlTree.NormalMerge | terseml/terseml.py:152-208 | merging the children first or last is the same |
| TersemlPython.Escape | terseml/terseml.py:66-80 | chained bulk replacement escapes exactly the reserved bytes, and a leading bracket |
| TersemlPython.ReplaceStep | terseml/terseml.py:74-76 | one more replacement leaves the escapes of the earlier ones alone |
| TersemlPython.ChoosesBest | terseml/terseml.py:113-140 | the computed sizes are the emitted lengths, so the shortest form is chosen |
| TersemlPython.BinaryEmitted | terseml/terseml.py:143-149 | two bulk replacements escape a terminated run |
| TersemlPython.MergeText | terseml/terseml.py:152-162 | joining each text to the one before and then dropping empty ones is the merge |
| TersemlPython.Encode | terseml/terseml.py:165-208 | writes the canonical bytes, and fails exactly for trees nested deeper than 256 |
| TersemlPythonReader.Reader.ReadEscapedRun | terseml/terseml.py:260-290 | the search-and-slice reader returns what the grammar reads, on every input |
| TersemlPythonReader.Reader.ReadVarint | terseml/terseml.py:97-110 | the integer of at most ten groups, or an error |
| TersemlPythonReader.Reader.ReadBinary | terseml/terseml.py:293-322 | both kinds of run, on every input |
| TersemlPythonReader.Reader.ReadAttrPairs | terseml/terseml.py:349-362 | attribute pairs, a trailing comma accepted |
| TersemlPythonReader.Reader.ReadContent | terseml/terseml.py:369-393 | children up to the closing brace, on every input |
| TersemlPythonReader.Reader.DecodeElement | terseml/terseml.py:325-393 | one element, on every input, the singleton included: rejected, or read as the tree that is specified, which is the one the grammar derives |
| TersemlPythonReader.Decode | terseml/terseml.py:396-401 | a document is one element and nothing behind it |
| TersemlPythonReader.DecodeDocument | terseml/terseml.py:404-409 | elements one after another up to the end |
| TersemlC.Buf.Need | terseml/terseml.c:147-161 | room for n more bytes by doubling; the contents stay |
| TersemlC.Buf.WriteEscaped | terseml/terseml.c:204-218 | copying runs whole gives the same escaped bytes as escaping byte by byte |
| TersemlC.Buf.VarintPut | terseml/terseml.c:237-246 | appends the LEB128 groups |
| TersemlC.Buf.WriteBinary | terseml/terseml.c:275-297 | appends the run in the given form |
| TersemlC.Buf.EncodeNode | terseml/terseml.c:301-363 | appends the node as written, and sets the failure flag exactly when it nests too deep |
| TersemlC.VarintLen | terseml/terseml.c:227-235 | the length of the groups |
| TersemlC.ChooseForm | terseml/terseml.c:257-273 | one counting loop chooses the shortest form |
| TersemlC.TsmlEncode | terseml/terseml.c:365-378 | succeeds exactly up to the depth limit, and on merged trees returns the canonical bytes |
| TersemlCReader.Rdr.MeasureEscaped | terseml/terseml.c:417-432 | the first pass finds the end of the text and its exact unescaped length |
| TersemlCReader.FillEscaped | terseml/terseml.c:438-450 | the second pass fills the measured buffer to its last byte with the unescaped text |
| TersemlCReader.Rdr.ReadEscapedText | terseml/terseml.c:391-456 | plain slice or two passes, the result is what the grammar reads, on every input |
| TersemlCReader.Rdr.MeasureTerminated | terseml/terseml.c:506-521 | the first pass over a terminated run finds its end and its exact length |
| TersemlCReader.FillTerminated | terseml/terseml.c:526-547 | the second pass fills the measured buffer exactly |
| TersemlCReader.Rdr.ReadCountedRun | terseml/terseml.c:466-487 | the 64-bit length is checked against what is left before it is used |
| TersemlCReader.Rdr.ReadBinary | terseml/terseml.c:458-549 | both kinds of run, on every input |
| TersemlCReader.Rdr.DecodeAttrs | terseml/terseml.c:642-707 | the attribute list, on every input |
| TersemlCReader.Rdr.DecodeChildren | terseml/terseml.c:563-640 | children up to the closing brace, empty runs dropped |
| TersemlCReader.Rdr.DecodeElement | terseml/terseml.c:709-784 | one element, on every input, the singleton included: rejected, or read as the tree that is specified, which is the one the grammar derives |
| TersemlCReader.TsmlDecode | terseml/terseml.c:786-808 | a document is one element and nothing behind it |
| TersemlCReader.TsmlDecodeDocument | terseml/terseml.c:810-836 | elements one after another, at least one |
| TersemlJs.EscapeBytes | terseml/terseml.js:49-58 | escaping byte by byte gives the same bytes as the other two |
| TersemlJs.SizeInline | terseml/terseml.js:86-90 | the emitted length of the inline form |
| TersemlJs.SizeTerminated | terseml/terseml.js:92-96 | the emitted length of the terminated form |
| TersemlJs.ChooseForm | terseml/terseml.js:107-116 | the shortest form with the same ties |
| TersemlJs.EncodeBinary | terseml/terseml.js:118-129 | the run in the given form |
| TersemlJs.Encode | terseml/terseml.js:151-199 | the bytes of the Python encoder on every tree, and of the C encoder on merged ones |

## Left out

- EntryOrder.StableSameMap: the C library's `qsort` is a parameter, any sorted permutation; "the last value added wins" holds for a stable one, and `EntryOrder.PermutationKeys` says what is left without stability.
- Sections.SortTails: a stand-in for `qsort`; only its contract, a sorted permutation, is used.
- BindingEncoder.Encode: the entry count is below 2^32, the keys hold at most 2^56 bytes, and decoding is stated for streams below 2^64 bits, more than a file can hold.
- FileWriter.Build: the entry count is below 2^32 and the keys hold at most 2^56 bytes; the 32-bit counter's wrap-around is not modelled.
- RadixTrie.RadixTrie.Insert: nodes live in a growing sequence and indices stand for pointers; freeing and reuse of memory are not modelled, and neither are the node ids the breadth-first pass stores.
- Succinct.BuildIndex: reading the word list from a file, the byte widths of the section sizes, timing and the printed report are not modelled, nor is the 32-bit width of tail lengths.
- Huffman.HuffmanBits: bits are counted in exact integers, where the source divides a `double` by eight; the order of the two merged nodes is irrelevant to the cost.
- TersemlCReader.Rdr.ReadEscapedText: results are byte strings; that an unescaped text points into the caller's buffer is not modelled.
- TersemlRoundTrip.RoundTrip: the encoded bytes and what follows are shorter than 2^64, the size of an address space.
- Fixed `bits_per_symbol`: only the automatic choice is modelled; the option accepts widths that do not cover the alphabet.
- Hostile `.trp` buffers: the walkers are specified on every buffer, but 64-bit wrap-around of `n * 8` in `tp_bs_reader_direct_ptr` and reads past the end of the buffer by the `_at` functions are not.
- `tp_bs_read_varint_u_at` is the stateless twin of `BitStream.BitReader.ReadVarintU`, and `tp_bs_write_u8` to `tp_bs_write_u64` are fixed widths of `BitStream.BitWriter.WriteBits`.
- NUL-terminated wrappers (`tp_dict_lookup`, `tp_encoder_add`, the prefix argument of `tp_dict_find_prefix`): keys and prefixes are byte strings of a given length.
- Allocation failure, null pointers, pointer lifetimes, arenas: not modelled.
- Floats are bit patterns; the bindings' widening of 32-bit floats and their UTF-8 conversion of keys and strings are not modelled.
- The Python binding's integers are not truncated to 64 bits when a varint has ten groups; the model's are.
- JSON, XML and fuzzy search, the suffix table, the other language bindings, command-line tools, the other fixtures and benchmarks: not part of this model.
- The JavaScript reader of terseml: the same algorithm as the Python reader, with lengths as doubles.
