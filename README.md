# Verified models of the small Rust tools

This project models, in Dafny, the logic at the heart of a collection of
small Rust command-line exercises, and proves what each of them promises:

- **`03_rcompress`, a Huffman compressor.**
  - `bits.dfy`: the bit reader and bit writer (least-significant bit first, with a trailing partial byte flushed).
  - `header.dfy`: the little-endian header layout.
  - `huffman_tree.dfy`: the Huffman tree, built with a min-count heap, its leaf paths as codes, and its reversed ordering.
  - `compressor.dfy`: frequency counting, the step-wise decoder, and `compress`/`decompress` with their round trip. It also says how each run ends: with input that is not UTF-8, with empty input, or with a header whose table is empty.
  - `encoder.dfy` and `decoder.dfy`: the stand-alone encoder and decoder.
- **`02_rjson`, a recursive-descent JSON parser.**
  - `json_text.dfy`: the character classes, and the number syntax that the program's regular expression and `f64::from_str` accept. That syntax is the program's own, not RFC 8259's: for instance it allows a leading `+`.
  - `json.dfy`: the `Parser` class with its `index` cursor, and `JsonObject::read`.
  - `json_props.dfy` and `json_vectors.dfy`: the error cases and the unit-test vectors.
  - `json_containers.dfy`: arrays and objects laid out element by element. They read as exactly those elements in order, and the comma, colon and closing rules hold after any run of elements.
- **`rjson`, the older form of the same parser.** It has no objects, no root check and no exponent sign: `json_legacy.dfy`, `json_legacy_props.dfy`, and `json_legacy_containers.dfy` for flat arrays read element by element.
- **`04_rcut`, a `cut` clone.**
  - `cut_field.dfy`: field lists such as `1,3-5,-2`.
  - `cut.dfy`: selecting fields, bytes or characters of a line.
  - `cut_vectors.dfy`: the unit-test vectors.
  - `utf8.dfy`: the UTF-8 encoding that `str::bytes` and `String::from_utf8` use.
- **`01_rwc`, a `wc` clone**, in `wc.dfy`: the counts, their sum, the line-by-line counting loop, and the printed columns.
- **`load_balancer`'s round-robin policy**, in `round_robin.dfy`.

Code that changes state step by step is modelled imperatively:
- the bit buffers, the Huffman decoder and the JSON parsers are classes;
- the counting, encoding and decoding loops are methods with loop invariants.

Each of these is proved against a specification function, and the properties are proved about that function. Pure code (field parsing, range expansion, the tree's codes, the `CountResult` sum) is modelled as functions and lemmas.

How Rust's effects are modelled:
- A Rust `panic` (an `unwrap` on bad user text or on an empty queue, an index that underflows) is an explicit outcome wherever the input decides it, with two exceptions listed under "Left out": `HuffmanEncoding.HuffmanEncoder.Encode` and `RoundRobin.Policy.Next` require what the program would otherwise panic on. `HuffmanCoding.Create` requires a non-empty table, and `compress` and `decompress` test for the empty table first and report the panic as their outcome.
- An error that `?` returns because of the input (`read_to_string` on bytes that are not UTF-8) is an explicit outcome too.
- Byte sources and sinks are byte sequences.
- Standard-library behaviour the programs rely on is written out as explicit definitions:
  - `str::split`, `split_whitespace` and `parse::<usize>`;
  - the regular expressions;
  - UTF-8 and UTF-16.

## Model

| member | source | states |
|---|---|---|
| BitManipulation.Bit | 03_rcompress/src/bitmanipulation.rs:34 | every value the reader stores in `out` is 0 or 1 |
| BitManipulation.BitsOf | 03_rcompress/src/bitmanipulation.rs:34-35 | a byte yields eight bits, bit k at position k (least-significant first) |
| BitManipulation.SetBitSame | 03_rcompress/src/bitmanipulation.rs:65 | ORing a bit into a clear position stores exactly that bit there |
| BitManipulation.SetBitOther | 03_rcompress/src/bitmanipulation.rs:65 | ORing a bit into position k leaves every other position unchanged |
| BitManipulation.OrBit | 03_rcompress/src/bitmanipulation.rs:65 | the pending byte after one OR, position by position |
| BitManipulation.PackByteBit | 03_rcompress/src/bitmanipulation.rs:65-66 | up to eight pending bits packed into a byte: bit j of the byte is the j-th written bit, higher bits are 0 |
| BitManipulation.BitsOfPackByte | 03_rcompress/src/bitmanipulation.rs:34-66 | unpacking a packed byte gives the pending bits followed by zero padding |
| BitManipulation.PackByteSnoc | 03_rcompress/src/bitmanipulation.rs:65-66 | one more bit ORed at the current index extends the packed byte |
| BitManipulation.UnpackAppend | 03_rcompress/src/bitmanipulation.rs:21-37 | the bits read from two byte runs are the bits of the first then of the second |
| BitManipulation.PackAppend | 03_rcompress/src/bitmanipulation.rs:58-77 | packing whole bytes of bits then more bits is packing each part |
| BitManipulation.PackLength | 03_rcompress/src/bitmanipulation.rs:58-77 | after write and flush the sink holds ceil(bits/8) bytes |
| BitManipulation.UnpackPack | 03_rcompress/src/bitmanipulation.rs:19-77 | reading back what write and flush produced gives the written bits followed by zero padding up to a whole byte |
| BitManipulation.PackUnpack | 03_rcompress/src/bitmanipulation.rs:19-77 | packing the bits read from any byte sequence gives that byte sequence back |
| BitManipulation.LowBitsOfBits | 03_rcompress/src/bitmanipulation.rs:65 | `bit & 0x01` leaves a 0/1 bit unchanged |
| BitManipulation.LowBitsSnoc | 03_rcompress/src/bitmanipulation.rs:59-66 | the writer keeps the low bit of each input, in order |
| BitManipulation.EmitPending | 03_rcompress/src/bitmanipulation.rs:60-64 | pushing a full pending byte appends its packing to the sink |
| BitManipulation.WriterEmit | 03_rcompress/src/bitmanipulation.rs:60-66 | with index 8, writing a bit pushes `current`, restarts the pending byte and keeps the writer invariant |
| BitManipulation.WriterPush | 03_rcompress/src/bitmanipulation.rs:65-66 | with index below 8, writing a bit ORs it at `index`, increments `index` and keeps the writer invariant |
| BitManipulation.BitWriter.constructor | 03_rcompress/src/bitmanipulation.rs:50-56 | a new writer has an empty sink, `current` 0 and `index` 0 |
| BitManipulation.BitWriter.WriteBit | 03_rcompress/src/bitmanipulation.rs:59-67 | one iteration: a full pending byte (`index > 7`) goes to the sink first, then the bit is pending |
| BitManipulation.BitWriter.Write | 03_rcompress/src/bitmanipulation.rs:58-69 | returns `bits.len()`; the low bit of every input is appended to the written stream; the sink only grows and holds (written-1)/8 bytes, so a byte leaves only when a ninth pending bit arrives |
| BitManipulation.BitWriter.Flush | 03_rcompress/src/bitmanipulation.rs:71-77 | emits the pending byte iff `index > 0`, after which the sink is the LSB-first packing of every bit written; a fresh writer's flush emits nothing |
| BitManipulation.ReaderLoad | 03_rcompress/src/bitmanipulation.rs:22-30 | loading the next source byte when `index > 7` keeps the remaining bit stream |
| BitManipulation.ReaderStep | 03_rcompress/src/bitmanipulation.rs:34-35 | taking bit `index` of `current` is taking the head of the remaining stream |
| BitManipulation.BitReader.constructor | 03_rcompress/src/bitmanipulation.rs:10-17 | `index` 8 and `current` 0: the bits still to come are all bits of the source |
| BitManipulation.BitReader.ReadBit | 03_rcompress/src/bitmanipulation.rs:22-37 | one iteration: the next bit LSB-first, or the report that the source is exhausted (`Ok(0)`) |
| BitManipulation.BitReader.Read | 03_rcompress/src/bitmanipulation.rs:19-40 | returns min(`out.len()`, bits left), fills `out[0..count)` with the next bits, leaves the rest of `out` alone and advances by `count`; an empty source gives 0 |
| BitManipulation.ReadOneByteExample | 03_rcompress/src/bitmanipulation.rs:88-98 | `0b10101101` reads as 1,0,1,1,0,1,0,1 |
| BitManipulation.WriteTwelveBitsExample | 03_rcompress/src/bitmanipulation.rs:160-178 | bits 1,1,1,0,0,1,0,1,0,0,0,1 packed and flushed are `[0xA7, 0x08]` |
| HeaderCodec.LittleEndian | 03_rcompress/src/header.rs:11-17 | `to_le_bytes` of a number truncated to k bytes has k bytes |
| HeaderCodec.FromLittleEndian | 03_rcompress/src/header.rs:29-41 | `from_le_bytes` of k bytes is below 256^k |
| HeaderCodec.LittleEndianRoundTrip | 03_rcompress/src/header.rs:11-29 | `from_le_bytes(to_le_bytes(n)) == n` for n that fits |
| HeaderCodec.EntryOf | 03_rcompress/src/header.rs:16-18 | one table entry is five bytes: the symbol and the count truncated to 32 bits |
| HeaderCodec.Serialize | 03_rcompress/src/header.rs:10-21 | the header is 9 + 5 × entries bytes |
| HeaderCodec.Write | 03_rcompress/src/header.rs:10-21 | the loop emits exactly the layout: 8 size bytes, the entry count truncated to a byte, 5 bytes per entry |
| HeaderCodec.Filled | 03_rcompress/src/header.rs:27-39 | a read into a buffer replaces only as many bytes as remain in the input |
| HeaderCodec.ParseEntries | 03_rcompress/src/header.rs:36-43 | reading `size` entries yields `size` entries and consumes no more than the input |
| HeaderCodec.ReadSlice | 03_rcompress/src/header.rs:28-39 | `read` fills min(buffer, remaining) bytes and leaves the stale rest of the buffer |
| HeaderCodec.ReadEntries | 03_rcompress/src/header.rs:36-43 | the loop over the table reads what the specification function reads |
| HeaderCodec.ParseEntriesStep | 03_rcompress/src/header.rs:39-42 | one entry: symbol from byte 0, count from bytes 1..5 little-endian |
| HeaderCodec.ParseFront | 03_rcompress/src/header.rs:26-34 | the size field and the count byte come first |
| HeaderCodec.Read | 03_rcompress/src/header.rs:23-46 | the method's header and position are those of the parse function |
| HeaderCodec.ParseLaidOut | 03_rcompress/src/header.rs:26-46 | bytes laid out as `write` lays out a header parse back to that header, whatever follows them |
| HeaderCodec.RoundTrip | 03_rcompress/src/header.rs:10-46 | reading what `write` wrote gives the header back and stops right after it, whatever follows, when there are at most 255 entries, counts fit in 32 bits and the size in 64 |
| HeaderCodec.EntriesRoundTrip | 03_rcompress/src/header.rs:15-43 | the table written entry by entry reads back entry by entry |
| HeaderCodec.SizeField | 03_rcompress/src/header.rs:11-29 | the 8-byte size field reads back as the size |
| HeaderCodec.CountField | 03_rcompress/src/header.rs:14-34 | the count byte reads back as the table length below 256 |
| HeaderCodec.EntryRoundTrip | 03_rcompress/src/header.rs:16-41 | one entry reads back when its count fits in 32 bits |
| HeaderCodec.AbacbaHeaderBytes | 03_rcompress/src/header.rs:55-76 | the header of "abacba" with size 10 is the bytes of the test |
| HeaderCodec.SerializeExample | 03_rcompress/src/header.rs:78-96 | the header with size 2677 is the encoded bytes of the decode test |
| HeaderCodec.ReadHeaderExample | 03_rcompress/src/header.rs:78-96 | those bytes read back as size 2677 and table a:3, b:2, c:1 |
| HuffmanCoding.Compare | 03_rcompress/src/tree.rs:58-67 | ordering is reversed on counts whatever the constructors: Greater iff the first count is smaller, so the max-heap pops the smallest count |
| HuffmanCoding.CompareAntisymmetric | 03_rcompress/src/tree.rs:58-73 | swapping the operands flips the ordering |
| HuffmanCoding.SymbolsOfLeaves | 03_rcompress/src/tree.rs:4-7 | a byte is a symbol of the tree iff some leaf carries it |
| HuffmanCoding.Encode | 03_rcompress/src/tree.rs:35-55 | Some iff the byte is a leaf symbol, and then the path of 0 (left) and 1 (right) bits leads from the root to a leaf carrying it; a matching leaf gives the empty path |
| HuffmanCoding.LeafPathsPrefixFree | 03_rcompress/src/tree.rs:35-55 | no path to a leaf is a proper prefix of another path |
| HuffmanCoding.CodesPrefixFree | 03_rcompress/src/tree.rs:35-55 | the codes of two different symbols are not prefixes of each other |
| HuffmanCoding.MinIndex | 03_rcompress/src/tree.rs:17-18 | the popped tree has the smallest count, the first such one in push order |
| HuffmanCoding.Without | 03_rcompress/src/tree.rs:17-18 | popping removes one tree |
| HuffmanCoding.Merged | 03_rcompress/src/tree.rs:16-24 | one merge round shrinks the heap by one |
| HuffmanCoding.LeafHeap | 03_rcompress/src/tree.rs:11-14 | one leaf per table entry |
| HuffmanCoding.HeapAppend | 03_rcompress/src/tree.rs:19-23 | pushing adds the pushed tree's leaves and count |
| HuffmanCoding.HeapWithout | 03_rcompress/src/tree.rs:17-18 | popping removes exactly the popped tree's leaves and count |
| HuffmanCoding.Round | 03_rcompress/src/tree.rs:16-24 | one round of the loop pops the two trees of smallest count and pushes their parent, as `Merged` defines |
| HuffmanCoding.MergedFacts | 03_rcompress/src/tree.rs:16-24 | a merge round keeps the leaves, the total count and the count-equals-sum-of-children invariant |
| HuffmanCoding.MergedSums | 03_rcompress/src/tree.rs:19-23 | the new node's count is the sum of the two popped counts |
| HuffmanCoding.WithoutWellCounted | 03_rcompress/src/tree.rs:17-18 | popping keeps every remaining tree well counted |
| HuffmanCoding.BuildFacts | 03_rcompress/src/tree.rs:16-25 | the final tree is well counted, has the heap's leaves and the heap's total count |
| HuffmanCoding.LeafHeapFacts | 03_rcompress/src/tree.rs:11-14 | the initial heap's leaves are the table and its total is the sum of counts |
| HuffmanCoding.Create | 03_rcompress/src/tree.rs:10-26 | needs a non-empty table (the last `pop().unwrap()` panics otherwise); the tree's leaves are exactly the table entries, every node's count is the sum of its children's and the root count is the sum of all counts |
| HuffmanCoding.AbacbaTree | 03_rcompress/src/tree.rs:78-95 | "abacba" gives `Node(6, Leaf(3,a), Node(3, Leaf(1,c), Leaf(2,b)))` |
| HuffmanCoding.AbacbaCodes | 03_rcompress/src/tree.rs:97-106 | in that tree a=[0], c=[1,0], b=[1,1], and an absent byte has no code |
| HuffmanCoding.Walk | 03_rcompress/src/lib.rs:89-110 | a step that decodes a symbol goes back to the root; otherwise it rests on a node |
| HuffmanCoding.Move | 03_rcompress/src/decoder.rs:34-43 | from a node the walk goes to a child; from a leaf back to the root |
| HuffmanCoding.DecodeBits | 03_rcompress/src/decoder.rs:26-57 | the decode loop writes at most one byte per bit |
| HuffmanCoding.DecodeBound | 03_rcompress/src/decoder.rs:50-53 | the loop stops once `filesize` bytes are written (with size 0 it still writes the first symbol) |
| HuffmanCoding.DecodeSingleLeaf | 03_rcompress/src/decoder.rs:34-54 | with a single-leaf tree every bit decodes that leaf's symbol, up to the file size |
| HuffmanCoding.CodesSnoc | 03_rcompress/src/lib.rs:170-173 | the encoded stream of s + [c] is that of s followed by c's code |
| HuffmanCoding.DecodePath | 03_rcompress/src/decoder.rs:34-54 | walking a symbol's code from the root writes that symbol and returns to the root |
| HuffmanCoding.DecodeCodes | 03_rcompress/src/decoder.rs:26-57 | decoding the codes of s, followed by anything, with file size |s| gives s back |
| Compressor.IndexOf | 03_rcompress/src/lib.rs:135-139 | the position the map holds for a byte: the first entry with that byte, or None when absent |
| Compressor.CountFrequencies | 03_rcompress/src/lib.rs:131-144 | the map-and-vector loop computes the frequency table |
| Compressor.PushIndexed | 03_rcompress/src/lib.rs:135-138 | a new byte gets the position of the pushed entry and the map stays consistent with the vector |
| Compressor.BumpIndexed | 03_rcompress/src/lib.rs:139-141 | a known byte's entry is found at the mapped position and incremented, the map staying consistent |
| Compressor.TallyPushBump | 03_rcompress/src/lib.rs:134-142 | one iteration of the loop is one tally step |
| Compressor.TallyDistinct | 03_rcompress/src/lib.rs:134-142 | tallying keeps one entry per byte |
| Compressor.TallyCount | 03_rcompress/src/lib.rs:134-142 | tallying a byte adds one to its count and to no other, and registers it |
| Compressor.Occurrences | 03_rcompress/src/lib.rs:134 | occurrences of a byte are zero iff it is absent |
| Compressor.FrequenciesCount | 03_rcompress/src/lib.rs:131-144 | a byte has an entry iff it occurs, and its count is its number of occurrences |
| Compressor.FrequenciesDistinct | 03_rcompress/src/lib.rs:131-144 | each distinct byte is listed once, with a positive count |
| Compressor.FrequenciesTotal | 03_rcompress/src/lib.rs:131-144 | the counts sum to the input length |
| Compressor.FrequenciesOrder | 03_rcompress/src/lib.rs:131-144 | entries come in order of first occurrence |
| Compressor.FrequenciesStep | 03_rcompress/src/lib.rs:134-142 | the table of one more byte is one tally step further |
| Compressor.FrequenciesTwice | 03_rcompress/src/lib.rs:226 | "aa" gives [(a, 2)] |
| Compressor.FrequenciesAbacba | 03_rcompress/src/tree.rs:80-81 | "abacba" gives [(a,3), (b,2), (c,1)] |
| Compressor.HuffmanDecoder.constructor | 03_rcompress/src/lib.rs:82-87 | a new decoder starts at the root |
| Compressor.HuffmanDecoder.Step | 03_rcompress/src/lib.rs:89-110 | at a node moves left on 0 and right otherwise; on reaching a leaf returns `Decoded(symbol)` and resets to the root, and the bits since the last reset are that symbol's path; otherwise `Decoding` |
| Compressor.StepExample | 03_rcompress/src/lib.rs:276-289 | with the "abacba" tree, 0 decodes a, 1,1 decodes b and 1,0 decodes c |
| Compressor.FollowSnoc | 03_rcompress/src/lib.rs:91-97 | following one more bit from a node is one move |
| Compressor.TreeOf | 03_rcompress/src/lib.rs:153-154 | every input byte is a symbol of the tree built from the input's frequencies |
| Compressor.InputInTree | 03_rcompress/src/lib.rs:153-171 | the `encode(c).unwrap()` in compress never fails on a non-empty input |
| Compressor.Compress | 03_rcompress/src/lib.rs:146-177 | the method's outcome is the outcome function's: input that is not UTF-8 is refused (`read_to_string` at line 150), empty input panics (`pop().unwrap()` at line 128), and otherwise the header of the frequency table and size is followed by the packed codes of the input |
| Compressor.IsText | 03_rcompress/src/lib.rs:149-150 | `read_to_string` accepts the file iff its bytes decode as UTF-8 |
| Compressor.CompressOutcome | 03_rcompress/src/lib.rs:128-177 | refused iff the input is not UTF-8; a panic iff it is UTF-8 and empty; otherwise the compressed bytes |
| Compressor.ByteValues | 03_rcompress/src/lib.rs:150 | the file's bytes as the values the UTF-8 decoder reads, one per byte |
| Compressor.EncodeInput | 03_rcompress/src/lib.rs:168-174 | the loop feeding codes to the writer produces the packing of all codes |
| Compressor.Decompress | 03_rcompress/src/lib.rs:179-213 | the method's outcome is the outcome function's: a header with no table entries panics (line 183, then line 128); otherwise the output is the decode of the bits after the header with the header's tree and size |
| Compressor.DecompressOutcome | 03_rcompress/src/lib.rs:128-213 | never refused; a panic iff the parsed header has no entries; otherwise the decompressed bytes |
| Compressor.DecodeInput | 03_rcompress/src/lib.rs:188-209 | the read/step loop counting `bytes_written` writes the decode of the source's bits |
| Compressor.DecodeStep | 03_rcompress/src/lib.rs:193-208 | one loop iteration advances the decode by one bit |
| Compressor.HeaderOfCompressed | 03_rcompress/src/lib.rs:159-182 | decompress reads back the header compress wrote and then starts at the codes |
| Compressor.CompressRoundTrip | 03_rcompress/src/lib.rs:146-213 | decompress(compress(x)) == x for every input with 2 to 255 distinct bytes and fewer than 2^32 bytes |
| Compressor.RunRoundTrip | 03_rcompress/src/lib.rs:146-213 | a UTF-8 input with 2 to 255 distinct bytes and fewer than 2^32 bytes is written by compress, and what compress writes is written back as the input by decompress |
| Compressor.CompressFailures | 03_rcompress/src/lib.rs:128-150 | the files [0xFF] and [0x80, 0x61] are refused as not UTF-8, and the empty file panics |
| Compressor.EmptyTablePanics | 03_rcompress/src/lib.rs:182-183 | a compressed file whose entry-count byte is 0 makes decompress panic, whatever follows |
| Compressor.ShortFilePanics | 03_rcompress/src/header.rs:27-34 | a compressed file of at most 8 bytes leaves the count byte at its initial 0, so decompress panics |
| Compressor.SingleSymbolLost | 03_rcompress/src/lib.rs:146-213 | with a single distinct byte compress writes only the header and decompress yields nothing |
| Compressor.SingleSymbolExample | 03_rcompress/src/lib.rs:146-213 | "aa" compresses to a header that decompresses to "" |
| Compressor.CodesFixed | 03_rcompress/src/lib.rs:170-173 | the corrected encoding gives a single-leaf tree one bit per byte |
| Compressor.FixedRoundTrip | 03_rcompress/src/lib.rs:146-213 | with one bit per byte for a single-leaf tree, decompress(compress(x)) == x for every input with 1 to 255 distinct bytes |
| Compressor.DecodeRepeated | 03_rcompress/src/lib.rs:193-208 | a single-leaf tree decodes any long enough bit stream as the repeated symbol |
| HuffmanEncoding.HuffmanEncoder.constructor | 03_rcompress/src/encoder.rs:10-14 | the encoder's tree is the one built from the header's table, with exactly its entries as leaves |
| HuffmanEncoding.HuffmanEncoder.Encode | 03_rcompress/src/encoder.rs:16-33 | the sink is the packing of the codes of every source byte; an empty source writes nothing |
| HuffmanEncoding.CodesPrefix | 03_rcompress/src/encoder.rs:20-28 | one iteration appends one byte's code |
| HuffmanDecoding.HuffmanDecoder.constructor | 03_rcompress/src/decoder.rs:11-16 | the decoder keeps the tree of the header's table and its file size |
| HuffmanDecoding.HuffmanDecoder.Decode | 03_rcompress/src/decoder.rs:18-60 | the output is the decode of the source's bits, never longer than a positive file size |
| HuffmanDecoding.DecodeAdvance | 03_rcompress/src/decoder.rs:30-55 | one loop iteration advances the decode by one bit |
| HuffmanDecoding.DecodeTestExample | 03_rcompress/src/decoder.rs:67-82 | the byte `0b00001110` with the "abacba" tree and size 3 decodes to "abc" |
| JsonText.HexValue | 02_rjson/src/lib.rs:270-271 | `to_digit(16)` gives a value below 16, the digit's value for a decimal digit |
| JsonText.HexNumber | 02_rjson/src/lib.rs:266-279 | hex digits accumulated as `u * 0x10 + h` stay below 16^n |
| JsonText.Unescape | 02_rjson/src/lib.rs:251-263 | a simple escape is known iff it is one of `\ / " b f n r t`, and then it stands for an ASCII character |
| JsonText.Utf16 | 02_rjson/src/lib.rs:291-292 | `encode_utf16`: one unit equal to the code point below 0x10000, otherwise a high then a low surrogate |
| JsonText.Utf16RoundTrip | 02_rjson/src/lib.rs:287-292 | decoding the UTF-16 units of a character gives the character back |
| JsonText.Utf16Of | 02_rjson/src/lib.rs:291-292 | a string takes between one and two units per character |
| JsonText.SkipWs | 02_rjson/src/lib.rs:69-73 | `skip_whitespace` stops at the first non-whitespace character or at the end, having passed only whitespace |
| JsonText.SkipWsIdempotent | 02_rjson/src/lib.rs:69-73 | skipping whitespace twice is skipping it once |
| JsonText.SkipWsAll | 02_rjson/src/lib.rs:69-77 | skipping reaches the end iff only whitespace remains |
| JsonText.NextMoves | 02_rjson/src/lib.rs:86-98 | `next` moves past the current character and then past whitespace; it returns the character it stops on, which is not whitespace, or None at the end |
| JsonText.DigitsEnd | 02_rjson/src/lib.rs:156-163 | the digit loop stops at the first non-digit or at the end |
| JsonText.Hex4 | 02_rjson/src/lib.rs:265-279 | four hex digits give a 16-bit unit |
| JsonText.Mismatch | 02_rjson/src/lib.rs:215-222 | the first position where the input differs from the keyword, or None when it matches throughout |
| JsonText.PatternFoundSuffix | 02_rjson/src/lib.rs:194-195 | the unanchored regular expression matches iff some suffix of the token is a number |
| JsonText.PatternIsFloat | 02_rjson/src/lib.rs:194-203 | every token the regular expression accepts in full is also accepted by `f64::from_str`, so its `Err(InvalidNumber)` branch is unreachable for such tokens |
| Json.ReadValue | 02_rjson/src/lib.rs:110-138 | a successful read consumes at least one character; at the root only an array or an object is accepted and the whole input must be consumed |
| Json.ExponentScan | 02_rjson/src/lib.rs:178-192 | the exponent scan moves forward within the input |
| Json.NumberEnd | 02_rjson/src/lib.rs:146-192 | a number token is at least one character long |
| Json.ReadNumber | 02_rjson/src/lib.rs:141-204 | a number is the token text the scan collected, accepted by the regular expression and by `f64::from_str`; every failure is `InvalidNumber` |
| Json.NumberScan | 02_rjson/src/lib.rs:146-203 | the sign, integer, leading-zero check, fraction and exponent stages end where the number token ends |
| Json.ReadGiven | 02_rjson/src/lib.rs:206-224 | a keyword succeeds iff the input holds it at the cursor, and then returns the value after it; too short an input is `Empty`; otherwise the error names the first mismatching character and its position |
| Json.ReadString | 02_rjson/src/lib.rs:238-298 | a string read consumes at least its two quotes and returns a string |
| Json.StringTurnAt | 02_rjson/src/lib.rs:242-294 | one iteration of the string loop closes at the quote, fails, or moves forward |
| Json.StringLoop | 02_rjson/src/lib.rs:242-297 | the string loop ends after its closing quote with a string |
| Json.ReadArray | 02_rjson/src/lib.rs:300-333 | an array read consumes its brackets and returns an array; what it holds, in what order, and how it fails are stated by the `JsonContainers` lemmas |
| Json.ArrayTurnAt | 02_rjson/src/lib.rs:305-331 | one iteration of the array loop closes, skips a comma or reads an element, always moving forward |
| Json.ArrayLoop | 02_rjson/src/lib.rs:305-332 | the array loop returns the elements read so far followed by the rest |
| Json.ReadObject | 02_rjson/src/lib.rs:335-379 | an object read consumes its braces and returns an object; what it holds, in what order, and how it fails are stated by the `JsonContainers` lemmas |
| Json.ObjectTurnAt | 02_rjson/src/lib.rs:339-377 | one iteration of the object loop closes, skips, or reads a member, always moving forward |
| Json.ObjectLoop | 02_rjson/src/lib.rs:339-378 | the object loop returns the members read so far followed by the rest |
| Json.Parser.constructor | 02_rjson/src/lib.rs:62-67 | the parser holds the characters of the input with the cursor at 0 |
| Json.Parser.SkipWhitespace | 02_rjson/src/lib.rs:69-73 | the cursor moves past whitespace only |
| Json.Parser.EndReached | 02_rjson/src/lib.rs:75-77 | true iff the cursor is at or past the end |
| Json.Parser.Peek | 02_rjson/src/lib.rs:79-84 | the character under the cursor, or None at the end |
| Json.Parser.Next | 02_rjson/src/lib.rs:86-98 | moves one character and then past whitespace, returning the character it stops on |
| Json.Parser.NextNoSkip | 02_rjson/src/lib.rs:100-106 | moves one character and returns the next one |
| Json.Parser.PartialRead | 02_rjson/src/lib.rs:110-138 | result and cursor agree with the value function |
| Json.Parser.PartialReadNumber | 02_rjson/src/lib.rs:141-204 | result and cursor agree with the number function |
| Json.Parser.ReadNumberTail | 02_rjson/src/lib.rs:170-203 | the fraction, exponent and check stages agree with the number function |
| Json.Parser.ReadInteger | 02_rjson/src/lib.rs:153-163 | the digit loop stops at the first non-digit and records the first digit and the digit count |
| Json.Parser.ReadFraction | 02_rjson/src/lib.rs:170-176 | a `.` is followed by the digits after it |
| Json.Parser.ReadExponent | 02_rjson/src/lib.rs:178-192 | an `e`/`E`, an optional sign and digits |
| Json.Parser.ReadDigits | 02_rjson/src/lib.rs:188-191 | the exponent digit loop stops at the first non-digit |
| Json.Parser.PartialReadGivenString | 02_rjson/src/lib.rs:206-224 | result and cursor agree with the keyword function |
| Json.Parser.PartialReadString | 02_rjson/src/lib.rs:238-298 | result and cursor agree with the string function |
| Json.Parser.StringTurn | 02_rjson/src/lib.rs:242-294 | one iteration of the string loop, as the turn function states |
| Json.Parser.ReadCodepoint | 02_rjson/src/lib.rs:265-279 | four hex digits, or None at the first bad or missing one |
| Json.Parser.PartialReadArray | 02_rjson/src/lib.rs:300-333 | result and cursor agree with the array function; so elements laid out in order read as exactly those elements (JsonContainers.ArrayOrder), and each error of the loop arises after any run of elements (JsonContainers.ArrayUnterminated, ArrayLeadingComma, ArrayCommaRefused, ArrayElementFails) |
| Json.Parser.ArrayTurn | 02_rjson/src/lib.rs:305-331 | one iteration of the array loop, as the turn function states |
| Json.Parser.PartialReadObject | 02_rjson/src/lib.rs:335-379 | result and cursor agree with the object function; so members laid out in order read as exactly those members (JsonContainers.ObjectOrder), and each error of the loop arises after any run of members (JsonContainers.ObjectUnterminated, ObjectTrailingComma, ObjectMissingColon, ObjectStrayChar, ObjectMemberFails) |
| Json.Parser.ObjectTurn | 02_rjson/src/lib.rs:339-377 | one iteration of the object loop, as the turn function states |
| Json.Read | 02_rjson/src/lib.rs:45-48 | `JsonObject::read` is the root read of the input |
| JsonProperties.EmptyInput | 02_rjson/src/lib.rs:110-137 | input that is empty or only whitespace from the cursor on reads as `Empty` |
| JsonProperties.RootRead | 02_rjson/src/lib.rs:110-138 | the root read: `Empty` on blank input, `InvalidChar` at the first character unless it is `{` or `[`, the inner error if the value fails, `InvalidChar` at the first character left over, else the value |
| JsonProperties.RootIsContainer | 02_rjson/src/lib.rs:113-115 | a successful `JsonObject::read` is an array or an object |
| JsonProperties.EscapeChar | 02_rjson/src/lib.rs:244-293 | a character written into a string literal is itself unless it is a quote, backslash or control character the reader rejects, which take a two-character escape |
| JsonProperties.Escaped | 02_rjson/src/lib.rs:244-293 | escaping at most doubles the length |
| JsonProperties.EscapeStep | 02_rjson/src/lib.rs:244-293 | one escaped character read by the loop appends its UTF-16 units |
| JsonProperties.EscapeInverse | 02_rjson/src/lib.rs:251-263 | every two-character escape reads back as the character escaped |
| JsonProperties.EscapedRead | 02_rjson/src/lib.rs:242-297 | the string loop reads an escaped text and its closing quote as the text's UTF-16 units |
| JsonProperties.CloseQuote | 02_rjson/src/lib.rs:285-288 | a quote ends the string with the units collected so far |
| JsonProperties.QuotedRoundTrip | 02_rjson/src/lib.rs:238-298 | reading the quoted, escaped form of any text gives that text (as UTF-16) and consumes all of it |
| JsonProperties.StringValue | 02_rjson/src/lib.rs:238-298 | the same through the value dispatcher |
| JsonProperties.PlainEscaped | 02_rjson/src/lib.rs:290-293 | text without quotes, backslashes or rejected control characters needs no escape |
| JsonProperties.Unterminated | 02_rjson/src/lib.rs:242-297 | plain text without a closing quote is `UnterminatedString` |
| JsonProperties.NeverEndedOnEscape | 02_rjson/src/lib.rs:245-247 | the `EndedOnEscape` error is never returned: a backslash at the end is caught by `next_no_skip` first |
| JsonProperties.LeadingZeroRejected | 02_rjson/src/lib.rs:165-168 | a first digit 0 followed by more integer digits is `InvalidNumber` |
| JsonProperties.PatternNumberRead | 02_rjson/src/lib.rs:141-204 | a token that matches the number syntax in full reads as that number, ending where the token ends |
| JsonProperties.ReadNumberAnchored | 02_rjson/src/lib.rs:194-197 | the number check with the regular expression anchored at both ends: every accepted token matches the syntax in full |
| JsonProperties.AnchoredAgrees | 02_rjson/src/lib.rs:141-204 | whenever the anchored check accepts, the parser as written gives the same result |
| JsonProperties.MissingIntegerDigit | 02_rjson/src/lib.rs:194 | "-.5" does not match the number syntax, yet the unanchored expression finds a match in it and `f64::from_str` accepts it |
| JsonProperties.UnanchoredNumber | 02_rjson/src/lib.rs:194-203 | the parser as written reads "-.5" as a number; the anchored check rejects it |
| JsonProperties.NoPatternEndsOnPoint | 02_rjson/src/lib.rs:194 | no token ending in `.` matches the syntax |
| JsonProperties.NotFoundEndsOnPoint | 02_rjson/src/lib.rs:194-197 | no suffix of a token ending in `.` matches either, so "4324." fails as `InvalidNumber` |
| JsonProperties.NumberValue | 02_rjson/src/lib.rs:119 | a digit or sign dispatches to the number reader |
| JsonProperties.ArrayValue | 02_rjson/src/lib.rs:118 | `[` dispatches to the array reader |
| JsonProperties.ObjectValue | 02_rjson/src/lib.rs:117 | `{` dispatches to the object reader |
| JsonContainers.ArrayPrefix | 02_rjson/src/lib.rs:300-331 | after elements laid out in order, the array loop continues from the end of the last one with exactly those elements collected, in order |
| JsonContainers.ArrayOrder | 02_rjson/src/lib.rs:300-333 | elements laid out in order, separated by whitespace and at most one comma, then `]`: the read is the array of exactly those elements, in that order, ending after the `]` and the whitespace after it |
| JsonContainers.ArrayUnterminated | 02_rjson/src/lib.rs:305-330 | input that ends after any run of elements, or after a comma that follows one, is `UnterminatedArray` |
| JsonContainers.ArrayLeadingComma | 02_rjson/src/lib.rs:308-311 | a comma before the first element is `InvalidChar(',', …)` at the comma |
| JsonContainers.ArrayCommaRefused | 02_rjson/src/lib.rs:312-314 | after one or more elements, a comma followed by another comma or by `]` is `InvalidChar` at that second character |
| JsonContainers.ArrayElementFails | 02_rjson/src/lib.rs:320-327 | after any run of elements, an element that fails to read fails the array with the element's own error |
| JsonContainers.GapSkipped | 02_rjson/src/lib.rs:364-371 | a run of whitespace and commas not followed by `}` is skipped by the object loop without changing the members |
| JsonContainers.ObjectPrefix | 02_rjson/src/lib.rs:339-378 | after members laid out in order, the object loop continues from the end of the last one with exactly those members collected, in order |
| JsonContainers.ObjectOrder | 02_rjson/src/lib.rs:335-379 | members `"key": value` laid out in order, separated by whitespace and by commas not followed by `}`, then `}`: the read is the object of exactly those key-value pairs, in that order, ending after the `}` and the whitespace after it |
| JsonContainers.ObjectUnterminated | 02_rjson/src/lib.rs:376 | input that ends after any run of members is `UnterminatedObject` |
| JsonContainers.ObjectTrailingComma | 02_rjson/src/lib.rs:364-368 | after any run of members, a comma followed by `}` is `InvalidChar('}', …)` at the brace |
| JsonContainers.ObjectMissingColon | 02_rjson/src/lib.rs:341-357 | after any run of members, a key followed by something other than `:` is `NonStringAsKey`; a space, tab, CR or LF right after the key makes the check skip all whitespace first |
| JsonContainers.ObjectStrayChar | 02_rjson/src/lib.rs:373-374 | after any run of members, a character that is not a quote, brace, comma or whitespace is `InvalidChar` at that character |
| JsonContainers.ObjectMemberFails | 02_rjson/src/lib.rs:343-350 | after any run of members, a key or a value that fails to read fails the object with its own error |
| JsonVectors.EmptyCases | 02_rjson/src/lib.rs:393-398 | "" and "    " read as `Empty` |
| JsonVectors.EmptyMixedWhitespace | 02_rjson/src/lib.rs:397 | spaces, newline and tabs read as `Empty` |
| JsonVectors.ZeroNumber | 02_rjson/src/lib.rs:402 | "0" is the number 0 |
| JsonVectors.ExponentNumber | 02_rjson/src/lib.rs:406 | "1.2e3" is a number token of five characters |
| JsonVectors.NegativeNumber | 02_rjson/src/lib.rs:408 | "-4324.6234" is a number token |
| JsonVectors.SpaceInFraction | 02_rjson/src/lib.rs:413 | "4324. 6234" is `InvalidNumber` |
| JsonVectors.LeadingZeros | 02_rjson/src/lib.rs:165-168 | "012" is `InvalidNumber` |
| JsonVectors.FalseLiteral | 02_rjson/src/lib.rs:418 | "false" is `Bool(false)` |
| JsonVectors.SpaceInFalse | 02_rjson/src/lib.rs:420 | "fa lse" is `InvalidChar(' ', 2)` |
| JsonVectors.TrueLiteral | 02_rjson/src/lib.rs:422 | "true" is `Bool(true)` |
| JsonVectors.NullLiteral | 02_rjson/src/lib.rs:423 | "null" is `Null` |
| JsonVectors.WrongTrue | 02_rjson/src/lib.rs:424 | "treadu" is `InvalidChar('e', 2)` |
| JsonVectors.ShortTrue | 02_rjson/src/lib.rs:425 | "tru" is `Empty` |
| JsonVectors.PlainString | 02_rjson/src/lib.rs:437 | "\"Json\"" is the string Json |
| JsonVectors.NewlineEscape | 02_rjson/src/lib.rs:436 | the escape `\n` is a newline |
| JsonVectors.RawNewline | 02_rjson/src/lib.rs:289 | a raw newline inside a string is `InvalidChar` at its position |
| JsonVectors.BadHex | 02_rjson/src/lib.rs:270-274 | a non-hex digit in `\u` is `InvalidCodepoint` |
| JsonVectors.OpenString | 02_rjson/src/lib.rs:297 | a string without its closing quote is `UnterminatedString` |
| JsonVectors.UnicodeEscape | 02_rjson/src/lib.rs:440 | the escape `\u00e4` is ä |
| JsonVectors.RawAstral | 02_rjson/src/lib.rs:441 | a raw 𝄞 becomes the surrogate pair D834 DD1E |
| JsonVectors.EscapedAstral | 02_rjson/src/lib.rs:442 | the escapes `\uD834\uDD1E` are the same pair |
| JsonVectors.EmptyArray | 02_rjson/src/lib.rs:452 | "[]" is the empty array |
| JsonVectors.TwoNumbers | 02_rjson/src/lib.rs:453-456 | "[1,2]" is the array of 1 and 2 |
| JsonVectors.TrailingComma | 02_rjson/src/lib.rs:457 | "[3,]" is `InvalidChar(']', 3)` |
| JsonVectors.DoubleComma | 02_rjson/src/lib.rs:458 | "[3, , 3.2]" is `InvalidChar(',', 4)` |
| JsonVectors.LeadingComma | 02_rjson/src/lib.rs:308-311 | "[,1]" is `InvalidChar(',', 1)` |
| JsonVectors.MissingComma | 02_rjson/src/lib.rs:305-331 | "[1 2]" is accepted as the array of 1 and 2: the loop does not require a comma between elements |
| JsonVectors.OpenArray | 02_rjson/src/lib.rs:330 | "[1 " is `UnterminatedArray` |
| JsonVectors.EmptyObject | 02_rjson/src/lib.rs:472 | "{}" is the empty object |
| JsonVectors.OneMember | 02_rjson/src/lib.rs:473-476 | a one-member object reads as that member |
| JsonVectors.MissingColon | 02_rjson/src/lib.rs:347-355 | a key not followed by `:` is `NonStringAsKey` |
| JsonVectors.NumberAsKey | 02_rjson/src/lib.rs:373-374 | a number where a key belongs is `InvalidChar` |
| JsonVectors.CommaBeforeBrace | 02_rjson/src/lib.rs:364-368 | a comma followed by `}` is `InvalidChar('}', ...)` |
| JsonVectors.OpenObject | 02_rjson/src/lib.rs:376 | "{ " is `UnterminatedObject` |
| JsonVectors.RootNumber | 02_rjson/src/lib.rs:113-115 | `JsonObject::read("1")` is `InvalidChar('1', 0)` |
| JsonVectors.RootTrailing | 02_rjson/src/lib.rs:129-133 | `JsonObject::read("[] x")` is `InvalidChar('x', 3)` |
| JsonLegacy.ReadValue | rjson/src/lib.rs:102-117 | a successful read consumes at least one character and is never an object |
| JsonLegacy.ExponentScan | rjson/src/lib.rs:146-152 | the exponent scan (an `e`/`E` and digits, no sign) moves forward within the input |
| JsonLegacy.NumberEnd | rjson/src/lib.rs:125-152 | a number token is at least one character long |
| JsonLegacy.NumberScan | rjson/src/lib.rs:126-152 | the sign, integer, fraction and exponent stages end where the token ends |
| JsonLegacy.ReadNumber | rjson/src/lib.rs:120-164 | the number is the scanned token, accepted iff the unanchored regular expression finds a match and `f64::from_str` accepts it; every failure is `InvalidNumber` |
| JsonLegacy.ReadGiven | rjson/src/lib.rs:166-184 | a keyword succeeds iff the input holds it, with `Empty` on short input and `InvalidChar` at the first mismatch |
| JsonLegacy.ReadString | rjson/src/lib.rs:198-259 | a string read consumes at least its two quotes; any text quoted with its quotes and backslashes escaped reads back as itself (JsonLegacyProperties.QuotedRoundTrip) |
| JsonLegacy.StringTurnAt | rjson/src/lib.rs:202-253 | one iteration of the string loop closes, fails or moves forward |
| JsonLegacy.StringLoop | rjson/src/lib.rs:202-258 | the string loop ends after its closing quote with a string |
| JsonLegacy.ReadArray | rjson/src/lib.rs:261-284 | an array read returns an array, ending at or before the input's end; what a flat array holds, in what order, and how it fails are stated by the `JsonLegacyContainers` lemmas |
| JsonLegacy.ArrayTurnAt | rjson/src/lib.rs:265-282 | one iteration of the array loop: on `]` it stops without moving, a comma or an element moves forward |
| JsonLegacy.ArrayLoop | rjson/src/lib.rs:265-283 | the array loop returns the elements read so far followed by the rest |
| JsonLegacy.Parser.constructor | rjson/src/lib.rs:54-59 | the parser holds the characters of the input with the cursor at 0 |
| JsonLegacy.Parser.SkipWhitespace | rjson/src/lib.rs:61-65 | the cursor moves past whitespace only |
| JsonLegacy.Parser.EndReached | rjson/src/lib.rs:67-69 | true iff the cursor is at or past the end |
| JsonLegacy.Parser.Peek | rjson/src/lib.rs:71-76 | the character under the cursor, or None at the end |
| JsonLegacy.Parser.Next | rjson/src/lib.rs:78-90 | moves one character and then past whitespace |
| JsonLegacy.Parser.NextNoSkip | rjson/src/lib.rs:92-98 | moves one character and returns the next one |
| JsonLegacy.Parser.PartialRead | rjson/src/lib.rs:102-117 | result and cursor agree with the value function (as written) |
| JsonLegacy.Parser.PartialReadNumber | rjson/src/lib.rs:120-164 | result and cursor agree with the number function |
| JsonLegacy.Parser.ReadFraction | rjson/src/lib.rs:139-144 | a `.` is followed by the digits after it |
| JsonLegacy.Parser.ReadExponent | rjson/src/lib.rs:147-152 | an `e`/`E` is followed by the digits after it |
| JsonLegacy.Parser.ReadDigits | rjson/src/lib.rs:133-136 | the integer digit loop stops at the first non-digit |
| JsonLegacy.Parser.ReadMarked | rjson/src/lib.rs:141-151 | the `next_no_skip` digit loops after a mark stop at the first non-digit |
| JsonLegacy.Parser.PartialReadGivenString | rjson/src/lib.rs:166-184 | result and cursor agree with the keyword function |
| JsonLegacy.Parser.PartialReadString | rjson/src/lib.rs:198-259 | result and cursor agree with the string function; so the quoted, escaped form of any text, raw control characters included, reads back as that text and consumes all of it (JsonLegacyProperties.QuotedRoundTrip) |
| JsonLegacy.Parser.StringTurn | rjson/src/lib.rs:202-253 | one iteration of the string loop, as the turn function states |
| JsonLegacy.Parser.ReadCodepoint | rjson/src/lib.rs:225-240 | four hex digits, or None at the first bad or missing one |
| JsonLegacy.Parser.PartialReadArray | rjson/src/lib.rs:261-284 | result and cursor agree with the array function (as written); so elements laid out in order read as exactly those elements (JsonLegacyContainers.ArrayOrder), and each error of the loop arises after any run of elements (JsonLegacyContainers.ArrayUnterminated, ArrayCommaRefused, ArrayElementFails) |
| JsonLegacy.Parser.ArrayTurn | rjson/src/lib.rs:265-282 | one iteration of the array loop, as the turn function states |
| JsonLegacy.Read | rjson/src/lib.rs:42-45 | `JsonObject::read` is a plain value read |
| JsonLegacyProperties.EmptyInput | rjson/src/lib.rs:102-116 | blank input is `Empty` |
| JsonLegacyProperties.NoObjects | rjson/src/lib.rs:105-112 | `{` is `InvalidChar`: this parser reads no objects |
| JsonLegacyProperties.NumberValue | rjson/src/lib.rs:107 | a digit or sign dispatches to the number reader |
| JsonLegacyProperties.ArrayValue | rjson/src/lib.rs:106 | `[` dispatches to the array reader |
| JsonLegacyProperties.PatternNumberRead | rjson/src/lib.rs:120-164 | a token that matches the number syntax in full reads as that number |
| JsonLegacyProperties.NotFoundEndsOnMark | rjson/src/lib.rs:154-157 | a token ending in `.`, `e` or `E` is rejected |
| JsonLegacyProperties.SignedExponent | rjson/src/lib.rs:146-157 | any number token (an optional sign, integer digits, an optional fraction) whose `e` or `E` is followed by a sign is `InvalidNumber`: the scan stops at the sign, leaving a token that ends in the mark |
| JsonLegacyProperties.SignedExponentValue | rjson/src/lib.rs:146-157 | "1e+5" is `InvalidNumber` |
| JsonLegacyProperties.LeadingZeroAccepted | rjson/src/lib.rs:132-154 | "01" is accepted: there is no leading-zero check and the unanchored expression matches "1" |
| JsonLegacyProperties.ZeroNumber | rjson/src/lib.rs:301 | "0" is the number 0 |
| JsonLegacyProperties.ExponentNumber | rjson/src/lib.rs:305 | "1.2e3" is a number |
| JsonLegacyProperties.NegativeNumber | rjson/src/lib.rs:307 | "-4324.6234" is a number |
| JsonLegacyProperties.SpaceInFraction | rjson/src/lib.rs:308-311 | "4324. 6234" is `InvalidNumber` |
| JsonLegacyProperties.FalseLiteral | rjson/src/lib.rs:316 | "false" is `Bool(false)` |
| JsonLegacyProperties.SpaceInFalse | rjson/src/lib.rs:318-321 | "fa lse" is `InvalidChar(' ', 2)` |
| JsonLegacyProperties.NullLiteral | rjson/src/lib.rs:324 | "null" is `Null` |
| JsonLegacyProperties.WrongTrue | rjson/src/lib.rs:325-328 | "treadu" is `InvalidChar('e', 2)` |
| JsonLegacyProperties.ShortTrue | rjson/src/lib.rs:329 | "tru" is `Empty` |
| JsonLegacyProperties.RawNewline | rjson/src/lib.rs:249-252 | a raw newline inside a string is kept |
| JsonLegacyProperties.NewlineEscape | rjson/src/lib.rs:340 | the escape `\n` is a newline |
| JsonLegacyProperties.OpenString | rjson/src/lib.rs:258 | a string without its closing quote is `UnterminatedString` |
| JsonLegacyProperties.EscapeChar | rjson/src/lib.rs:202-252 | a character written into a string literal is itself unless it is a quote or a backslash, which take a two-character escape; control characters stay raw |
| JsonLegacyProperties.EscapedRead | rjson/src/lib.rs:202-258 | the string loop reads an escaped text and its closing quote as the text's UTF-16 units |
| JsonLegacyProperties.QuotedRoundTrip | rjson/src/lib.rs:198-259 | reading the quoted, escaped form of any text gives that text (as UTF-16) and consumes all of it |
| JsonLegacyProperties.LoopStopsOnBracket | rjson/src/lib.rs:273 | the array loop as written returns with the cursor on the `]` |
| JsonLegacyProperties.LoopStopsAfterBracket | rjson/src/lib.rs:273 | with the `]` consumed, the loop returns with the cursor just past it |
| JsonLegacyProperties.ArrayValueStopsOnBracket | rjson/src/lib.rs:261-284 | every array read as written leaves the cursor on its `]` |
| JsonLegacyProperties.NestedArrayClosesOuter | rjson/src/lib.rs:273-279 | after a nested array the outer loop sees that array's `]` and closes at once |
| JsonLegacyProperties.ArrayValueEndsAfterBracket | rjson/src/lib.rs:261-284 | with the `]` consumed, every array read ends just past its `]` |
| JsonLegacyProperties.EmptyArray | rjson/src/lib.rs:359 | "[]" is the empty array |
| JsonLegacyProperties.TwoNumbers | rjson/src/lib.rs:360-363 | "[1,2]" is the array of 1 and 2 |
| JsonLegacyProperties.TrailingComma | rjson/src/lib.rs:364-367 | "[3,]" is `InvalidChar(']', 3)` |
| JsonLegacyProperties.DoubleComma | rjson/src/lib.rs:368-371 | "[3, , 3.2]" is `InvalidChar(',', 4)` |
| JsonLegacyProperties.LeadingComma | rjson/src/lib.rs:268-272 | "[,1]" is accepted as [1]: a leading comma is not checked |
| JsonLegacyProperties.OpenArray | rjson/src/lib.rs:281 | "[1 " is `UnterminatedArray` |
| JsonLegacyProperties.NestedAsWritten | rjson/src/lib.rs:261-284 | "[[],1]" reads as [[]]: the element after a nested array is lost |
| JsonLegacyProperties.NestedCorrected | rjson/src/lib.rs:261-284 | with the `]` consumed, "[[],1]" reads as [[], 1] |
| JsonLegacyProperties.RootTrailing | rjson/src/lib.rs:42-45 | trailing text after a value is ignored |
| JsonLegacyProperties.RootNumber | rjson/src/lib.rs:42-45 | a bare number is accepted at the root |
| JsonLegacyProperties.RootObject | rjson/src/lib.rs:105-112 | an object at the root is `InvalidChar` |
| JsonLegacyContainers.ArrayPrefix | rjson/src/lib.rs:261-283 | after elements laid out in order, the array loop continues from the end of the last one with exactly those elements collected, in order |
| JsonLegacyContainers.ArrayOrder | rjson/src/lib.rs:261-284 | elements laid out in order, separated by whitespace and at most one comma (one may also come first), then `]`: the read is the array of exactly those elements, in that order, ending on the `]` as written and after it with the `]` consumed |
| JsonLegacyContainers.ArrayUnterminated | rjson/src/lib.rs:265-281 | input that ends after any run of elements, or after a comma that follows them, is `UnterminatedArray` |
| JsonLegacyContainers.ArrayCommaRefused | rjson/src/lib.rs:268-271 | after any run of elements, or none, a comma followed by another comma or by `]` is `InvalidChar` at that second character |
| JsonLegacyContainers.ArrayElementFails | rjson/src/lib.rs:274-279 | after any run of elements, an element that fails to read fails the array with the element's own error |
| CutField.DigitRun | 04_rcut/src/field.rs:21 | the `\d+` groups of the field expression: the longest run of digits from a position |
| CutField.Decimal | 04_rcut/src/field.rs:27-35 | the decimal text of a number, without leading zeros, reads back as the number |
| CutField.ParseUsize | 04_rcut/src/field.rs:27-35 | `parse::<usize>` accepts only an optional `+` followed by digits, with a value that fits in 64 bits |
| CutField.ParseDecimal | 04_rcut/src/field.rs:27-35 | `parse::<usize>` reads the decimal text of any 64-bit number, with or without a `+` |
| CutField.Interval | 04_rcut/src/field.rs:55 | `(from..=to)` lists from, from+1, ..., to, and nothing when from > to |
| CutField.IntervalMembers | 04_rcut/src/field.rs:55 | a number is in `(from..=to)` iff it lies between the ends |
| CutField.Field.Values | 04_rcut/src/field.rs:44-56 | the positions of a range are exactly those from `from` (1 when open) to `to` (`max_fields` when open), in increasing order |
| CutField.Field.IsFromStart | 04_rcut/src/field.rs:58-60 | a range open at the start has the values 1 to its last position |
| CutField.Field.IsTillEnd | 04_rcut/src/field.rs:62-64 | a range open at the end has the values from its first position to `max_fields` |
| CutField.Single | 04_rcut/src/field.rs:66-71 | `single(n)` starts and ends at n whatever `max_fields` is |
| CutField.From | 04_rcut/src/field.rs:73-78 | `from(n)` starts at n and is open at the end only |
| CutField.To | 04_rcut/src/field.rs:80-85 | `to(n)` is open at the start only and ends at n |
| CutField.Range | 04_rcut/src/field.rs:87-92 | `range(a, b)` has neither end open, starts at a and ends at b |
| CutField.SingleValues | 04_rcut/src/field.rs:66-71 | `Field::single(n)` stands for n alone |
| CutField.OpenEnds | 04_rcut/src/field.rs:45-64 | `is_from_start` means the values start at 1, `is_till_end` that they run to `max_fields`; a closed range runs from `from` to `to` |
| CutField.ConstructorValues | 04_rcut/src/field.rs:73-92 | `from(a)` covers a..max, `to(b)` covers 1..b, `range(a, b)` covers a..b and nothing when a > b |
| CutField.Parse | 04_rcut/src/field.rs:20-42 | without a dash the whole piece must parse as a number, otherwise the `unwrap` panics; a piece that parses as a number is that single field |
| CutField.ParseSingle | 04_rcut/src/field.rs:26-27 | the decimal text of n parses as `single(n)` |
| CutField.ParseRange | 04_rcut/src/field.rs:28-38 | "a-b" parses as `range(a, b)` |
| CutField.ParseTo | 04_rcut/src/field.rs:28-38 | "-b" parses as a range open at the start |
| CutField.ParseFrom | 04_rcut/src/field.rs:28-38 | "a-" parses as a range open at the end |
| CutField.ParseDashed | 04_rcut/src/field.rs:28-38 | digits, a dash and digits: a missing or overflowing side is an open end |
| CutField.ParseDash | 04_rcut/src/field.rs:21-38 | the first match of the expression takes the digits before the first dash and the digits right after it |
| CutField.SpaceRun | 04_rcut/src/field.rs:96 | the `\s+` separator swallows a whole run of whitespace |
| CutField.SplitList | 04_rcut/src/field.rs:96-97 | splitting on commas and whitespace runs gives at least one piece, none containing a separator |
| CutField.SplitJoin | 04_rcut/src/field.rs:96-97 | splitting pieces joined with commas gives the pieces back |
| CutField.ParseAll | 04_rcut/src/field.rs:98 | parsing every piece succeeds iff each piece parses, with one field per piece in order |
| CutField.ParseRanges | 04_rcut/src/field.rs:95-99 | `parse_ranges` succeeds iff every piece of the split parses, and then gives one field per piece, the k-th field being the parse of the k-th piece |
| CutField.ParseKept | 04_rcut/src/field.rs:98 | the corrected list parse keeps only fields some piece parses to |
| CutField.KeptAgrees | 04_rcut/src/field.rs:95-99 | where no piece panics, the corrected parse equals the parse as written |
| CutLines.Insert | 04_rcut/src/lib.rs:84 | inserting into a sorted list keeps it sorted and adds the element |
| CutLines.Sort | 04_rcut/src/lib.rs:84 | `sort` gives a sorted permutation |
| CutLines.SortedUnique | 04_rcut/src/lib.rs:84 | two sorted permutations of each other are equal, so the sort result is determined |
| CutLines.SortSorted | 04_rcut/src/lib.rs:84 | sorting a sorted list changes nothing |
| CutLines.AllValuesMembers | 04_rcut/src/lib.rs:79-83 | a position is collected iff some range covers it |
| CutLines.AllValuesAppend | 04_rcut/src/lib.rs:81-83 | collecting two lists of ranges collects the values of each |
| CutLines.PermutedValues | 04_rcut/src/lib.rs:79-86 | reordering the ranges collects the same positions |
| CutLines.SplitOn | 04_rcut/src/lib.rs:43 | `split(delimiter)` gives at least one piece, none holding the delimiter, and the pieces joined with it are the input |
| CutLines.SplitOnJoin | 04_rcut/src/lib.rs:43-50 | splitting pieces joined by the delimiter gives them back |
| CutLines.OnePiece | 04_rcut/src/lib.rs:43-47 | the split has at most one piece iff the delimiter does not occur |
| CutLines.WordEnd | 04_rcut/src/lib.rs:42 | a word runs to the next whitespace or the end |
| CutLines.SplitWhitespace | 04_rcut/src/lib.rs:42 | `split_whitespace` gives non-empty words free of whitespace |
| CutLines.WordsCover | 04_rcut/src/lib.rs:42 | the words together are the input without its whitespace |
| CutLines.SkipSpaces | 04_rcut/src/lib.rs:42 | leading whitespace yields no word |
| CutLines.WordThenSpace | 04_rcut/src/lib.rs:42 | a word followed by whitespace is the first word |
| CutLines.SplitWhitespaceJoin | 04_rcut/src/lib.rs:42 | words joined by whitespace split back into those words |
| CutLines.Kept | 04_rcut/src/lib.rs:69-75 | every position that survives the filter is at most the number of pieces |
| CutLines.KeptCounts | 04_rcut/src/lib.rs:69-75 | the positions that survive the filter are exactly those at most the number of pieces, each as often as before |
| CutLines.Select | 04_rcut/src/lib.rs:66-76 | `execute` panics iff a position is 0 (`n - 1` underflows) |
| CutLines.Cut.Execute | 04_rcut/src/lib.rs:62-77 | `execute` panics iff 0 is among the positions computed for the pieces |
| CutLines.SelectKept | 04_rcut/src/lib.rs:66-76 | without a panic, the output has one piece per kept position and the k-th is the piece at the k-th kept position |
| CutLines.SelectInterval | 04_rcut/src/lib.rs:66-76 | a run of positions from a to b picks the slice of pieces from a to b |
| CutLines.SelectFront | 04_rcut/src/lib.rs:69-75 | a first position within range puts its piece first |
| CutLines.Cut.ComputeRanges | 04_rcut/src/lib.rs:79-86 | the loop and the sort return the values of all ranges, sorted, as a permutation |
| CutLines.PositionsSorted | 04_rcut/src/lib.rs:79-86 | the positions are sorted, are a permutation of the collected values, and contain n iff some range covers n |
| CutLines.OneRange | 04_rcut/src/lib.rs:79-86 | with one range the positions are that range's values |
| CutLines.RangeOrder | 04_rcut/src/lib.rs:32-86 | the order of the ranges does not change the output of `execute_line` |
| CutLines.RangeOrderSelects | 04_rcut/src/lib.rs:62-86 | the order of the ranges does not change the output of `execute` |
| CutLines.ZeroPanics | 04_rcut/src/lib.rs:71 | a range that starts at position 0 panics |
| CutLines.Suppressed | 04_rcut/src/lib.rs:40-47 | splitting on a delimiter, the line is dropped iff `suppress` is set and the delimiter does not occur |
| CutLines.FieldsJoined | 04_rcut/src/lib.rs:40-51 | a kept line is the selected fields joined with the delimiter |
| CutLines.BytesDecoded | 04_rcut/src/lib.rs:53-56 | the byte selection gives a line iff the selected bytes are valid UTF-8, and then that line encodes to them |
| CutLines.CharsAlwaysSome | 04_rcut/src/lib.rs:58-60 | the character selection always gives a line unless a position is 0 |
| CutLines.DefaultSelectsNothing | 04_rcut/src/lib.rs:22-30 | `Cut::default` has no ranges, so every line comes out empty |
| CutLines.Default | 04_rcut/src/lib.rs:22-30 | `Cut::default` selects no position whatever the number of pieces, splits fields on tabs and suppresses nothing |
| CutLines.Cut.ExecuteLine | 04_rcut/src/lib.rs:32-38 | a line is dropped only with `suppress` or in byte mode; in character mode it panics iff a position is 0, in byte mode iff a position is 0 among the positions for its UTF-8 bytes |
| CutLines.Cut.ExecuteStr | 04_rcut/src/lib.rs:40-51 | a line is dropped only with `suppress`; without it the line panics iff a position is 0 among the positions for its pieces |
| CutLines.Cut.ExecuteBytes | 04_rcut/src/lib.rs:53-56 | panics iff a position is 0 among those for the UTF-8 bytes; a line it returns has no more characters than bytes were selected |
| CutLines.Cut.ExecuteChars | 04_rcut/src/lib.rs:58-60 | panics iff a position is 0; otherwise it always gives a line |
| CutVectors.ListOne | 04_rcut/src/field.rs:105-109 | "1" is `[single(1)]` |
| CutVectors.ListTwo | 04_rcut/src/field.rs:111-115 | "1,3" is `[single(1), single(3)]` |
| CutVectors.ListWhitespace | 04_rcut/src/field.rs:117-129 | "1,3 4\t  5" is singles 1, 3, 4, 5 |
| CutVectors.ListRange | 04_rcut/src/field.rs:131-134 | "1-4" is `range(1, 4)` |
| CutVectors.ListTo | 04_rcut/src/field.rs:136-143 | "-4" is open at the start, ending at 4 |
| CutVectors.ListFrom | 04_rcut/src/field.rs:145-152 | "1-" starts at 1, open at the end |
| CutVectors.EmptyPiecePanics | 04_rcut/src/field.rs:26-27 | an empty piece panics: it has no dash and does not parse as a number |
| CutVectors.DoubleCommaPanics | 04_rcut/src/field.rs:95-99 | "1,,3" panics as written |
| CutVectors.DoubleCommaPieces | 04_rcut/src/field.rs:96-97 | "1,,3" splits into "1", "" and "3" |
| CutVectors.CommaSpacePanics | 04_rcut/src/field.rs:95-99 | "1, 3" panics as written: the comma and the space leave an empty piece between them |
| CutVectors.DoubleCommaKept | 04_rcut/src/field.rs:95-99 | the corrected parse reads "1,,3" as singles 1 and 3 |
| CutVectors.PlusSign | 04_rcut/src/field.rs:26-27 | "+5" is field 5 |
| CutVectors.CutSecondField | 04_rcut/src/lib.rs:93-101 | field 2 of "test\texpected\tfield" is "expected" |
| CutVectors.CutOnComma | 04_rcut/src/lib.rs:103-112 | with delimiter `,` field 2 is "expected" |
| CutVectors.CutFieldsInLineOrder | 04_rcut/src/lib.rs:114-123 | fields 2 and 1 come out as "test,expected": line order, not list order |
| CutVectors.CutOnWhitespace | 04_rcut/src/lib.rs:125-134 | with whitespace splitting, fields 1 and 2 are joined with a tab |
| CutVectors.CutSuppressed | 04_rcut/src/lib.rs:136-146 | a line without the delimiter is suppressed |
| CutVectors.CutBytes | 04_rcut/src/lib.rs:148-157 | bytes from 6 of "test with bytes" are "with bytes" |
| CutVectors.CutChars | 04_rcut/src/lib.rs:159-168 | characters 3 to 6 of "test with chars" are "st w" |
| CutVectors.CutZero | 04_rcut/src/lib.rs:45-71 | position 0 panics unless the line is suppressed first |
| CutVectors.CutInsideCharacter | 04_rcut/src/lib.rs:53-56 | selecting the first byte of "ä" gives no line: the byte alone is not UTF-8 |
| Utf8.EncodeChar | 04_rcut/src/lib.rs:54 | `str::bytes` gives one to four bytes per character |
| Utf8.Encode | 04_rcut/src/lib.rs:54 | a string has at least one and at most four bytes per character |
| Utf8.DecodeChar | 04_rcut/src/lib.rs:55 | `String::from_utf8` reads a character from one to four leading bytes |
| Utf8.Decode | 04_rcut/src/lib.rs:55 | `String::from_utf8` gives a string no longer than the bytes it reads |
| Utf8.DecodeEncodeChar | 04_rcut/src/lib.rs:54-55 | the bytes of a character decode to that character and no more, whatever follows |
| Utf8.DecodeEncode | 04_rcut/src/lib.rs:54-55 | the bytes of any string are valid UTF-8 and decode back to the string |
| Utf8.EncodeDecodeChar | 04_rcut/src/lib.rs:54-55 | a decoded character encodes back to exactly the bytes it was read from |
| Utf8.EncodeDecode | 04_rcut/src/lib.rs:54-55 | bytes that `from_utf8` accepts are the bytes of the string it returns |
| Utf8.EncodeAppend | 04_rcut/src/lib.rs:54 | the bytes of a concatenation are the concatenation of the bytes |
| Utf8.AsciiEncode | 04_rcut/src/lib.rs:54 | an ASCII string has one byte per character, equal to its code |
| Utf8.DecodeAppend | 01_rwc/src/main.rs:202 | two valid byte sequences joined decode to the two strings joined |
| Utf8.DecodeSplit | 01_rwc/src/main.rs:197-202 | a valid byte sequence cut after an ASCII byte gives two valid halves whose strings join to the whole |
| Utf8.DecodeFront | 01_rwc/src/main.rs:202 | the bytes decode iff what follows their first character decodes, to that character in front |
| WordCount.AddAssociative | 01_rwc/src/main.rs:148-160 | adding counts is associative and keeps the left operand's path |
| WordCount.AddNew | 01_rwc/src/main.rs:110-160 | a fresh `CountResult::new` adds nothing, on either side |
| WordCount.New | 01_rwc/src/main.rs:110-118 | `CountResult::new` keeps its path and is a right identity of `+` |
| WordCount.Add | 01_rwc/src/main.rs:148-160 | `+` keeps the left operand's path |
| WordCount.AddCommutes | 01_rwc/src/main.rs:151-158 | the counts add the same either way round; only the kept path differs |
| WordCount.Oks | 01_rwc/src/main.rs:46 | `filter_map(ok)` keeps at most the successful counts |
| WordCount.OksAppend | 01_rwc/src/main.rs:46 | filtering the successes of two lists filters each |
| WordCount.Fold | 01_rwc/src/main.rs:46-55 | the fold keeps the path of its starting value |
| WordCount.FoldAppend | 01_rwc/src/main.rs:46-55 | folding over two lists is folding over the first and then the second |
| WordCount.SumCounts | 01_rwc/src/main.rs:45-57 | the sum is always shown under the name "total" |
| WordCount.SumCountsAppend | 01_rwc/src/main.rs:45-57 | the sum of two lists of results is the sum of their sums |
| WordCount.SumCountsOk | 01_rwc/src/main.rs:45-57 | one successful count sums to itself, renamed "total" |
| WordCount.SumCountsErr | 01_rwc/src/main.rs:45-57 | a failed count adds nothing to the total |
| WordCount.ReadUntil | 01_rwc/src/main.rs:197-200 | `read_until` hands out a non-empty chunk that ends at the first newline or at the end of the input |
| WordCount.CountBuf | 01_rwc/src/main.rs:192-214 | the loop panics iff the input is not UTF-8; otherwise it counts the input's bytes, its `split_whitespace` words, its characters, and its lines (newlines, plus one for a last line without one) |
| WordCount.ChunkCounted | 01_rwc/src/main.rs:201-211 | one more chunk read keeps the loop's counts equal to those of the input read so far |
| WordCount.ChunkFails | 01_rwc/src/main.rs:202 | a chunk that is not UTF-8 makes the whole input invalid, so the panic matches the input |
| WordCount.ChunkStep | 01_rwc/src/main.rs:201-207 | a chunk appended after a line break adds its characters, its words and one line |
| WordCount.WordsAppend | 01_rwc/src/main.rs:207 | text ending in whitespace has the words of each part |
| WordCount.Columns | 01_rwc/src/main.rs:120-145 | `print` shows two to four columns, the path last |
| WordCount.PrintDefault | 01_rwc/src/main.rs:121-141 | with no flag the columns are lines, words and bytes, then the path |
| WordCount.CharsOverBytes | 01_rwc/src/main.rs:136-140 | with `-m` the character count is shown and `-c` makes no difference |
| WordCount.ColumnsSplit | 01_rwc/src/main.rs:142-144 | the columns joined with tabs split on tabs into exactly the columns, when the path has no tab |
| WordCount.Print | 01_rwc/src/main.rs:120-145 | `print` gives a line that splits on tabs into exactly its columns, when the path has no tab |
| RoundRobin.Advance | load_balancer/src/policies.rs:20-25 | the new index stays below the number of servers: one further, or back to the first |
| RoundRobin.Turn | load_balancer/src/policies.rs:9-25 | the index after any number of calls stays below the number of servers |
| RoundRobin.AdvanceIsSucc | load_balancer/src/policies.rs:20-25 | advancing is adding one modulo the number of servers |
| RoundRobin.TurnIsMod | load_balancer/src/policies.rs:9-25 | after k calls the index is k modulo the number of servers |
| RoundRobin.TurnPeriodic | load_balancer/src/policies.rs:16-29 | every `len` calls the policy is back where it started |
| RoundRobin.Policy.constructor | load_balancer/src/policies.rs:9-14 | `Policy::new` keeps the servers and starts at index 0 |
| RoundRobin.Policy.Next | load_balancer/src/policies.rs:16-29 | `next` returns the server at the current index, advances the index with wrap-around, and the k-th call is served by server k modulo the number of servers |
| RoundRobin.ThreeBackendsOrder | load_balancer/src/lib.rs:184-236 | three backends are served in the order 1, 2, 3, 1 |

## Left out

- File, `BufReader` and `BufWriter` handling in `compress`/`decompress`, the encoder and the decoder: sources and sinks are byte sequences. Errors of the file system itself (a file that cannot be opened or created, a failed read or write) are not modelled. The program returns most of them through `?`; the decompress loop and the decoder instead stop reading on a failed read (`Err(_) => break`). The only error the model keeps is the one the input's bytes decide: `read_to_string` refusing a file that is not UTF-8.
- `03_rcompress/src/main.rs`, `04_rcut/src/main.rs` and, in `01_rwc/src/main.rs`, `main`, `get_args`, `print_usage`, `print_count`, `count_file` and `count_stdin`: command-line parsing, `exit`, standard output and file-system metadata. The `counts.len() > 1` test in `main` that decides whether a total is printed belongs to that output and is left out with it.
- The tie-break of `std::collections::BinaryHeap` among equal counts is not specified by its documentation. The heap here pops the first element of least count in push order. That is one admissible order, and it reproduces the tree the "abacba" test expects. The sum, leaf and prefix-code properties hold for any order.
- `lib.rs` and `tree.rs` of `03_rcompress` hold two equal copies of the Huffman tree. They are modelled once, in `HuffmanCoding`.
- HuffmanEncoding.HuffmanEncoder.Encode: requires every source byte to be a symbol of the tree; the program panics otherwise (`encode(buf[0]).unwrap()` at 03_rcompress/src/encoder.rs:25). `compress` only encodes the bytes it counted, so it never reaches that panic.
- RoundRobin.Policy.Next: requires a non-empty server list; the program's `len() - 1` at load_balancer/src/policies.rs:20 underflows otherwise.
- BitManipulation.BitReader.Read: requires `out.Length < 256`, because the count of bits read is a `u8` in the program. Longer buffers, where that count would wrap, are not modelled.
- HeaderCodec.Write: requires a file size below 2^64, the width of the `u64` field. A `usize` is taken to be 64 bits wide.
- Compressor.CompressRoundTrip: holds for inputs with at least two and at most 255 distinct bytes and fewer than 2^32 bytes. The header truncates the entry count to a `u8` and each count to a `u32`, so beyond those bounds no round trip holds. With one distinct byte, see "Findings".
- The header's entry count and counts are truncated to their field widths: the little-endian encoding keeps only the low bytes. The `u64` counters of `wc` and the `usize` positions of `cut` are unbounded here, because they cannot overflow on inputs that fit in memory. `cut` does read field numbers as 64-bit values: a number that does not fit leaves that end of the range open.
- HuffmanDecoding.HuffmanDecoder.Decode: the bound `|out| <= filesize` is stated only for a positive file size. The loop writes a byte before it compares the count with the file size, so a file size of 0 still lets one byte through.
- `f64::from_str` in both JSON parsers: floating point is not modelled. A number is kept as its validated token, and the float syntax `f64::from_str` accepts is written out as `JsonText.FloatSyntax`.
- `String::from_utf16(...).unwrap()`: JSON strings are kept as sequences of UTF-16 code units, so the panic on an unpaired surrogate is not modelled.
- Regular expressions (the number pattern of both JSON parsers and the field pattern of `cut`) are written out as grammars. `\s`, `split_whitespace` and `is_whitespace` are the full Unicode White_Space class (`CutField.IsSpace`, `JsonText.IsWhitespace`). `\d` is modelled as the ASCII digits 0 to 9. For the JSON number pattern this changes nothing, because the scan collects only ASCII digits into the token. For the `cut` field pattern it does: Rust's `\d` also matches other Unicode decimal digits. For example, the program reads "٣-5" as `to(5)`: `٣` is captured but does not parse as a `usize`. The model finds no digit there, takes the piece for a single field, and panics.
- Two `println!` calls write diagnostics to standard output and are left out: "error key1" before the `NonStringAsKey` error in `02_rjson/src/lib.rs:353`, and "Shouldn't go there" before `UnterminatedString` in `rjson/src/lib.rs:256`. The errors they precede are modelled.
- `read_file` and the JSON validation tests that read files: file I/O.
- The `Mutex` around the round-robin index: the model is sequential. The ghost counter `calls` records how many requests have been served.
- `load_balancer`'s HTTP forwarding, health probing, configuration and binaries: network I/O and concurrency, with no logic of their own to state.
- WordCount.Columns: `print` builds its columns by pushing onto a vector. The model builds the same sequence as one expression.

## Findings

| source | as written | input that shows it | evidently intended | confidence | as-written member | corrected member |
|---|---|---|---|---|---|---|
| 03_rcompress/src/lib.rs:146-213 | every code of a one-leaf tree is empty, so nothing follows the header and decompression yields no bytes | "aa" | one bit per input byte, so that `decompress(compress(x)) == x` | not executed | Compressor.SingleSymbolLost | Compressor.FixedRoundTrip |
| 02_rjson/src/lib.rs:194 | the number pattern is not anchored at the start, so a token with no integer digit is accepted | "-.5" | reject a number whose integer part is missing, as the pattern's mandatory `(?:0|[1-9]\d*)` group means | not executed | JsonProperties.UnanchoredNumber | JsonProperties.AnchoredAgrees |
| rjson/src/lib.rs:273 | the array loop stops on `]` without consuming it, so a nested array closes its parent | "[[],1]" reads as `[[]]` | consume the `]`, giving `[[], 1]` | not executed | JsonLegacyProperties.NestedAsWritten | JsonLegacyProperties.NestedCorrected |
| 04_rcut/src/field.rs:95-99 | a comma next to another separator leaves an empty piece, and `parse::<usize>().unwrap()` panics on it | "1,,3" and "1, 3" | skip empty pieces, giving fields 1 and 3 | not executed | CutVectors.DoubleCommaPanics | CutField.KeptAgrees |
