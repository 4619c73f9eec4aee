# Huffman codec of `Huffman-coding/main.py`, modelled in Dafny

The script counts the characters of a text over the alphabet
`' abcdefghijklmnopqrstuvwxyz0123456789'`. From the counts it builds a
Huffman code by repeatedly merging the two lightest heap items. It encodes
the text into a bit array. It writes two files:

- a payload: a 4-byte big-endian bit count, then the bits packed MSB-first
  into bytes;
- a codebook: one line `repr(symbol):code` per symbol.

Reading both files back gives the code, its inverse, the bits and the
decoded text, which the script compares with the original.

The model follows the source module by module:

- `Alphabet` covers the alphabet filter, `read_file`'s truncation and
  `analyze_text`, with counts in place of frequencies.
- `HuffmanBuild` covers `build_huffman_code` as imperative Dafny. The heap
  is a local sequence; each loop step pops the two lightest items,
  prefixes their codes with `0` and `1`, and pushes the merged item.
- `Codebooks` defines the code predicates (binary, prefix-free, distinct)
  and `invert_codebook`.
- `Codec` covers `encode` and `decode` as loop methods. Each is proved
  equal to a recursive specification function. The specification
  functions get the round trip and the trailing-bits behaviour.
- `CodeLength` covers `average_code_length` over counts: the total is the
  length of the encoded text.
- `Payload` covers `save`/`load` of the bit payload: the length prefix,
  byte packing with zero padding, and truncation on load.
- `CodebookFile` covers the codebook lines: formatting, and parsing by
  strip, split at the first `:`, and literal reading.
- `Pipeline` covers the script at the bottom of the file, and the
  single-symbol defect listed under Findings.

## Model

| member | source | states |
|---|---|---|
| Alphabet.Filter | Huffman-coding/main.py:94 | the kept text has only alphabet characters and is no longer than the input |
| Alphabet.FilterCounts | Huffman-coding/main.py:94 | the kept text has each alphabet character as often as the input, and no other character |
| Alphabet.FilterConcat | Huffman-coding/main.py:94 | filtering a concatenation is the concatenation of the filtered parts, so kept characters stay in input order |
| Alphabet.FilterOne | Huffman-coding/main.py:94 | a single character is kept exactly when it is in the alphabet |
| Alphabet.AlphabetMembers | Huffman-coding/main.py:7 | a character is in the ranges space, `a`-`z`, `0`-`9` exactly when it occurs in the alphabet string |
| Alphabet.FilterKeepsAlphabetText | Huffman-coding/main.py:98 | filtering text already over the alphabet changes nothing, so the script's second filter is a no-op |
| Alphabet.FilterIdempotent | Huffman-coding/main.py:97-98 | filtering twice equals filtering once |
| Alphabet.ReadFilter | Huffman-coding/main.py:91-94 | the result is over the alphabet and is a prefix of the filtered content; a non-positive limit keeps everything; a positive limit keeps min(limit, length) characters |
| Alphabet.AnalyzeText | Huffman-coding/main.py:10-13 | the table has a key exactly for each alphabet character present in the text, with its number of occurrences; an empty text gives an empty table |
| Alphabet.FewerSymbolsThanChars | Huffman-coding/main.py:11 | the counted table has no more keys than the text has characters |
| HuffmanBuild.MinIndex | Huffman-coding/main.py:20-21 | the chosen item has the smallest weight in the heap and is the first of equal minima |
| HuffmanBuild.InitialHeap | Huffman-coding/main.py:17-18 | one entry per symbol; each is a single pair of a table symbol with the empty code, weighing that symbol's count; the heap's symbols are exactly the table's keys, and its total weight is the table's sum |
| HuffmanBuild.PopMin | Huffman-coding/main.py:20-21 | the popped item and the rest together are the heap (as a multiset); the item weighs no more than any entry of the heap or the rest; weights and symbols are split between them |
| HuffmanBuild.PrefixAll | Huffman-coding/main.py:22-25 | every pair's code gets the given bit in front, and its symbol and position are kept |
| HuffmanBuild.Merge | Huffman-coding/main.py:22-26 | the merged item weighs `lo + hi`, is again a valid item, and lists lo's pairs with `0` prepended, then hi's pairs with `1` prepended; its symbols are those of both |
| HuffmanBuild.MergeValid | Huffman-coding/main.py:22-26 | the pairs of two prefix-free items, with `0` and `1` prepended, form a prefix-free item of nonempty binary codes |
| HuffmanBuild.MergeSymbols | Huffman-coding/main.py:22-26 | the merged pairs carry lo's symbols, then hi's, in order |
| HuffmanBuild.MergeLightest | Huffman-coding/main.py:19-26 | the heap loses two items `lo` and `hi` and gains one, their merge, and keeps all its other items; `lo` weighs no more than any item, and `hi` no more than any item left; the heap shrinks by one and keeps its total weight and symbols |
| HuffmanBuild.ToCodebook | Huffman-coding/main.py:27 | the dictionary has a key for each symbol in the pairs; with distinct symbols each key maps to its own pair's code |
| HuffmanBuild.FinalCodebook | Huffman-coding/main.py:27 | the root's pairs give a codebook on exactly the input symbols; it is binary and prefix-free; one symbol gets `''`, and two or more get nonempty codes; every code is shorter than the number of symbols |
| HuffmanBuild.BuildHuffmanCode | Huffman-coding/main.py:16-28 | an empty table fails (`heap[0]` of an empty heap); otherwise the keys are exactly the input symbols, and every code is binary and prefix-free; a lone symbol gets `''`, and two or more get nonempty codes; no code has more than `n - 1` digits for `n` symbols (the ghost outputs, `n - 1` merges and a root weighing the total, restate the loop invariants and are not a separate guarantee) |
| Codebooks.InvertCodebook | Huffman-coding/main.py:32-33 | the inverse's keys are the codes; each symbol's code maps back to it, and each code maps to a symbol that has that code |
| Codec.CodeBits | Huffman-coding/main.py:58 | one bit per code character, set exactly for `1` |
| Codec.To01 | Huffman-coding/main.py:46 | the `0`/`1` string has one character per bit, `1` exactly for a set bit |
| Codec.To01CodeBits | Huffman-coding/main.py:58 | a binary code string turned into bits and back is unchanged |
| Codec.Encoding | Huffman-coding/main.py:54-59 | `encode`'s specification: the codes of the characters that have one, in text order, with the others skipped; its properties are the lemmas below |
| Codec.EncodingWithin | Huffman-coding/main.py:54-59 | with no code longer than `n` digits, a text of `k` characters encodes to at most `k * n` bits |
| Codec.NoCodesNoBits | Huffman-coding/main.py:56-58 | in `encode`'s specification `Encoding`, a text none of whose characters has a code encodes to no bits |
| Codec.EncodingConcat | Huffman-coding/main.py:54-59 | encoding a concatenation is the concatenation of the encodings |
| Codec.Encode | Huffman-coding/main.py:54-59 | the loop emits the codes of the characters that have one, in text order, and skips the others |
| Codec.DecodeFrom | Huffman-coding/main.py:43-51 | decoding never outputs more symbols than there are bits, and outputs only symbols of the decode map |
| Codec.Decoded | Huffman-coding/main.py:43-51 | the specification of `decode`: at most one symbol per bit, all of them values of the decode map |
| Codec.Decode | Huffman-coding/main.py:43-51 | the loop (add a bit to the buffer, emit and clear on a match) equals the recursive decoder started with an empty buffer |
| Codec.PrefixFreeDistinct | Huffman-coding/main.py:32-33 | a prefix-free codebook has distinct codes, so inverting it loses nothing |
| Codec.DecodeOneCode | Huffman-coding/main.py:46-50 | with a prefix-free code, the buffer matches no key until a whole code has been read; then it emits that symbol and starts empty |
| Codec.DecodeEncodingThen | Huffman-coding/main.py:43-59 | decoding the encoding of a text followed by more bits gives the text, then the decoding of those bits |
| Codec.RoundTrip | Huffman-coding/main.py:116 | for a prefix-free binary codebook with nonempty codes that covers the text, decode(encode(text)) returns the text |
| Codec.TrailingBitsDropped | Huffman-coding/main.py:46-51 | bits left in the buffer that never complete a code are dropped without output |
| CodeLength.TotalCodeLength | Huffman-coding/main.py:36-37 | `average_code_length` over counts: the sum bounds each symbol's count times code length |
| CodeLength.TotalCodeLengthRemove | Huffman-coding/main.py:37 | the sum of count times code length may be taken over the symbols in any order |
| CodeLength.EncodedLength | Huffman-coding/main.py:37 | the encoded text has exactly the sum, over the text's symbols, of count times code length bits |
| Payload.ToBigEndian | Huffman-coding/main.py:65 | `to_bytes` writes exactly `k` bytes, which `from_bytes` reads back as `n` |
| Payload.FromBigEndian | Huffman-coding/main.py:76 | `from_bytes` of `k` bytes is below 256^k |
| Payload.BitsOfValueOf | Huffman-coding/main.py:66 | a group of bits read as a number and written back in as many bits is unchanged |
| Payload.Pack | Huffman-coding/main.py:66 | `tobytes` gives ceil(n / 8) bytes |
| Payload.Unpack | Huffman-coding/main.py:78 | `frombytes` gives eight bits per byte |
| Payload.UnpackPack | Huffman-coding/main.py:66-78 | unpacking the packed bits gives the bits, then the zero padding of the last byte |
| Payload.SavePayload | Huffman-coding/main.py:64-66 | fails exactly when the bit count does not fit in 4 bytes; otherwise writes 4 + ceil(n / 8) bytes |
| Payload.LoadPayload | Huffman-coding/main.py:74-79 | returns no more bits than the bytes hold, nor than the length prefix says |
| Payload.PayloadRoundTrip | Huffman-coding/main.py:62-79 | for fewer than 2^32 bits, saving succeeds and loading gives back exactly the bits, without the padding |
| CodebookFile.FormatLine | Huffman-coding/main.py:70 | a written line is five characters longer than its code and, for an alphabet symbol and a binary code, ends with its only newline |
| CodebookFile.FormatCodebook | Huffman-coding/main.py:68-70 | writes one line `'c':code` plus a newline per symbol, in the given order |
| CodebookFile.StripLeft | Huffman-coding/main.py:84 | the result is a suffix of the input that does not start with whitespace, and everything removed is whitespace |
| CodebookFile.StripRight | Huffman-coding/main.py:84 | the result is a prefix of the input that does not end with whitespace, and everything removed is whitespace |
| CodebookFile.Strip | Huffman-coding/main.py:84 | the result neither starts nor ends with whitespace; an all-whitespace line strips to nothing; a line with no whitespace at either end is unchanged |
| CodebookFile.FirstColon | Huffman-coding/main.py:84 | finds the first `:`, or reports that there is none (the unpacking error) |
| CodebookFile.LiteralChar | Huffman-coding/main.py:85 | accepts exactly a quoted alphabet character and returns that character |
| CodebookFile.ParseLine | Huffman-coding/main.py:84-85 | a stripped line without `:` fails with the unpacking error; a line succeeds exactly when it starts with a quoted alphabet symbol and `:`, and then it is that symbol's `repr`, `:`, and the code returned; every other line with a `:` fails on the symbol |
| CodebookFile.ParseLines | Huffman-coding/main.py:81-86 | a loaded codebook has only alphabet keys and no more entries than there are lines |
| CodebookFile.LoadCodebook | Huffman-coding/main.py:81-86 | the line loop, with its early exit on a bad line, equals `ParseLines` |
| CodebookFile.FailureStops | Huffman-coding/main.py:83-85 | once a prefix of the lines fails, the whole file fails with the same error |
| CodebookFile.ParseFormatLine | Huffman-coding/main.py:70-85 | a written line reads back as its symbol and code |
| CodebookFile.PrefixRoundTrip | Huffman-coding/main.py:68-86 | reading the lines written for some of the symbols gives the codebook restricted to them |
| CodebookFile.CodebookRoundTrip | Huffman-coding/main.py:68-86 | writing an alphabet codebook with binary codes in any order that lists each key, then reading it, gives the same codebook |
| Pipeline.SingleSymbolLost | Huffman-coding/main.py:27 | a text repeating one alphabet character has one key; with the code `''` it encodes to no bits and decodes to `""`, not the text |
| Pipeline.OneBitPerChar | Huffman-coding/main.py:54-59 | with nonempty codes covering the text, each character takes at least one bit |
| Pipeline.ShortTextFits | Huffman-coding/main.py:54-59 | with codes no longer than the number of distinct symbols, a text of `n` characters encodes to at most `n * n` bits |
| Pipeline.BuildHuffmanCodeCorrected | Huffman-coding/main.py:16-28 | like `build_huffman_code`, but every code is nonempty: binary, prefix-free, on exactly the input symbols, and no longer than the number of symbols; a lone symbol gets `'0'`; an empty table still fails |
| Pipeline.KeyOrder | Huffman-coding/main.py:69 | lists only codebook keys, and lists exactly the keys among the given characters |
| Pipeline.FilesRestore | Huffman-coding/main.py:100-116 | for a prefix-free binary codebook with nonempty codes over the alphabet, and an encoding under 2^32 bits, both files read back what was written, and the read-back code decodes the read-back bits to the text |
| Pipeline.SaveAndRestore | Huffman-coding/main.py:103-106 | with a prefix-free binary code of nonempty codes over the alphabet that covers the text: it stops exactly when the encoding has 2^32 bits or more, reporting that length; otherwise the text comes back unchanged |
| Pipeline.CompressAndRestore | Huffman-coding/main.py:100-116 | for alphabet text, with the corrected code (keys exactly the text's symbols, binary, prefix-free, nonempty): the empty text fails; a text whose encoding is under 2^32 bits comes back unchanged, and so does every text of `n` characters with `n * n < 2^32`, whatever code was built; no code is longer than the number of distinct symbols; it stops as too long exactly when the encoding has 2^32 bits or more, reporting the encoding's length and at least one bit per character |

## Left out

- File I/O (`open`, `read`, `write`), `.lower()` in `read_file` and the splitting of the codebook file into lines. The model starts from the content string and the list of lines.
- `entropy`, coding efficiency and the printed report (lines 40-41, 108-119): floating point and output only.
- Alphabet.AnalyzeText: returns the counts, not the counts divided by their total (floating point). The division keeps the keys, but float sums of merged items can round away from a tie that the counts have: counts 1, 2 and 3 over a total of 10 give `0.1 + 0.2 > 0.3`, while `1 + 2 == 3`. So ties between a merged item and a leaf may resolve differently from the source.
- CodeLength.TotalCodeLength: is `average_code_length` times the total count, because the weights are counts.
- CodeLength.Cost: a symbol with no code costs 0, where line 37 raises `KeyError`; every table the script passes has its codebook built from the same keys.
- Codec.CodeBits: a code character other than `0` or `1` becomes a 0 bit, where `bitarray.extend` raises `ValueError`; every codebook built here is binary (`AllBinary`).
- HuffmanBuild.BuildHuffmanCode: on equal weights, `heapq` compares the lists' further elements, and the model takes the first minimum instead. So for ties the codes may differ from the source's. Optimality of the code lengths is not stated.
- HuffmanBuild.PrefixAll: the source rewrites the pairs in place, shared between `lo` and the pushed list. The model builds new pairs with the same contents.
- Codebooks.InvertCodebook: requires distinct codes. With duplicate codes the source keeps the last symbol in dictionary order, which a map does not have. The codebooks built here are prefix-free and so distinct (`Codec.PrefixFreeDistinct`).
- Pipeline.KeyOrder: lists keys in alphabet order. The source writes them in the dictionary's insertion order, which a map does not record. `CodebookFile.CodebookRoundTrip` holds for every order.
- CodebookFile.FormatLine: writes the symbol between single quotes, which is `repr` only for alphabet symbols; `repr` escapes a newline, a backslash or a quote differently. Every caller passes alphabet keys, and `ParseFormatLine` states the round trip only for them.
- CodebookFile.LiteralChar: accepts only a single-quoted alphabet character. That is what `repr` writes for this alphabet; other Python literals are not modelled.
- CodebookFile.StripLeft: whitespace is the ASCII set `str.strip` removes (space, tab, newline, carriage return, vertical tab, form feed, 0x1C-0x1F). Non-ASCII whitespace such as U+0085 and U+00A0 is not modelled; the same holds for `CodebookFile.StripRight`.
- The bit array's 8-bit machine bytes are modelled as integers 0..255 and its bits as booleans.
- The other scripts in the repository are not part of this model.

## Findings

| source | as written | input that shows it | evidently intended | confidence | as-written member | corrected member |
|---|---|---|---|---|---|---|
| Huffman-coding/main.py:17-27 | with one distinct symbol, no merge runs, so the symbol keeps the code `''`; `encode` emits no bits and `decode` returns `''` | the text `"aaa"` restores as `""` at line 106; the script then stops with `ZeroDivisionError` at line 110, because the average code length is 0, before the comparison at line 116 | a one-symbol text gets a one-bit code such as `'0'` and round-trips | high, not executed | Pipeline.SingleSymbolLost | Pipeline.BuildHuffmanCodeCorrected |
