# A verified model of the GABAC core

GABAC is a compressor for streams of unsigned integers. It first applies a reversible
sequence transform, then binarizes each symbol and codes the bins with a context-adaptive
binary arithmetic coder. This project models that pipeline in Dafny and proves its laws.

- **Buffers** (`Bytes`, `DataBlocks`, `DataStreams`): `DataBlock`, `DataStream` and
  `BlockStepper` become classes over a byte sequence. A word size of 1, 2, 4 or 8 bytes sets
  how many bytes make up one element. A ghost word view reads the bytes as little-endian values,
  as on a little-endian host.
- **Transforms**: each forward/inverse pair is an in-place method over these buffers, proved
  against a pure specification on sequences. Round-trip lemmas tie each forward pass to its
  inverse.
  - `DiffCoding`: wrapping differences.
  - `EqualityCoding`: a flag plus a shifted raw value.
  - `RleCoding`: guard-split run lengths.
  - `MatchCoding`: LZ-style pointers and lengths.
  - `LutTransform` with `PairSort`: order-0/1/2 lookup tables ranked by frequency.
- **Transform table** (`Constants`): the transform arities, the binarization bounds and
  `fixWordSizes`.
- **Bit streams** (`BitStreams`, `BitInputStreams`, `BitSeqs`): the MSB-first bit writer and
  reader.
- **Length-prefixed byte stream** (`BufferOutputStreams`).
- **Binarizations**: BI, TU, EG, SEG, TEG and STEG.
  - `Binarizations` holds them as pure bin-string producers and consumers.
  - `Writers` and `Readers` are the coder-facing classes.
  - The arithmetic coder is an abstract bin channel. Each bin carries its value and either the
    equiprobable mode or a context index.
- **Codec loop** (`ContextSelector`, `Symbols`, `Streams`, `Encoding`, `Decoding`): context
  selection in `gabac::encode` and `gabac::decode`, from the previous one or two symbols.
  - The offsets come from the context tables, which are not part of this model. A layout record
    supplies them as a parameter.
- **Search tools**:
  - The gabacify helpers (`Helpers`): little-endian packing between bytes and symbols, and the
    symbol minimum and maximum.
  - The exhaustive configuration search of gabacify's analysis (`AnalysisSpec`, `Analysis`,
    `AnalysisProperties`). The codec is an oracle record of functions here.
  - The Python configuration generator (`Configs`, `ConfigProperties`, `ConfGen`) and the
    simulated annealer (`Annealing`). Their random draws and the acceptance test are injected
    inputs.

## Model

| member | source | states |
|---|---|---|
| DataBlocks.WordsOfIndex | source/gabac/data_block.h:120-133 | the word view of the bytes has one entry per whole word, and entry i is the zero-extended little-endian value of bytes i*ws .. i*ws+ws |
| DataBlocks.WordsOfSetWord | source/gabac/data_block.h:135-152 | overwriting the bytes of word i with the truncated value changes exactly word i of the view, to the value modulo 256^ws |
| DataBlocks.WordsOfEncodeWords | source/gabac/data_block.h:170-188 | the word view of the bytes written for a sequence is the sequence with every element truncated to the word size |
| DataBlocks.EncodeWordsOfWordsOf | source/gabac/data_block.h:120-133 | re-encoding the word view of an aligned byte vector gives the same bytes back (for word sizes 1, 2, 4 and 8) |
| DataBlocks.WordsBelow | source/gabac/data_block.h:120-133 | every word read from a block is below 256^ws |
| DataBlocks.GrowWords | source/gabac/data_block.cpp:39-41 | growing the bytes with zeros keeps every whole word and, from an aligned length, adds zero words |
| DataBlocks.ShrinkWords | source/gabac/data_block.cpp:39-41 | cutting the bytes to n words keeps the first n words |
| DataBlocks.DataBlock.constructor | source/gabac/data_block.cpp:55-56 | the word size is wsize modulo 256 (the uint8_t cast) and the data is size*wsize zero bytes, so size zero words |
| DataBlocks.DataBlock.Size | source/gabac/data_block.cpp:23-25 | the number of whole words: n*wordSize <= |data| < (n+1)*wordSize, and n is the length of the word view |
| DataBlocks.DataBlock.Empty | source/gabac/data_block.cpp:43-45 | true exactly when there are no bytes |
| DataBlocks.DataBlock.Get | source/gabac/data_block.h:120-133 | word i of the view, below 256^ws; for a known word size its little-endian bytes are the bytes at i*ws |
| DataBlocks.DataBlock.Set | source/gabac/data_block.h:135-152 | word i becomes v truncated to the word size; the word size, the length and every byte outside word i are unchanged |
| DataBlocks.DataBlock.PushBack | source/gabac/data_block.h:170-188 | the bytes of v's low ws bytes are appended; an aligned block gains exactly the word v truncated |
| DataBlocks.DataBlock.Resize | source/gabac/data_block.cpp:39-41 | the byte length becomes n*wordSize; words kept are unchanged, new words are zero, a shrink keeps the first n words |
| DataBlocks.DataBlock.Clear | source/gabac/data_block.cpp:35-37 | no bytes remain; the word size is kept |
| DataBlocks.DataBlock.SetWordSize | source/gabac/data_block.h:206-211 | the word size is set and the bytes kept; the result is false (the runtime_error) exactly when the length is not a multiple of the new size |
| DataBlocks.DataBlock.Assign | source/gabac/data_block.h:14-19 | the implicit copy assignment: word size and bytes become those of the other block |
| DataBlocks.DataBlock.Swap | source/gabac/data_block.cpp:47-52 | the two blocks exchange word sizes and bytes; swapping a block with itself changes nothing |
| DataBlocks.DataBlock.Equals | source/gabac/data_block.cpp:9-11 | true exactly when word sizes and bytes are equal; equal blocks have equal word views |
| DataBlocks.DataBlock.AssignList | source/gabac/data_block.cpp:13-21 | the block holds as many words as the list, word i being list[i] truncated to the word size |
| DataBlocks.DataBlock.Begin | source/gabac/data_block.h:154-160 | an iterator on this block at position 0 |
| DataBlocks.DataBlock.End | source/gabac/data_block.h:162-168 | an iterator on this block at position size() |
| DataBlocks.DataBlock.Insert | source/gabac/data_block.h:294-303 | no change unless pos is on this block and start and end are on one block; otherwise the words [start, end) of that block go in before word pos and nothing else moves |
| DataBlocks.InsertAsWritten | source/gabac/data_block.h:294-303 | the insertion as written copies to - from BYTES, at byte offset pos |
| DataBlocks.InsertAsWrittenSplitsWords | source/gabac/data_block.h:270-272 | with 2-byte words the insertion as written leaves an odd number of bytes, where the word insertion inserts a whole word |
| DataBlocks.InsertWords | source/gabac/data_block.h:294-303 | the word insertion grows the block by (to - from) words |
| DataBlocks.InsertWordsSpec | source/gabac/data_block.h:294-303 | the word view after the insertion is the words before pos, words [from, to) of the source, then the words from pos on |
| DataBlocks.WordsOfSuffix | source/gabac/data_block.h:294-303 | dropping the bytes of the first n words drops exactly those words from the word view |
| DataBlocks.WordsOfSlice | source/gabac/data_block.h:294-303 | the bytes of words [from, to) read as exactly those words |
| DataBlocks.DataBlock.GetReader | source/gabac/data_block.cpp:5-7 | a fresh stepper over this block from byte 0 to the end of the data, with the block's word size |
| DataBlocks.BlockStepper.IsValid | source/gabac/block_stepper.h:43-45 | true exactly when a word is left, i.e. curr has not reached end |
| DataBlocks.BlockStepper.Inc | source/gabac/block_stepper.h:47-49 | curr advances by exactly wordSize bytes, one word |
| DataBlocks.BlockStepper.Get | source/gabac/block_stepper.h:51-65 | the current word of the block's view |
| DataBlocks.BlockStepper.Set | source/gabac/block_stepper.h:67-84 | the current word becomes v truncated; the word size and the length of the block are unchanged |
| DataBlocks.StepperRemaining | source/gabac/block_stepper.h:13-17 | the words a stepper has still to pass are (end-curr)/wordSize |
| DataBlocks.BlockStepper.constructor | source/gabac/block_stepper.h:13-17 | a stepper over the given block, byte range and word size |
| DataStreams.Width | source/gabac/data_stream.h:33-47 | the bytes get and set touch: 1, 2 or 4 for those word sizes, 8 for 8 and every other size |
| DataStreams.StreamGet | source/gabac/data_stream.h:49-70 | an error exactly when the index is not below the byte count; otherwise a value below 256^Width |
| DataStreams.StreamSet | source/gabac/data_stream.h:28-48 | an error exactly when the index is not below the byte count; otherwise the length is unchanged |
| DataStreams.StreamGetAfterSet | source/gabac/data_stream.h:28-70 | reading back an element just set gives the value modulo 256^Width |
| DataStreams.StreamSetFrame | source/gabac/data_stream.h:28-48 | set leaves every byte outside the addressed element unchanged |
| DataStreams.IndexCheckAdmitsOutOfBounds | source/gabac/data_stream.h:50-53 | with word size 2 and two bytes, index 1 passes the byte-count check yet addresses bytes 2 and 3, past the end |
| DataStreams.StreamGetChecked | source/gabac/data_stream.h:49-70 | the check against the element count: an error exactly when index >= |data|/ws, and otherwise the in-bounds read StreamGet makes |
| DataStreams.CheckedIndexInBounds | source/gabac/data_stream.h:49-53 | every index the element-count check admits addresses bytes inside the data |
| DataStreams.DataStream.constructor | source/gabac/data_stream.h:261-262 | word size wsize modulo 256 and size*wsize zero bytes |
| DataStreams.DataStream.Size | source/gabac/data_stream.h:185-187 | the number of whole elements in the byte count |
| DataStreams.DataStream.Get | source/gabac/data_stream.h:49-70 | an error exactly when the index is not below the byte count |
| DataStreams.DataStream.Set | source/gabac/data_stream.h:28-48 | an error, with the data unchanged, exactly when the index is not below the byte count; otherwise the bytes of StreamSet |
| DataStreams.DataStream.Resize | source/gabac/data_stream.h:201-203 | the byte length becomes n*wordSize, cutting the bytes or appending zeros |
| DataStreams.DataStream.PushBack | source/gabac/data_stream.h:225-228 | the data grows by one element's bytes, the whole elements before are kept and the last element reads back as the value truncated to its width |
| DataStreams.DataStream.Clear | source/gabac/data_stream.h:197-199 | no bytes remain; the word size is kept |
| DataStreams.DataStream.Swap | source/gabac/data_stream.h:246-251 | the two streams exchange word sizes and bytes |
| DataStreams.DataStream.Equals | source/gabac/data_stream.h:16-18 | true exactly when word sizes and bytes are equal |
| Constants.AcceptedRanges | source/gabac/constants.cpp:22-101 | sbCheck accepts exactly [0, 2^p-1] for BI, [0, p] for TU, [0, INT32_MAX] for EG, [INT32_MIN/2, INT32_MAX/2] for SEG, [0, INT32_MAX+p] for TEG and [INT32_MIN/2-p, INT32_MAX/2+p] for STEG |
| Constants.UnsignedAcceptsOnlyNatural | source/gabac/constants.h:86-88 | a range an unsigned binarization accepts has no negative minimum |
| Constants.SbCheckNarrower | source/gabac/constants.h:86-88 | if sbCheck accepts a range it accepts every range inside it |
| Constants.StreamCounts | source/gabac/constants.cpp:105-248 | every transformation has as many stream names as word sizes: 1, 2, 3, 2, 3 and 1 for none, equality, match, rle, lut and diff |
| Constants.FixWordSizes | source/gabac/constants.cpp:252-256 | same length; entry i is the word size where the list holds 0 and the list's entry otherwise |
| Constants.FixWordSizesIdempotent | source/gabac/constants.cpp:252-256 | with a nonzero word size no 0 is left, so fixing a second time changes nothing |
| DiffCoding.PrefixSumOfForward | source/gabac/diff_coding.cpp:91-98 | summing the first i differences of the forward output gives back word i-1 (0 for i = 0), modulo the word modulus |
| DiffCoding.InverseOfForward | source/gabac/diff_coding.cpp:85-117 | the inverse undoes the forward coding for every sequence of words |
| DiffCoding.ForwardOfInverse | source/gabac/diff_coding.cpp:85-117 | the forward coding undoes the inverse, so the two are mutually inverse bijections on the words |
| DiffCoding.BlockRoundTrip | source/gabac/diff_coding.cpp:85-117 | for the word view of any byte vector and any word size, inverse after forward is the identity |
| DiffCoding.ForwardWord | source/gabac/diff_coding.cpp:94-96 | the word stored at position k, symbol - previousSymbol wrapped to 64 bits and truncated to the word size, is entry k of the forward specification |
| DiffCoding.InverseWord | source/gabac/diff_coding.cpp:112-114 | previousSymbol + symbol wrapped to 64 bits and truncated is entry k of the inverse specification, and the new previousSymbol is the running sum modulo the word modulus |
| DiffCoding.TransformDiffCoding | source/gabac/diff_coding.cpp:85-100 | in place, same word size and length; the words become each word minus the previous one (0 before the first), modulo the word modulus |
| DiffCoding.ForwardStep | source/gabac/diff_coding.cpp:93-99 | one pass of the loop: the words before the stepper are coded, those from it on are the originals, and previousSymbol is the last original word passed |
| DiffCoding.InverseTransformDiffCoding | source/gabac/diff_coding.cpp:103-117 | in place, same word size and length; word i becomes the sum of the first i+1 words, modulo the word modulus |
| DiffCoding.InverseStep | source/gabac/diff_coding.cpp:111-116 | one pass of the loop: the words before the stepper are decoded and previousSymbol is congruent to the running sum |
| EqualityCoding.EqualityForward | source/gabac/equality_coding.cpp:105-163 | one flag per input symbol and at most one raw value per symbol (the reference definition of the forward transform) |
| EqualityCoding.EqualityInverse | source/gabac/equality_coding.cpp:206-220 | one output symbol per flag, given at least as many raw values as zero flags (the reference definition of the inverse) |
| EqualityCoding.ForwardShape | source/gabac/equality_coding.cpp:116-125 | the forward flags are all 0 or 1 and there is exactly one raw value per zero flag |
| EqualityCoding.ForwardRawsBelow | source/gabac/equality_coding.cpp:120-124 | raw values never exceed the symbols they come from, so they fit any bound the symbols fit |
| EqualityCoding.InverseOfForward | source/gabac/equality_coding.cpp:105-237 | for symbols that fit the word size, decoding the flags and raw values of the forward transform gives back the symbols |
| EqualityCoding.ForwardOfInverse | source/gabac/equality_coding.cpp:105-237 | for raw values below the word maximum, one per zero flag, re-encoding the decoded symbols gives the same raw values and the flags normalised to 0/1 |
| EqualityCoding.ForwardSingleSymbol | tests/gabac/equality_coding_test.cpp:33-42 | the single symbol 42 codes to raw value 41 and flag 0 |
| EqualityCoding.InverseVectors | tests/gabac/equality_coding_test.cpp:76-108 | flag 1 alone decodes to 0; no flags decode to nothing; raw 41 decodes to 42; raw 2^64-42 decodes to 2^64-41 |
| EqualityCoding.InverseRandomSequence | tests/gabac/equality_coding_test.cpp:110-130 | the seven-flag sequence with values near 2^64 decodes to the expected symbols |
| EqualityCoding.ForwardProgressStep | source/gabac/equality_coding.cpp:145-159 | one symbol of the loop either appends flag 1 or appends flag 0 and its raw value, keeping the processed prefix equal to the forward transform of that prefix |
| EqualityCoding.ForwardProgressDone | source/gabac/equality_coding.cpp:109-131 | when the loop has passed every symbol its two outputs are exactly the forward transform |
| EqualityCoding.TransformEqualityCoding0 | source/gabac/equality_coding.cpp:105-132 | for word size 1, in place: the values become the raw values and the flag block the flags of the forward transform, both with word size 1 |
| EqualityCoding.Coding0Step | source/gabac/equality_coding.cpp:114-128 | one pass of the word-size-1 loop: the flag written over the symbol and the raw value pushed extend the forward transform by one symbol, the rest of the block untouched |
| EqualityCoding.TransformEqualityCoding1 | source/gabac/equality_coding.cpp:135-163 | for any word size: the values block keeps its word size and holds the raw values compacted to the front and then cut to length; the flags go to a new block of word size 1 |
| EqualityCoding.Coding1Step | source/gabac/equality_coding.cpp:145-160 | one pass of the general loop: the write stepper never overtakes the read stepper and the written prefix plus the flags extend the forward transform |
| EqualityCoding.TransformEqualityCoding | source/gabac/equality_coding.cpp:165-177 | dispatches on the word size; either way the values become the raw values and the flags block the flags of the forward transform |
| EqualityCoding.InverseProgressStep | source/gabac/equality_coding.cpp:206-219 | one flag of the decoding loop consumes a raw value exactly when it is 0 and appends the previous symbol, keeping the output prefix equal to the inverse of the flags so far |
| EqualityCoding.InverseNeedsRaw | source/gabac/equality_coding.cpp:207-209 | under the precondition that there are as many raw values as zero flags, a zero flag always finds a raw value left to read |
| EqualityCoding.InverseTransformEqualityCoding | source/gabac/equality_coding.cpp:181-233 | the values block ends up holding the inverse of the flags and raw values, the flags block is cleared, and the word sizes follow the word-size-1 in-place path or the separate-buffer path |
| EqualityCoding.InverseLoop | source/gabac/equality_coding.cpp:200-221 | the loop fills the output block with the inverse of the flags and raw values and leaves the write stepper at the end, so the final resize removes nothing |
| EqualityCoding.InverseStep | source/gabac/equality_coding.cpp:206-219 | one pass of the decoding loop writes the next decoded symbol and keeps the output prefix equal to the inverse of the flags read so far |
| EqualityCoding.NextSymbol | source/gabac/equality_coding.cpp:207-215 | a zero flag reads the next raw value and sets the previous symbol to it, plus one when it is at least the previous symbol; any other flag keeps the previous symbol |
| RleCoding.Split | source/gabac/rle_coding.cpp:126-130 | a run of len symbols becomes guard entries followed by one entry below the guard |
| RleCoding.RleFrom | source/gabac/rle_coding.cpp:114-141 | from an open run of cur, the raw values start with cur |
| RleCoding.DecodeRun | source/gabac/rle_coding.cpp:167-174 | reading a run header consumes at least one and at most all the remaining length entries |
| RleCoding.SplitDecodes | source/gabac/rle_coding.cpp:126-130 | the entries written for a run of len symbols are read back as one header whose entries sum to len - 1 and which consumes exactly those entries, whatever follows |
| RleCoding.SplitHeader | source/gabac/rle_coding.cpp:167-175 | for run lengths below 2^64, the 64-bit total of a written header plus one is the run length |
| RleCoding.SplitShape | source/gabac/rle_coding.cpp:126-130 | a run of len symbols takes (len-1)/guard + 1 entries and the last is (len-1) mod guard |
| RleCoding.RleFromShape | source/gabac/rle_coding.cpp:117-141 | adjacent raw values always differ and every length entry is at most the guard |
| RleCoding.RleFromRoundTrip | source/gabac/rle_coding.cpp:92-186 | decoding the streams produced from an open run of len copies of cur followed by s gives back those len copies and s |
| RleCoding.InverseOfForward | source/gabac/rle_coding.cpp:92-186 | for fewer than 2^64 symbols, the inverse of the forward transform gives back the symbols, and the length stream is always long enough to decode |
| RleCoding.FiveOnes | tests/gabac/rle_coding_test.cpp:62-76 | five ones with guard 2 give one raw value 1 and lengths 2, 2, 0 |
| RleCoding.ForwardShape | source/gabac/rle_coding.cpp:101-141 | adjacent raw values differ, length entries are at most the guard, and the raw stream is empty exactly when the input is |
| RleCoding.ForwardProgressStep | source/gabac/rle_coding.cpp:117-133 | reading one symbol either extends the open run or closes it with its raw value and length entries and opens a run of the new symbol, keeping the loop state consistent with the forward transform |
| RleCoding.ForwardProgressDone | source/gabac/rle_coding.cpp:135-141 | closing the last run after the loop gives exactly the forward transform |
| RleCoding.PushRunLengths | source/gabac/rle_coding.cpp:126-130 | the inner loop appends exactly the entries of the run length (truncated to the length block's word size) |
| RleCoding.TransformRleCoding | source/gabac/rle_coding.cpp:92-145 | in place: the values block holds the raw values and the lengths block the length entries of the forward transform, word sizes unchanged; an empty input gives two empty blocks |
| RleCoding.RleStep | source/gabac/rle_coding.cpp:118-132 | one pass of the outer loop keeps the write stepper strictly behind the read stepper and the written prefix and lengths consistent with the forward transform |
| RleCoding.CloseRun | source/gabac/rle_coding.cpp:123-131 | closing a run writes cur at the write stepper, advances it by one, leaves the unread words untouched and appends the run's length entries |
| RleCoding.InverseRunStart | source/gabac/rle_coding.cpp:166-174 | while raw values remain, the length stream still holds a complete run header at the read position |
| RleCoding.InverseProgressStep | source/gabac/rle_coding.cpp:165-181 | decoding one raw value appends it total + 1 times (in 64-bit arithmetic) and moves past its header, keeping the output equal to the inverse of the raw values read so far |
| RleCoding.InverseCons | source/gabac/rle_coding.cpp:165-181 | the inverse of a nonempty raw stream is its first value repeated for the first header, followed by the inverse of the rest |
| RleCoding.HeaderTotal | source/gabac/rle_coding.cpp:169-174 | the source's running uint64_t total is the exact sum of the header entries modulo 2^64 |
| RleCoding.DecodeRunGuard | source/gabac/rle_coding.cpp:170-174 | a guard entry adds the guard and continues to the next entry |
| RleCoding.HeaderStep | source/gabac/rle_coding.cpp:170-174 | while the last entry read is the guard, another entry is available and reading it keeps the header progress |
| RleCoding.HeaderDone | source/gabac/rle_coding.cpp:170-175 | when the last entry read is not the guard, the exact sum and the entries consumed are those of the reference header decoding |
| RleCoding.HeaderReadStep | source/gabac/rle_coding.cpp:171-173 | one read of the header loop advances the stepper and keeps the 64-bit total equal to the exact sum modulo 2^64 |
| RleCoding.ReadRunHeader | source/gabac/rle_coding.cpp:167-174 | reads exactly the entries of one header and returns its 64-bit total |
| RleCoding.PushCopies | source/gabac/rle_coding.cpp:176-179 | appends n copies of the raw value and nothing else |
| RleCoding.InverseTransformRleCoding | source/gabac/rle_coding.cpp:148-186 | for a nonempty raw stream whose headers are all present, the values block becomes the inverse of the two streams and the lengths block is cleared |
| RleCoding.InverseStep | source/gabac/rle_coding.cpp:165-181 | one pass of the outer loop keeps the output equal to the inverse of the raw values read so far |
| MatchCoding.MatchLen | source/gabac/match_coding.cpp:196-203 | the run compared from window position w never reads past the end of the symbols |
| MatchCoding.BestFromShape | source/gabac/match_coding.cpp:194-209 | the window search returns its starting candidate or a window position together with that position's run length |
| MatchCoding.WindowWraps | source/gabac/match_coding.cpp:191 | near the start i - windowSize wraps around in uint64_t to a value at least i, so the window loop does not run |
| MatchCoding.EarlyPositionIsLiteral | source/gabac/match_coding.cpp:189-214 | every position before windowSize finds no match and is coded as a literal |
| MatchCoding.WindowStart | source/gabac/match_coding.cpp:191 | from windowSize on the window start is the plain difference i - windowSize |
| MatchCoding.BestMatchBounds | source/gabac/match_coding.cpp:189-209 | a match of length at least two points backwards by at most windowSize, fits in the symbols and has the run length of its position |
| MatchCoding.BestFromLongest | source/gabac/match_coding.cpp:194-209 | the search keeps the longest run, taking the last position among equals (the >= comparison) |
| MatchCoding.BestMatchIsLastLongest | source/gabac/match_coding.cpp:189-209 | with a full window, the chosen pointer has a run no shorter than any in the window and strictly longer than any later position |
| MatchCoding.MatchLenRun | source/gabac/match_coding.cpp:196-203 | the run of a window position really repeats: the symbols from i equal those from w for that many words |
| MatchCoding.Literals | source/gabac/match_coding.cpp:210-214 | counts the zero lengths, never more than the number of lengths |
| MatchCoding.LiteralKeepsShape | source/gabac/match_coding.cpp:210-214 | adding a literal keeps the streams well shaped (one raw value per zero length, one pointer per nonzero length, pointers within the window) |
| MatchCoding.MatchKeepsShape | source/gabac/match_coding.cpp:215-219 | adding a pair with pointer in 1..windowSize and length at least 2 keeps the streams well shaped |
| MatchCoding.ForwardFromShape | source/gabac/match_coding.cpp:187-221 | the forward transform from any position gives well-shaped streams |
| MatchCoding.ForwardShape | source/gabac/match_coding.cpp:163-224 | the forward transform gives one raw value per zero length, one pointer per nonzero length, pointers between 1 and windowSize, lengths at most the input size |
| MatchCoding.LiteralsOfZeros | source/gabac/match_coding.cpp:178-182 | a block of n zero lengths has n literals |
| MatchCoding.WindowZeroAllLiterals | source/gabac/match_coding.cpp:178-182 | with window size 0 every symbol stays a raw value, there are no pointers and every length is 0 |
| MatchCoding.CopyBack | source/gabac/match_coding.cpp:256-260 | copying length words from pointer back keeps what was decoded and adds exactly length words |
| MatchCoding.InverseFrom | source/gabac/match_coding.cpp:242-262 | decoding only appends to the output decoded so far |
| MatchCoding.CopyBackRun | source/gabac/match_coding.cpp:256-260 | when the symbols at i repeat those pointer words earlier, copying back from the prefix rebuilds the symbols up to i + length (overlapping copies included) |
| MatchCoding.InverseLiteralCons | source/gabac/match_coding.cpp:246-251 | a zero length decodes by appending the next raw value |
| MatchCoding.InverseMatchCons | source/gabac/match_coding.cpp:252-261 | a nonzero length decodes by copying back with the next pointer |
| MatchCoding.ForwardFromInverse | source/gabac/match_coding.cpp:163-270 | from every position, decoding the forward streams after the symbols before it gives back all the symbols |
| MatchCoding.LiteralRoundTrips | source/gabac/match_coding.cpp:210-214 | a literal position preserves the round trip |
| MatchCoding.MatchRoundTrips | source/gabac/match_coding.cpp:215-219 | a match position preserves the round trip |
| MatchCoding.MatchCopies | source/gabac/match_coding.cpp:215-219 | a match emits the pointer i - pointer and its length, and copying back rebuilds exactly the symbols it covers |
| MatchCoding.MatchFits | source/gabac/match_coding.cpp:219 | skipping the matched words never goes past the end of the symbols |
| MatchCoding.MatchStepInverse | source/gabac/match_coding.cpp:252-261 | prepending a pair that copies correctly keeps the streams decodable to the symbols |
| MatchCoding.ForwardInverse | source/gabac/match_coding.cpp:163-270 | the inverse of the forward transform is the identity and the forward streams are always decodable |
| MatchCoding.StoredRoundTrip | source/gabac/match_coding.cpp:163-270 | when the window size fits the pointer word size and the input size fits the length word size, storing the streams truncates nothing and the round trip still holds |
| MatchCoding.ForwardExample | tests/gabac/match_coding_test.cpp:72-86 | the eight-symbol test with window 4 gives five raw values, pointer 3 and lengths 0, 0, 0, 0, 3, 0 |
| MatchCoding.MatchLength | source/gabac/match_coding.cpp:196-203 | the offset loop computes the run length of the window position |
| MatchCoding.FindMatch | source/gabac/match_coding.cpp:189-209 | the window loop finds the reference best match, including the uint64_t wrap of the window start |
| MatchCoding.ForwardProgressLiteral | source/gabac/match_coding.cpp:210-214 | a literal extends the coded prefix by the symbol and a zero length |
| MatchCoding.ForwardProgressMatch | source/gabac/match_coding.cpp:215-219 | a match extends the coded prefix by its pointer and length and skips the covered symbols |
| MatchCoding.ForwardProgressDone | source/gabac/match_coding.cpp:187-221 | at the end of the symbols the coded prefix is the whole forward transform |
| MatchCoding.TransformMatchCoding | source/gabac/match_coding.cpp:163-224 | the symbols block becomes the raw values and the pointers and lengths blocks hold the forward streams truncated to their word sizes; the window-size-0 path gives all literals |
| MatchCoding.ForwardLoop | source/gabac/match_coding.cpp:186-221 | the main loop stores the whole forward transform in the three blocks |
| MatchCoding.ForwardStep | source/gabac/match_coding.cpp:188-220 | one pass of the loop stores one literal or one pair and moves strictly forward |
| MatchCoding.EmitLiteral | source/gabac/match_coding.cpp:212-213 | pushes a zero length and the symbol as raw value and nothing else |
| MatchCoding.EmitMatch | source/gabac/match_coding.cpp:217-218 | pushes the pointer and the length and nothing else |
| MatchCoding.InverseProgressLiteral | source/gabac/match_coding.cpp:246-251 | a zero length always finds a raw value and appending it keeps the decoding consistent |
| MatchCoding.InverseProgressMatch | source/gabac/match_coding.cpp:252-261 | a nonzero length always finds a pointer within what is decoded, and copying back keeps the decoding consistent |
| MatchCoding.UnfoldMatchAt | source/gabac/match_coding.cpp:252-261 | decoding a nonzero length is copying back and decoding the rest |
| MatchCoding.UnfoldLiteral | source/gabac/match_coding.cpp:246-251 | decoding a zero length is appending the raw value and decoding the rest |
| MatchCoding.UnfoldMatch | source/gabac/match_coding.cpp:252-261 | a nonzero length has a valid pointer and decoding it is copying back and decoding the rest |
| MatchCoding.CopyBackStep | source/gabac/match_coding.cpp:256-260 | copying one word back and then the remaining length - 1 is copying length words |
| MatchCoding.CopyOne | source/gabac/match_coding.cpp:258-259 | appends the word pointer places back and nothing else |
| MatchCoding.CopyMatch | source/gabac/match_coding.cpp:256-260 | the copy loop appends exactly the copied-back words |
| MatchCoding.CopyOneStep | source/gabac/match_coding.cpp:256-260 | one pass of the copy loop leaves length - 1 words to copy towards the same result |
| MatchCoding.InverseTransformMatchCoding | source/gabac/match_coding.cpp:227-270 | for decodable streams with as many lengths as pointers plus raw values, the raw values block becomes the decoded symbols and both other blocks are cleared |
| MatchCoding.DecodeLoop | source/gabac/match_coding.cpp:232-262 | the decoding loop produces a fresh block holding the decoded symbols in the raw values' word size |
| MatchCoding.DecodeAll | source/gabac/match_coding.cpp:242-262 | from any consistent loop state the loop ends with the decoded symbols |
| MatchCoding.InverseStep | source/gabac/match_coding.cpp:244-261 | one pass of the loop reads one length and keeps the decoding consistent |
| MatchCoding.LiteralStep | source/gabac/match_coding.cpp:246-251 | the literal branch appends the next raw value |
| MatchCoding.CopyStep | source/gabac/match_coding.cpp:252-261 | the copy branch reads a pointer and copies length words back |
| MatchCoding.ReadMatch | source/gabac/match_coding.cpp:244-255 | reads the next length and the next pointer and advances both steppers by one |
| LutTransform.IndexOf | source/gabac/lut_transform.cpp:161-177 | the first position of a symbol present in the inverse table |
| LutTransform.Ids | source/gabac/lut_transform.cpp:201-208 | replaces every symbol by an index below the table size at which the inverse table holds that symbol |
| LutTransform.RankedUnique | source/gabac/lut_transform.cpp:111-137 | an inverse table ranked by frequency holds every symbol once |
| LutTransform.IndexOfUnique | source/gabac/lut_transform.cpp:161-177 | in a table without repeats a symbol's index is the position that holds it |
| LutTransform.UniqueCard | source/gabac/lut_transform.cpp:133-137 | a table without repeats has as many distinct symbols as entries |
| LutTransform.InferLut0 | source/gabac/lut_transform.cpp:86-157 | empty input or at least MAX_LUT_SIZE distinct symbols give empty tables; otherwise the inverse table lists every distinct symbol once, by descending frequency and then ascending value, and the lookup table is sorted by symbol and maps each to its rank |
| LutTransform.CountFrequencies | source/gabac/lut_transform.cpp:99-109 | the counting loop completes exactly when there are fewer than MAX_LUT_SIZE distinct symbols, and then holds each symbol's number of occurrences |
| LutTransform.CountsSnoc | source/gabac/lut_transform.cpp:104 | counting one more symbol increments its count only |
| LutTransform.Entries | source/gabac/lut_transform.cpp:111-112 | the (symbol, count) pairs copied out of the map, each once |
| LutTransform.NumberSymbols | source/gabac/lut_transform.cpp:133-137 | entry r of both tables is the r-th most frequent symbol, the lookup entry paired with r |
| LutTransform.EntriesOfCounts | source/gabac/lut_transform.cpp:99-112 | the copied pairs are exactly the symbols of the input with their occurrence counts |
| LutTransform.RankedFromSorted | source/gabac/lut_transform.cpp:115-137 | sorting the pairs by descending count and ascending value and taking the symbols gives the ranked inverse table |
| LutTransform.IndexTableFromSorted | source/gabac/lut_transform.cpp:139-156 | sorting the numbered pairs by symbol gives a lookup table that maps every symbol to its rank |
| LutTransform.Lut0SingleTransform | source/gabac/lut_transform.cpp:161-177 | the binary search returns the rank paired with the symbol in the sorted lookup table |
| LutTransform.LookupIndex | source/gabac/lut_transform.cpp:161-177 | the rank found is the symbol's position in the inverse table |
| LutTransform.Previous | source/gabac/lut_transform.cpp:198-208 | the history of order indices before position n, zero-padded at the start |
| LutTransform.PreviousBelow | source/gabac/lut_transform.cpp:198-208 | history entries are indices below the table size |
| LutTransform.SlotBound | source/gabac/lut_transform.cpp:211-219 | the context slot of every position lies inside the table of k^(order+1) entries |
| LutTransform.PreviousStep | source/gabac/lut_transform.cpp:204-208 | shifting the history and putting the new index in front gives the history of the next position |
| LutTransform.SlotIsPos | source/gabac/lut_transform.cpp:211-219 | the slot of position n is the mixed-radix number formed by its history and its own index |
| LutTransform.PreviousPrefix | source/gabac/lut_transform.cpp:198-208 | the history depends only on the indices before the position |
| LutTransform.ShiftHistory | source/gabac/lut_transform.cpp:204-207 | the shift loop moves every history entry one place back, dropping the oldest |
| LutTransform.ContextIndex | source/gabac/lut_transform.cpp:211-219 | the index loop computes the mixed-radix position of the history |
| LutTransform.SlotCounts | source/gabac/lut_transform.cpp:322-350 | one counter per slot of the k^(order+1) table |
| LutTransform.SlotCounted | source/gabac/lut_transform.cpp:349 | every slot visited by an earlier position has a positive count |
| LutTransform.CountContexts | source/gabac/lut_transform.cpp:322-350 | the counters hold, per context slot, how many positions fall in it |
| LutTransform.CountStep | source/gabac/lut_transform.cpp:327-349 | one symbol updates the history and increments the count of its slot |
| LutTransform.BlockTables | source/gabac/lut_transform.cpp:355-426 | the tables for one context: the inverse lists the indices by descending count then value, zero from the first unseen one on, and the forward maps each index to its rank |
| LutTransform.RankBlock | source/gabac/lut_transform.cpp:363-426 | sorting, ranking and re-sorting the numbered counters gives the block's inverse and forward tables |
| LutTransform.NumberBlock | source/gabac/lut_transform.cpp:355-360 | numbers the counters of a block 0, 1, ... keeping their counts |
| LutTransform.FillInverse | source/gabac/lut_transform.cpp:382-400 | the inverse entry at rank r is the index ranked r if it was seen, else 0 (once one count is 0 all later are), and each pair's count becomes its rank |
| LutTransform.RanksOf | source/gabac/lut_transform.cpp:423-426 | the forward table lists the ranks in index order |
| LutTransform.PermFacts | source/gabac/lut_transform.cpp:363-379 | the frequency sort keeps each index paired with its own count |
| LutTransform.ResortedFacts | source/gabac/lut_transform.cpp:404-420 | after the second sort entry j belongs to index j and carries the rank of index j |
| LutTransform.PermFirstsDistinct | source/gabac/lut_transform.cpp:363-379 | the frequency sort never repeats an index |
| LutTransform.BlockFromSorted | source/gabac/lut_transform.cpp:355-426 | the two sorts and the fill loop together produce the block's ranked tables |
| LutTransform.SlotTables | source/gabac/lut_transform.cpp:353-427 | in every context, looking up the forward rank of a seen index in the inverse table gives the index back |
| LutTransform.BuildTables | source/gabac/lut_transform.cpp:353-427 | the loop over blocks builds the ranked tables of every context |
| LutTransform.BuildBlock | source/gabac/lut_transform.cpp:353-427 | one pass of the block loop appends the tables of the next context |
| LutTransform.InferLut | source/gabac/lut_transform.cpp:285-428 | order-0 failure empties all tables; otherwise the inverse table is ranked; a table of k^(order+1) entries at least MAX_LUT_SIZE clears the lookup table; order 0 keeps only the order-0 tables; else the order-1 tables are the ranked tables of every context |
| LutTransform.InferContexts | source/gabac/lut_transform.cpp:310-427 | the size check and the context tables of the order > 0 path |
| LutTransform.ContextTablesBelow | source/gabac/lut_transform.cpp:382-400 | every entry of the order-1 inverse table is an index below the table size |
| LutTransform.Forward | source/gabac/lut_transform.cpp:181-229 | the transform emits one value per symbol |
| LutTransform.TransformCore | source/gabac/lut_transform.cpp:181-229 | the core loop emits the order-0 rank of each symbol, or for order > 0 the forward table entry at its context slot |
| LutTransform.TransformStep | source/gabac/lut_transform.cpp:201-227 | one symbol updates the history and appends the next value of the transform |
| LutTransform.InverseSlotBound | source/gabac/lut_transform.cpp:268-276 | the inverse's context slot lies inside the order-1 table |
| LutTransform.InverseAt | source/gabac/lut_transform.cpp:262-280 | decoding one value yields an index below the table size |
| LutTransform.InverseIds | source/gabac/lut_transform.cpp:253-282 | the inverse recovers one index below the table size per value |
| LutTransform.Backward | source/gabac/lut_transform.cpp:233-283 | the inverse emits one symbol per transformed value |
| LutTransform.InverseIdsPrefix | source/gabac/lut_transform.cpp:253-282 | decoding a prefix gives the prefix of the decoding |
| LutTransform.InverseIdsAt | source/gabac/lut_transform.cpp:256-280 | each decoded index depends only on the decoded indices before it and the value at its position |
| LutTransform.InverseCore | source/gabac/lut_transform.cpp:233-283 | the core loop computes the reference inverse |
| LutTransform.InverseStep | source/gabac/lut_transform.cpp:253-282 | one value updates the history (with the decoded index, not the value) and appends the next symbol |
| LutTransform.InverseStepFacts | source/gabac/lut_transform.cpp:256-280 | for order 0 the index is the value; otherwise it is the order-1 inverse table entry at the slot of the value and the decoded history |
| LutTransform.ContextLookup | source/gabac/lut_transform.cpp:268-279 | the index loop and lookup return the table entry at the history's slot |
| LutTransform.InverseIdsOrder0 | source/gabac/lut_transform.cpp:262-266 | for order 0 the decoded indices are the values |
| LutTransform.ForwardAtInverse | source/gabac/lut_transform.cpp:181-283 | with the tables inferred from the indices, the inverse table at the forward rank of a position gives back its index |
| LutTransform.InverseIdsOfForward | source/gabac/lut_transform.cpp:181-283 | decoding the forward transform of the indices gives back the indices |
| LutTransform.LutRoundTrip | source/gabac/lut_transform.cpp:181-283 | for tables inferred from the symbols, the inverse of the transform is the identity |
| LutTransform.TransformLutTransform0 | source/gabac/lut_transform.cpp:431-448 | when the lookup table comes back empty the output is left untouched and both inverse tables are cleared; otherwise the output is the transform, which the inverse undoes |
| LutTransform.InverseTransformLutTransform0 | source/gabac/lut_transform.cpp:452-460 | applies the reference inverse |
| LutTransform.Ramp | source/gabac/lut_transform.cpp:99-109 | the sequence 0, 1, ..., n-1 |
| LutTransform.RampDistinct | source/gabac/lut_transform.cpp:99-109 | 0, 1, ..., n-1 has n distinct symbols |
| LutTransform.AsWrittenCountsAfterFailure | source/gabac/lut_transform.cpp:298-335 | when inferLut0 gives up on a nonempty input, the as-written guard still admits an order > 0 transform to the counting loop, whose first lookup searches an empty table |
| LutTransform.AsWrittenRampCounts | source/gabac/lut_transform.cpp:298-335 | the symbols 0 .. 2^20-1 at order 1 reach that lookup |
| PairSort.BeforeTotal | source/gabac/lut_transform.cpp:115-156 | both comparators are strict total orders on pairs: irreflexive, asymmetric, and any two distinct pairs compare |
| PairSort.BeforeTransitive | source/gabac/lut_transform.cpp:115-156 | both comparators are transitive |
| PairSort.Insert | source/gabac/lut_transform.cpp:115-156 | inserting adds exactly the one pair |
| PairSort.Sort | source/gabac/lut_transform.cpp:115-156 | the result of std::sort is a permutation of its input |
| PairSort.InsertSorted | source/gabac/lut_transform.cpp:115-156 | inserting a new pair into a strictly sorted sequence keeps it strictly sorted |
| PairSort.InsertElement | source/gabac/lut_transform.cpp:115-156 | every element after insertion is the new pair or an old one |
| PairSort.SortSorted | source/gabac/lut_transform.cpp:115-156 | a sequence without repeated pairs sorts to a strictly sorted sequence under either comparator |
| Binarizations.ValuesCoded | source/gabac/writer.cpp:178-201 | coding bits in any run of contexts keeps their values |
| Binarizations.CodedAppendEP | source/gabac/writer.cpp:244-253 | bypass coding of two bit strings is the bypass coding of their concatenation |
| Binarizations.BitLength | source/gabac/writer.cpp:22-57 | the exact bit length: v is below 2^r, at least 2^(r-1) when r > 0, and r is 0 only for v = 0 |
| Binarizations.BitLengthUnique | source/gabac/writer.cpp:22-57 | the bit length is the unique n with 2^(n-1) <= v < 2^n |
| Binarizations.BitLengthShift | source/gabac/writer.cpp:27-49 | shifting right by s drops s from the bit length of a value of at least 2^(s-1) |
| Binarizations.Stage | source/gabac/writer.cpp:27-49 | one compare-and-shift stage of bitLength keeps shifted bits plus remaining bit length constant and narrows the value |
| Binarizations.Stage16 | source/gabac/writer.cpp:27-31 | the 16-bit stage on values below 2^31 leaves a value below 2^15 and keeps the count |
| Binarizations.Stage8 | source/gabac/writer.cpp:33-37 | the 8-bit stage leaves a value below 2^7 and keeps the count |
| Binarizations.Stage4 | source/gabac/writer.cpp:39-43 | the 4-bit stage leaves a value below 8 and keeps the count |
| Binarizations.Stage2 | source/gabac/writer.cpp:45-49 | the 2-bit stage leaves a value below 2 and keeps the count |
| Binarizations.BitLengthAsWrittenBelow2To31 | source/gabac/writer.cpp:22-57 | bitLength as written is the exact bit length for every value below 2^31 |
| Binarizations.BitLengthOf2To31 | source/gabac/writer.cpp:22-57 | 2^31 has bit length 32 |
| Binarizations.BitLengthAsWrittenAt2To31 | source/gabac/writer.cpp:22-57 | bitLength as written returns 31 for 2^31, one less than the exact length |
| Binarizations.TUCode | source/gabac/writer.cpp:204-218 | x ones plus a closing zero unless x is cMax |
| Binarizations.EGCode | source/gabac/writer.cpp:244-253 | the Exp-Golomb code of x has 2 L - 1 bits, L the bit length of x + 1 |
| Binarizations.EGBins | source/gabac/writer.cpp:256-286 | the cabac EG bins are as many as the code's bits |
| Binarizations.EGBinsSplit | source/gabac/writer.cpp:256-286 | the cabac EG bins are n zeros and a one in consecutive contexts followed by the n suffix bits of x + 1 - 2^n bypass-coded |
| Binarizations.ValuesEGBins | source/gabac/writer.cpp:244-286 | the bypass and cabac EG writers emit the same bit values |
| Binarizations.SegMapExact | source/gabac/writer.cpp:289-318 | in SEG's range the 32-bit writer arithmetic maps v <= 0 to -2v and v > 0 to 2v - 1, at most 2^31 |
| Binarizations.SegRoundTrip | source/gabac/reader.cpp:200-240 | the reader's SEG mapping inverts the writer's on SEG's range |
| Binarizations.SegUnmapRoundTrip | source/gabac/reader.cpp:200-240 | every EG value the reader maps into SEG's range is the writer's image of that value |
| Binarizations.ValuesTEGBins | source/gabac/writer.cpp:321-355 | the TEG bins carry the values of the TEG code: TU below the threshold, TU of the threshold then EG of the rest |
| Binarizations.ValuesSTEGBins | source/gabac/writer.cpp:358-402 | the STEG bins carry the TEG code of the magnitude then, for nonzero values, a sign bit (1 negative) |
| Binarizations.ReadBI | source/gabac/reader.cpp:99-117 | reading n bits consumes no more than the bits available |
| Binarizations.ReadTU | source/gabac/reader.cpp:120-155 | a TU read never exceeds cMax and consumes no more than available |
| Binarizations.LeadingZeros | source/gabac/reader.cpp:158-164 | counts the zeros before the first one |
| Binarizations.ReadEG | source/gabac/reader.cpp:158-197 | an EG read consumes no more than available |
| Binarizations.ReadSEG | source/gabac/reader.cpp:200-240 | a SEG read consumes no more than available |
| Binarizations.ReadTEG | source/gabac/reader.cpp:243-265 | a TEG read consumes no more than available |
| Binarizations.ReadSTEG | source/gabac/reader.cpp:268-304 | a STEG read consumes no more than available |
| Binarizations.ReadBIRoundTrip | source/gabac/reader.cpp:99-117 | reading n bits after writing x < 2^n in n bits gives x, whatever follows |
| Binarizations.ReadTURoundTrip | source/gabac/reader.cpp:120-155 | for x <= cMax the TU reader returns x and consumes exactly its code, whatever follows |
| Binarizations.LeadingZerosOfCode | source/gabac/reader.cpp:161-164 | k zeros and a one have k leading zeros |
| Binarizations.ReadEGRoundTrip | source/gabac/reader.cpp:158-197 | the EG reader returns x and consumes exactly its code, whatever follows |
| Binarizations.ReadEGOfParts | source/gabac/reader.cpp:158-197 | a code of n zeros, a one and n bits worth x + 1 - 2^n reads back as x |
| Binarizations.SEGRoundTrip | source/gabac/reader.cpp:200-240 | on SEG's range the SEG reader returns the written value and consumes exactly its bins |
| Binarizations.TEGRoundTrip | source/gabac/reader.cpp:243-265 | the TEG reader returns the written value and consumes exactly its code |
| Binarizations.TEGCodeAbove | source/gabac/writer.cpp:321-336 | from the threshold on, the TEG code is the closed TU code of the threshold followed by EG of the excess |
| Binarizations.ReadTEGAbove | source/gabac/reader.cpp:243-252 | the TEG reader adds the EG read to the threshold |
| Binarizations.STEGRoundTrip | source/gabac/reader.cpp:268-304 | the STEG reader returns the written signed value and consumes exactly its code |
| Binarizations.ReadTUExact | source/gabac/reader.cpp:120-155 | whatever TU reads is exactly the TU code of the value returned |
| Binarizations.LeadingZerosSpec | source/gabac/reader.cpp:161-164 | the prefix counted is all zeros and is followed by a one when bits remain |
| Binarizations.EGCodeAt | source/gabac/writer.cpp:244-253 | the EG code of x is n zeros, a one and the low n bits of x + 1 |
| Binarizations.EGCodeOfValue | source/gabac/reader.cpp:165-173 | the value 2^i + v - 1 codes as i zeros, a one and v in i bits |
| Binarizations.EGCodeOf | source/gabac/reader.cpp:165-173 | i zeros, a one and any i bits are the EG code of the value the reader computes from them |
| Binarizations.ReadEGExact | source/gabac/reader.cpp:158-197 | whatever EG reads is exactly the EG code of the value returned, so EG codes are prefix-free |
| Binarizations.ReadEGExactOf | source/gabac/reader.cpp:158-197 | the same, for a given read result |
| Binarizations.ReadEGUnfold | source/gabac/reader.cpp:158-174 | an EG read consumes 2 i + 1 bits, i the leading zeros, and returns 2^i plus the suffix minus one |
| Binarizations.EGPrefixOfParts | source/gabac/reader.cpp:158-174 | the bits the EG reader consumed form the EG code of its result |
| Binarizations.ReadEGOfCode | source/gabac/reader.cpp:158-174 | k zeros, a one and k further bits read as 2^k plus those bits minus one, consuming 2 k + 1 bits |
| Binarizations.ReadSEGExact | source/gabac/reader.cpp:200-240 | a SEG read into SEG's range consumed exactly the SEG bins of its result |
| Binarizations.ReadTEGExact | source/gabac/reader.cpp:243-265 | whatever TEG reads is exactly the TEG code of the value returned |
| Binarizations.ReadSTEGExact | source/gabac/reader.cpp:268-304 | whatever STEG reads is exactly the STEG code of the value returned |
| Binarizations.ReadSTEGExactOf | source/gabac/reader.cpp:268-304 | the same, given the TEG part already read |
| Binarizations.STEGPrefixOfParts | source/gabac/reader.cpp:271-283 | a nonzero magnitude and its sign bit form the STEG code of the signed value |
| Binarizations.BitsOfPow2 | source/gabac/writer.cpp:281-283 | 2^k in n bits is a single one bit k places from the end |
| Binarizations.EGBinsBypass | source/gabac/writer.cpp:244-253 | the bypass EG writer is the EG code bypass-coded |
| Binarizations.BitLengthAsWrittenPositive | source/gabac/writer.cpp:22-57 | bitLength as written is positive for positive values |
| Binarizations.EGAsWrittenBelow2To31 | source/gabac/writer.cpp:244-253 | while x + 1 is below 2^31 the bypass EG writer as written emits the EG code |
| Binarizations.EGAsWrittenInt32MaxBins | source/gabac/writer.cpp:244-253 | for INT32_MAX the writer as written emits 29 zeros, a one and 31 zeros |
| Binarizations.EGAsWrittenMisreadsInt32Max | source/gabac/reader.cpp:158-174 | those bins read back as 2^29 - 1 after 59 bits, not INT32_MAX |
| Binarizations.ReadTUFrom | source/gabac/reader.cpp:120-155 | the TU reader's loop from count i on consumes no more than available |
| Binarizations.ReadTUAsWritten | source/gabac/reader.cpp:120-155 | the TU reader as written (its check comes after the increment) consumes no more than available |
| Binarizations.ReadTUFromAgrees | source/gabac/reader.cpp:123-132 | the loop from count i reads like TU with cMax - i and adds i |
| Binarizations.ReadTUAsWrittenAgrees | source/gabac/reader.cpp:120-155 | for cMax >= 1 the reader as written is the TU reader |
| Binarizations.EGCodeOfOne | source/gabac/writer.cpp:244-253 | EG of 1 is 0 1 0 |
| Binarizations.TEGCodeOneZero | source/gabac/writer.cpp:321-336 | TEG of 1 with threshold 0 is the EG code 0 1 0 |
| Binarizations.ReadTEGOneZero | source/gabac/reader.cpp:243-252 | the corrected TEG reader decodes 0 1 0 with threshold 0 as 1 |
| Binarizations.ReadTEGAsWrittenOneZero | source/gabac/reader.cpp:120-133 | the reader as written decodes 0 1 0 with threshold 0 as 0 after two bits |
| Binarizations.TEGZeroAsWrittenMisreads | source/gabac/reader.cpp:120-133 | with threshold 0 the value 1 round-trips through the corrected reader but not through the one as written |
| BitSeqs.Shl32 | source/gabac/bit_output_stream.cpp:63-65 | a 32-bit unsigned left shift keeps the low 32 bits of the exact shift |
| BitSeqs.LowByte | source/gabac/bit_output_stream.cpp:72-84 | the cast to unsigned char keeps the low 8 bits |
| BitSeqs.BitOr | source/gabac/bit_output_stream.cpp:56 | the bitwise or of n-bit values stays below 2^n |
| BitSeqs.Decompose | source/gabac/bit_output_stream.cpp:63-65 | a value is its high part shifted back plus its low n bits |
| BitSeqs.Recompose | source/gabac/bit_input_stream.cpp:66-100 | shifting a high part left by n and adding a low part below 2^n can be taken apart again by shift and mask |
| BitSeqs.BitsOf | source/gabac/bit_output_stream.cpp:34-95 | the n-bit string of a value, most significant first |
| BitSeqs.Value | source/gabac/bit_input_stream.cpp:51-106 | the number a bit string denotes is below 2^length |
| BitSeqs.BytesBits | source/gabac/bit_output_stream.cpp:10-15 | a byte vector as a bit string, 8 bits per byte |
| BitSeqs.BEBytes | source/gabac/bit_output_stream.cpp:68-90 | the q low bytes of a word, most significant first |
| BitSeqs.ValueOfBitsOf | source/gabac/bit_input_stream.cpp:51-106 | reading back the n-bit string of v < 2^n gives v |
| BitSeqs.BitsOfValue | source/gabac/bit_output_stream.cpp:34-95 | writing the value of a bit string in as many bits gives the string |
| BitSeqs.BitsOfInjective | source/gabac/bit_output_stream.cpp:34-95 | different values below 2^n have different n-bit strings |
| BitSeqs.BitsOfSplit | source/gabac/bit_output_stream.cpp:63-65 | the n bits of x are its high a bits followed by its low b bits |
| BitSeqs.BitsOfConcat | source/gabac/bit_input_stream.cpp:67-100 | hi shifted left by b plus lo < 2^b has the bits of hi followed by those of lo |
| BitSeqs.BytesBitsAppend | source/gabac/bit_output_stream.cpp:10-15 | appending bytes appends their bits |
| BitSeqs.BytesBitsOfBEBytes | source/gabac/bit_output_stream.cpp:68-90 | the q bytes written from a word carry its low 8 q bits, most significant first |
| BitSeqs.BEBytesUpToFour | source/gabac/bit_output_stream.cpp:68-90 | the fall-through switch writes bytes 24, 16, 8 and 0 of the word, starting at the case q |
| BitSeqs.BitOrDisjoint | source/gabac/bit_output_stream.cpp:56 | or of values with disjoint bits is their sum |
| BitStreams.HeldTop | source/gabac/bit_output_stream.cpp:42-57 | the h held bits, taken from the top of the held byte |
| BitStreams.NextHeldValue | source/gabac/bit_output_stream.cpp:51 | the next held byte holds the low r bits of the input at its top |
| BitStreams.WriteCompletesBytes | source/gabac/bit_output_stream.cpp:62-94 | the bytes written plus the new held bits are the old held bits followed by the input bits |
| BitStreams.WriteWordBits | source/gabac/bit_output_stream.cpp:63-65 | the write word carries the held bits followed by the input bits except the r held back |
| BitStreams.WriteHolds | source/gabac/bit_output_stream.cpp:52-59 | when fewer than 8 bits are pending, or-ing the new bits into the held byte appends them to the held bits |
| BitStreams.WriteKeepsAligned | source/gabac/bit_output_stream.cpp:52-59 | the held byte keeps zeros below its held bits |
| BitStreams.AlignWriteEmitsHeld | source/gabac/bit_output_stream.cpp:98-107 | writing the held byte in 8 - h bits emits exactly the held byte |
| BitStreams.AlignPads | source/gabac/bit_output_stream.cpp:98-107 | the emitted byte is the held bits padded with zeros |
| BitStreams.HoldStep | source/gabac/bit_output_stream.cpp:52-59 | the short path keeps the stream invariant and appends the input bits |
| BitStreams.EmitCounts | source/gabac/bit_output_stream.cpp:44-68 | with at least 8 pending bits, 1 to 4 bytes are written and fewer than 8 bits are held back |
| BitStreams.EmitStep | source/gabac/bit_output_stream.cpp:62-94 | the long path keeps the invariant and appends the input bits |
| BitStreams.AlignedEmpty | source/gabac/bit_output_stream.cpp:99-102 | with no held bits the held byte is 0 |
| BitStreams.OrByte | source/gabac/bit_output_stream.cpp:56 | or of two bytes |
| BitStreams.AlignStep | source/gabac/bit_output_stream.cpp:98-107 | aligning appends the held bits padded with zeros and empties the held byte |
| BitStreams.BitOutputStream.constructor | source/gabac/bit_output_stream.cpp:18-23 | a stream over the given bytes with no held bits |
| BitStreams.BitOutputStream.Write | source/gabac/bit_output_stream.cpp:34-95 | appends (numBits + held) / 8 bytes, keeps the rest held, and for inputs below 2^numBits the stream's bits grow by exactly the numBits input bits |
| BitStreams.BitOutputStream.AppendBigEndian | source/gabac/bit_output_stream.cpp:68-90 | appends the numBytes low bytes of the word, most significant first |
| BitStreams.BitOutputStream.WriteAlignZero | source/gabac/bit_output_stream.cpp:98-107 | no held bits: nothing changes; otherwise the held byte is written and the bits grow by zero padding to the byte boundary |
| BitStreams.BitOutputStream.WriteHeldByte | source/gabac/bit_output_stream.cpp:104-106 | writes the held byte and clears it |
| BitStreams.BitOutputStream.Flush | source/gabac/bit_output_stream.cpp:29-31 | aligns with zeros |
| BitInputStreams.BEWordBits | source/gabac/bit_input_stream.cpp:72-96 | the word assembled from loaded bytes has their bits |
| BitInputStreams.LoadedSplit | source/gabac/bit_input_stream.cpp:99-103 | the loaded bits split into the bits returned and the low bits held |
| BitInputStreams.HeldJoin | source/gabac/bit_input_stream.cpp:67-69 | the held bits shifted above the new bits join them |
| BitInputStreams.ReadWholeValue | source/gabac/bit_input_stream.cpp:66-105 | the value read is the first h + n remaining bits and the rest is what stays held plus the unread bytes |
| BitInputStreams.ReadBits | source/gabac/bit_input_stream.cpp:66-105 | the same as bit strings |
| BitInputStreams.HeldValue | source/gabac/bit_input_stream.cpp:57-63 | reading n held bits returns the top n of them and keeps the rest |
| BitInputStreams.BitInputStream.constructor | source/gabac/bit_input_stream.cpp:21-26 | the remaining bits are all the bytes' bits |
| BitInputStreams.BitInputStream.Reset | source/gabac/bit_input_stream.cpp:44-48 | back to the start of the bytes with nothing held |
| BitInputStreams.BitInputStream.NumBitsUntilByteAligned | source/gabac/bit_input_stream.cpp:32-34 | fewer than 8, and the bits left after them are whole bytes |
| BitInputStreams.BitInputStream.Read | source/gabac/bit_input_stream.cpp:51-106 | returns the value of the next numBits remaining bits and consumes them; too few remaining is the None of at() throwing, after reading to the end |
| BitInputStreams.BitInputStream.ReadHeld | source/gabac/bit_input_stream.cpp:57-63 | served from the held bits alone |
| BitInputStreams.BitInputStream.ReadLoad | source/gabac/bit_input_stream.cpp:66-105 | the path that loads (numBits - held - 1) / 8 + 1 bytes |
| BitInputStreams.BitInputStream.ReadWhole | source/gabac/bit_input_stream.cpp:66-105 | the load path when enough bytes remain |
| BitInputStreams.BitInputStream.LoadAlignedWord | source/gabac/bit_input_stream.cpp:72-96 | the fall-through switch builds the big-endian word of the next bytes |
| BitInputStreams.BitInputStream.ReadIn | source/gabac/bit_input_stream.cpp:11-18 | returns the byte at the index and advances it |
| BitInputStreams.BitInputStream.ReadByte | source/gabac/bit_input_stream.cpp:37-41 | reads the next 8 bits as a byte |
| BitInputStreams.LoadWidth | source/gabac/bit_input_stream.cpp:72-99 | 1 to 4 bytes are loaded and they cover the requested bits plus the next held ones |
| BitInputStreams.LoadStep | source/gabac/bit_input_stream.cpp:76-91 | each case of the switch adds its byte at the right shift |
| BitInputStreams.ReadReturnsWritten | source/gabac/bit_input_stream.cpp:51-106 | reading n bits from bits that start with the n-bit string of v gives v and leaves the rest |
| BitInputStreams.ReadByteOfFF | source/gabac/bit_input_stream.cpp:37-41 | reading a byte from a stream holding 0xFF gives 0xFF |
| BufferOutputStreams.Payload | source/gabac/buffer_output_stream.cpp:19-27 | the bytes of the whole words of a block (all of it when its size is a multiple of the word size) |
| BufferOutputStreams.Frame | source/gabac/buffer_output_stream.cpp:8-17 | four length bytes followed by the payload |
| BufferOutputStreams.ParseFrame | source/gabac/buffer_output_stream.cpp:8-17 | splits off a four-byte little-endian length and that many payload bytes |
| BufferOutputStreams.FrameRoundTrip | source/gabac/buffer_output_stream.cpp:8-17 | a payload shorter than 2^32 bytes parses back from its frame, whatever follows |
| BufferOutputStreams.FrameLengthWraps | source/gabac/buffer_output_stream.cpp:9 | from 2^32 bytes on the uint32_t length wraps and the frame no longer parses back to the payload |
| BufferOutputStreams.FramesRoundTrip | source/gabac/buffer_output_stream.cpp:8-17 | a sequence of framed payloads each shorter than 2^32 bytes parses back to the payloads |
| BufferOutputStreams.BufferOutputStream.constructor | source/gabac/buffer_output_stream.cpp:4-6 | an empty buffer of word size 1 |
| BufferOutputStreams.BufferOutputStream.WriteBytes | source/gabac/buffer_output_stream.cpp:19-27 | appends the block's bytes, returns their number and clears the block |
| BufferOutputStreams.BufferOutputStream.WriteStream | source/gabac/buffer_output_stream.cpp:8-17 | appends the framed bytes and returns the frame's size |
| BufferOutputStreams.BufferOutputStream.Flush | source/gabac/buffer_output_stream.cpp:29-32 | hands the buffer's bytes to the out block and starts empty |
| BufferOutputStreams.BufferOutputStream.BytesWritten | source/gabac/buffer_output_stream.cpp:34-36 | the number of bytes in the buffer |
| ContextSelector.Index | source/gabac/context_selector.cpp:17-59 | the context index lies at offset + set * setLength + bin: set and bin can be read back by division and remainder |
| ContextSelector.ContextForBi | source/gabac/context_selector.cpp:17-29 | BI contexts: set below 16, bin below the set length, index decomposes into both |
| ContextSelector.ContextForTu | source/gabac/context_selector.cpp:32-44 | TU contexts: set below 68 |
| ContextSelector.ContextForEg | source/gabac/context_selector.cpp:47-59 | EG contexts: set below 16 |
| ContextSelector.IndexInjective | source/gabac/context_selector.cpp:17-59 | distinct (set, bin) pairs get distinct contexts |
| ContextSelector.SetsAdjacent | source/gabac/context_selector.cpp:17-59 | the first context of a set follows the last of the previous set |
| ContextSelector.PrevClass | source/gabac/encoding.cpp:194-206 | the history value of a symbol is its magnitude capped at 3 |
| ContextSelector.OffsetBound | source/gabac/encoding.cpp:209-235 | histories of at most 3 give context sets below 16, distinct for distinct histories |
| Readers.ContextsCoded | source/gabac/reader.cpp:106-117 | the decoder asks for the contexts of the run, one per bin |
| Readers.ReadTEGShort | source/gabac/reader.cpp:243-252 | a TU value below the threshold is the TEG value |
| Readers.ReadTEGNeedsEG | source/gabac/reader.cpp:246-250 | when TU reaches the threshold, a decodable TEG code continues with a decodable EG code |
| Readers.ReadTEGLong | source/gabac/reader.cpp:246-250 | then the TEG value is the threshold plus the EG value |
| Readers.TEGContexts | source/gabac/reader.cpp:255-265 | reading TU then EG asks for the contexts the TEG writer used |
| Readers.ReadSTEGParts | source/gabac/reader.cpp:268-284 | a zero magnitude has no sign bin; otherwise the next bin negates the magnitude when it is 1 |
| Readers.STEGContexts | source/gabac/reader.cpp:287-304 | reading TEG then the sign asks for the contexts the STEG writer used |
| Readers.SignOf | source/gabac/reader.cpp:274 | the one-bit BI read is 1 exactly when the bin is set |
| Readers.ReadTUContinues | source/gabac/reader.cpp:123-131 | while the count is below cMax, a decodable TU code still has a bin to read |
| Readers.ReadTUStops | source/gabac/reader.cpp:123-131 | the loop stops at cMax ones or at the first zero, which it consumes |
| Readers.LeadingOne | source/gabac/reader.cpp:161-164 | the zero-counting loop stops exactly at the first one |
| Readers.EGContexts | source/gabac/reader.cpp:177-197 | the EG reader asks for the prefix contexts of the run and the suffix bypass |
| Readers.ReadEGFrom | source/gabac/reader.cpp:165-173 | with i leading zeros the value is 2^i plus the i suffix bits minus one, after 2 i + 1 bins, in the writer's contexts |
| Readers.ReadEGOne | source/gabac/reader.cpp:165-172 | a leading one reads 0 after one bin |
| Readers.Reader.constructor | source/gabac/reader.cpp:19-26 | a reader at the start of the decoded bins with no contexts requested |
| Readers.Reader.DecodeBin | source/gabac/reader.cpp:114 | returns the next bin and records the context it was asked in |
| Readers.Reader.DecodeBinsEP | source/gabac/reader.cpp:102 | returns the value of the next n bins, all bypass |
| Readers.Reader.ReadAsBIBypass | source/gabac/reader.cpp:99-103 | reads a BI code in bypass contexts |
| Readers.Reader.ReadAsBICabac | source/gabac/reader.cpp:106-117 | shifts in cLength bins in consecutive contexts; the result is their value modulo 2^32 (exact for at most 32 bins) |
| Readers.Reader.ReadUnary | source/gabac/reader.cpp:120-155 | the TU loop returns the TU value and consumes exactly its code, in the run's contexts; at cMax = 0 it reads no bin, the corrected half of the TU finding (see Left out) |
| Readers.Reader.ReadAsTUBypass | source/gabac/reader.cpp:120-133 | TU in bypass; at cMax = 0 it reads no bin, the corrected half of the TU finding (see Left out) |
| Readers.Reader.ReadAsTUCabac | source/gabac/reader.cpp:136-155 | TU in consecutive contexts from the TU context of the offset; at cMax = 0 it reads no bin, the corrected half of the TU finding (see Left out) |
| Readers.Reader.ReadExpGolomb | source/gabac/reader.cpp:158-197 | the EG reader returns the EG value and consumes exactly its code |
| Readers.Reader.CountZeros | source/gabac/reader.cpp:161-164 | counts the leading zeros and consumes them and the one |
| Readers.Reader.ReadAsEGBypass | source/gabac/reader.cpp:158-174 | EG in bypass |
| Readers.Reader.ReadAsEGCabac | source/gabac/reader.cpp:177-197 | EG with the prefix in consecutive contexts |
| Readers.Reader.UnmapSigned | source/gabac/reader.cpp:203-217 | maps an EG value to the signed value: even t to -(t/2), odd t to (t+1)/2 |
| Readers.Reader.ReadAsSEGBypass | source/gabac/reader.cpp:200-218 | SEG in bypass |
| Readers.Reader.ReadAsSEGCabac | source/gabac/reader.cpp:221-240 | SEG with cabac EG |
| Readers.Reader.ReadAsTEGBypass | source/gabac/reader.cpp:243-252 | TEG in bypass; at threshold 0 it reads no TU bin, the corrected half of the TU finding (see Left out) |
| Readers.Reader.ReadAsTEGCabac | source/gabac/reader.cpp:255-265 | TEG with cabac TU and EG; at threshold 0 it reads no TU bin, the corrected half of the TU finding (see Left out) |
| Readers.Reader.ReadSign | source/gabac/reader.cpp:274-281 | reads the sign bin |
| Readers.Reader.ReadAsSTEGBypass | source/gabac/reader.cpp:268-284 | STEG in bypass; at threshold 0 it reads no TU bin, the corrected half of the TU finding (see Left out) |
| Readers.Reader.ReadAsSTEGCabac | source/gabac/reader.cpp:287-304 | STEG with cabac TU, EG and sign; at threshold 0 it reads no TU bin, the corrected half of the TU finding (see Left out) |
| Readers.Reader.ReadBISymbol | source/gabac/reader.cpp:37-40 | the BI case of the dispatch, in bypass or adaptive contexts |
| Readers.Reader.ReadTUSymbol | source/gabac/reader.cpp:41-42 | the TU case of the dispatch |
| Readers.Reader.ReadEGSymbol | source/gabac/reader.cpp:43-44 | the EG case of the dispatch |
| Readers.Reader.ReadSEGSymbol | source/gabac/reader.cpp:45-46 | the SEG case of the dispatch |
| Readers.Reader.ReadTEGSymbol | source/gabac/reader.cpp:47-48 | the TEG case of the dispatch |
| Readers.Reader.ReadSTEGSymbol | source/gabac/reader.cpp:49-50 | the STEG case of the dispatch |
| Readers.Reader.ReadBypassValue | source/gabac/reader.cpp:32-57 | reads one symbol of the binarization in bypass and consumes exactly its code |
| Readers.Reader.ReadAdaptiveCabacValue | source/gabac/reader.cpp:60-96 | reads one symbol in the context set (prevValue << 2) + prevPrevValue |
| Readers.Reader.ReadNumSymbols | source/gabac/reader.cpp:307-311 | reads the 32-bit symbol count in bypass |
| Writers.Writer.constructor | source/gabac/writer.cpp:60-67 | a writer that has emitted no bins |
| Writers.Writer.EncodeBin | source/gabac/writer.cpp:199 | emits one bin in its context |
| Writers.Writer.EncodeBinsEP | source/gabac/writer.cpp:183 | emits the n-bit string of the value in bypass |
| Writers.Writer.WriteAsBIBypass | source/gabac/writer.cpp:178-184 | emits the BI code of the input in bypass |
| Writers.Writer.WriteAsBICabac | source/gabac/writer.cpp:187-201 | emits the BI code bin by bin in consecutive contexts from the BI context of the offset |
| Writers.Writer.WriteUnary | source/gabac/writer.cpp:204-241 | the TU loop emits the TU code in the run's contexts |
| Writers.Writer.WriteAsTUBypass | source/gabac/writer.cpp:204-218 | TU in bypass |
| Writers.Writer.WriteAsTUCabac | source/gabac/writer.cpp:221-241 | TU in consecutive contexts |
| Writers.Writer.EncodeEGBypass | source/gabac/writer.cpp:249-252 | for x + 1 below 2^32 emits the EG code in bypass; the bit length is exact, the corrected half of the bitLength finding (see Left out) |
| Writers.Writer.WriteAsEGBypass | source/gabac/writer.cpp:244-253 | for every value EG accepts, emits the EG code of the input; the bit length is exact, the corrected half of the bitLength finding (see Left out) |
| Writers.Writer.EncodeZeros | source/gabac/writer.cpp:270-273 | emits n zeros in the run's contexts |
| Writers.Writer.EncodeEGCabac | source/gabac/writer.cpp:262-285 | emits the prefix in consecutive contexts and the suffix bypass; the bit length is exact, the corrected half of the bitLength finding (see Left out) |
| Writers.Writer.WriteAsEGCabac | source/gabac/writer.cpp:256-286 | EG in cabac contexts; the bit length is exact, the corrected half of the bitLength finding (see Left out) |
| Writers.Writer.WriteAsSEGBypass | source/gabac/writer.cpp:289-301 | emits the SEG code of the signed input; the bit length is exact, the corrected half of the bitLength finding (see Left out) |
| Writers.Writer.WriteAsSEGCabac | source/gabac/writer.cpp:304-318 | SEG in cabac contexts; the bit length is exact, the corrected half of the bitLength finding (see Left out) |
| Writers.Writer.WriteAsTEGBypass | source/gabac/writer.cpp:321-336 | TU below the threshold, else TU of the threshold and EG of the rest; the bit length is exact, the corrected half of the bitLength finding (see Left out) |
| Writers.Writer.WriteAsTEGCabac | source/gabac/writer.cpp:339-355 | TEG in cabac contexts; the bit length is exact, the corrected half of the bitLength finding (see Left out) |
| Writers.Writer.WriteAsSTEGBypass | source/gabac/writer.cpp:358-378 | TEG of the magnitude and, for nonzero inputs, sign bin 1 for negative and 0 for positive |
| Writers.Writer.WriteAsSTEGCabac | source/gabac/writer.cpp:381-402 | STEG in cabac contexts |
| Writers.Writer.WriteSymbol | source/gabac/encoding.cpp:109-170 | the write function the encoder selects emits the symbol's bins for the binarization and context mode |
| Writers.Writer.WriteBypassValue | source/gabac/writer.cpp:87-121 | dispatches on the binarization and emits its bypass bins |
| Writers.Writer.WriteCabacAdaptiveValue | source/gabac/writer.cpp:123-175 | dispatches on the binarization with context set (prevValue << 2) + prevPrevValue |
| Writers.Writer.WriteNumSymbols | source/gabac/writer.cpp:405-409 | emits the symbol count as 32 bypass bins |
| Symbols.EncodableIsSbCheck | source/gabac/constants.cpp:22-101 | the values the writer accepts are exactly those sbCheck(x, x, p) of the binarization admits |
| Symbols.Parameter | source/gabac/encoding.cpp:104-107 | the binarization parameter is the first entry of the list, 0 when the list is empty |
| Symbols.ValuesSymbolBins | source/gabac/writer.cpp:87-175 | in bypass and in every context set a symbol's bin values are the same binarization code; only the contexts differ |
| Symbols.ReadSymbol | source/gabac/reader.cpp:32-57 | decoding one symbol consumes no more than the input holds, and the unsigned binarizations yield no negative value |
| Symbols.SymbolRoundTrip | source/gabac/reader.cpp:32-96 | for every value the writer accepts, the reader returns it from its code followed by anything and consumes exactly the code; this is the round trip of the corrected writer and reader (see Left out) |
| Symbols.ReadSymbolExact | source/gabac/reader.cpp:32-57 | whatever the reader decodes, the bins it consumed are exactly the writer's code of the decoded value |
| Streams.ModeOf | source/gabac/encoding.cpp:109-236 | a symbol is bypass-coded exactly under context selection 0; otherwise its context set is below 16 |
| Streams.Next | source/gabac/decoding.cpp:130-180 | order 1 sets the previous symbol to the clamped magnitude; order 2 also shifts the old one into the previous-previous slot; bypass and order 0 keep no history |
| Streams.StreamBinsAt | source/gabac/encoding.cpp:172-236 | the bins of a stream are the bins of its first symbol, in the mode of the current history, followed by those of the rest in the next history |
| Streams.ValuesStreamBins | source/gabac/encoding.cpp:109-236 | the bin values of a stream do not depend on the context selection: they are the concatenated symbol codes |
| Streams.ReadSymbols | source/gabac/decoding.cpp:110-184 | decoding n symbols yields n representable values and consumes no more than the input |
| Streams.StreamRoundTrip | source/gabac/decoding.cpp:110-184 | the stream of codes of accepted symbols, followed by anything, decodes to those symbols and consumes exactly the codes; this is the round trip of the corrected writer and reader (see Left out) |
| Streams.Count | source/gabac/reader.cpp:307-311 | the symbol count read from the first 32 bins is below 2^32 |
| Streams.DecodeSpec | source/gabac/decoding.cpp:88-189 | a successful decode yields as many symbols as the count says; failure happens only for an unknown context selection |
| Streams.CodecRoundTrip | source/gabac/decoding.cpp:88-189 | decoding what encode wrote, for any known context selection and accepted symbols, succeeds and returns the symbols; this is the round trip of the corrected writer and reader (see Left out) |
| Encoding.Encode | source/gabac/encoding.cpp:87-244 | succeeds exactly for a known context selection, emitting the 32-bit count then every symbol's bins; otherwise fails after the count |
| Encoding.WriteBypassStream | source/gabac/encoding.cpp:109-145 | emits every symbol's bypass bins |
| Encoding.WriteOrder0Stream | source/gabac/encoding.cpp:172-182 | emits every symbol in context set 0 |
| Encoding.WriteOrder1Stream | source/gabac/encoding.cpp:183-208 | emits every symbol in the context set of the previous symbol |
| Encoding.WriteOrder2Stream | source/gabac/encoding.cpp:209-236 | emits every symbol in the context set of the two previous symbols |
| Decoding.SymbolBuffer.constructor | source/gabac/decoding.cpp:88-93 | a symbol vector holding the given symbols |
| Decoding.Resize | source/gabac/decoding.cpp:104 | resizing keeps the first symbols and fills new slots with 0 |
| Decoding.DecodeSymbol | source/gabac/decoding.cpp:112-180 | reads the next symbol in the mode of the history, consumes its code, requests the writer's contexts, and updates the history |
| Decoding.DecodeNext | source/gabac/decoding.cpp:110-184 | one pass of the loop extends the decoded prefix by the next symbol |
| Decoding.DecodeStream | source/gabac/decoding.cpp:110-184 | the loop stores the n decoded symbols and requests exactly the contexts the encoder used for them |
| Decoding.SpecOfUnknown | source/gabac/decoding.cpp:180-183 | with at least one symbol, an unknown context selection fails |
| Decoding.Decode | source/gabac/decoding.cpp:88-189 | fails without an output; otherwise returns the decode status and symbols, and on success requests exactly the contexts encode used for them |
| Helpers.GenerateByteBuffer | source/gabacify/helpers.cpp:119-187 | byte k of symbol i, at position i * wordSize + k, is byte k of the symbol's little-endian form (source/transformify/helpers.cpp:23-87 is the same loop over a std::vector) |
| Helpers.EncodeWordsBytes | source/gabacify/helpers.cpp:119-187 | the buffer holds wordSize bytes per symbol, each the matching byte of the value |
| Helpers.GenerateSymbolStream | source/gabacify/helpers.cpp:190-263 | one symbol per wordSize bytes, read little-endian, and packing them again gives back the buffer (source/transformify/helpers.cpp:90-163 is the same loop over a std::vector) |
| Helpers.TypeMin | source/gabacify/helpers.cpp:29-46 | the minimum of the signed type of the word size is negative |
| Helpers.TypeMax | source/gabacify/helpers.cpp:29-46 | the maximum of the signed type of the word size is positive |
| Helpers.DeriveMinMaxAsWritten | source/gabacify/helpers.cpp:15-88 | the scan as written, starting from the type's max and min and comparing symbols as uint64_t, with the early stop |
| Helpers.DerivedMaxAsWrittenStuck | source/gabacify/helpers.cpp:62-77 | as written, non-negative symbols never raise the maximum above the type minimum, which is below every symbol |
| Helpers.DerivedMinMaxAsWrittenExample | source/gabacify/helpers.cpp:62-77 | the single symbol 5 at word size 1 gives minimum 5 and maximum -128 |
| Helpers.DeriveMinMax | source/gabacify/helpers.cpp:15-88 | with signed comparisons, for symbols in the type's range or non-negative, the results bound every symbol and are symbols themselves |
| Helpers.FoldMinIsMin | source/gabacify/helpers.cpp:62-77 | the running minimum is at most every symbol and the start, and is one of them |
| Helpers.FoldMaxIsMax | source/gabacify/helpers.cpp:62-77 | the running maximum is at least every symbol and the start, and is one of them |
| Helpers.ScanIsFold | source/gabacify/helpers.cpp:62-77 | the early stop at the type's bounds loses nothing when the symbols fit the type |
| Helpers.DerivedMinMaxBounds | source/gabacify/helpers.cpp:15-88 | the derived minimum and maximum are symbols and bound every symbol |
| Helpers.DeriveMinMaxUnsigned | source/gabacify/helpers.cpp:91-108 | UINT64_MAX and 0 for no symbols; otherwise the smallest and largest symbols |
| Configs.BinarizationParameterChoices | source/python_api/gabac_conf_gen.py:43 | the binarization parameters to choose from are exactly 0 to 31 |
| Configs.NumTransformedSeq | source/python_api/gabac_conf_gen.py:90-94 | every variant has one to three transformed sequences |
| Configs.SubTemplateShape | source/python_api/gabac_conf_gen.py:24-50 | the per-sequence template has six keys, each a constant or a nonempty list of choices |
| Configs.VariantTemplateShape | source/python_api/gabac_conf_gen.py:56-88 | every variant template has three keys, each a constant or a nonempty list of choices |
| Configs.ListKeys | source/python_api/gabac_conf_gen.py:109-113 | the keys collected are template keys whose value is a list |
| Configs.ListKeysChoose | source/python_api/gabac_conf_gen.py:109-113 | every collected key is a key random.choice can draw for |
| Configs.Pick | source/python_api/gabac_conf_gen.py:139-149 | a draw picks a value the key admits |
| Configs.AssignConforms | source/python_api/gabac_conf_gen.py:157-160 | drawing every list key of a template yields a configuration that conforms to it |
| Configs.AssignKeys | source/python_api/gabac_conf_gen.py:157-160 | drawing keeps the template's keys |
| Configs.AssignFits | source/python_api/gabac_conf_gen.py:159-160 | each drawn key holds a value the template admits |
| Configs.AssignKeeps | source/python_api/gabac_conf_gen.py:157 | keys whose template value is constant keep it |
| Configs.WalkConforms | source/python_api/gabac_conf_gen.py:165-180 | the per-sequence walk over the template's keys yields a conforming sub-configuration |
| Configs.WalkKeys | source/python_api/gabac_conf_gen.py:165-180 | the walk keeps the template's keys |
| Configs.WalkFits | source/python_api/gabac_conf_gen.py:167-178 | every key the walk passed holds a value the template admits |
| Configs.WalkListKey | source/python_api/gabac_conf_gen.py:167-178 | the j-th list key is set from the j-th draw |
| Configs.WalkKeeps | source/python_api/gabac_conf_gen.py:165 | constant keys keep the template's value |
| Configs.SubListKeysExact | source/python_api/gabac_conf_gen.py:24-50 | the per-sequence list keys are exactly the keys whose template value is a list |
| Configs.SubListKeys | source/python_api/gabac_conf_gen.py:116-118 | the per-sequence list keys in template order are lut enabled, diff enabled, binarization id, binarization parameters and context selection |
| Configs.MainListKeys | source/python_api/gabac_conf_gen.py:109-113 | the variant's list keys are exactly the list-valued keys of its template |
| Configs.RandomSubs | source/python_api/gabac_conf_gen.py:164-181 | one sub-configuration per transformed sequence |
| Configs.RandomSubConforms | source/python_api/gabac_conf_gen.py:165-181 | a random sub-configuration conforms to the per-sequence template |
| Configs.RandomSubsConform | source/python_api/gabac_conf_gen.py:164-181 | every random sub-configuration conforms |
| Configs.MainParams | source/python_api/gabac_conf_gen.py:121-123 | one mutable parameter per main list key, in order |
| Configs.SubParamsAt | source/python_api/gabac_conf_gen.py:117-119 | one (key, idx) parameter per per-sequence list key, in order |
| Configs.SubParams | source/python_api/gabac_conf_gen.py:115-119 | five parameters per transformed sequence, each naming a list key and a sequence index in range |
| Configs.ParamsOf | source/python_api/gabac_conf_gen.py:108-126 | the main list keys then five per transformed sequence, each a valid mutable parameter |
| Configs.Retry | source/python_api/gabac_conf_gen.py:138-146 | the retry loop ends only on a value that differs from the current one and that the key admits |
| ConfigProperties.MainListKeysValue | source/python_api/gabac_conf_gen.py:109-113 | the main list keys are those the constructor's loop collects |
| ConfigProperties.RandomConfigWellFormed | source/python_api/gabac_conf_gen.py:155-183 | a random configuration is well formed, with one sub-configuration per transformed sequence |
| ConfigProperties.SubDraws | source/python_api/gabac_conf_gen.py:165-180 | a random sub-configuration keeps the template's keys, sets list key j from draw j and keeps the LUT parameter 0 |
| ConfigProperties.RandomSubsAt | source/python_api/gabac_conf_gen.py:164-181 | sub-configuration n is drawn from the five draws after the main keys' and those of the n earlier sequences |
| ConfigProperties.RandomSubsIndex | source/python_api/gabac_conf_gen.py:164-181 | sub-configuration n starts at draw 5 n |
| ConfigProperties.BinarizationParametersAsList | source/python_api/gabac_conf_gen.py:169-174 | binarization_parameters is a one-element list holding a value from 0 to 31 |
| ConfigProperties.ParamsOfComplete | source/python_api/gabac_conf_gen.py:108-126 | a parameter is mutable exactly when it is valid for the variant |
| ConfigProperties.ValidParamListKey | source/python_api/gabac_conf_gen.py:108-126 | every mutable parameter names a list-valued key |
| ConfigProperties.RetryNone | source/python_api/gabac_conf_gen.py:138-146 | the retry runs out of draws exactly when every draw repeats the current value |
| ConfigProperties.NeighborMain | source/python_api/gabac_conf_gen.py:148-151 | a main parameter is redrawn without comparing to the old value; nothing else changes |
| ConfigProperties.NeighborSub | source/python_api/gabac_conf_gen.py:137-146 | a sub parameter changes to a different value in its sequence; nothing else changes |
| ConfigProperties.NeighborSubNone | source/python_api/gabac_conf_gen.py:138-146 | the neighbour is missing exactly when every draw repeats the current value |
| ConfigProperties.NeighborWellFormed | source/python_api/gabac_conf_gen.py:128-153 | a neighbour of a well-formed configuration is well formed |
| ConfigProperties.NeighborViaWellFormed | source/python_api/gabac_conf_gen.py:128-153 | the neighbour through any mutable parameter is well formed |
| ConfigProperties.MainNeighborMayRepeat | source/python_api/gabac_conf_gen.py:148-151 | a match configuration can be its own neighbour, because the main branch does not compare against the old value |
| ConfigProperties.NeighborUnfold | source/python_api/gabac_conf_gen.py:133 | the first draw picks the mutable parameter |
| ConfGen.GabacConfiguration.constructor | source/python_api/gabac_conf_gen.py:97-126 | stores the variant and the roundtrip flag and collects the main list keys then the (key, idx) pairs |
| ConfGen.GabacConfiguration.GenerateRandomConfig | source/python_api/gabac_conf_gen.py:155-183 | with enough draws, returns the random configuration of the draws, which is well formed |
| ConfGen.GabacConfiguration.GenerateRandomNeighbor | source/python_api/gabac_conf_gen.py:128-153 | returns the neighbour of the draws, which is well formed |
| ConfGen.RetryLoop | source/python_api/gabac_conf_gen.py:138-146 | the while-True loop returns the first draw that differs from the current value |
| ConfGen.AssignDraws | source/python_api/gabac_conf_gen.py:159-160 | the loop over the main list keys assigns each from its draw |
| ConfGen.FillSubs | source/python_api/gabac_conf_gen.py:164-181 | the loop appends the sub-configurations in order |
| ConfGen.FillSub | source/python_api/gabac_conf_gen.py:165-180 | the loop over the template's keys builds the sub-configuration |
| ConfGen.CollectListKeys | source/python_api/gabac_conf_gen.py:109-113 | the constructor's loop collects the list keys in template order |
| ConfGen.CollectSubParams | source/python_api/gabac_conf_gen.py:117-119 | the inner loop collects (key, idx) for the list keys |
| AnalysisSpec.CeilLog2 | source/gabacify/analysis.cpp:144 | the exact ceil(log2(x)): the least p with x <= 2^p |
| AnalysisSpec.BitLength | source/gabacify/analysis.cpp:144 | the least p with x < 2^p, the width BI needs for x |
| AnalysisSpec.BiParameterAsWritten | source/gabacify/analysis.cpp:144-145 | the BI parameter as written, min(ceil(log2(max)), 63), or 1 for max <= 0, is below 64 |
| AnalysisSpec.BiParameter | source/gabacify/analysis.cpp:144-145 | the BI parameter with the width max needs, capped at 63, is below 64 |
| AnalysisSpec.ParamCandidates | source/gabacify/analysis.cpp:145-150 | every parameter candidate of a binarization is one its range check is defined for; BI is offered the corrected bit length of max (see Left out) |
| AnalysisSpec.ContextCands | source/gabacify/analysis.cpp:112-130 | one candidate per context selection tried |
| AnalysisSpec.Absorb | source/gabacify/analysis.cpp:341-370 | absorbing a stream's best keeps one configuration per transformed sequence |
| AnalysisSpec.Assemble | source/gabacify/analysis.cpp:335-370 | the assembly keeps one configuration per transformed sequence |
| AnalysisSpec.Resize | source/gabacify/analysis.cpp:329 | resizing gives exactly n stream configurations |
| AnalysisSpec.FixedSizesKnown | source/gabacify/analysis.cpp:337-340 | with a known word size, every fixed word size of a transformation is 1, 2, 4 or 8 |
| AnalysisProperties.FoldConcat | source/gabacify/analysis.cpp:112-130 | running the best-so-far over two candidate lists in turn is running it over their concatenation |
| AnalysisProperties.FoldOptimal | source/gabacify/analysis.cpp:122-127 | the kept best is the start or the framed stream of a candidate, is no longer than any candidate's framed stream, and never grows |
| AnalysisProperties.FoldBytes | source/gabacify/analysis.cpp:122-127 | the kept bytes depend only on the bytes, not the configuration, of the start |
| AnalysisProperties.ContextCandsSound | source/gabacify/analysis.cpp:112-130 | every context candidate is the encoding of the sequence under its configuration |
| AnalysisProperties.ContextCandsComplete | source/gabacify/analysis.cpp:112-130 | every tried context selection yields a candidate |
| AnalysisProperties.ParamCandsSound | source/gabacify/analysis.cpp:152-174 | every parameter candidate passed sbCheck and is the encoding under its configuration |
| AnalysisProperties.ParamCandsComplete | source/gabacify/analysis.cpp:152-174 | every candidate parameter sbCheck accepts yields a candidate for every context selection |
| AnalysisProperties.BinCandsSound | source/gabacify/analysis.cpp:188-214 | candidates use the unsigned binarizations for a non-negative minimum and the signed ones otherwise, each a legal encoding |
| AnalysisProperties.DiffCandsSound | source/gabacify/analysis.cpp:226-235 | every diff candidate encodes the diff-transformed sequence with a tried diff setting |
| AnalysisProperties.LutCandsSound | source/gabacify/analysis.cpp:246-289 | every LUT candidate keeps the LUT order and is a legal stream candidate |
| AnalysisProperties.OrderCandsSound | source/gabacify/analysis.cpp:299-304 | every LUT-order candidate is a legal stream candidate |
| AnalysisProperties.StreamBestOptimal | source/gabacify/analysis.cpp:294-305 | the best of a stream is empty exactly when there is no candidate; otherwise it is the framed stream of a legal candidate no longer than any other |
| AnalysisProperties.BiAsWrittenRejectsPowersOfTwo | source/gabacify/analysis.cpp:144-145 | for a maximum 2^k the BI parameter as written is k, which sbCheck rejects |
| AnalysisProperties.BiParameterFits | source/gabacify/analysis.cpp:144-145 | the corrected parameter passes sbCheck and no smaller one does |
| AnalysisProperties.BitLengthOfPow2 | source/gabacify/analysis.cpp:144-145 | 2^k needs k + 1 bits, one more than ceil(log2(2^k)) |
| AnalysisProperties.CeilLog2OfNonPow2 | source/gabacify/analysis.cpp:144-145 | when x is no power of two, ceil(log2(x)) is the bit length of x |
| AnalysisProperties.BiParameterAgrees | source/gabacify/analysis.cpp:144-145 | the BI parameter as written and the corrected one are equal exactly when max <= 0 or max is no power of two |
| AnalysisProperties.StreamBestBytes | source/gabacify/analysis.cpp:296-303 | the bytes found do not depend on the entry configuration |
| AnalysisProperties.AbsorbSpec | source/gabacify/analysis.cpp:352-369 | a stream fails when its best is empty or the running size reaches the best so far; otherwise it is appended |
| AnalysisProperties.AssembleSpec | source/gabacify/analysis.cpp:335-370 | assembly succeeds exactly when every stream has a best and their concatenation is shorter than the best so far, and then yields that concatenation |
| AnalysisProperties.ImprovesTransitive | source/gabacify/analysis.cpp:382-389 | replacing the best only by strictly shorter nonempty streams is transitive |
| AnalysisProperties.TryParameterSpec | source/gabacify/analysis.cpp:315-390 | one parameter records itself in the current configuration and replaces the best exactly when the assembly succeeds and is shorter |
| AnalysisProperties.TryParameterImproves | source/gabacify/analysis.cpp:315-390 | one parameter never makes the best longer or empty |
| AnalysisProperties.TryParametersImprove | source/gabacify/analysis.cpp:315-390 | nor does the loop over the parameters |
| AnalysisProperties.TryTransformationsImprove | source/gabacify/analysis.cpp:406-422 | nor does the loop over the transformations |
| AnalysisProperties.TryTransformationImproves | source/gabacify/analysis.cpp:406-422 | each transformation improves on the previous best |
| AnalysisProperties.AnalyzeOutcome | source/gabacify/analysis.cpp:427-467 | the analysis dies exactly when the first word size finds nothing; otherwise its best is nonempty and no worse than the first; input not a multiple of 4 keeps the word-size-1 result |
| Analysis.OptimumOfBinarizationParameter | source/gabacify/analysis.cpp:103-131 | the loop over context selections leaves the best of the start and the context candidates |
| Analysis.OptimumOfBinarization | source/gabacify/analysis.cpp:135-175 | the loop over parameters leaves the best of the start and the parameter candidates; the candidates are the corrected ones (see Left out) |
| Analysis.OptimumOfDiffTransformedStream | source/gabacify/analysis.cpp:179-215 | the loop over binarizations leaves the best of the start and the binarization candidates; min and max come from the corrected signed scan (see Left out) |
| Analysis.OptimumOfLutTransformedStream | source/gabacify/analysis.cpp:219-236 | the loop over diff settings leaves the best of the start and the diff candidates |
| Analysis.OptimumOfLutOrder | source/gabacify/analysis.cpp:240-290 | the loop over LUT settings, skipping a disabled LUT at order 1 and a failed LUT, leaves the best of the LUT candidates |
| Analysis.OptimumOfTransformedStream | source/gabacify/analysis.cpp:294-305 | the loop over LUT orders leaves the stream's best |
| Analysis.AssembleStreams | source/gabacify/analysis.cpp:333-370 | the loop over the transformed sequences computes the assembly, stopping at the first failure |
| Analysis.SequenceTransformStep | source/gabacify/analysis.cpp:316-390 | one pass over a parameter computes the outcome of trying it |
| Analysis.OptimumOfSequenceTransform | source/gabacify/analysis.cpp:309-392 | the loop over the parameters computes the search over them |
| Analysis.OptimumOfSymbolSequence | source/gabacify/analysis.cpp:396-423 | the loop over the transformations, each with its parameter list, computes the search over them |
| Analysis.NoConfigFoundStays | source/gabacify/analysis.cpp:464-467 | once a word size dies, the analysis stays dead |
| Analysis.EncodeAnalyze | source/gabacify/analysis.cpp:427-467 | the loop over word sizes computes the analysis outcome |
| Annealing.Temperature | source/python_api/gabac_sa.py:69-73 | the temperature is kt at step 0 and 0 at step kmax |
| Annealing.TemperatureBounds | source/python_api/gabac_sa.py:69-73 | below kmax the temperature is positive and at most kt |
| Annealing.TemperatureLinear | source/python_api/gabac_sa.py:69-73 | the temperature falls by kt / kmax per step |
| Annealing.Step | source/python_api/gabac_sa.py:85-125 | a step appends one result row and keeps the earlier ones |
| Annealing.Run | source/python_api/gabac_sa.py:84-125 | n steps produce n result rows |
| Annealing.MinEnergy | source/python_api/gabac_sa.py:121-125 | the least of the start energy and the kept energies, and one of them |
| Annealing.StepMoves | source/python_api/gabac_sa.py:86-125 | a downhill or equal move is taken, an uphill one only when the acceptance test says so; the best is replaced only by a strictly lower energy; the row records the new, best and current energy |
| Annealing.RunRows | source/python_api/gabac_sa.py:84-125 | later steps never rewrite earlier rows, and row n records step n |
| Annealing.RunBest | source/python_api/gabac_sa.py:121-125 | the best energy is the least of the start and every kept energy, and the last row holds it |
| Annealing.RunBestNeverIncreases | source/python_api/gabac_sa.py:121-125 | the best energy never increases with more steps |
| Annealing.BestColumn | source/python_api/gabac_sa.py:125 | the best-energy column of the result does not increase |
| Annealing.RunEnergies | source/python_api/gabac_sa.py:84-125 | the current and best energies are the energies of the current and best states |
| Annealing.SimulatedAnnealing.constructor | source/python_api/gabac_sa.py:48-67 | stores kmax, kt, the start state and its energy |
| Annealing.SimulatedAnnealing.Start | source/python_api/gabac_sa.py:75-128 | returns the best state and energy of the kmax-step run and fills the kmax-by-3 result table with its rows |
| Annealing.Iteration | source/python_api/gabac_sa.py:85-125 | one pass of the loop is one step and fills row k of the table only |

## Left out

- The C wrappers `gabac_encode` and `gabac_decode` (source/gabac/encoding.cpp:17-76, source/gabac/decoding.cpp:17-77), the C interface and `GabacConfiguration.run_gabac`: malloc and FFI glue with no logic of their own.
- File and stream I/O, program options and logging: the model receives its inputs and returns its outputs as values.
- JSON reading and writing of configurations: the model uses configuration records directly.
- The binary arithmetic coder and the context models: bins go to an abstract channel. The context tables (context_tables.h) are not part of this model, so the context offsets are a layout parameter.
- Floating point: `shannonEntropy` is not modelled.
- Floating point: the annealer's `exp` acceptance test is an injected boolean.
- Floating point: the annealer's energy is a real number, not the tuple returned by `run_gabac`.
- Floating point: the `ceil(log2(max))` of the BI parameter is the exact integer `AnalysisSpec.CeilLog2` in the as-written half (`AnalysisSpec.BiParameterAsWritten`). The search itself offers the corrected bit length; see the `AnalysisSpec.ParamCandidates` line below.
- Randomness in the Python tools: each `random` call is an injected draw taken modulo the size of its domain. `deepcopy` is value semantics.
- The codec functions that the analysis calls (`encode`, `doSequenceTransform`, `doLutTransform`, `doDiffTransform`) are an oracle record.
- `appendToBytestream` is not part of this model. It is taken to write a 4-byte little-endian length followed by the payload.
- The analysis's `TransformedSequenceConfiguration`, which the source leaves uninitialised in one path, is taken to be the blank configuration.
- `GABACIFY_DIE` in the analysis becomes the `NoConfigFound` error result.
- genetic_algo.py: it is unfinished and cannot run as written.
- buffer_input_stream.cpp: its reader does not invert the writer, and nothing in the model reads a buffer stream back. The writer's inverse is stated by `BufferOutputStreams.ParseFrame`.
- The transformify helpers (source/transformify/helpers.cpp:23-163): the same packing loops over `std::vector`, modelled once by `Helpers.GenerateByteBuffer` and `Helpers.GenerateSymbolStream`.
- Memory: `DataBlock`, `DataStream` and `BlockStepper` hold a byte sequence, not raw memory. A stepper's pointers are indices into the block it was made from. Word access assumes a little-endian host.
- Integer widths: `size_t` products in the LUT size computation are exact, with no wrap. With fewer than 2^20 symbols and order at most 2 they stay below 2^64.
- Unsupported word sizes: a word size other than 1, 2, 4 or 8 reads as 0 and ignores writes, like the source's switch, which has no matching case.
- DiffCoding: the specification is stated modulo the word modulus 256^wordSize, not over the intermediate 64-bit wrap. `Bytes.TruncWrap` shows the two agree after truncation.
- EqualityCoding.InverseTransformEqualityCoding: requires at most as many raw values as zero flags. Reading past the raw stream is undefined behaviour in the source.
- RleCoding.InverseTransformRleCoding: requires a nonempty raw stream, which the source asserts. It also requires decodable streams, because a run length without a following raw value makes the source read past its end.
- MatchCoding.InverseTransformMatchCoding: requires decodable streams, with no pointer past the output built so far. Otherwise the source reads outside its buffer.
- MatchCoding.TransformMatchCoding: requires fewer than 2^64 symbols, because positions are 64-bit in the source.
- LutTransform.InverseCore: requires every transformed value below the table size. The source only needs the index to be in bounds, which the forward transform's output meets.
- Readers.Reader.ReadAsBICabac: the value is exact only up to 32 bins. Beyond that the source's 32-bit accumulator wraps, and the model states the value modulo 2^32.
- DataBlocks.DataBlock.Insert: requires the source block to have the same word size and to be a different block. The source copies raw bytes between blocks whatever their word sizes.
- Readers.Reader.ReadUnary: this is the corrected TU reader of the reader.cpp:120-133 finding. With cMax = 0 it returns 0 without reading a bin, where the source reads one. For cMax >= 1 the two agree (`Binarizations.ReadTUAsWrittenAgrees`).
- Readers.Reader.ReadAsTUBypass: it reads TU through `ReadUnary`, so with parameter 0 it reads no bin, where the source reads one.
- Readers.Reader.ReadAsTUCabac: the same difference at parameter 0, in cabac contexts.
- Readers.Reader.ReadAsTEGBypass: with threshold 0 it reads no TU bin, where the source reads one. So the bins 0 1 0 decode to 1 here and to 0 in the source (`Binarizations.TEGZeroAsWrittenMisreads`). Thresholds of 1 and more agree.
- Readers.Reader.ReadAsTEGCabac: the same threshold-0 difference, in cabac contexts.
- Readers.Reader.ReadAsSTEGBypass: its magnitude is read by TEG, so it has the same threshold-0 difference.
- Readers.Reader.ReadAsSTEGCabac: the same threshold-0 difference, in cabac contexts.
- Writers.Writer.EncodeEGBypass: it uses the exact bit length, the corrected half of the writer.cpp:22-57 finding. The source's `bitLength` stops at 31 bits, so for x + 1 at or above 2^31 the source emits other bins. Below 2^31 the two agree (`Binarizations.EGAsWrittenBelow2To31`).
- Writers.Writer.WriteAsEGBypass: it has the same difference through `EncodeEGBypass`. For INT32_MAX the source's bins read back as 2^29 - 1 (`Binarizations.EGAsWrittenMisreadsInt32Max`), while the model emits the code of INT32_MAX.
- Writers.Writer.EncodeEGCabac: it uses the exact bit length where writer.cpp:267 calls `bitLength`. The same difference applies for x + 1 at or above 2^31.
- Writers.Writer.WriteAsEGCabac: it has the same difference through `EncodeEGCabac`.
- Writers.Writer.WriteAsSEGBypass: SEG of INT32_MIN / 2 maps to EG of 2^31, where the source's bins differ.
- Writers.Writer.WriteAsSEGCabac: the same difference at INT32_MIN / 2, in cabac contexts.
- Writers.Writer.WriteAsTEGBypass: TEG of INT32_MAX + p reaches EG of INT32_MAX, where the source's bins differ.
- Writers.Writer.WriteAsTEGCabac: the same difference at INT32_MAX + p, in cabac contexts.
- Symbols.SymbolRoundTrip: this is the round trip of the corrected writer and reader. GABAC as written lacks it in two cases: TU, TEG and STEG with parameter 0, and EG values with x + 1 at or above 2^31.
- Streams.StreamRoundTrip: it has the same restriction; it holds for the corrected writer and reader.
- Streams.CodecRoundTrip: it has the same restriction. decode(encode(s)) = s is proved for the corrected codec. The symbol dispatchers, `Symbols.ReadSymbolExact` and the Encoding and Decoding loops all use that codec.
- AnalysisSpec.ParamCandidates: it offers BI the bit length of the maximum (`AnalysisSpec.BiParameter`), the corrected half of the analysis.cpp:144-145 finding. The source's `ceil(log2(max))` differs from it exactly when the maximum is a power of two (`AnalysisProperties.BiParameterAgrees`).
- Analysis.OptimumOfBinarization: it searches those corrected candidates. Its TU candidate also comes from the corrected maximum.
- Analysis.OptimumOfDiffTransformedStream: it derives the minimum and maximum with the corrected signed scan (`Helpers.DeriveMinMax`), the corrected half of the helpers.cpp:62-77 finding. The source's scan keeps the maximum at the type minimum for non-negative symbols. For [5] at word size 1 the source therefore tries BI with 1 bit and TU with 255. The model tries BI with 3 bits and TU with 5 (`Helpers.DerivedMinMaxAsWrittenExample`).
- Steppers: every transform requires the block's byte count to be a multiple of its word size, as `getReader` assumes.

## Findings

| source | as written | input that shows it | evidently intended | confidence | as-written member | corrected member |
|---|---|---|---|---|---|---|
| source/gabac/writer.cpp:22-57 | `bitLength` of 2^31 is 31, so the EG writer emits a prefix one zero short for INT32_MAX | EG bypass of x = 2147483647 (x + 1 = 2^31): 29 zeros, a one and 31 zeros; the reader returns 2^29 - 1 | the exact bit length 32, giving the EG code that reads back as x | not executed | Binarizations.EGAsWrittenMisreadsInt32Max | Binarizations.ReadEGRoundTrip |
| source/gabac/reader.cpp:120-133 | the TU reader reads a bin before comparing the count with cMax, so with cMax = 0 it consumes a bin | TEG with threshold 0 writing 1: bins 0 1 0 decode to 0 after two bits | with cMax = 0 return 0 without reading | not executed | Binarizations.TEGZeroAsWrittenMisreads | Binarizations.TEGRoundTrip |
| source/gabac/data_stream.h:50-53 | `get`/`set` compare the element index with the byte count | word size 2, two bytes, index 1: the check passes, but the access covers bytes 2 and 3 | compare with the element count | not executed | DataStreams.IndexCheckAdmitsOutOfBounds | DataStreams.CheckedIndexInBounds |
| source/gabac/lut_transform.cpp:298-335 | `inferLut` returns early only for empty input. If `inferLut0` gave up, the order-1 count loop looks symbols up in the empty order-0 table | the symbols 0 .. 2^20 - 1 at order 1 | return with empty tables when the order-0 table is empty | not executed | LutTransform.AsWrittenCountsAfterFailure | LutTransform.InferLut |
| source/gabacify/helpers.cpp:62-77 | the symbols are compared with the signed bounds as `uint64_t`, so the maximum is never raised | the single symbol 5 at word size 1 gives minimum 5 and maximum -128 | signed comparisons, giving 5 and 5 | not executed | Helpers.DerivedMinMaxAsWrittenExample | Helpers.DerivedMinMaxBounds |
| source/gabacify/analysis.cpp:144-145 | the BI parameter is `ceil(log2(max))`, one bit short when max is a power of two | max = 4 gives 2 bits, which cannot hold 4, and the candidate fails sbCheck | the bit length of max | not executed | AnalysisProperties.BiAsWrittenRejectsPowersOfTwo | AnalysisProperties.BiParameterFits |
| source/gabac/data_block.h:294-303 | `insert` uses element positions as byte offsets | word size 2: inserting word 1 of [7, 8] at word 1 of [1] gives 3 bytes, not the words [1, 8] | scale the positions by the word size | not executed | DataBlocks.InsertAsWrittenSplitsWords | DataBlocks.InsertWordsSpec |
