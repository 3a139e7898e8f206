# Nimble, modelled in Dafny

Nimble stores columns of values in files.  A column is split into streams, a stream is encoded as a tree of
encodings, and every encoding is read through a cursor that can materialize the next rows, skip rows and start
again.  Above the encodings, readers and writers carry state across batches: arrays that repeat are stored once,
maps are stored as windows over one sequence of entries or as a stream per key.  Tablets put the streams of
stripes into a file and find them again.

This project models those parts and proves that each fast, stateful form agrees with a plain sequence.

| module | models |
|---|---|
| `BitMath` | words and buffers as natural numbers, operators by the bits of their result |
| `FixedBitArrays`, `FixedBitArrayLaws` | integers packed into a fixed number of bits |
| `Varints`, `Statistics` | LEB128 numbers (section 7.6 of the DWARF Version 5 standard), the bulk decoder, size prediction |
| `BitScan` | counting, finding, packing and copying bits |
| `Sequences`, `Scatter` | ranks, runs and merges; placing rows at the set positions of a bitmap, in place |
| `Format` | what the bytes of an encoded stream denote, without any cursor: the reference definition |
| `LeafEncodings`, `Encodings`, `EncodingFactory` | the decoders as classes, tied together by a datatype that dispatches to them |
| `Derived`, `Encoder`, `RoundTrip` | splitting rows into child streams, encoding along a tree of choices, the round trip |
| `Selection` | choosing the encodings |
| `Layouts`, `LayoutTrees` | printing and parsing the trees of choices, reading them off encoded bytes |
| `Delta` | the delta decoder |
| `ChunkedStreams` | a stream stored as separately encoded chunks |
| `OrderedRange`, `Vectors` | ranges of positions; vectors, batches, runs of reads and skips |
| `DedupArrays`, `SlidingWindow` | deduplicated arrays and sliding-window maps, writer and reader |
| `FlatMaps`, `FlatMapTranspose`, `FlatMapReader`, `FlatMapWriter` | maps stored by key, merged back node by node |
| `TabletFormat`, `TabletRuns`, `TabletWriter`, `TabletReader` | files: stripes, stripe groups, footer, postscript; what a run writes |
| `TabletDirectory` | what the directory of a tablet says, from the steps of the run: row counts, sizes, groups, compression |

How it is written.  Machine words are natural numbers with explicit truncation.  A decoder is a class whose ghost
field holds its rows and whose methods are proved to return slices of them; `Format.Denote` says independently
which rows a string of bytes stands for.  A writer keeps the rows written so far in a ghost field and its streams
are proved to stand for them.  Whole runs are sequences of steps, and the theorems quantify over all of them; what
a tablet writer writes is a function of its steps (`TabletRuns.TabletOf`), which the class is proved to compute.

Places where the code does not do what one might expect are stated exactly: an array that an all-null read after a
skip drops (`DedupArrays.ReadRun`, `DedupArrays.LostArray`), a reset of a sliding-window reader that leaves its
cursor behind (`SlidingWindow.ReadPasses`, `SlidingWindow.StaleCursor`), a repeated key of a flat map that is not noticed
because the buffer of its flags is empty (`FlatMapWriter.FlatMapFieldWriter.Write`,
`FlatMapWriter.RepeatedKeyStored`), a list of candidate encodings that runs empty (`Selection.NeverFails`,
`Selection.DictionaryAloneFails`), a value wider than its slots that is found where it is not
(`FixedBitArrays.FixedBitArray.Equals32`, `FixedBitArrays.WideValueMarked`), and streams of a stripe of 4 GiB or more
(`TabletReader.LoadedIntact`, `TabletReader.LostStream`).

What comes from outside is a parameter with its law: compressors and their inverse, the order in which a hash map
of unique values is walked, size estimates, layout planners, the serialization of metadata and the checksum.

## Model

| member | source | states |
|---|---|---|
| Varints.WriteVarint | dwio/nimble/common/Varint.h:48-54 | the bytes written are the LEB128 form of the value: groups of seven bits, least significant first, the last one below 128 |
| Varints.ReadVarint | dwio/nimble/common/Varint.h:61-121 | reads the number spelled by the groups up to the first final byte, truncated to 32 or 64 bits, and stops just after that byte |
| Varints.SkipVarint | dwio/nimble/common/Varint.h:56-59 | stops just after the next final byte |
| Varints.GroupsOfVarint | dwio/nimble/common/Varint.h:48-54 | the seven-bit groups of the bytes written for a value spell that value |
| Varints.WriteThenRead | dwio/nimble/common/Varint.h:48-121 | any sequence of values written one after the other is a well-formed stream wherever it stands, reads back as the same values, and ends exactly at its last byte |
| Varints.BulkVarintDecode | dwio/nimble/common/Varint.cpp:67-93 | on every well-formed stream the word-at-a-time decoder with carry-over returns the values, and the end position, of reading the varints one by one; no load leaves the encoded bytes |
| Varints.DecodeWord | dwio/nimble/common/Varint.cpp:110-839 | one word of the decoder: the values that end in its first six bytes, each whole, including the one carried over from the words before |
| Varints.CarryOver | dwio/nimble/common/Varint.cpp:110-839 | what is kept of a varint that does not end in the word is exactly the groups read of it so far |
| Varints.BulkVarintSkip | dwio/nimble/common/Varint.cpp:30-41 | counting final bytes a word at a time ends where skipping the varints one by one does |
| Varints.PopCountFinals | dwio/nimble/common/Varint.cpp:30-41 | the population count of the inverted and masked word is the number of final bytes in it |
| Varints.SizeFromBitLength | dwio/nimble/common/Varint.cpp:43-64 | the bytes written for a value are its bit length divided by seven, rounded up, and one for zero |
| Varints.TableEntry | dwio/nimble/common/Varint.cpp:43-64 | every entry of the tables of sizes by leading zeros is that size |
| Varints.BulkVarintSize | dwio/nimble/common/Varint.cpp:43-64 | the size summed up over the table is the length of all the values written |
| Statistics.BucketCounts | dwio/nimble/encodings/Statistics.cpp:134-169 | bucket k counts the values whose distance from the minimum has a bit length in the k-th range of seven |
| Statistics.DataSize | dwio/nimble/encodings/VarintEncoding.h:149-184 | the accumulated size is the weighted sum of the buckets modulo 2^32, the width of the accumulator |
| Statistics.PredictedSize | dwio/nimble/encodings/VarintEncoding.h:149-184 | the weighted sum of the buckets is exactly the number of bytes written for all differences to the minimum |
| FixedBitArrays.SlotInBuffer | dwio/nimble/common/FixedBitArray.cpp:23-106 | every word that a slot access loads or stores lies within `bufferSize` bytes |
| FixedBitArrays.NarrowNeverStraddles | dwio/nimble/common/FixedBitArray.cpp:23-106 | a slot of at most 58 bits lies in one unaligned word |
| FixedBitArrays.FixedBitArray.Get | dwio/nimble/common/FixedBitArray.cpp:38-54 | at every width up to 64 the result is bits [i*w, i*w + w) of the buffer read as one little-endian number, also across two words |
| FixedBitArrays.FixedBitArray.Get32 | dwio/nimble/common/FixedBitArray.cpp:56-63 | the same for widths up to 32, from one load |
| FixedBitArrays.FixedBitArray.Set | dwio/nimble/common/FixedBitArray.cpp:65-79 | the value is or-ed into its slot and no other bit of the buffer changes |
| FixedBitArrays.FixedBitArray.Set32 | dwio/nimble/common/FixedBitArray.cpp:81-88 | the same for widths up to 32, in one word |
| FixedBitArrays.FixedBitArray.ZeroAndSet | dwio/nimble/common/FixedBitArray.cpp:90-106 | the slot holds the value whatever it held before, and every other slot is unchanged |
| FixedBitArrays.FixedBitArray.BulkGet32 | dwio/nimble/common/FixedBitArray.cpp:112-356 | for every width, start and length: the slots as `get32` reads them, each plus the baseline modulo the output width |
| FixedBitArrays.FixedBitArray.BulkGetBlock | dwio/nimble/common/FixedBitArray.cpp:112-155 | 64 slots taken word by word with spill-over are the 64 slots read one by one, in w words |
| FixedBitArrays.FixedBitArray.BulkSet32 | dwio/nimble/common/FixedBitArray.cpp:359-555 | the values less the baseline are or-ed into their slots and nothing else changes |
| FixedBitArrays.FixedBitArray.Equals32 | dwio/nimble/common/FixedBitArray.cpp:557-712 | for a value that fits a slot, and for any value if there are fewer than 64 slots: bit i becomes set exactly if slot start + i equals the value; bits set before stay set; the remainder loop, which begins too early, changes nothing; otherwise the first slot is marked if it holds the low bits of the value |
| FixedBitArrays.FixedBitArray.EqualsMask | dwio/nimble/common/FixedBitArray.cpp:645-653 | the mask repeats the value in every whole slot of its eight bytes exactly if the value fits a slot |
| FixedBitArrays.WideValueMarked | dwio/nimble/common/FixedBitArray.cpp:557-668 | for every width and every value wider than that there is a buffer of 64 slots in which slots are marked that do not equal the value |
| FixedBitArrays.FixedBitArray.EqualsBlock | dwio/nimble/common/FixedBitArray.cpp:556-593 | 64 comparisons by exclusive-or with the mask mark the slots that equal what the mask repeats, and for any mask the first slot if it equals the first slot of the mask |
| FixedBitArrays.XorIsZero | dwio/nimble/common/FixedBitArray.cpp:579-586 | a field of the exclusive-or is zero exactly if the fields are equal |
| FixedBitArrayLaws.SlotsDetermine | dwio/nimble/common/FixedBitArray.cpp:23-106 | buffers of one length whose slots are equal, at any width, are the same bytes |
| FixedBitArrayLaws.BulkIsLoop | dwio/nimble/common/FixedBitArray.cpp:450-555 | `bulkSet32` leaves the very bytes that setting the slots one by one leaves |
| FixedBitArrayLaws.SetEach | dwio/nimble/common/FixedBitArray.cpp:81-88 | setting slot after slot, the loop that the bulk form is compared with |
| FixedBitArrayLaws.StoredThenDecoded | dwio/nimble/common/FixedBitArray.cpp:112-555 | values stored into zeroed slots less a baseline are read back with it, and no other slot changes |
| FixedBitArrayLaws.BulkRoundTrip | dwio/nimble/common/FixedBitArray.cpp:112-555 | bulk write, then bulk read, returns the values at any width, start and length |
| FixedBitArrayLaws.SetThenGet | dwio/nimble/common/FixedBitArray.cpp:38-106 | `zeroAndSet`, then `get`, returns the value at any width up to 64 |
| BitScan.CountSetBits | dwio/nimble/common/Bits.cpp:38-67 | the count is the number of set bits in [row, row + rowCount), for every alignment |
| BitScan.FindNonNullIndices | dwio/nimble/common/Bits.cpp:69-131 | the result is exactly the positions of the set bits relative to the row, ascending, as many as `countSetBits` counts, also for a word whose only set bit is bit 63 |
| BitScan.ScanWord | dwio/nimble/common/Bits.cpp:76-131 | the loop over the set bits of a word; no shift is by 64, because only the lone top bit would ask for one |
| BitScan.TopBitAlone | dwio/nimble/common/Bits.cpp:105-117 | the lowest set bit of a word is bit 63 only if the word is that bit alone |
| BitScan.SetIndicesAscend | dwio/nimble/common/Bits.cpp:69-131 | the listed positions ascend, are all set, and no set position is missing |
| BitScan.FindSetBit | dwio/nimble/common/Bits.cpp:168-178 | the position of the n-th set bit of the range, or the end if there are fewer |
| BitScan.PackBitmap | dwio/nimble/common/Bits.cpp:21-36 | bit i of the bitmap becomes set if flag i is; the bits beyond the flags are unchanged |
| BitScan.CopyBitmap | dwio/nimble/common/Bits.cpp:180-194 | the bits before the range are unchanged; the range, to the end of its last byte, is the source |
| Scatter.ScatterBackward | dwio/nimble/encodings/Encoding.h:253-302 | the in-place backward loop ends, overwrites no source before it is read, and leaves row k at the k-th set position |
| Scatter.ScatterNullable | dwio/nimble/encodings/NullableEncoding.h:179-241 | the same with nulls: null bits are set exactly at positions both scattered to and not null |
| Scatter.ScatterDefaults | dwio/nimble/encodings/NullableEncoding.h:147-173 | the loop of `materialize`: values go to the rows that are present, defaults to the others |
| Scatter.ScatterRows | dwio/nimble/encodings/Encoding.h:253-302 | `materializeNullable` of an encoding without nulls: rows in place, nothing outside the range written, exact null bits |
| Scatter.ScatterNonNulls | dwio/nimble/encodings/NullableEncoding.h:179-241 | `materializeNullable` of a nullable encoding, for any scatter bitmap: rows in place, exact null bits |
| Scatter.TakenRank | dwio/nimble/encodings/NullableEncoding.h:179-241 | the rank of a position among those that are scattered to and present is the rank of its row among the present rows |
| LeafEncodings.ConstantEncoding.Materialize | dwio/nimble/encodings/ConstantEncoding.h:81-92 | the next n rows are the constant |
| LeafEncodings.TrivialEncoding.Materialize | dwio/nimble/encodings/TrivialEncoding.h:203-217 | the next n numbers of the little-endian data |
| LeafEncodings.TrivialBoolEncoding.Materialize | dwio/nimble/encodings/TrivialEncoding.cpp:163-207 | the next n bits, read to a word boundary, then by words, then singly |
| LeafEncodings.FixedBitWidthEncoding.Materialize | dwio/nimble/encodings/FixedBitWidthEncoding.h:111-137 | the next n slots plus the baseline, modulo the width of the type |
| LeafEncodings.VarintEncoding.Materialize | dwio/nimble/encodings/VarintEncoding.h:92-123 | the next n varints plus the baseline, modulo the width of the type |
| LeafEncodings.VarintEncoding.Skip | dwio/nimble/encodings/VarintEncoding.h:99-102 | skipping leaves the cursor where reading would |
| Encodings.TrivialStringEncoding.Materialize | dwio/nimble/encodings/TrivialEncoding.cpp:49-75 | the next n strings are cut from the blob at the sums of their lengths |
| Encodings.BufferedEncoding.NextValue | dwio/nimble/encodings/Encoding.h:315-353 | the next row of the encoding, through a buffer of 32; past the last row the value is arbitrary |
| Encodings.SparseBoolEncoding.Skip | dwio/nimble/encodings/SparseBoolEncoding.cpp:46-52 | skipping passes over the indices of the rows skipped and of no other |
| Encodings.SparseBoolEncoding.Materialize | dwio/nimble/encodings/SparseBoolEncoding.cpp:54-70 | the next n flags: the sparse value exactly at the listed indices |
| Encodings.RleEncoding.Skip | dwio/nimble/encodings/RleEncoding.h:73-86 | any number of rows, over any number of runs |
| Encodings.RleEncoding.Materialize | dwio/nimble/encodings/RleEncoding.h:88-104 | the next n rows of the expanded runs; a run fetched past the last one is never used |
| Encodings.RleEncoding.NextRun | dwio/nimble/encodings/RleEncoding.h:66-149 | fetching the next run leaves rows and cursor as they are; of a run past the last one nothing is promised and nothing needed |
| Encodings.RleEncoding.NextValue | dwio/nimble/encodings/RleEncoding.cpp:33-36 | run values come from their stream or, for booleans, alternate |
| Encodings.DictionaryEncoding.Materialize | dwio/nimble/encodings/DictionaryEncoding.h:106-125 | the next n rows: the alphabet at the indices |
| Encodings.MainlyConstantEncoding.Skip | dwio/nimble/encodings/MainlyConstantEncoding.h:133-146 | the stream of other values is skipped by as many rows as are not common |
| Encodings.MainlyConstantEncoding.Materialize | dwio/nimble/encodings/MainlyConstantEncoding.h:149-176 | the next n rows: the common value where flagged, elsewhere the next of the others |
| Encodings.NullableEncoding.Skip | dwio/nimble/encodings/NullableEncoding.h:136-144 | the stream of values is skipped by as many rows as are not null |
| Encodings.NullableEncoding.Materialize | dwio/nimble/encodings/NullableEncoding.h:147-173 | the next n rows: values where present, defaults elsewhere |
| Encodings.Encoding.Skip | dwio/nimble/encodings/Encoding.h:94-233 | whatever the tree of encodings, skipping n rows only moves the cursor by n |
| Encodings.Encoding.Materialize | dwio/nimble/encodings/Encoding.h:94-233 | whatever the tree of encodings, the result is the slice of the rows at the cursor |
| Encodings.Encoding.MaterializeNullable | dwio/nimble/encodings/Encoding.h:241-303 | whatever the tree of encodings and the scatter bitmap: the rows in place, the count of non-null rows, exact null bits |
| EncodingFactory.Decode | dwio/nimble/encodings/EncodingFactory.cpp:42-221 | the cursor built from the bytes stands at row 0 of exactly the column that the bytes denote |
| EncodingFactory.Run | dwio/nimble/encodings/Encoding.h:94-233 | any interleaving of materialize, skip and reset yields the slices that a reader of the plain sequence would see |
| Derived.ComputeRuns | dwio/nimble/common/Rle.h:28-52 | the loop computes the runs of the data |
| Derived.RunsExpand | dwio/nimble/common/Rle.h:28-52 | the runs written out are the data |
| Derived.RunsMaximal | dwio/nimble/common/Rle.h:28-52 | no run is empty and no two neighbours have the same value |
| Derived.SparseRestores | dwio/nimble/encodings/SparseBoolEncoding.cpp:92-145 | the indices of the rarer value, with the sentinel, restore the flags |
| Derived.LookupRestores | dwio/nimble/encodings/DictionaryEncoding.h:197-243 | the alphabet at the computed indices is the data |
| Derived.MostCommonIsMaximal | dwio/nimble/encodings/MainlyConstantEncoding.h:339-383 | no value occurs more often than the one taken as common |
| Derived.MostCommonIsFirst | dwio/nimble/encodings/MainlyConstantEncoding.h:339-383 | the value taken as common is the first, in the order of the unique values, of those that occur most often |
| Derived.MergeRestores | dwio/nimble/encodings/MainlyConstantEncoding.h:339-394 | flags, common value and other values restore the data |
| Derived.CutBlob | dwio/nimble/encodings/TrivialEncoding.cpp:81-135 | the blob cut at the lengths is the strings |
| Encoder.Encode | dwio/nimble/encodings/EncodingFactory.cpp:260-327 | along any tree of chosen encodings: it works exactly if every level can encode its rows; then the bytes denote the rows, the layout used follows the choice and is the one captured from the bytes, there are at most as many bytes as the bound on plan, rows and characters says, and at every level of the tree nothing is stored that need not be: runs that cannot be joined, an alphabet without repetition, the rarer flags, distances from the minimum, values that are not the most common one, data compressed exactly where that is asked for and accepted |
| Encoder.EncodeTrivial | dwio/nimble/encodings/TrivialEncoding.h:220-243 | numbers, flags and strings; compressed exactly if asked for, if there are bytes to compress and the compressor takes them |
| Encoder.EncodeRle | dwio/nimble/encodings/RleEncoding.h:122-149 | the run lengths stored are positive and neighbouring run values differ; for flags only the first value is stored |
| Encoder.EncodeDictionary | dwio/nimble/encodings/DictionaryEncoding.h:197-243 | alphabet and indices, for any order of the alphabet; the alphabet stored holds exactly the values there are, each once |
| Encoder.EncodeSparseBool | dwio/nimble/encodings/SparseBoolEncoding.cpp:92-145 | a flag and the indices of the rows that hold it, with the sentinel; they are no more than half of the rows, and set ones if they are just half |
| Encoder.EncodeConstant | dwio/nimble/encodings/ConstantEncoding.h:119-145 | works exactly for rows with one distinct value |
| Encoder.EncodeMainlyConstant | dwio/nimble/encodings/MainlyConstantEncoding.h:339-394 | flags, other values and the common value, which is the first of those that occur most often |
| Encoder.EncodeFixedBitWidth | dwio/nimble/encodings/FixedBitWidthEncoding.h:157-234 | works exactly for numbers of which there is at least one; the baseline stored is their minimum and the width stored the least positive multiple of 8 bits that the distance of every number from it fits; compressed exactly if asked for and accepted |
| Encoder.EncodeVarint | dwio/nimble/encodings/VarintEncoding.h:149-189 | works exactly for numbers of four or eight bytes of which there is at least one: the baseline stored is the minimum, and the differences follow as varints, in a buffer of the predicted size |
| Encoder.EncodeNullable | dwio/nimble/encodings/EncodingFactory.cpp:329-347 | values and null flags, neither nested stream with more in it than needed; the captured layout is that of the values |
| Encoder.TrivialSize | dwio/nimble/encodings/TrivialEncoding.h:220-243 | compressed or not, the level takes no more than its share of the bound |
| Encoder.TwoNested | dwio/nimble/encodings/EncodingFactory.cpp:260-327 | what a level adds and what its two nested streams take stays within the bound of the whole tree |
| RoundTrip.EncodeAndRead | dwio/nimble/encodings/EncodingFactory.cpp:42-327 | encode, decode, then any interleaving of skip, materialize and reset yields the slices of the original rows, for every tree of encodings that can encode them, if the bound on the bytes from the tree, the number of rows and the characters is below 4 GiB; and never anything else |
| RoundTrip.EncodeAndReadNullable | dwio/nimble/encodings/EncodingFactory.cpp:42-347 | the same for a column with nulls: row by row, a present row reads as the value at its rank among the present rows, and a null as the number 0, the flag false or the empty string |
| Selection.CheapestIsMinimal | dwio/nimble/encodings/EncodingSelectionPolicy.h:156-190 | of the candidates with an estimate none is cheaper than the one chosen, the first of equally cheap ones is taken, and without any it is Trivial |
| Selection.Select | dwio/nimble/encodings/EncodingSelectionPolicy.h:156-190 | over the whole list: the encoding of a candidate with an estimate whose estimate times factor is below the largest float, than which none with an estimate is cheaper and none before it as cheap; Trivial if there is no such candidate, or no rows |
| Selection.EstimableExactly | dwio/nimble/encodings/EncodingSelectionPolicy.h:304-643 | an encoding has an estimate exactly if, with some choice of the encodings below it, it can encode the rows |
| Selection.FilteredExact | dwio/nimble/encodings/EncodingSelectionPolicy.h:126-154 | the list for a nested stream holds every other candidate as often as before and the chosen encoding not at all |
| Selection.PlanIsBest | dwio/nimble/encodings/EncodingSelectionPolicy.h:126-190 | at every level of the chosen tree the encoding is the best one for the rows of that stream among the candidates that no level above has taken |
| Selection.CreatePolicy | dwio/nimble/encodings/EncodingSelectionPolicy.h:126-154 | the list for a nested stream is the list without the encoding chosen above; asking an empty list fails |
| Selection.Choose | dwio/nimble/encodings/EncodingSelection.h:235-256 | the nested choice comes to an end: either a candidate goes, or a string stream becomes a stream of lengths |
| Selection.PlanCompatible | dwio/nimble/encodings/EncodingSelectionPolicy.h:156-190 | whatever the estimates, every level can encode its rows with what is chosen |
| Selection.NeverFails | dwio/nimble/encodings/EncodingSelectionPolicy.h:126-190 | from a list with a candidate that nests no strings, and for any stream but strings, the choice never fails, whatever the rows and the estimates; from any other list it fails for two different strings at every estimate below the largest float |
| Selection.UnsafeFails | dwio/nimble/encodings/EncodingSelectionPolicy.h:126-154 | at every estimate that keeps the candidates below the largest float: candidates that all nest strings are used up one after the other, and the last nested stream asks an empty list |
| Selection.DictionaryAloneFails | dwio/nimble/encodings/EncodingSelectionPolicy.h:126-154 | with Dictionary as the only candidate two strings cannot be encoded, at an estimate of prefix and rows |
| Selection.DefaultsAreSafe | dwio/nimble/encodings/EncodingSelectionPolicy.h:758-769 | the default factors never fail |
| Selection.ChooseAndEncode | dwio/nimble/encodings/EncodingSelection.h:235-256 | choosing and encoding works exactly if the choice does not fail, always from a safe list; the bytes denote the rows, their number has a bound, no level stores more than needed, and every level is the best choice among the candidates left to it |
| Selection.ChooseAndEncodeNullable | dwio/nimble/encodings/EncodingFactory.cpp:240-257 | a column with nulls: values and flags are chosen among the other candidates; it works exactly if the list is not empty and the choice for the values does not fail; the bytes denote the column |
| Layouts.Serialize | dwio/nimble/encodings/EncodingLayout.cpp:36-77 | writes exactly the printed form at the offset and nothing else |
| Layouts.Create | dwio/nimble/encodings/EncodingLayout.cpp:79-109 | the loop parses as the reference parser does, whose results the round trip describes |
| Layouts.LayoutRoundTrip | dwio/nimble/encodings/EncodingLayout.cpp:36-109 | printing and parsing returns the layout and its length, whatever follows, if and only if every node has at most 255 children |
| LayoutTrees.SerializeTree | dwio/nimble/velox/EncodingLayoutTree.cpp:113-142 | writes exactly the printed form, each size after its layout |
| LayoutTrees.CreateInternal | dwio/nimble/velox/EncodingLayoutTree.cpp:26-95 | parses as the reference parser does, entry by entry and child by child |
| LayoutTrees.TreeRoundTrip | dwio/nimble/velox/EncodingLayoutTree.cpp:26-142 | printing and parsing returns the tree and its length, whatever follows, if and only if every length and count fits its field and no stream has two layouts |
| ChunkedStreams.ChunkedStreamDecoder.Next | dwio/nimble/velox/ChunkedStreamDecoder.cpp:72-161 | for any chunking and scatter bitmap: the rows of the concatenated chunks in place, their non-null count, and, once some position is null, a bitmap exact at every position |
| ChunkedStreams.ChunkedStreamDecoder.Skip | dwio/nimble/velox/ChunkedStreamDecoder.cpp:163-171 | skips rows across chunks |
| ChunkedStreams.ChunkedStreamDecoder.EnsureLoaded | dwio/nimble/velox/ChunkedStreamDecoder.cpp:178-184 | loads the next chunk, at its first row |
| ChunkedStreams.RepairNulls | dwio/nimble/velox/ChunkedStreamDecoder.cpp:72-161 | one chunk of a read keeps the lazily created bitmap right, whichever chunk brings the first null |
| OrderedRange.OrderedRanges.Add | dwio/nimble/velox/OrderedRanges.h:52-63 | coalescing does not change the sequence of positions visited |
| OrderedRange.OrderedRanges.ApplyEach | dwio/nimble/velox/OrderedRanges.h:42-50 | visits exactly those positions in order |
| DedupArrays.ArrayWithOffsetsWriter.WriteByElements | dwio/nimble/velox/FieldWriter.cpp:1323-1447 | adds the rows of a batch; of two rows with only nulls between them the later one, in this batch, shares the array of the other, in this batch or before it, if and only if their elements are equal |
| DedupArrays.ArrayWithOffsetsWriter.WriteAlreadyEncoded | dwio/nimble/velox/FieldWriter.cpp:1247-1320 | adds the rows of a dictionary batch; neighbours within the batch share an array if and only if their indices are equal, and the first one shares the last one before the batch if and only if their elements are equal |
| DedupArrays.ArrayWithOffsetsWriter.Write | dwio/nimble/velox/FieldWriter.cpp:1174-1195 | the streams stand for all rows written so far, for every split into batches, and arrays are shared exactly as the batch says |
| DedupArrays.ArrayWithOffsetsWriter.FlushChunk | dwio/nimble/velox/FieldWriter.cpp:1197-1204 | any of the three streams can be handed over in between; its buffer starts again, the numbering and what the streams stand for stay |
| DedupArrays.StepsShared | dwio/nimble/velox/FieldWriter.cpp:1174-1447 | over any batches and handovers: two rows with only nulls between them have the same offset if and only if their arrays are the same, by index within a dictionary batch and by elements otherwise |
| DedupArrays.ElementsDeduplicated | dwio/nimble/velox/FieldWriter.cpp:1323-1447 | if all batches are compared by elements: the same offset if and only if the arrays are equal, whatever the batches and handovers |
| DedupArrays.ArraysAreChanges | dwio/nimble/velox/FieldWriter.cpp:1323-1447 | then as many arrays are stored as there are changes of value from one non-null row to the next |
| DedupArrays.ArrayWithOffsetsReader.Next | dwio/nimble/velox/FieldReader.cpp:902-1086 | every non-null row gets an index within the arrays returned, and that array is its own, or what the cache holds if it repeats the last array |
| DedupArrays.ArrayWithOffsetsReader.Skip | dwio/nimble/velox/FieldReader.cpp:1088-1139 | skipping leaves only the last array to be read lazily |
| DedupArrays.Normalize | dwio/nimble/velox/FieldReader.cpp:902-1086 | the indices shift so that the cached array comes last and the new ones count from zero |
| DedupArrays.ReadRun | dwio/nimble/velox/FieldReader.cpp:902-1139 | a run of reads and skips returns the rows if and only if no read begins with an array that an all-null read after a skip has dropped (or the stale elements are the same); and what the cache holds then |
| DedupArrays.ReadPasses | dwio/nimble/velox/FieldReader.cpp:902-1146 | the same for runs with any number of resets, which keep the elements in the cache |
| DedupArrays.SafeIsExact | dwio/nimble/velox/FieldReader.cpp:976-1022 | a condition on the offsets alone that suffices |
| DedupArrays.CarefulIsSafe | dwio/nimble/velox/FieldReader.cpp:976-1022 | a condition on the rows that suffices: after a skip every read has a row that is not null |
| DedupArrays.OnlyReadsAreCareful | dwio/nimble/velox/FieldReader.cpp:902-1086 | runs of reads alone are always right |
| DedupArrays.LostArray | dwio/nimble/velox/FieldReader.cpp:976-1022 | the array [7] is skipped, a null is read, and the same array does not come back |
| DedupArrays.WriteAndRead | dwio/nimble/velox/FieldWriter.cpp:1174-1447 | any stripes, each of any batches and handovers of single streams, any run of reads, skips and resets on any one of them: arrays are shared exactly where they are the same, and stored once per change if compared by elements; the rows come back exactly under that condition on the streams, and always for careful runs |
| SlidingWindow.SlidingWindowMapWriter.WriteMaps | dwio/nimble/velox/FieldWriter.cpp:658-743 | adds the rows of a batch; of two rows with only nulls between them the later shares the window of the other if and only if they are the same map, any other window starts where the last one ended, and as many entries are stored as that takes |
| SlidingWindow.SlidingWindowMapWriter.Write | dwio/nimble/velox/FieldWriter.cpp:620-631 | the streams stand for all rows written so far, for every split into batches |
| SlidingWindow.SlidingWindowMapWriter.FlushChunk | dwio/nimble/velox/VeloxWriter.cpp:669-713 | any of the three streams can be handed over in between; its buffer starts again, the windows and what the streams stand for stay |
| SlidingWindow.WindowRepeats | dwio/nimble/velox/FieldWriter.cpp:658-743 | the window taken for a map is the last one again if and only if the map is the same as the last one |
| SlidingWindow.ContiguousSum | dwio/nimble/velox/FieldReader.cpp:1298-1463 | distinct windows that follow one another start at the sums of the lengths before them |
| SlidingWindow.Deduplicate | dwio/nimble/velox/FieldReader.cpp:1298-1463 | the distinct windows of a batch are contiguous and each row is numbered by its own |
| SlidingWindow.SlidingWindowMapReader.Seek | dwio/nimble/velox/FieldReader.cpp:1483-1496 | forward by skipping, backward by resetting and skipping: a seek back corrects a position that has drifted from the cursor, a seek forward keeps the drift |
| SlidingWindow.SlidingWindowMapReader.Next | dwio/nimble/velox/FieldReader.cpp:1298-1463 | every row gets the entries of its window, from one seek and one read, or those as far back as the position has drifted |
| SlidingWindow.GivenRight | dwio/nimble/velox/FieldReader.cpp:1298-1463 | what a read gives are the maps of its rows if and only if the entries from its first to its last are also found as far back as the position has drifted |
| SlidingWindow.ReadRun | dwio/nimble/velox/FieldReader.cpp:1298-1496 | a run of reads and skips returns the rows if and only if at every read, up to the first that seeks back, the entries are also found as far back as the position has drifted; and where the cursor is then |
| SlidingWindow.ReadPasses | dwio/nimble/velox/FieldReader.cpp:1298-1504 | the same for runs with any number of resets, which put the entries back to their start but not the cursor |
| SlidingWindow.NoDriftExact | dwio/nimble/velox/FieldReader.cpp:1298-1496 | so a fresh reader returns the rows of any run of reads and skips |
| SlidingWindow.CarefulPassesExact | dwio/nimble/velox/FieldReader.cpp:1483-1504 | a condition on the rows that suffices with resets: no map with entries is skipped before the first one that is read |
| SlidingWindow.OnlyReadsAreCareful | dwio/nimble/velox/FieldReader.cpp:1483-1504 | runs of reads and resets alone are always right |
| SlidingWindow.StaleCursor | dwio/nimble/velox/FieldReader.cpp:1483-1504 | the map [1] is read, the reader is reset, [1] is skipped, and the next map, [2], does not come back |
| SlidingWindow.WriteAndRead | dwio/nimble/velox/FieldWriter.cpp:620-743 | any stripes, each of any batches and handovers, any run of reads, skips and resets on any one of them: neighbouring rows share a window exactly if they are the same map; the same maps come back, whatever the order of their entries, exactly under that condition, and always without a reset or for careful runs |
| FlatMapTranspose.TransposedRows | dwio/nimble/velox/FieldWriter.cpp:930-1027 | the streams by key of any maps, for any list of keys that covers them, stand for those maps |
| FlatMapTranspose.StoredRowsExact | dwio/nimble/velox/FieldWriter.cpp:930-1027 | of maps given as lists of entries: the streams by key fit each other if and only if no map repeats a key, and then they stand for the maps |
| FlatMapWriter.FlatMapFieldWriter.AddEntry | dwio/nimble/velox/FieldWriter.cpp:792-798 | notes an entry for its key, backfilling a new one; it fails exactly if the map has an entry for the key already and the buffer with the flags of the key is not empty |
| FlatMapWriter.FlatMapFieldWriter.ProcessMap | dwio/nimble/velox/FieldWriter.cpp:945-957 | the entries of a map are noted, each under its own key; it fails exactly for a repeated key whose buffer is not empty |
| FlatMapWriter.FlatMapFieldWriter.Write | dwio/nimble/velox/FieldWriter.cpp:930-1027 | fails exactly if a map repeats a key whose buffer of flags is not empty (or which is new although maps have been written); otherwise the streams stand for all rows so far, handed over or not |
| FlatMapWriter.FlatMapFieldWriter.StoredRows | dwio/nimble/velox/FieldWriter.cpp:930-1027 | what is stored fits together if and only if no row repeats a key, and then it is the rows written |
| FlatMapWriter.FlatMapFieldWriter.FlushChunk | dwio/nimble/velox/VeloxWriter.cpp:669-713 | any buffers can be handed over between batches: they are empty then, and the streams are the same |
| FlatMapWriter.FlatMapFieldWriter.EndStripe | dwio/nimble/velox/FieldWriter.cpp:1029-1040 | the streams of the stripe, and the fields are forgotten |
| FlatMapWriter.RepeatedKeyStored | dwio/nimble/velox/FieldWriter.cpp:792-798 | the map {7: 1, 7: 2} as first batch is stored with two values and one flag |
| FlatMapWriter.RepeatedKeyAfterChunk | dwio/nimble/velox/FieldWriter.cpp:792-798 | {7: 1}, a chunk handed over, then {7: 1, 7: 2}: taken, and stored with three values and two flags |
| FlatMaps.SlotsDiffer | dwio/nimble/velox/FieldReader.cpp:2550-2563 | no two entries of the merged maps share a slot and every slot lies within the total |
| FlatMaps.InitRowWiseInMap | dwio/nimble/velox/FieldReader.cpp:2583-2596 | bit (row, node) is set exactly if the row is a map that has the key |
| FlatMaps.InitOffsets | dwio/nimble/velox/FieldReader.cpp:2598-2609 | each row starts after the entries of the rows before it |
| FlatMaps.PlaceKeys | dwio/nimble/velox/FieldReader.cpp:2550-2563 | one node: its key goes into the slots of the rows that have it, whose offsets advance by one |
| FlatMaps.MergeNodes | dwio/nimble/velox/FieldReader.cpp:2541-2576 | node after node with offsets that shift and are shifted back: every row gets exactly its map, rows lie one after the other, each as long as it has entries |
| FlatMapReader.FlatMapKeyNode.Skip | dwio/nimble/velox/FieldReader.cpp:2011-2016 | skipping maps skips as many values as have the key |
| FlatMapReader.NextNode | dwio/nimble/velox/FieldReader.cpp:2522-2529 | a node that no row of the batch has can be left out |
| FlatMapReader.MergedFlatMapReader.Next | dwio/nimble/velox/FieldReader.cpp:2502-2580 | the maps of the next rows, with or without a stream of nulls, laid out one after the other, and each length the size of its map |
| FlatMapReader.MergedFlatMapReader.Skip | dwio/nimble/velox/FieldReader.cpp:2114-2134 | skips rows, in batches where there are nulls |
| FlatMapWriter.ReadRun | dwio/nimble/velox/FieldReader.cpp:2114-2580 | any run of reads, skips and resets returns the rows |
| FlatMapWriter.WriteAndRead | dwio/nimble/velox/FieldWriter.cpp:930-1096 | any stripes, each of any batches of maps with distinct keys and any chunks handed over between them; any run of reads, skips and resets: every row and every map comes back |
| TabletFormat.PostscriptRoundTrip | dwio/nimble/tablet/TabletReader.cpp:197-237 | a printed postscript at the end of any bytes parses to itself, exactly if its major version can be read |
| TabletFormat.FlattenedAt | dwio/nimble/tablet/TabletWriter.cpp:28-59 | entry (stripe, stream) of the flattened vector, zero where the stripe has no such stream |
| TabletRuns.IndexStored | dwio/nimble/tablet/TabletWriter.cpp:196-214 | the index of a stripe finds every stream: place and length modulo 2^32, the bytes where they should be |
| TabletRuns.DraftSound | dwio/nimble/tablet/TabletWriter.cpp:174-296 | after any steps the file holds every stripe, and every group and section unless one takes 4 GiB or more |
| TabletRuns.RunIsTablet | dwio/nimble/tablet/TabletWriter.cpp:68-296 | any run, then close: unless a metadata section takes 4 GiB or more, the file is a tablet with the stripes and sections of the run |
| TabletRuns.ShortFileFits | dwio/nimble/tablet/TabletWriter.cpp:237-244 | in a file below 4 GiB no section is too long |
| TabletFormat.GroupLaidOut | dwio/nimble/tablet/TabletWriter.cpp:257-296 | the record of a group holds the offsets and sizes of its stripes one stripe after the other, padded with zeros to the width of the widest, which some stripe has |
| TabletFormat.ChunkJoined | dwio/nimble/tablet/TabletWriter.cpp:196-202 | the chunks of a stream follow one another, each where those before it end |
| TabletDirectory.TotalIsSum | dwio/nimble/tablet/TabletWriter.cpp:75-76 | the row count accumulated is the sum of all row counts modulo 2^64 |
| TabletDirectory.DraftRowCounts | dwio/nimble/tablet/TabletWriter.cpp:174-179 | after any steps the row counts kept are exactly those of the stripes asked for that are not zero, in order |
| TabletDirectory.DraftDirectory | dwio/nimble/tablet/TabletWriter.cpp:174-296 | after any steps: the index of each stripe is just wide enough for its streams, its size is the sum of their lengths, and a group has ended after a stripe exactly if 4 bytes and 13 for every stream of its stripes, as many as the last one has, reach the threshold |
| TabletDirectory.DraftAsAsked | dwio/nimble/tablet/TabletWriter.cpp:221-255 | after any steps every group and every optional section is compressed exactly if it is longer than the threshold and the compressor takes it |
| TabletDirectory.Directory | dwio/nimble/tablet/TabletWriter.cpp:68-296 | of the closed file: all of this, stated from the steps alone, for the list of stripes as well |
| TabletWriter.CreateFlattenedVector | dwio/nimble/tablet/TabletWriter.cpp:28-59 | the loop fills the flattened vector |
| TabletWriter.TabletWriter.WriteStripe | dwio/nimble/tablet/TabletWriter.cpp:174-219 | the state after it is the one that the stripe leads to: streams appended and indexed, unless it has no rows, and a group written when it is due |
| TabletWriter.TabletWriter.WriteStreams | dwio/nimble/tablet/TabletWriter.cpp:174-219 | the bytes of the streams one after the other, place and length of each in 32 bits |
| TabletWriter.TabletWriter.TryWriteStripeGroup | dwio/nimble/tablet/TabletWriter.cpp:257-296 | the pending stripes become a group exactly if forced or the estimate reaches the threshold |
| TabletWriter.TabletWriter.WriteOptionalSection | dwio/nimble/tablet/TabletWriter.cpp:246-255 | fails exactly for an empty or a used name; otherwise the section is appended and found under the name |
| TabletWriter.TabletWriter.Close | dwio/nimble/tablet/TabletWriter.cpp:68-172 | writes what is left, the list of stripes, footer and postscript, whose contents the rows on the directory below describe; fails exactly if the footer takes 4 GiB or more |
| TabletReader.OpenTablet | dwio/nimble/tablet/TabletReader.cpp:281-437 | a tablet can be opened if and only if its footer and its list of stripes lie in the last 8 MiB |
| TabletReader.OutOfReach | dwio/nimble/tablet/TabletReader.cpp:281-437 | tablets that cannot be opened exist: the empty one with metadata of more than 8 MiB |
| TabletReader.OpenedDirectory | dwio/nimble/tablet/TabletReader.h:326-334 | what a reader sees of any run: the row count is the sum of the row counts of the steps modulo 2^64, the stripes are those with rows, in order, none if there is none; sizes and groups are as the steps ask for |
| TabletReader.LastGroup | dwio/nimble/tablet/TabletReader.cpp:336-344 | the group of the last stripe plus one is the number of groups |
| TabletReader.GroupBefore | dwio/nimble/tablet/TabletReader.cpp:172-184 | every stripe lies in the group that its index names, so the first stripe of a group is found |
| TabletReader.LoadStripeGroup | dwio/nimble/tablet/TabletReader.cpp:150-184 | the group as stored, with the first stripe that names it |
| TabletReader.StreamInGroup | dwio/nimble/tablet/TabletReader.cpp:186-195 | the span of a stripe in its group leads to the bytes of each of its streams, or to nothing for an absent or empty one |
| TabletReader.LoadFromGroup | dwio/nimble/tablet/TabletReader.cpp:583-634 | a region is read for every stream that exists and is not empty, and its bytes go to the place where it was asked for |
| TabletReader.Load | dwio/nimble/tablet/TabletReader.cpp:576-634 | for every stripe and every list of identifiers: as many bytes as the index of each stream says, from where it says, or nothing; a stripe out of range fails |
| TabletReader.LoadedIntact | dwio/nimble/tablet/TabletReader.cpp:583-634 | what is loaded are the bytes written, if and only if there are less than 4 GiB of them and they are empty, start within the first 4 GiB of the stripe, or stand at the truncated offset as well |
| TabletReader.LostStream | dwio/nimble/tablet/TabletReader.cpp:583-634 | a run that writes one stream of 4 GiB: the stream is not intact, and loading gives nothing |
| TabletReader.ShortStripeIntact | dwio/nimble/tablet/TabletReader.cpp:583-634 | so in a stripe below 4 GiB every stream comes back |
| TabletReader.LoadOptionalSection | dwio/nimble/tablet/TabletReader.cpp:688-719 | the content written under the name, or nothing |
| TabletReader.CalculateChecksum | dwio/nimble/tablet/TabletReader.cpp:439-465 | for every chunk size above zero the checksum of the file without its last 15 bytes |
| TabletReader.ChecksumMatches | dwio/nimble/tablet/TabletReader.cpp:439-465 | which is the checksum in the postscript |
| TabletReader.WriteTablet | dwio/nimble/tablet/TabletWriter.cpp:68-296 | the class writes exactly the file that the run of its steps describes, with any thresholds and any layout planner, and closing fails exactly when that says so |
| TabletReader.WriteAndLoad | dwio/nimble/tablet/TabletReader.cpp:281-634 | whatever run wrote the file, if no metadata section takes 4 GiB or more: the checksum agrees, the file can be opened exactly if footer and list of stripes are within reach, the row count is the sum of those of the steps and the list of stripes holds the ones above zero, every optional section comes back, and of every stripe exactly the intact streams |
| TabletReader.SmallFileReadable | dwio/nimble/tablet/TabletReader.cpp:281-634 | from a file of at most 8 MiB everything comes back, whatever the run |
| TabletReader.PlannerKeepsStreams | dwio/nimble/tablet/TabletWriter.cpp:174-219 | a layout planner does not change what is loaded, as long as no stream is listed twice |
| Delta.SplitRestores | dwio/nimble/encodings/DeltaEncoding.h:144-166 | whatever rows are restated besides the first, the decoder yields the rows, also where deltas wrap around |
| Delta.DeltaEncoding.Materialize | dwio/nimble/encodings/DeltaEncoding.h:144-166 | the next n rows of the three streams; all three cursors and the current value move to row at + n |
| Delta.DeltaEncoding.Skip | dwio/nimble/encodings/DeltaEncoding.h:114-142 | leaves exactly the state that reading the rows and dropping them leaves: current value and three cursors at row at + n |
| Delta.Accumulated | dwio/nimble/encodings/DeltaEncoding.h:114-142 | after the last restated row the current value is that row plus the sum of the deltas, modulo the width |
| Delta.RowsIndependent | dwio/nimble/encodings/DeltaEncoding.h:107-111 | a reset keeps the current value; that shows in the rows if and only if the first row is not restated |
| Delta.DeltaEncoding.Reset | dwio/nimble/encodings/DeltaEncoding.h:107-111 | back to row 0, starting from the current value |

## Left out

- `readWithVisitor` and `bulkScan`: they depend on column visitors that are not part of this model.
- Compression, checksums and metadata serialization themselves: abstract functions; a compressor may decline, what it accepts takes at most four bytes more than before, decompression undoes it, parsing undoes printing.
- Strings are byte sequences: string views, buffers that keep them alive and their copying are not modelled.
- Output pointers of plain reads are modelled as returned sequences; where rows are scattered into a buffer and a null bitmap, both are arrays updated in place. Null bitmaps are arrays of bool at the granularity of bits; the words and bytes underneath are modelled in `BitScan`.
- The objects below a flat-map writer's keys are values in a map field that the writer reassigns, so aliasing between them is not modelled. The merging reader loads the values of a node when it chooses the node, not in its turn of the merging loop; the streams of nodes are independent.
- Encoder.Encode: nothing is promised of what the bytes denote, or of how little they hold, when there are 4 GiB of them or more, which do not fit the sizes of the format.
- Encoder.EncodeFixedBitWidth: without rows it is an error here; the original takes the minimum of an empty range, which is undefined.
- Encoder.EncodeVarint: without rows it is an error here, for the same reason.
- Encoder.EncodeRle: for no flags it is an error here; the original reads the first of no run values.
- Encoder.EncodeDictionary: without rows it is an error, as in a build of the original with assertions.
- FixedBitArrays.FixedBitArray.Equals32: of a value wider than a slot and 64 slots or more, only what happens to the first slot is promised.
- FixedBitArrays.NoRoomAtWidthZero: a width of 0, which the original accepts, is excluded; its buffer has 7 bytes, and every access takes 8.
- Layouts.Create: where the bytes end before the flag of a child, the original reads on without a check; here there is no result.
- LayoutTrees.CreateInternal: where the bytes end before the number of children, the original reads on without a check; here there is no result.
- Encodings.TrivialStringEncoding.Skip: offsets into a blob of 4 GiB or more, where the 32-bit sum would wrap, are excluded by the format.
- DedupArrays.ArrayWithOffsetsReader.Next: an array read from stale elements shorter than itself is what is there of it; the original reads beyond them.
- DedupArrays.ArrayWithOffsetsWriter.WriteAlreadyEncoded: whether a dictionary is sorted decides which path the original takes; both paths are proved right for any batch, so the decision is a parameter.
- SlidingWindow.SlidingWindowMapReader.Reset: the readers of keys and of values move together and are modelled as one reader of entries.
- FlatMapWriter.FlatMapFieldWriter.Write: of a writer that has refused a map nothing is promised. Maps that arrive already flattened, dictionary-encoded keys and the executor are not modelled; neither is the reader that returns structs.
- TabletRuns.RunIsTablet: of a file with a metadata section of 4 GiB or more, whose size is cut to 32 bits, nothing is promised but its bytes.
- Caches, preloading of sections and the number of reads of a tablet are not modelled; a read outside the file or a parse of the wrong kind of metadata is an error.
- Selection.Choose: size estimates are an arbitrary function and costs are real numbers, so rounding is not modelled; which candidates have an estimate at all is. The learned and the replayed policy are not modelled.
- Delta.DeltaEncoding.Materialize: over any three child streams; the factory cannot build it, and its encoder is disabled in the source.
- SentinelEncoding, dump tools, flush policies, buffer growth, thread pools, memory pools and estimated row sizes.
- `findNullIndices`: its body collects set bits while its header promises unset ones, so there is no agreed meaning.
- Row, plain array, plain map and scalar field readers and writers: they would add only easier members.
