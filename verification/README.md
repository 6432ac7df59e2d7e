# Kodo core pieces in Dafny

This project models five self-contained pieces of Kodo, a C++ library for
random linear network coding (RLNC), and proves their properties with Dafny.

- **Remote-pivot-aware systematic phase** (`systematic_phase.dfy`). A recoder
  or encoder layer. When the local rank is exactly one above the remote's, it
  sends uncoded the lowest symbol that is a local pivot and not a remote
  pivot. Otherwise it defers to the layer below. The layer below is a value
  (`LowerLayer`).
- **Pivot-status bitmap** (`pivot_status.dfy`). A class with one status flag
  per symbol. Marking a symbol seen or decoded sets its flag, marking it
  missing clears it, and each call is forwarded to a dummy lower layer.
  `write_pivot_status` packs the flags, one bit per symbol, into a caller's
  byte buffer.
- **Coefficient-matrix printer** (`coefficient_printer.dfy`). It writes each
  coefficient vector as `"<i>:\t"`, then every value in decimal followed by a
  tab, then a newline. A parser for that text is proved to invert the printer,
  so the printout determines the matrix.
- **The decode_simple example** (`decode_simple.dfy`). It covers:
  - `reverse_values` on an array, in place;
  - the bit reversal the example applies to its data;
  - the GF(2) relation X = C·M that its data satisfy, before and after the
    reversal;
  - the loop that prints the decoded bits;
  - the final `memcmp` verdict.
- **The storage benchmark** (`storage_benchmark.dfy`). It covers:
  - both `get_options` configuration enumerations, with their count and order;
  - the benchmark object's buffers;
  - the random erasure loop that zeroes symbols in place;
  - the feeding of systematic symbols and coded payloads to a decoder, with
    the early exit;
  - `accept_measurement`;
  - the integer byte count of a measurement.

Shared pieces:
- `binary_field.dfy` holds the GF(2) packed-bit layout that `fifi::get_value`
  and `fifi::set_value` use: element i sits at bit i % 8 of byte i / 8, least
  significant bit first. It also holds the `u32` type, whose wrap-around is
  written out as `% U32_MODULUS`.
- `arithmetic.dfy` holds block/offset arithmetic facts.
- `wrappers.dfy` holds `Option`.

## Model

| member | source | states |
|---|---|---|
| SystematicPhase.SingleSymbolAvailable | src/kodo/remote_pivot_aware_systematic_phase.hpp:79-82 | A single symbol is available exactly when rank == remote_rank + 1. When remote_rank is the largest uint32_t the sum wraps, so it is exactly when rank == 0. |
| SystematicPhase.InSystematicPhase | src/kodo/remote_pivot_aware_systematic_phase.hpp:30-40 | True whenever a single symbol is available. Otherwise it is the lower layer's answer unchanged. |
| SystematicPhase.NextSystematicSymbol | src/kodo/remote_pivot_aware_systematic_phase.hpp:43-74 | With a single symbol available and some local pivot the remote lacks, the result is the smallest such index, which is below symbols(). With none, it is 0. Without a single symbol available, it is the lower layer's next_systematic_symbol. |
| SystematicPhase.NewPivotExistsAndIsUnique | src/kodo/remote_pivot_aware_systematic_phase.hpp:65 | If the remote pivots are among the local ones and the local side has one pivot more, exactly one index is a local pivot and not a remote pivot. This is the fact the assertion relies on. |
| SystematicPhase.ConsistentSingleSymbol | src/kodo/remote_pivot_aware_systematic_phase.hpp:45-66 | For a lower layer whose ranks count its pivots and whose remote pivots are local pivots, a single symbol is available iff the local pivot count is one above the remote's. The symbol the loop looks for then exists and is unique, so the assertion holds. |
| PivotStatus.PivotStatusWriterStack.Construct | test/src/test_pivot_status_writer.cpp:93-99 | Construction makes room for max_symbols() flags, all clear, and the dummy layer has recorded nothing. |
| PivotStatus.PivotStatusWriterStack.Initialize | test/src/test_pivot_status_writer.cpp:99-100 | Every flag is cleared and symbols() is taken from the factory. The dummy layer's records are unchanged. |
| PivotStatus.PivotStatusWriterStack.SetSymbolDecoded | test/src/test_pivot_status_writer.cpp:104-105 | Sets the flag of index, changes no other flag, and forwards index unchanged to the layer below. |
| PivotStatus.PivotStatusWriterStack.SetSymbolSeen | test/src/test_pivot_status_writer.cpp:107-108 | Sets the flag of index, changes no other flag, and forwards index unchanged to the layer below. |
| PivotStatus.PivotStatusWriterStack.SetSymbolMissing | test/src/test_pivot_status_writer.cpp:110-111 | Clears the flag of index, changes no other flag, and forwards index unchanged to the layer below. |
| PivotStatus.PivotStatusWriterStack.PivotStatusSize | test/src/test_pivot_status_writer.cpp:102 | The fewest whole bytes holding one bit per symbol: 8n >= symbols and 8(n-1) < symbols. |
| PivotStatus.PivotStatusWriterStack.WritePivotStatus | test/src/test_pivot_status_writer.cpp:132-142 | Bit i of the buffer becomes the flag of symbol i for every symbol. All other buffer bits keep their old values. |
| PivotStatus.PivotStatusWriterApi | test/src/test_pivot_status_writer.cpp:89-157 | The test scenario gives a size of 2 bytes. After the marks, exactly bits 1, 5, 7 and 8 of the first nine are set (bytes 0xA2 0x01). After re-initialising and writing again, all nine bits are clear. |
| PivotStatus.WrittenBitmap | test/src/test_pivot_status_writer.cpp:132-155 | Nine written status bits, plus seven carried-over clear bits, determine both buffer bytes. |
| CoefficientPrinter.Order | src/kodo/debug_coefficient_storage.hpp:58-61 | Every field's values fit the uint32_t the printer casts to: the order is between 2 and 2^32. |
| CoefficientPrinter.Decimal | src/kodo/debug_coefficient_storage.hpp:61 | A number prints as a non-empty run of decimal digits with no leading zero. |
| CoefficientPrinter.DebugCoefficientStorage.PrintCoefficientVectorValue | src/kodo/debug_coefficient_storage.hpp:47-65 | Appends to the stream exactly the line of vector index: index, ":\t", each element in decimal followed by a tab, then a newline. |
| CoefficientPrinter.DebugCoefficientStorage.PrintCoefficientVectorValues | src/kodo/debug_coefficient_storage.hpp:36-42 | Appends the lines of vectors 0 .. coefficient_vectors()-1, in index order, and nothing else. |
| CoefficientPrinter.DecimalRoundTrip | src/kodo/debug_coefficient_storage.hpp:49-61 | Reading digits back from a printed number followed by a non-digit gives the number and the rest of the text. |
| CoefficientPrinter.ValuesRoundTrip | src/kodo/debug_coefficient_storage.hpp:53-64 | The tab-terminated values of one line parse back to the same values, up to the newline. |
| CoefficientPrinter.LinesRoundTrip | src/kodo/debug_coefficient_storage.hpp:38-41 | Consecutive numbered lines parse back to the same vectors, with the indices checked in order. |
| CoefficientPrinter.CoefficientTextRoundTrip | src/kodo/debug_coefficient_storage.hpp:36-65 | Parsing the printout of any matrix gives back that matrix. |
| CoefficientPrinter.CoefficientTextInjective | src/kodo/debug_coefficient_storage.hpp:36-65 | Two matrices with the same printout are equal. |
| CoefficientPrinter.DebugCoefficientStorage.constructor | test/src/test_debug_coefficient_storage.cpp:85-89 | A constructed and initialised storage has symbols coefficient vectors of symbols elements each, all zero. |
| CoefficientPrinter.DebugCoefficientStorage.SetCoefficientValue | test/src/test_debug_coefficient_storage.cpp:91-96 | Sets element j of vector index to value, which must be an element of the field. No other coefficient changes. |
| CoefficientPrinter.PrintDiagonal | test/src/test_debug_coefficient_storage.cpp:85-99 | A fresh 3x3 storage with d set on the diagonal prints as the text of the matrix diag(d, d, d). |
| CoefficientPrinter.BinaryIdentityText | test/src/test_debug_coefficient_storage.cpp:100-102 | The 3x3 identity prints as "0:\t1\t0\t0\t\n1:\t0\t1\t0\t\n2:\t0\t0\t1\t\n". |
| CoefficientPrinter.Binary8DiagonalText | test/src/test_debug_coefficient_storage.cpp:123-125 | diag(255, 255, 255) prints as "0:\t255\t0\t0\t\n1:\t0\t255\t0\t\n2:\t0\t0\t255\t\n". |
| CoefficientPrinter.DebugCoefficientStorageApi | test/src/test_debug_coefficient_storage.cpp:78-127 | The GF(2) and GF(2^8) storages of the test print exactly the two expected strings. |
| DecodeSimple.ReversedIndex | examples/decode_simple/decode_simple.cpp:32-41 | Position k of the reversal holds the element at n-1-k. |
| DecodeSimple.ReversedTwice | examples/decode_simple/decode_simple.cpp:34-40 | Reversing twice gives back the original. |
| DecodeSimple.ReverseValues | examples/decode_simple/decode_simple.cpp:31-41 | After the call the first length elements are the old ones reversed, and the elements at and after length are untouched. A length of 0 leaves the array unchanged (the corrected behaviour, see Findings). |
| DecodeSimple.SwapsFromShape | examples/decode_simple/decode_simple.cpp:37-40 | From indices i < j the loop as written makes (j - i + 1) / 2 swaps. Swap t exchanges i + t with j - t, and always i + t < j - t. |
| DecodeSimple.ReverseEmptyOutOfBounds | examples/decode_simple/decode_simple.cpp:34-40 | With length 0, j wraps to 4294967295. The loop then makes 2^31 swaps, the first of element 0 with element 4294967295, and every swap touches an index of at least 2^31, outside the empty range. |
| DecodeSimple.ReverseNonEmptyInBounds | examples/decode_simple/decode_simple.cpp:34-40 | For length >= 1 the loop as written makes exactly length / 2 swaps. Swap t exchanges elements t and length-1-t, so every swap stays inside the first length elements. |
| DecodeSimple.ReverseByteBit | examples/decode_simple/decode_simple.cpp:154-156 | Reversing the first length bits of a symbol moves bit k to bit length-1-k and leaves the higher bits alone. |
| DecodeSimple.ReverseSymbolBits | examples/decode_simple/decode_simple.cpp:154-156 | Bit reversal of one symbol, swapping bits from both ends, equals the reversed byte. |
| DecodeSimple.ExampleReversal | examples/decode_simple/decode_simple.cpp:134-151 | 0x0D becomes 0xB0 (00001101 to 10110000). The other data bytes map 0x1C to 0x38, 0x06 to 0x60, 0x11 to 0x88 and 0x0B to 0xD0. The 3-bit coefficients 0x02, 0x06, 0x05 become 0x02, 0x03, 0x05. |
| DecodeSimple.ReverseExampleData | examples/decode_simple/decode_simple.cpp:152-157 | The reversal loop yields exactly the reversed originals, encoded symbols and coefficients. |
| DecodeSimple.ExampleWrittenRelation | examples/decode_simple/decode_simple.cpp:102-144 | As written (most significant bit first), every bit of each encoded symbol is the GF(2) dot product of its coefficient row with the matching bits of the originals. In particular X1 = M2, X2 = M1 xor M2 and X3 = M1 xor M3. |
| DecodeSimple.ReversalKeepsRelation | examples/decode_simple/decode_simple.cpp:146-157 | For any data satisfying X = C·M as written, the bit-reversed data satisfy it in the stored (least significant bit first) order. |
| DecodeSimple.ExampleStoredRelation | examples/decode_simple/decode_simple.cpp:146-157 | The example's reversed data satisfy X = C·M in the order the decoder reads them. |
| DecodeSimple.DecodedTextLayout | examples/decode_simple/decode_simple.cpp:173-185 | The printout of count symbols of width bits is count lines of width + 1 characters. Character k of line s is bit s·width + k of the decoded data, and the last character of every line is a newline. |
| DecodeSimple.PrintDecodedBits | examples/decode_simple/decode_simple.cpp:173-185 | The loop over symbols·symbol_size·8 bits prints exactly the text laid out by DecodedText, with a newline after each symbol_size·8 bits. It prints nothing when symbol_size is 0. |
| DecodeSimple.Memcmp | examples/decode_simple/decode_simple.cpp:189 | Zero exactly when the first n bytes agree. A negative or positive result points at a first differing byte that is smaller or larger. |
| DecodeSimple.Verdict | examples/decode_simple/decode_simple.cpp:188-196 | Success is reported iff the first n decoded bytes equal the originals. Failure is reported otherwise. |
| DecodeSimple.DecodeSimpleMain | examples/decode_simple/decode_simple.cpp:171-196 | The output is the header, the decoded-bit lines of the three one-byte symbols, and the verdict on the reversed originals. |
| StorageBenchmark.Ceil | benchmark/storage/main.cpp:151-152 | The least integer not below x. |
| StorageBenchmark.FlatMapLength | benchmark/storage/main.cpp:137-158 | Nesting a loop of b iterations under a loop over xs produces |xs|·b entries. |
| StorageBenchmark.FlatMapIndex | benchmark/storage/main.cpp:137-158 | Entry q·b + r of the nested loop is entry r of the inner loop's output for xs[q]. |
| StorageBenchmark.DenseGetOptions | benchmark/storage/main.cpp:125-159 | The nested loops add exactly the configurations of DenseConfigs, one per combination, in loop order. |
| StorageBenchmark.DenseCount | benchmark/storage/main.cpp:137-158 | The dense list has |symbols|·|symbol_size|·|redundancy|·|types| configurations. |
| StorageBenchmark.DenseOrder | benchmark/storage/main.cpp:137-158 | The configuration for (symbols[si], symbol_size[pi], redundancy[ri], types[ti]) sits at position ((si·P + pi)·R + ri)·T + ti. So the order is symbols, then symbol_size, then redundancy, then type, and each configuration has encoded_symbols = ceil(s·r). |
| StorageBenchmark.SparseGetOptions | benchmark/storage/main.cpp:378-420 | The sparse nested loops add exactly the configurations of SparseConfigs, including the density. |
| StorageBenchmark.SparseCount | benchmark/storage/main.cpp:392-419 | The sparse list has |symbols|·|redundancy|·|symbol_size|·|types|·|density| configurations. |
| StorageBenchmark.SparseOrder | benchmark/storage/main.cpp:392-419 | The configuration for (s, r, p, t, d) sits at position (((si·R + ri)·P + pi)·T + ti)·D + di. So the order is symbols, then redundancy, then symbol_size, then type, then density, and encoded_symbols = ceil(s·r). |
| StorageBenchmark.ThroughputBenchmark.Setup | benchmark/storage/main.cpp:161-209 | The input buffer holds the random bytes and the output buffer is zero, both of block size symbols·symbol_size. There are encoded_symbols payload buffers of payload size, and the decoder has received nothing. |
| StorageBenchmark.Decoder.constructor | benchmark/storage/main.cpp:185 | A freshly built decoder has received nothing and carries the given completion oracle. |
| StorageBenchmark.Decoder.DecodeSymbol | benchmark/storage/main.cpp:309 | The decoder has additionally received the systematic symbol with its index. |
| StorageBenchmark.Decoder.Decode | benchmark/storage/main.cpp:235 | The decoder has additionally received the coded payload. |
| StorageBenchmark.Decoder.Initialize | benchmark/storage/main.cpp:300 | The decoder is back in a clean state, with nothing received. |
| StorageBenchmark.ThroughputBenchmark.CopyInput | benchmark/storage/main.cpp:277 | The output buffer becomes a copy of the input buffer. |
| StorageBenchmark.ThroughputBenchmark.ZeroSymbol | benchmark/storage/main.cpp:288-289 | The symbol_size bytes of symbol r become zero, and every other byte keeps its value. |
| StorageBenchmark.ThroughputBenchmark.EraseSymbols | benchmark/storage/main.cpp:280-290 | The erased set is the one the draws produce, and the output buffer is the old buffer with every erased symbol zeroed. |
| StorageBenchmark.ErasedSetBounds | benchmark/storage/main.cpp:280-290 | The erased indices are all below symbols and there are at most encoded_symbols of them. If fewer were erased, every draw has been used and is in the set. |
| StorageBenchmark.ErasureNeedsEnoughSymbols | benchmark/storage/main.cpp:281-283 | With encoded_symbols > symbols, no sequence of draws ever completes the set, so the source loop cannot end. |
| StorageBenchmark.ErasureCanFinish | benchmark/storage/main.cpp:281-290 | With encoded_symbols <= symbols, some sequence of draws completes a set of exactly encoded_symbols distinct indices. |
| StorageBenchmark.ErasedBlockSymbol | benchmark/storage/main.cpp:277-289 | After erasure, each byte of an erased symbol is zero and every other byte equals the input. |
| StorageBenchmark.ThroughputBenchmark.FeedSystematic | benchmark/storage/main.cpp:305-310 | The decoder additionally receives the non-erased symbols with their indices, in ascending order. |
| StorageBenchmark.SystematicInputs | benchmark/storage/main.cpp:305-310 | Every input fed is a systematic symbol below symbols that was not erased, and the indices strictly ascend. |
| StorageBenchmark.SystematicInputsComplete | benchmark/storage/main.cpp:305-310 | Every non-erased symbol, with its bytes, is among the inputs fed. |
| StorageBenchmark.ThroughputBenchmark.DecodePayloads | benchmark/storage/main.cpp:229-242 | The decoder additionally receives the payloads that the early-exit loop feeds. |
| StorageBenchmark.FeedPayloadsStops | benchmark/storage/main.cpp:233-241 | Feeding stops after some prefix of k payloads, with k >= 1 when there are payloads. The decoder was complete after none of the earlier prefixes, and it is complete after the k-th payload unless all were fed. No later payload is fed. |
| StorageBenchmark.ThroughputBenchmark.RunDecode | benchmark/storage/main.cpp:266-315 | One decoding run: the output buffer, as handed to the decoder, is the input with the erased symbols zeroed (decoding writing back into it is not modelled). The decoder received, from a clean state, the systematic symbols in ascending order and then the payloads up to completion. |
| StorageBenchmark.ThroughputBenchmark.AcceptMeasurement | benchmark/storage/main.cpp:96-118 | A decoder measurement is accepted iff decoding completed. An encoder measurement is always accepted. |
| StorageBenchmark.TotalBytesAsWritten | benchmark/storage/main.cpp:65-79 | The byte count exists exactly for the types "decoder" and "encoder". As written, it is the uint32_t product, which wraps. |
| StorageBenchmark.TotalBytes | benchmark/storage/main.cpp:65-79 | The byte count exists exactly for the two known types, and the exact product always fits the uint64_t. |
| StorageBenchmark.TotalBytesTruncated | benchmark/storage/main.cpp:68-75 | The written count is the exact count modulo 2^32. The two agree iff the product is below 2^32. |
| StorageBenchmark.TotalBytesWrapExample | benchmark/storage/main.cpp:68-83 | An encoder configuration of 2148 symbols of 1000000 bytes with redundancy 2.0 has 4296 encoded symbols. Its block of 2148000000 bytes fits uint32_t. Over one iteration, the byte count and the bytes per iteration are 1032704 as written, against 4296000000 exactly. |
| StorageBenchmark.BytesPerIteration | benchmark/storage/main.cpp:81-83 | The bytes per iteration is the quotient rounded down. |
| StorageBenchmark.MeasuredBytesAsWritten | benchmark/storage/main.cpp:65-83 | As written: for a known type, the bytes per iteration times the iteration count is within one iteration count below encoded_symbols·symbol_size modulo 2^32. An unknown type has none. |
| StorageBenchmark.MeasuredBytes | benchmark/storage/main.cpp:65-83 | Corrected (see Findings): for a known type, the bytes per iteration times the iteration count is within one iteration count below the exact encoded_symbols·symbol_size. An unknown type has none. |
| StorageBenchmark.MeasuredBytesAgree | benchmark/storage/main.cpp:68-83 | The as-written and the corrected measurement agree whenever the product fits 32 bits. Over one iteration they agree only then. |

## Left out

- The pivot_status_writer header is not part of this model; the class follows
  what its unit test asserts. The model takes these choices:
  - the status size is ceil(symbols / 8) bytes;
  - marking a symbol missing clears its bit;
  - write_pivot_status writes only the bits of the first symbols() symbols.
- NextSystematicSymbol: when a single symbol is available but no local pivot
  is missing remotely, the contract gives 0, which is what a release build
  returns. A debug build aborts at the assertion instead. ConsistentSingleSymbol
  shows that this case cannot arise for a consistent lower layer.
- The stacks of layers built from templates, and the test stacks'
  factories, are reduced to the values the modelled code reads.
- The fifi library's get_value and set_value are not part of this model.
  `BinaryField` encodes the least-significant-bit-first layout that the
  example's comment on stored bit order describes.
- The coding itself is not modelled: encoders, decoders and their finite-field
  arithmetic. The benchmark's decoder records what it receives. Whether it is
  complete is an arbitrary function of that record.
- decode_simple's decoding loop (decode_symbol and copy_symbols) is left out.
  DecodeSimpleMain takes the decoded bytes as a parameter.
- encode_payloads, run_encode, run_benchmark and the gauge framework
  (configuration storage, tables, the RUN timing macro) are left out. One
  iteration of RUN is modelled.
- The sparse benchmark's setup (set_density on the encoder) is left out.
- MeasuredBytes: divides the exact 64-bit product, not the total wrapped to
  32 bits that the source divides. The as-written value is
  MeasuredBytesAsWritten, and the difference is the second Findings row.
- The timing part of measurement() is left out. It divides bytes by a
  double-precision time.
- The redundancy and the density are exact reals, not IEEE doubles.
- The uint32_t cast of ceil(s·r) is assumed not to overflow (EncodedFits).
- rand() is a finite stream of draws given as a parameter. The modelled
  erasure loop ends when the draws run out, whereas the source loops until
  the set is full.
- setup's buffer size comes from the encoder's block_size(), taken as
  symbols·symbol_size. Its uint32_t wrap is not modelled.
- RunDecode: the decoder's set_symbols, which makes the decoder write into
  the output buffer, is left out. RunDecode's contract therefore describes the
  buffer as handed to the decoder, with the erased symbols zeroed, and not the
  restored buffer equal to the input that a completed decoding leaves.
- accept_measurement's debug assertion that the output equals the input
  depends on decoding, which is not modelled.
- AcceptMeasurement: does not model that assertion. It states only the
  completeness condition.
- Console output is modelled as returned strings. The stream flushes of
  std::endl are not.

## Findings

| source | as written | input that shows it | evidently intended | confidence | as-written member | corrected member |
|---|---|---|---|---|---|---|
| examples/decode_simple/decode_simple.cpp:35 | `j = length-1` in uint32_t, before the `i < j` test | length 0: j is 4294967295, so the loop makes 2^31 swaps, the first touching element 4294967295 of an empty range | reversing an empty range changes nothing | not executed; the example itself only calls it with lengths 8 and 3 | DecodeSimple.ReverseEmptyOutOfBounds | DecodeSimple.ReverseValues |
| benchmark/storage/main.cpp:70 | `encoded_symbols * symbol_size` multiplied in uint32_t, then stored in the uint64_t total_bytes (also line 74) | an encoder configuration of 2148 symbols of 1000000 bytes (the default symbol size) with redundancy 2.0 has 4296 encoded symbols. The byte count, and the bytes per iteration over one iteration, are 1032704 instead of 4296000000 | the exact product in 64 bits (TotalBytes), divided by the iteration count | not executed | StorageBenchmark.TotalBytesWrapExample | StorageBenchmark.MeasuredBytes |
