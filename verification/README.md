# The JPEG library's entropy coding and buffering, verified

A Dafny model of the core of libjpeg 8d (raspiManager/jni/jpeg8d) with proofs that what the
encoder writes is what the decoder reads, for every image, scan, restart interval and
progressive script, down to the bytes.

**Arithmetic coding.** `IntervalCoder` defines ideal interval coding over the adaptive
probabilities of `ProbabilityTable`.  `ArithRegisters` relates the 28-bit register with its
pending bytes to an interval, `ArithEncoding` is the encoder object of jcarith.c proved
against it and `ArithDecoding` the decoder of jdarith.c; `ArithRoundTrip` puts them together.
`Magnitudes`, `Coefficients`, `McuCoding` and `ScanCoding` binarise differences, bands, MCUs
and restart intervals in all five modes; `ArithEntropyEncoding` and `ArithEntropyDecoding`
are the objects that do so step by step; `Restarts` and `ArithScans` are whole scans.
`ArithBins` is about arbitrary input.  `Estimation` and `DecisionLayout` say what the
probability table, the decisions and their bins are, apart from the functions both sides
share; `LostRestarts` is about a scan that arrives without one of its restart intervals.

**Huffman coding.** `OptimalCode` proves which code lengths are best, `OptimalTable` that the
merging loop finds them, `LengthLimits` that they can be limited, and `CodeOrder` that
frequent symbols keep the short codes.  `CodeTable` and
`HuffmanDecoding` derive the tables of both sides, `BitWriting` and `BitReading` are the bit
buffers.  `HuffmanItems` to `HuffmanScan` say which symbols and bits stand for blocks in the
five modes, runs over many blocks included, and that decoding undoes them; `HuffmanFormat`
says which these are by the meaning of the codes.
`HuffmanEncoding`, `HuffmanStatistics`, `HuffmanAlphabets` and `HuffmanEntropyDecoding` are
the objects, `HuffmanSegments`, `HuffmanRestarts` and `HuffmanScans` whole scans.
`SuspendedRefinement` is decode_mcu_AC_refine on a source that runs dry anywhere.

**Images.** `Scripts`, `ScriptVerdicts` and `SuccessiveApproximation` are about scan scripts,
`McuLayout`, `BlockOrder`, `McuAssembly` and `McuStorage` about the coefficient controllers, and `ImageCoding` runs
every scan of a script through all of these.  `ContextRows` is the context-row state machine
of jdmainct.c.  `ColorConversion`, `Upsampling`, `MergedUpsampling`, `SeparateUpsampling` and
`ScanlineOutput` are the last stages of the decoder, where merged upsampling is proved to
give the same rows as separate upsampling and conversion.

Objects of the source are classes whose methods are proved against functions on values; the
lemmas are about these functions.  `JpegLib`, `Arithmetic`, `Bytes`, `Sums`, `Blocks`,
`BitStreams`, `Markers` and `Segments` are shared.

Two results are about code that does not do what is said of it.  The arithmetic encoder codes
DC differences beyond 2^15 that its decoder gives up on: `ArithScans.RoundTrip` says exactly
which restart intervals are lost.  The row group of context that jdmainct.c promises below
every row group is not always there: `ContextRows.WholeContext` says exactly when it is, and
`ContextRows.PaddingShown` shows where it is not.

`dafny verify dfyconfig.toml` checks the project; it needs
`--resource-limit 2000000 --verification-time-limit 0` or more.

## Model

| member | source | states |
|---|---|---|
| IntervalCoder.HalvesPartition | raspiManager/jni/jpeg8d/jcarith.c:239-260 | the two sub-intervals that a decision selects between split the points of the coding interval: every byte string in it is in exactly one of them |
| ProbabilityTable.PackedSteps | raspiManager/jni/jpeg8d/jcarith.c:226-255 | taking a table entry apart by shifts and masks and XORing the statistics byte, as both coders do, is the same as following the unpacked entry |
| Estimation.AllLawful | raspiManager/jni/jpeg8d/jaricom.c:32-153 | in every one of the 114 states: a more probable symbol moves to a state with a smaller estimate, but for the two states that stay; a less probable one that keeps the sense moves to a greater estimate, but for the fixed state; the sense is exchanged only where the estimate is above a third of 0x10000, and the estimate does not grow then |
| Estimation.Packed0 | raspiManager/jni/jpeg8d/jaricom.c:35-50 | states 0 to 15: the 32-bit words that the macro V packs, digit by digit |
| Estimation.Packed16 | raspiManager/jni/jpeg8d/jaricom.c:51-66 | states 16 to 31: the 32-bit words that the macro V packs, digit by digit |
| Estimation.Packed32 | raspiManager/jni/jpeg8d/jaricom.c:67-82 | states 32 to 47: the 32-bit words that the macro V packs, digit by digit |
| Estimation.Packed48 | raspiManager/jni/jpeg8d/jaricom.c:83-98 | states 48 to 63: the 32-bit words that the macro V packs, digit by digit |
| Estimation.Packed64 | raspiManager/jni/jpeg8d/jaricom.c:99-114 | states 64 to 79: the 32-bit words that the macro V packs, digit by digit |
| Estimation.Packed80 | raspiManager/jni/jpeg8d/jaricom.c:115-130 | states 80 to 95: the 32-bit words that the macro V packs, digit by digit |
| Estimation.Packed96 | raspiManager/jni/jpeg8d/jaricom.c:131-146 | states 96 to 111: the 32-bit words that the macro V packs, digit by digit |
| Estimation.Packed112 | raspiManager/jni/jpeg8d/jaricom.c:147-152 | states 112 and 113: the 32-bit words that the macro V packs, digit by digit |
| Estimation.StatLaws | raspiManager/jni/jpeg8d/jcarith.c:233-265 | the laws of the estimator on statistics: the estimate never grows after a more probable symbol, and after a less probable one that keeps the sense it never shrinks |
| Estimation.LikelierGetsMore | raspiManager/jni/jpeg8d/jcarith.c:233-260 | conditional exchange: the more probable symbol never gets the smaller part of the interval |
| Estimation.AdaptsOnRenormalising | raspiManager/jni/jpeg8d/jcarith.c:233-265 | a statistics bin changes only with a decision made with it that renormalises the interval, and then as the symbol says; a less probable symbol always renormalises (LpsRenormalises) |
| Estimation.ExpectedIsFree | raspiManager/jni/jpeg8d/jcarith.c:133-193 | the more probable symbol has the lower end of the interval: a segment of expected decisions, however long, is coded in no bytes at all |
| ArithRegisters.CarryStops | raspiManager/jni/jpeg8d/jcarith.c:269-294 | when a byte is due the carry is bit 27 alone; a carried byte is below 0x20 and never 0xFF, and a carry never runs past the first byte of a segment |
| ArithRegisters.ByteTaken | raspiManager/jni/jpeg8d/jcarith.c:269-308 | taking a byte out of C, carry into the pending bytes included, leaves the interval denoted by output and registers unchanged |
| ArithRegisters.RegisterWidth | raspiManager/jni/jpeg8d/jcarith.c:219-311 | C never needs more than 28 bits |
| ArithEncoding.ArithEncoder.ArithEncode | raspiManager/jni/jpeg8d/jcarith.c:219-311 | one call appends exactly one decision to what has been coded; pending bytes, stacked 0xFF bytes, held-back zeros, registers and statistics then denote exactly the interval of all decisions coded so far (the invariant Valid) |
| ArithEncoding.ArithEncoder.FinishPass | raspiManager/jni/jpeg8d/jcarith.c:133-193 | the bytes of the segment lie in the final interval, and no byte string in that interval is shorter |
| ArithRegisters.FinalSegment | raspiManager/jni/jpeg8d/jcarith.c:140-193 | the point with the most trailing zero bits, its zero bytes dropped, is a shortest string of the interval, whatever carry it causes |
| ArithDecoding.ArithDecoder.ArithDecode | raspiManager/jni/jpeg8d/jdarith.c:106-182 | the register code computes the decision and the state of the functional decoder, on every input, the bytes past a marker or the end of the data read as zero |
| ArithRoundTrip.DecodeMatches | raspiManager/jni/jpeg8d/jdarith.c:106-182 | a decoder that follows the encoder's interval finds the half the encoder chose, adapts its statistics alike, and follows the new interval |
| ArithRoundTrip.DecodesAll | raspiManager/jni/jpeg8d/jdarith.c:106-182 | for every sequence of decisions and every segment in the interval they select, with whatever follows it, decoding with the same bins gives the decisions back and the same statistics |
| Bytes.StuffInjective | raspiManager/jni/jpeg8d/jcarith.c:116-193 | byte stuffing loses nothing |
| Bytes.StuffHasNoMarker | raspiManager/jni/jpeg8d/jcarith.c:116-193 | in a stuffed segment a zero byte follows every 0xFF, so that no marker can be found in it |
| Bytes.UnstuffStuff | raspiManager/jni/jpeg8d/jdarith.c:117-136 | leaving out the zero behind every 0xFF gives the bytes of the segment back |
| Magnitudes.DcDiffDecodes | raspiManager/jni/jpeg8d/jdarith.c:268-304 | a coded DC difference of either sign is found in range if and only if its magnitude is at most 2^15, and then decodes to itself, with the conditioning category the encoder goes on with |
| DecisionLayout.ContextIs | raspiManager/jni/jpeg8d/jcarith.c:754-758 | section F.1.4.4.1.2 of ITU-T T.81 in terms of the difference alone: context 0 for zero and for L > 0 and magnitudes up to 2^(L-1); 4 or 8 by sign up to 2^U; 12 or 16 above |
| DecisionLayout.DcDiffIs | raspiManager/jni/jpeg8d/jcarith.c:716-764 | the decisions of a difference: zero or not, sign (1 for negative), above 1 or not, with the four bins of the context; then the category from bin 20 and the digits from bin 34 on |
| DecisionLayout.CategoryIsUnary | raspiManager/jni/jpeg8d/jcarith.c:742-754 | a category is sent in unary: one decision 1 for each binary digit below the highest, with bins one after the other, and a 0 |
| DecisionLayout.PatternIsBinary | raspiManager/jni/jpeg8d/jcarith.c:760-763 | the digits below the highest follow, the most significant first, all with one bin |
| DecisionLayout.AreaTiled | raspiManager/jni/jpeg8d/jcarith.c:777-804 | the bins of an AC area follow each other without gaps: three for each position, and 28 each for magnitudes at positions up to Kx and above |
| DecisionLayout.AcMagnitudeIs | raspiManager/jni/jpeg8d/jcarith.c:794-816 | an AC magnitude: above 1 and above 2 with the same bin, then the rest of the category and the digits |
| DecisionLayout.RunIs | raspiManager/jni/jpeg8d/jcarith.c:780-816 | a coefficient behind zeros: a decision 0 for each of them, 1 for the coefficient, its sign by the fixed bin, its magnitude |
| DecisionLayout.EndIs | raspiManager/jni/jpeg8d/jcarith.c:776-822 | a decision whether the block ends stands in front of every coefficient sent, and is 1 exactly behind the last |
| DecisionLayout.DifferenceSent | raspiManager/jni/jpeg8d/jcarith.c:709-731 | what is sent of a DC coefficient is how much it exceeds its prediction, and the context that follows is that of this difference |
| DecisionLayout.PredictedByLast | raspiManager/jni/jpeg8d/jcarith.c:709-731 | a DC coefficient is predicted by the last one of its component, and by nothing else (OthersPredicted) |
| DecisionLayout.CorrectionIs | raspiManager/jni/jpeg8d/jcarith.c:646-667 | the bit sent in a refinement is the step from what was known of the magnitude to what is known now, and exactly magnitudes known as 0 before can become 1 |
| DecisionLayout.RefinedIs | raspiManager/jni/jpeg8d/jcarith.c:646-668 | a coefficient known before gets its next bit with the third bin of its position; a new one the decision 1 with the second bin, and its sign by the fixed bin |
| DecisionLayout.EndRefinedIs | raspiManager/jni/jpeg8d/jcarith.c:641-675 | a decision whether the block ends is sent only behind the last coefficient known before |
| DecisionLayout.LastKnown | raspiManager/jni/jpeg8d/jcarith.c:618-638 | the two positions EOB and EOBx are the last ones not zero after and before the scan |
| DecisionLayout.DcBitIs | raspiManager/jni/jpeg8d/jcarith.c:572-579 | a DC refinement sends, by the fixed bin, the bit below those sent before |
| Coefficients.FirstDecodes | raspiManager/jni/jpeg8d/jdarith.c:321-390 | the AC coefficients of a sequential scan or a first pass decode to what was coded, shifted back, and positions outside the band are untouched |
| Coefficients.RefineDecodes | raspiManager/jni/jpeg8d/jdarith.c:431-495 | a refinement turns every coefficient known with one bit less into the coefficient known with this bit, although encoder and decoder find the previous end of block in different ways |
| McuCoding.BlockDecodes | raspiManager/jni/jpeg8d/jdarith.c:503-627 | one block in any of the five coding modes: if the decoder meets the encoder's decisions it ends with the refined block and the encoder's predictions and contexts |
| ArithEntropyEncoding.ArithEntropyEncoder.EncodeAcRefine | raspiManager/jni/jpeg8d/jcarith.c:590-678 | the loops over the band code exactly the decisions of a refinement of the block |
| ArithEntropyEncoding.ArithEntropyEncoder.EncodeMcu | raspiManager/jni/jpeg8d/jcarith.c:686-826 | restart accounting and all block codings: the record of intervals, segments and MCUs coded so far is extended by exactly this MCU |
| ArithEntropyEncoding.ArithEntropyEncoder.StartPass | raspiManager/jni/jpeg8d/jcarith.c:834-909 | begins an empty record of a new scan without output, in a state where its first segment can be coded |
| ArithEntropyEncoding.ArithEntropyEncoder.EmitRestart | raspiManager/jni/jpeg8d/jcarith.c:319-353 | ends the segment of a full interval, emits the next marker and begins the next interval in a fresh state |
| ArithEntropyEncoding.ArithEntropyEncoder.FinishPass | raspiManager/jni/jpeg8d/jcarith.c:133-193 | the output since start_pass is the segments of the restart intervals joined by RSTn markers, and each segment codes the MCUs of its interval from fresh statistics |
| ArithEntropyDecoding.ArithEntropyDecoder.DecodeAcRefine | raspiManager/jni/jpeg8d/jdarith.c:431-495 | the loops in place on a block in natural order compute the functional refinement of its zigzag order |
| ArithEntropyDecoding.ArithEntropyDecoder.DecodeNextMcu | raspiManager/jni/jpeg8d/jdarith.c:503-627 | the decoder object, blocks decoded in place, does what the functional decoder does with one MCU, restarts and the state after an overflow included |
| ArithEntropyDecoding.ArithEntropyDecoder.Restart | raspiManager/jni/jpeg8d/jdarith.c:190-222 | process_restart computes the state the functional decoder goes on with |
| Restarts.RestartFound | raspiManager/jni/jpeg8d/jdmarker.c:1159-1185 | the RSTn marker expected is found from any state inside the segment before it; what is skipped is exactly what had not been read of the segment |
| Restarts.ScanDecodes | raspiManager/jni/jpeg8d/jdarith.c:190-222 | whole scans: with every division into restart intervals there is one warning for each interval with a DC difference out of range, and all other intervals are recovered, those after a bad one too |
| LostRestarts.OnlyOneLost | raspiManager/jni/jpeg8d/jdmarker.c:1159-1280 | if any one restart interval is lost together with the RSTn marker in front of it, the decoder resynchronises: all MCUs of the intervals before and behind it are recovered at their places, but for differences out of range |
| LostRestarts.RestartEarly | raspiManager/jni/jpeg8d/jdmarker.c:1159-1185 | the first read_restart_marker after the loss finds the next number: it stays in the input |
| LostRestarts.LostInterval | raspiManager/jni/jpeg8d/jdarith.c:190-222 | the interval in place of the lost one decodes from zeros, and at its end the marker left is the one expected |
| LostRestarts.LostMarkers | raspiManager/jni/jpeg8d/jdmarker.c:1238-1280 | one or two lost markers: the marker is left until it is due, and then taken without a byte skipped |
| LostRestarts.ResyncIs | raspiManager/jni/jpeg8d/jdmarker.c:1187-1236 | the recovery procedure by how far the number found is ahead of the one desired, modulo 8: 1 or 2 ahead or no restart marker, stay; 1 or 2 behind or no valid marker, scan on; 3 to 5 ahead or the desired one, go on behind it |
| ArithScans.RoundTrip | raspiManager/jni/jpeg8d/jcarith.c:686-826 | encoder object to bytes to decoder object, for every scan, restart interval, MCU sequence and following marker: the number of warnings is exactly the number of intervals with a DC difference beyond 2^15, all other intervals are refined by exactly this scan, and without warnings all MCUs are |
| ArithBins.McuReads | raspiManager/jni/jpeg8d/jdarith.c:503-627 | on any input whatever an MCU is decoded with bins of the areas of its scan only: DC bins 0 to 48, AC bins 0 to 244 and the fixed bin |
| ArithBins.OthersKept | raspiManager/jni/jpeg8d/jdarith.c:106-182 | decoding changes no other bin |
| Restarts.AnyStream | raspiManager/jni/jpeg8d/jdarith.c:106-222 | over a whole scan of any bytes from any state the registers stay in range unless decoding has stopped at an overflow, and every bin outside the scan is left alone or zeroed with its area at a restart |
| Segments.MarkerFound | raspiManager/jni/jpeg8d/jdmarker.c:911-954 | next_marker finds the marker behind a stuffed segment from anywhere in it, and counts exactly the bytes of the segment left |
| Segments.SegmentAt | raspiManager/jni/jpeg8d/jcarith.c:319-353 | every segment but the last is in the output unbroken, with 0xFF, 0xD0 + k modulo 8 behind segment k |
| Markers.FirstMarker | raspiManager/jni/jpeg8d/jdmarker.c:911-954 | on any data next_marker finds the first 0xFF that neither a stuffed zero nor another 0xFF follows, and the code behind it |
| Markers.FindMarker | raspiManager/jni/jpeg8d/jdmarker.c:911-954 | the loop over fill bytes and stuffed zeros finds the next marker, its position and the bytes discarded, the end of the source reading as EOI |
| Markers.ResyncToRestart | raspiManager/jni/jpeg8d/jdmarker.c:1238-1280 | the decision loop of jpeg_resync_to_restart discards, scans on or gives up as its table of cases says, on any input |
| Markers.ReadRestartMarker | raspiManager/jni/jpeg8d/jdmarker.c:1159-1185 | takes the expected marker or resynchronises; says which, and what was skipped |
| OptimalCode.LowerBound | raspiManager/jni/jpeg8d/jchuff.c:1268-1327 | no assignment of code lengths that satisfies Kraft's inequality costs less than the sum of all merges of the two smallest counts |
| OptimalTable.AssignLengths | raspiManager/jni/jpeg8d/jchuff.c:1268-1327 | the merging loop with its chains of branches yields code lengths of least cost among all that satisfy Kraft's inequality; unused symbols get none and the lengths fill the unit interval exactly |
| LengthLimits.ShorterExists | raspiManager/jni/jpeg8d/jchuff.c:1342-1368 | whenever a code is longer than 16 bits some code is at least two bits shorter than it, so that the search for a prefix to split ends in range |
| LengthLimits.LimitLengths | raspiManager/jni/jpeg8d/jchuff.c:1342-1368 | the adjustment ends with all lengths at most 16, as many codes as before and still a complete code; it changes nothing if no code was too long; and codes are lengthened only if they must be: below the shortest length that changes all counts are kept, and no code limited to 16 bits that keeps these has more codes of that length |
| LengthLimits.RoomNeeded | raspiManager/jni/jpeg8d/jchuff.c:1342-1368 | a pair of codes that is too long needs room below the longest code at least two bits shorter: no limited code keeps all codes of that length and below |
| LengthLimits.OptimalComplete | raspiManager/jni/jpeg8d/jchuff.c:1329-1340 | the counts of an optimal code with lengths up to 32 are complete and fit their bytes |
| LengthLimits.GenOptimalTable | raspiManager/jni/jpeg8d/jchuff.c:1256-1389 | fails if and only if some optimal length exceeds 32; otherwise, limited or not, the table is acceptable to both jpeg_make routines, lists every real symbol in use once and no others, by optimal length and then by value, keeps the short codes as LimitLengths says, and no code is longer than the optimal one if none had to be limited |
| CodeOrder.OrderKept | raspiManager/jni/jpeg8d/jchuff.c:1371-1385 | limited or not: of two listed symbols the one with the shorter optimal length has a code no longer than the other |
| CodeOrder.FrequentIsShort | raspiManager/jni/jpeg8d/jchuff.c:1268-1340 | of two symbols in use the more frequent one has an optimal length no longer than the other |
| CodeTable.MakeCDerived | raspiManager/jni/jpeg8d/jchuff.c:161-246 | accepts a table if and only if its counts leave a code free and its symbols are in range and not repeated; the derived table then holds the canonical code and size of every symbol |
| HuffmanDecoding.MakeDDerived | raspiManager/jni/jpeg8d/jdhuff.c:323-440 | accepts a table if and only if its codes fit (and DC symbols are at most 15); bounds, offsets and the lookahead table then agree with the code |
| HuffmanDecoding.PrefixFree | raspiManager/jni/jpeg8d/jchuff.c:201-219 | no code is the beginning of another |
| HuffmanDecoding.NotAllOnes | raspiManager/jni/jpeg8d/jchuff.c:201-219 | no code consists of ones only |
| HuffmanFormat.CodesInOrder | raspiManager/jni/jpeg8d/jchuff.c:201-219 | codes are assigned by ascending length without gaps: the first is 0, and each is the one before plus 1, with zeros behind it if it is longer |
| HuffmanDecoding.SymbolDecodes | raspiManager/jni/jpeg8d/jdhuff.c:592-627 | a code followed by any bits decodes to its symbol and ends where it ends |
| BitReading.BitReader.HuffDecode | raspiManager/jni/jpeg8d/jdhuff.c:592-627 | lookahead table or bit-serial search, whichever is taken at the number of bits left, finds the symbol the code table defines, on every input; past the data the bits are zeros |
| BitReading.BitReader.SlowDecode | raspiManager/jni/jpeg8d/jdhuff.c:592-627 | the bit-serial procedure started at any admissible length |
| BitReading.BitReader.GetBits | raspiManager/jni/jpeg8d/jdhuff.c:465-562 | the next n bits of the unstuffed data, zeros past their end, whatever the buffer held |
| BitWriting.BitWriter.EmitBits | raspiManager/jni/jpeg8d/jchuff.c:307-341 | the size low-order bits of a value, negative ones included, are appended to the stream of bits, which the stuffed output and the bit buffer together hold; size 0 is refused |
| BitWriting.BitWriter.FlushBits | raspiManager/jni/jpeg8d/jchuff.c:386-393 | the segment is completed by fewer than 8 ones |
| HuffmanBlocks.AcDecodes | raspiManager/jni/jpeg8d/jdhuff.c:1187-1302 | the run-length symbols of the AC coefficients of a sequential block decode to the block |
| HuffmanFormat.SizeIs | raspiManager/jni/jpeg8d/jchuff.c:925-945 | the size of a magnitude is its number of binary digits |
| HuffmanFormat.ValuesNumbered | raspiManager/jni/jpeg8d/jchuff.c:925-955 | the values of one size are numbered in ascending order, the least 0 and the greatest 2^n - 1 |
| HuffmanFormat.NumbersAdjacent | raspiManager/jni/jpeg8d/jchuff.c:925-955 | neighbours have neighbouring numbers, across the gap between the signs too |
| HuffmanFormat.DifferenceSent | raspiManager/jni/jpeg8d/jchuff.c:916-962 | a DC coefficient is sent as the size and number of how much it exceeds its prediction |
| HuffmanFormat.PredictedByLast | raspiManager/jni/jpeg8d/jchuff.c:1040-1058 | it is predicted by the last one of its component in the interval, and by nothing else (OthersPredicted) |
| HuffmanFormat.RunIs | raspiManager/jni/jpeg8d/jchuff.c:964-1000 | a coefficient behind zeros: 0xF0 for every sixteen of them, then the symbol of the other zeros and the size, then its number |
| HuffmanFormat.RestIs | raspiManager/jni/jpeg8d/jchuff.c:1002-1005 | nothing but zeros left: one symbol 0 |
| HuffmanFirst.FirstDecodes | raspiManager/jni/jpeg8d/jdhuff.c:766-845 | whole segments of a first AC pass, end-of-band runs across any number of blocks included, decode to their coefficients, and nothing is left of the last run |
| HuffmanFormat.BandRunIs | raspiManager/jni/jpeg8d/jchuff.c:655-707 | a coefficient of a first pass behind zeros of its band: the same symbols, of the coefficient without the bits not sent |
| HuffmanFormat.EndRunIs | raspiManager/jni/jpeg8d/jchuff.c:458-482 | a run of e bands, 2^n <= e < 2^(n+1): the symbol 16 n and e - 2^n in n bits |
| HuffmanFormat.EmptyBands | raspiManager/jni/jpeg8d/jchuff.c:709-713 | bands of zeros are only counted, over any number of blocks, and the run is sent when it reaches 0x7FFF |
| HuffmanFormat.RunEnds | raspiManager/jni/jpeg8d/jchuff.c:682-713 | in front of a coefficient the run is sent; a new one begins exactly if the band ends in zeros |
| HuffmanRefine.RefDecodes | raspiManager/jni/jpeg8d/jdhuff.c:904-1050 | whole segments of an AC refinement, with correction bits delayed over end-of-band runs, decode to their coefficients with one more bit |
| HuffmanFormat.NewIs | raspiManager/jni/jpeg8d/jchuff.c:868-882 | a newly nonzero coefficient: the symbol of the zeros in front of it and size 1, its sign, and then the bits of the coefficients passed over |
| HuffmanFormat.LongRunIs | raspiManager/jni/jpeg8d/jchuff.c:844-855 | at a nonzero coefficient behind sixteen zeros: 0xF0, and the bits of the coefficients passed over |
| HuffmanFormat.CorrectionIs | raspiManager/jni/jpeg8d/jchuff.c:857-866 | these bits are the lowest ones sent of the coefficients already nonzero, in order |
| HuffmanFormat.NothingNew | raspiManager/jni/jpeg8d/jchuff.c:885-894 | a band without newly nonzero coefficients lengthens the run and its bits wait behind those already waiting; run and bits are sent at 0x7FFF, or if another block might bring the bits above 1000 |
| HuffmanFormat.RunAndBits | raspiManager/jni/jpeg8d/jchuff.c:844-894 | in front of the symbols of a new coefficient the run is sent with its bits; what remains of the band behind the last one begins the next run |
| HuffmanRefine.RefBlockPending | raspiManager/jni/jpeg8d/jchuff.c:786-910 | the end-of-band counter and the buffer of correction bits are never overrun |
| HuffmanScan.SegDecodes | raspiManager/jni/jpeg8d/jdhuff.c:1187-1302 | any restart interval in any of the five modes decodes to its MCUs refined by the scan, and ends exactly behind its last item |
| HuffmanEncoding.HuffEncoder.EncodeOneBlock | raspiManager/jni/jpeg8d/jchuff.c:916-1008 | sends exactly the items of a sequential block; fails if and only if a magnitude is too large or a code is missing |
| HuffmanEncoding.HuffEncoder.HtestOneBlock | raspiManager/jni/jpeg8d/jchuff.c:1122-1188 | counts exactly the symbols that encode_one_block sends for the block |
| HuffmanEncoding.HuffEncoder.EncodeAcFirst | raspiManager/jni/jpeg8d/jchuff.c:628-729 | a block of a first AC pass sends its items and leaves the pending run, flushed at 0x7FFF |
| HuffmanEncoding.HuffEncoder.EncodeAcRefine | raspiManager/jni/jpeg8d/jchuff.c:786-910 | a block of a refinement sends its items and leaves the pending run and correction bits, within the bounds of the buffer |
| HuffmanEncoding.HuffEncoder.EncodeMcu | raspiManager/jni/jpeg8d/jchuff.c:1016-1065 | succeeds if and only if the pending items of a due restart and the items of the MCU can be coded; the record of the scan is then extended by exactly this MCU |
| HuffmanEncoding.HuffEncoder.StartPass | raspiManager/jni/jpeg8d/jchuff.c:1451-1549 | fails if and only if a table the scan uses cannot be used; otherwise an empty record begins |
| HuffmanEncoding.HuffEncoder.FinishPass | raspiManager/jni/jpeg8d/jchuff.c:1073-1104 | the output since start_pass is the segments of the restart intervals joined by markers, each the bits of its items filled up with ones |
| HuffmanEncoding.HuffEncoder.FinishGathering | raspiManager/jni/jpeg8d/jchuff.c:1397-1441 | the tables made are optimal for exactly the symbols of the whole scan, restarts included; fails only if one of the optimal codes is deeper than 32 |
| HuffmanStatistics.TablesCover | raspiManager/jni/jpeg8d/jchuff.c:1397-1441 | tables made from the counts of a scan can be used and have a code for each of its symbols |
| HuffmanAlphabets.SegmentHas | raspiManager/jni/jpeg8d/jchuff.c:1197-1225 | every table in use is sent at least one symbol in every restart interval, end-of-band runs included |
| HuffmanAlphabets.StatisticsGatherable | raspiManager/jni/jpeg8d/jchuff.c:1397-1441 | what jpeg_gen_optimal_table expects of its counts (some real symbol, not all of them) holds for every scan; only the total has to be assumed |
| HuffmanEntropyDecoding.HuffDecoder.DecodeSequential | raspiManager/jni/jpeg8d/jdhuff.c:1187-1302 | a sequential block decoded in place, wanted coefficients stored and the others skipped, is the functional decoding of its zigzag order |
| HuffmanEntropyDecoding.HuffDecoder.DecodeAcRefine | raspiManager/jni/jpeg8d/jdhuff.c:904-1050 | a refinement in place is the functional one |
| HuffmanEntropyDecoding.HuffDecoder.DecodeNextMcu | raspiManager/jni/jpeg8d/jdhuff.c:1187-1302 | the decoder object does what the functional decoder does with one MCU, restarts and exhausted data included |
| HuffmanEntropyDecoding.HuffDecoder.Restart | raspiManager/jni/jpeg8d/jdhuff.c:636-668 | process_restart: skipped bits counted, marker read, state reset |
| HuffmanEntropyDecoding.HuffDecoder.StartPass | raspiManager/jni/jpeg8d/jdhuff.c:1310-1501 | fails if and only if a table the scan uses cannot be decoded with |
| HuffmanRestarts.ScanDecodes | raspiManager/jni/jpeg8d/jdhuff.c:636-668 | segments of the restart intervals joined by RSTn markers, with any marker behind, decode to all MCUs refined, and the decoder ends in the clean state with all data used |
| HuffmanScans.EncodeScan | raspiManager/jni/jpeg8d/jchuff.c:1016-1104 | fails if and only if a table cannot be used, a coefficient is too large or a code is missing; otherwise the bytes are the joined segments of the restart intervals |
| HuffmanScans.RoundTrip | raspiManager/jni/jpeg8d/jchuff.c:541-1104 | encoder object to bytes to decoder object, in all five modes: whatever the encoder accepts, and it accepts exactly what Encodable says, decodes to the blocks refined by exactly this scan, with no data shortage, byte skipped or resynchronisation |
| HuffmanScans.GatherScan | raspiManager/jni/jpeg8d/jchuff.c:1197-1225 | the statistics pass over a scan: the tables are optimal for its symbols; fails only on a coefficient too large or a code too deep |
| HuffmanScans.OptimizedRoundTrip | raspiManager/jni/jpeg8d/jchuff.c:1397-1441 | two passes: with tables made for the scan encoding cannot meet a missing code, and the output decodes to the refined blocks |
| SuspendedRefinement.DecodeAcRefine | raspiManager/jni/jpeg8d/jdhuff.c:904-1050 | with data for any number of reads: completes or suspends, having zeroed again what it made newly nonzero and kept the corrections |
| SuspendedRefinement.BlockSuspends | raspiManager/jni/jpeg8d/jdhuff.c:1044-1050 | decoding the block a suspended call leaves gives what decoding the block it was given would have given |
| SuspendedRefinement.Restartable | raspiManager/jni/jpeg8d/jdhuff.c:904-1050 | however often and wherever calls are suspended, once one completes, block, run and position are those of one uninterrupted call |
| Scripts.ValidateScript | raspiManager/jni/jpeg8d/jcmaster.c:358-489 | the verdict on every script, progressive or sequential, is the first violated rule of the specification predicates, scan number included |
| ScriptVerdicts.SequentialAccepted | raspiManager/jni/jpeg8d/jcmaster.c:358-489 | a sequential script is accepted if and only if every scan has one to four components of the image in ascending order, sends all coefficients in full, and every component is in exactly one scan |
| ScriptVerdicts.ProgressiveAccepted | raspiManager/jni/jpeg8d/jcmaster.c:358-489 | a progressive script is accepted if and only if a decoder plays it without error or warning, no bit position exceeds 10, no scan sends again what is complete, and every component gets DC data |
| ScriptVerdicts.RefusedAt | raspiManager/jni/jpeg8d/jcmaster.c:392-470 | a refusal names the first scan refused, counted from 1, and what is wrong with it: the number of its components, their indexes or repetition, or else its parameters |
| Scripts.ReduceScript | raspiManager/jni/jpeg8d/jcmaster.c:493-522 | in place: the scans with coefficients up to lim_Se, their bands cut, in order |
| Scripts.ReducedLastAl | raspiManager/jni/jpeg8d/jcmaster.c:493-522 | reduction keeps the bit position known of every coefficient that remains |
| Scripts.StartScan | raspiManager/jni/jpeg8d/jdhuff.c:1315-1361 | the decoder's check: fatally bad exactly by its parameters, and no warning if and only if the scan continues what coef_bits holds |
| Scripts.Replay | raspiManager/jni/jpeg8d/jdhuff.c:1315-1361 | a decoder that replays a list of scans accepts all of them without a warning if and only if each continues the scans before it |
| Scripts.AcceptedPlays | raspiManager/jni/jpeg8d/jcmaster.c:358-522 | every progressive script validate_script accepts, reduced to any block size, is replayed by the decoder without error or warning |
| ScriptVerdicts.OrderlyExactly | raspiManager/jni/jpeg8d/jcmaster.c:358-489 | the checks of encoder and decoder differ in two points only: the limit of 10 for bit positions, and scans that send again what is complete |
| Scripts.SimpleProgression | raspiManager/jni/jpeg8d/jcparam.c:559-630 | fills exactly the space figured beforehand with the recommended script |
| ScriptVerdicts.SimpleIsDocumented | raspiManager/jni/jpeg8d/wizard.txt:181-204 | the script for YCbCr images is the one the documentation lists |
| ScriptVerdicts.SimpleSteps | raspiManager/jni/jpeg8d/jcparam.c:613-629 | in the script for other images every component is sent in six steps: DC without the lowest bit, AC without the lowest two in two bands, and then bit by bit |
| Scripts.SimpleScriptComplete | raspiManager/jni/jpeg8d/jcparam.c:559-630 | for every number of components the recommended script is valid and sends every bit of every coefficient |
| SuccessiveApproximation.ScanKnown | raspiManager/jni/jpeg8d/jdhuff.c:1315-1361 | in a valid script every scan finds exactly what it refines, and a refined block is what is known one scan later |
| SuccessiveApproximation.ValueNear | raspiManager/jni/jpeg8d/jchuff.c:541-729 | what is known after a scan that ended at bit b is a multiple of 2^b: by less than 2^b below a DC coefficient, and nearer to zero by less than 2^b than an AC coefficient of the same sign |
| SuccessiveApproximation.CompleteKnown | raspiManager/jni/jpeg8d/jcmaster.c:358-489 | a coefficient whose last scan had Al = 0 is known exactly |
| McuLayout.RoundTwice | raspiManager/jni/jpeg8d/jcmaster.c:320-352 | rounding sizes up to blocks and blocks up to MCUs gives every component the same number of MCUs |
| McuLayout.InitialSetup | raspiManager/jni/jpeg8d/jcmaster.c:220-352 | for any image size, block size and sampling factors: across and down are the least numbers of MCUs that cover width and height, and the blocks of every component are the least that cover its own width and height, width times its factor over the greatest factor; the frame is valid |
| McuLayout.Layout.PrefixDistinct | raspiManager/jni/jpeg8d/jcmaster.c:572-653 | no block position occurs twice in the MCUs of a scan, interleaved or not |
| BlockOrder.InterleavedOrder | raspiManager/jni/jpeg8d/jcmaster.c:605-653 | MCU row by MCU row, and in an MCU component by component, row by row: where in the scan every block of an interleaved scan is |
| BlockOrder.SingleOrder | raspiManager/jni/jpeg8d/jcmaster.c:579-603 | in a scan of one component the MCUs are its blocks, row by row |
| BlockOrder.BlocksBefore | raspiManager/jni/jpeg8d/jcmaster.c:605-653 | in an MCU a component has as many blocks as its sampling factors say, and one in a scan of its own |
| BlockOrder.DummyRepeats | raspiManager/jni/jpeg8d/jccoefct.c:168-205 | a dummy block is zero but for its DC value, which is that of the block before it in the MCU |
| McuLayout.Layout.Covered | raspiManager/jni/jpeg8d/jcmaster.c:572-653 | every block of the image is in some MCU |
| McuLayout.Layout.RightEdge | raspiManager/jni/jpeg8d/jccoefct.c:168-205 | the edge tests with last_col_width find exactly the blocks of the image |
| McuAssembly.CoefController.CompressScan | raspiManager/jni/jpeg8d/jccoefct.c:346-400 | with any pattern of suspensions the MCUs handed to the entropy encoder are those of the layout, each once and in order |
| McuAssembly.Assemble | raspiManager/jni/jpeg8d/jccoefct.c:144-400 | one pass, first pass through padded arrays, later passes, and transcoding from unpadded arrays (jctrans.c) hand over the same MCUs, dummy blocks included |
| McuStorage.Consume | raspiManager/jni/jpeg8d/jdcoefct.c:246-305 | with any pattern of suspensions every MCU is handed the blocks at its places as they were before the scan; afterwards its decoded blocks are there and nothing else has changed |
| McuStorage.PutBack | raspiManager/jni/jpeg8d/jdcoefct.c:246-305 | storing undoes assembling: every block of every component of the scan is back at its own row and column |
| ImageCoding.CodeOne | raspiManager/jni/jpeg8d/jcmaster.c:665-739 | one scan: assembled, coded, decoded over what is known, stored; succeeds if and only if the entropy coder accepts the scan, and leaves what is known one scan later |
| ImageCoding.CodeImage | raspiManager/jni/jpeg8d/jcmaster.c:665-799 | a whole image through any valid progressive script and either entropy coder: it succeeds if and only if every scan can be coded, and after every prefix of the script the decoder holds exactly the coefficients with the bits sent so far |
| ImageCoding.CompleteExact | raspiManager/jni/jpeg8d/jcmaster.c:358-489 | where a script has sent every bit, the decoder holds the block of the image |
| ImageCoding.SimpleScriptExact | raspiManager/jni/jpeg8d/jcparam.c:559-630 | after the recommended script the decoder holds every block of the image |
| ContextRows.ContextBuffer.MakeFunnyPointers | raspiManager/jni/jpeg8d/jdmainct.c:195-234 | both pointer lists show the workspace with the last row groups swapped, and the first row repeated above the image |
| ContextRows.ContextBuffer.SetWraparoundPointers | raspiManager/jni/jpeg8d/jdmainct.c:238-262 | above and below each list the other end of the iMCU row is shown |
| ContextRows.ContextBuffer.SetBottomPointers | raspiManager/jni/jpeg8d/jdmainct.c:266-299 | below the image the last real row is repeated, and other entries stay |
| ContextRows.ContextMain.ProcessData | raspiManager/jni/jpeg8d/jdmainct.c:385-447 | the three-state machine keeps its invariant with any room for output, and makes progress |
| ContextRows.ReadAll | raspiManager/jni/jpeg8d/jdmainct.c:385-447 | with any chopping of the output every row group is shown once and in order, each with its context, and all of them after enough calls |
| ContextRows.Neighbours | raspiManager/jni/jpeg8d/jdmainct.c:385-447 | a row group is shown with its own rows, a whole row group above and one row below, taken from the image, its first and last row repeated at the ends |
| ContextRows.IdealIsNearest | raspiManager/jni/jpeg8d/jdmainct.c:53-59 | at the ends of the image context is the row of the image nearest to where it is wanted |
| ContextRows.WholeContext | raspiManager/jni/jpeg8d/jdmainct.c:385-447 | a whole row group of context below is right if and only if the row group is in the last iMCU row or no padding row is shown |
| ContextRows.PaddingShown | raspiManager/jni/jpeg8d/jdmainct.c:53-59 | the context promised there fails exactly when the last iMCU row has fewer rows than a row group: a padding row is shown instead of the last row |
| ColorConversion.CrR | raspiManager/jni/jpeg8d/jdcolor.c:111-119 | the table entry is the integer nearest to 1.402 Cr |
| ColorConversion.CbB | raspiManager/jni/jpeg8d/jdcolor.c:111-119 | the table entry is the integer nearest to 1.772 Cb |
| ColorConversion.Green | raspiManager/jni/jpeg8d/jdcolor.c:120-124 | the two green entries together are within 0.5011 of -0.34414 Cb - 0.71414 Cr |
| ColorConversion.ClampIsNearest | raspiManager/jni/jpeg8d/jdmaster.c:229-266 | range limiting gives the sample nearest to any sum |
| ColorConversion.PixelIsExact | raspiManager/jni/jpeg8d/jdcolor.c:141-178 | red and blue are within 0.5 and green within 0.5011 of the exact conversion where that is between 0 and 255, and 0 or 255 beyond up to the same error |
| ColorConversion.PixelsAreRgb | raspiManager/jni/jpeg8d/jdcolor.c:141-178 | in a row of pixels red, green and blue of pixel x are bytes 3x, 3x + 1 and 3x + 2 |
| ColorConversion.ColorTables.YccRgbConvert | raspiManager/jni/jpeg8d/jdcolor.c:141-178 | in place: every channel of every pixel is the range-limited sum of luminance and offset |
| MergedUpsampling.MergedUpsampler.H2v1Merged | raspiManager/jni/jpeg8d/jdmerge.c:226-280 | sharing one chroma lookup between two pixels, odd last column included, gives the row that box upsampling and colour conversion give |
| MergedUpsampling.MergedUpsampler.H2v2Merged | raspiManager/jni/jpeg8d/jdmerge.c:288-358 | the same for two rows that share their chroma samples |
| MergedUpsampling.MergedUpsampler.Upsample2v | raspiManager/jni/jpeg8d/jdmerge.c:144-189 | a call returns the next rows of the image; a second row without room is kept in the spare row and returned by the next call |
| MergedUpsampling.MergedUpsampler.Upsample1v | raspiManager/jni/jpeg8d/jdmerge.c:193-208 | a call returns the row of one row group |
| SeparateUpsampling.SeparateUpsampler.ExpandGroup | raspiManager/jni/jpeg8d/jdsample.c:262-286 | each row written is the box-upsampled input, odd widths included |
| SeparateUpsampling.SeparateUpsampler.Upsample | raspiManager/jni/jpeg8d/jdsample.c:90-141 | sep_upsample returns the next rows of the image, those of a row group over several calls |
| Upsampling.ImageAt | raspiManager/jni/jpeg8d/jdmainct.c:18-36 | row k of row group g is row v g + k of the image, for v rows a group |
| Upsampling.PixelOf | raspiManager/jni/jpeg8d/jdmerge.c:226-358 | every pixel of the image in full: its red, green and blue from the luminance sample there and the chroma samples of its pair of columns and its row group |
| Upsampling.ServeKeeps | raspiManager/jni/jpeg8d/jdmerge.c:144-189 | over any requests the rows returned are the next rows of the image in order, and all of them if there are enough requests |
| ScanlineOutput.ProcessData | raspiManager/jni/jpeg8d/jdmainct.c:345-376 | loads an iMCU row when the buffer is empty and passes on what the upsampler returns |
| ScanlineOutput.ReadScanlines | raspiManager/jni/jpeg8d/jdapistd.c:152-176 | for every image, width, sampling and sequence of requests, merged and separate upsampling return the same rows: a prefix of the rows that box upsampling and colour conversion define, and all of them after enough calls |

## Left out

- Computing the DCT, quantisation, downsampling and forward colour conversion: coefficients are the input and the result.
- Fancy (triangle) upsampling, int_upsample and noop_upsample, colour quantisation, dithering, block smoothing and decompress_onepass.
- The marker syntax other than RSTn, and marker parsing other than next_marker and restart resynchronisation.
- The memory manager: virtual arrays are two-dimensional arrays of blocks.
- The source manager is the sequence of all its bytes, the end reading as the inserted EOI; the destination manager is a sequence that grows.
- Suspension: the coefficient controllers and AC refinement are proved with any pattern of it; suspension of the other entropy routines, of output, and of resynchronisation is not modelled.
- ERREXIT is a failure result after which nothing is promised of the object; WARNMS is a counter.
- The width of C integers where the source cannot leave it: `int` is unbounded, but for stored coefficients, bytes, the bit buffers, and the C register, whose bounds are proved.  The overflow of last_dc_val on hostile input is not modelled.
- A statistics byte is a state and an MPS; PackedSteps says that the packed form behaves alike.
- The entropy structures of jchuff.c and jdhuff.c are one object with its bit writer or reader; emit_bits_s/_e, emit_restart_s/_e and the restart lines of the encode_mcu routines are each modelled once.
- next_restart_num while statistics are gathered, where no marker is emitted.
- The order in which start_pass checks several bad tables, which decides only the error reported.
- The extra entries of the natural-order tables are modelled by the position they name.
- EncodeScan, DecodeScan, CodeImage, Assemble, Consume, ReadAll and ReadScanlines are callers of the modelled objects, in the order in which the library and its application call them.
- MCU_buffer holds blocks where the source holds pointers; one class covers the two encoder coefficient controllers.
- Requests for no scanlines are left out of ReadScanlines: merged_2v_upsample would write a row that was not supplied.
- Predictions of components outside the scan are zero at start_pass in the model, and are never used.
- LengthLimits.GenOptimalTable: asks for counts with a total of at most 10^9, where the search for the least count stops, some real symbol and at most 254 of them; every scan meets the last two (StatisticsGatherable).
- LengthLimits.LimitLengths: does not say that limited lengths cost least, as the procedure of the standard does not promise it.
- HuffmanScans.OptimizedRoundTrip: for the same reason assumes the totals of the symbol counts (Countable), and a scan with at least one MCU whose components all have blocks in it, as per_scan_setup arranges.
- HuffmanScans.GatherScan: the same.
- HuffmanScans.RoundTrip: for a decoder that wants all coefficients (Full); with scaled output AcDecodes says what is stored.
- Scripts.Replay: scan parameters are not negative, as they are read from bytes.
- SuspendedRefinement.DecodeAcRefine: data sources run dry by number of reads; the refilling of the bit buffer behind a read is proved in BitReading.
- ContextRows.WholeContext: the comment in jdmainct.c promises a row group of context below; the code gives it only under the condition stated, and the one row that the upsamplers use always (Neighbours).
