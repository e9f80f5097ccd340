# go-flac, modelled and proved in Dafny

go-flac encodes interleaved PCM to FLAC (RFC 9639) and decodes it again. This project models
its codec and its streaming layer and proves that the one inverts the other: any input that the
format can carry, split over writes in any way, comes back byte for byte, whatever the encoder's
planner and its floating-point analysis choose and however the source splits its bytes over
reads.

The model follows the program's layers, one module each.

- Bit strings and words: `Words`, `Accumulator`, `Crc`. Bits are sequences, words are natural
  numbers with their wrap-around written out, and the checksums are computed bit by bit;
  `CrcDivision` shows that they are remainders of a long division, and `CrcValues` evaluates them.
- Bit I/O: `Cursor` is the one-bit-at-a-time reading of a stream, and `BitReader` and
  `BitWriter` are the two accumulator machines that refine it. `BitScript` puts the two
  together.
- Rice coding: `Rice` (grammar, printer, decoder), `RiceWriter`, `RicePlan` (the table planner)
  and `RiceParam` (how good its parameters are).
- Prediction: `Predict`, `FixedRestore`, `LpcRoutes`.
- Subframes and frames: a grammar, a printer and the meaning of what is parsed
  (`SubframeSyntax`, `HeaderSyntax`, `FrameSyntax`), the programs that refine them
  (`SubframeDecode`, `SubframeEncode`, `HeaderCodec`, `FrameDecode`, `FrameEncode`), their
  composition (`FrameLossless`) and frames cut by the end of a source (`FrameCut`).
  `FormatTables` says what the code tables mean that reader and writer share, and `RfcExample`
  works through the first example file of RFC 9639.
- Streams: `Packing`, `Metadata`, `StreamEncoder`, `StreamHeader`, `Resync`, `SeekSearch`,
  `Playback`, `StreamDecoder`, and on top `StreamLossless`, `StreamSeek`, `LongFrames`, `Sessions`
  and `PlaySession`.

Parsers are functions of a stream and a position, which either succeed or name the error. The
imperative programs are methods over arrays and objects, each proved to compute such a function
for arbitrary input. The round trips, the range guarantees and the searches are lemmas about
the functions. A frame is accepted in the program's order: format, CRC-8, CRC-16, and only then
the range of its samples; `FrameSyntax.Accept` is that order.

`dafny verify dfyconfig.toml` checks the whole project.

## Model

| member | source | states |
|---|---|---|
| BitWriter.Writer.WriteBits | internal/bitio/writer.go:46-66 | Appends exactly the low n bits of v, for every n up to 64, whatever the accumulator holds |
| BitWriter.Writer.WriteSignedBits | internal/bitio/writer.go:91-93 | Appends the n-bit two's complement of v |
| BitWriter.Writer.WriteUnary | internal/bitio/writer.go:97-104 | Appends q zeros and a one, also when q is longer than a word |
| BitWriter.Writer.AlignByte | internal/bitio/writer.go:107-114 | Pads the bits written so far with zeros to a whole byte, and with none when they are whole |
| BitWriter.Writer.Bytes | internal/bitio/writer.go:119-122 | At a byte boundary the assembled bytes are exactly the bits written |
| BitReader.Reader.Compact | internal/bitio/reader.go:183-223 | Dropping consumed bytes keeps every byte not yet consumed and leaves room, so a refill always makes progress |
| BitReader.Reader.ReadMore | internal/bitio/reader.go:183-223 | A refill moves no bit of the stream: afterwards there is another byte, or the source is at its end with every byte loaded |
| BitReader.Reader.Fill | internal/bitio/reader.go:226-248 | The accumulator is topped up to the most whole bytes it can take, unless the source ends |
| BitReader.Reader.ReadBits | internal/bitio/reader.go:262-326 | For every width up to 64: up to 57 bits, or from a source whose error comes alone, the value, the position and the error are those of a one-bit-at-a-time cursor; a wider read differs from it, once the error is known, if and only if it exceeds the room beside the unaligned bits and the stream has the bits |
| BitReader.WideReadRefused | internal/bitio/reader.go:277-326 | A run from a fresh reader over 9 zero bytes: behind 4 bits, a read of 64 is refused although 68 bits are left exactly when the error came with the last bytes |
| BitReader.Reader.ReadSigned | internal/bitio/reader.go:329-339 | The outcome of the cursor, sign-extended, for every width up to 64; where it differs a wide read was refused as above |
| BitReader.Reader.ReadUnary | internal/bitio/reader.go:344-378 | The outcome of the cursor across any number of refills |
| BitReader.Reader.SkipToByteBoundary | internal/bitio/reader.go:383-396 | Moves to the next multiple of eight bits and no further |
| BitReader.Reader.TapHolds | internal/bitio/reader.go:119-125 | Byte by byte the tap holds exactly the bytes consumed since it was installed, and its CRC-8 is theirs |
| BitReader.Reader.FlushTap | internal/bitio/reader.go:143-151 | After a flush the deferred tap holds exactly the bytes consumed since it was installed, once each and in order, across all compactions |
| BitScript.ScriptRoundTrip | internal/bitio/writer.go:46-122 | Any script of raw, signed and unary writes is read back value by value by reads of the same shapes, from a source that splits the bytes as it likes and may hold anything behind them |
| CrcDivision.HeaderSumIsRemainder | internal/crc/crc.go:15-57 | The header checksum of any bytes is the remainder of their bits and 8 zeros under long division over GF(2) by x^8 + x^2 + x + 1 |
| CrcDivision.FrameSumIsRemainder | internal/crc/crc.go:15-62 | The frame checksum of any bytes is the remainder of their bits and 16 zeros under long division over GF(2) by x^16 + x^15 + x^2 + 1 |
| CrcDivision.SealedDivides | internal/crc/crc.go:60-62 | Bytes with their frame checksum behind them are divisible by the generator |
| CrcValues.CheckValues | internal/crc/crc.go:48-62 | The checksums of "123456789" are 0xF4 and 0xFEE8 |
| Rice.FoldFits | internal/rice/encode.go:23-25 | A zigzag fits n bits if and only if its value fits n signed bits |
| Rice.HighBitsExact | internal/rice/rice.go:28-32 | The test on the quotient is nonzero if and only if the folded value reaches 2^32, that is if and only if the value is outside 32 bits |
| Rice.ResidualRoundTrip | internal/rice/rice.go:49-124 | A residual section printed under any readable plan, with escapes and both parameter widths, is parsed back wherever it stands (section 9.2.7 of RFC 9639) |
| Rice.DecodeResidual | internal/rice/rice.go:49-124 | The reader ends where the syntax ends whatever the values are; the verdict is that all of them fit 32 bits, and then they are stored exactly |
| RicePlan.FeasiblePmax | internal/rice/encode.go:94-110 | Every order up to the result divides the block with room for the warm-up, and the next one does not, unless a limit stopped it |
| RicePlan.FinestMaxU | internal/rice/encode.go:499-536 | The extremes of each partition give its widest zigzag, and the block's |
| RicePlan.BuildFinestSums | internal/rice/encode.go:543-563 | Cell (p, k) is the sum of zigzag>>k over the finest partition p |
| RicePlan.MergeUpward | internal/rice/encode.go:593-604 | Merging in place: from a table that is right for one order to one that is right for the next coarser order |
| RicePlan.ClampNeverBites | internal/rice/encode.go:608-643 | The candidate window of any partition lies inside the columns of the table |
| RicePlan.ChoosePartition | internal/rice/encode.go:608-643 | The choice from a table row is the choice from rescanning the values |
| RicePlan.PlanFromTables | internal/rice/encode.go:434-467 | The plan found while merging is, order by order, that of rescanning, of the least total, and of the smallest order on a tie |
| RicePlan.PlanResidual | internal/rice/encode.go:354-426 | From the residuals to the cheapest plan over all feasible orders, for both widths |
| RicePlan.PlanIsExact | internal/rice/encode.go:176-200 | The planned total is exactly the number of bits the plan takes when printed, and the plan can be printed and read back |
| RicePlan.PlannedIsShortest | internal/rice/encode.go:94-134 | The section printed under the plan of least total is no longer than the one printed at any order up to the limit, 15 at most, that the block splits at, and shorter than those at smaller orders |
| RicePlan.CostIsLeast | internal/rice/encode.go:354-467 | The cost that prices a residual is the length of the shortest printed section over all these orders |
| RiceWriter.CombinedSymbol | internal/rice/encode.go:207-261 | Stop bit and remainder written as one field are the bits of the unary quotient and then the remainder |
| RiceWriter.WritePlanned | internal/rice/encode.go:207-336 | Appends exactly the residual section of the plan, for both widths, and returns its length |
| RiceParam.ParamWithinOneBit | internal/rice/encode.go:138-170 | The parameter picked from the window costs fewer than n bits more than the best of all parameters 0..30, for every nonempty partition of n values |
| RiceParam.ParamExactIff | internal/rice/encode.go:138-170 | It is a true minimum if and only if the window starts at 0 or its first parameter costs no more than the one below |
| RiceParam.ParamNotExact | internal/rice/encode.go:138-170 | Zigzags 5, 5, 5, 1 cost 15 bits at the parameter picked and 14 at parameter 1 |
| RiceParam.ParamCostBound | internal/rice/encode.go:138-170 | 32-bit values cost at most 35 bits each at the parameter picked |
| Predict.RestoreInverts | internal/lpc/encode.go:16-125 | Restoring the residual of a block gives back the block for any coefficients and shift in either word width, also where the residual wrapped |
| Predict.EncodeResidual | internal/i32/lpc.go:109-122 | The in-place residual loop leaves the warm-up and exactly the wrapped residuals |
| Predict.RestoreWide | internal/i32/i32_go.go:250-261 | The in-place restoration loop computes the serial recurrence of the word width |
| FixedRestore.DiffNOfCumsumN | internal/i32/i32_go.go:89-93 | k differences undo k prefix sums |
| FixedRestore.CumsumNOfDiffN | internal/i32/i32_go.go:66-77 | k prefix sums undo k differences |
| FixedRestore.SumsAreRecurrence | internal/i32/restore.go:46-71 | k prefix sums of a block whose warm-up was differenced k times are, modulo 2^32 and sample by sample, the serial fixed-predictor recurrence |
| FixedRestore.DiffPass | internal/i32/restore.go:46-71 | One backward difference pass in place |
| FixedRestore.CumsumPass | internal/i32/i32_go.go:89-93 | One prefix sum in place, modulo 2^32 |
| FixedRestore.RestoreFixed32 | internal/i32/restore.go:46-71 | Difference the warm-up k times, then k prefix sums: in place the result is that of the serial recurrence for every int32 block and k in 1..4 |
| FixedRestore.DiffGo | internal/i32/i32_go.go:66-77 | The signed-binomial kernel computes the fixed residuals of its order |
| LpcRoutes.LpcRestoreNarrowSafe | internal/i32/lpc.go:79-94 | The loop decides the arithmetic condition under which 32-bit sums are used |
| LpcRoutes.RoutesAgree | internal/i32/lpc.go:79-94 | Under the condition, while every earlier sample is within bps bits, 32-bit and 64-bit accumulation give the same next sample |
| LpcRoutes.SameVerdict | internal/frame/subframe.go:148-164 | Under the condition the range check gives the same verdict after either route, and an accepted block is the same |
| LpcRoutes.RegisterKernel | internal/i32/lpc_small_narrow.go:75-250 | A kernel that carries the history in registers, in either accumulation width, computes what the generic one does |
| LpcRoutes.RestoreGoNarrow | internal/i32/lpc_small_narrow.go:257-284 | The generic 32-bit kernel over reversed coefficients computes the 32-bit recurrence in place |
| LpcRoutes.RestoreLpc32 | internal/lpc/simd.go:106-112 | Whichever route is taken, the range check that follows has the verdict of 64-bit restoration, and an accepted block is its block |
| SubframeSyntax.SubframeRoundTrip | internal/frame/subframe.go:64-130 | A printed subframe of any of the four kinds with any wasted-bits count is parsed back where it stands |
| SubframeSyntax.ScaleFits | internal/frame/subframe.go:64-130 | Undoing the wasted-bits shift stays within the depth, so it cannot wrap |
| SubframeDecode.RestoreBody | internal/frame/subframe.go:201-269 | In-place restoration of a fixed or LPC body: the range verdict is that of the exact samples, and an accepted buffer holds them |
| SubframeDecode.DecodeSubframe | internal/frame/subframe.go:64-142 | The reader ends where the syntax ends whatever the range verdict; accepted samples are the exact output |
| SubframeEncode.WastedBits | internal/frame/subframe_encode.go:14-23 | The largest number of low zero bits common to all samples, 0 for silence |
| SubframeEncode.WastedExact | internal/frame/subframe_encode.go:14-23 | Removing wasted bits loses nothing and narrows the samples by as many bits |
| SubframeEncode.FixedAbsSums | internal/i32/i32_go.go:199-233 | One cascaded pass gives the absolute sums of all five fixed residuals |
| SubframeEncode.EstimateIsClose | internal/rice/estimate.go:29-45 | The estimate that ranks predictors is at least the exact price of one partition at some parameter, and less than one bit a value above it |
| SubframeEncode.FixedEstimateIsClose | internal/frame/subframe_encode.go:233-247 | The estimate of a fixed order, from its absolute sum, is at least the exact price of its residual as one partition at some parameter, and less than two bits a value above it |
| SubframeEncode.ChooseFixedOrder | internal/frame/subframe_encode.go:212-247 | The first fixed order of least cost, and its cost: the estimate, or with exhaustive pricing the exact least total over all feasible partition orders |
| SubframeEncode.ResidualsInRange | internal/frame/subframe_encode.go:518-525 | True if and only if every residual is within the negatable 32-bit range |
| SubframeEncode.PlanSubframe | internal/frame/subframe_encode.go:77-155 | For any analysis, the plan prints a subframe that decodes to the samples, in exactly the planned number of bits; constant for equal samples, otherwise behind a shift by all wasted bits the ranked winner, its residual carried in the shortest section of any partition order up to the limit, or verbatim where in 64-bit words that residual cannot be carried; the other slots are untouched |
| SubframeEncode.PlanVarying | internal/frame/subframe_encode.go:437-511 | For samples that differ: all common low zero bits are removed, the winner is ranked over verbatim, the fixed orders and, with LPC on, whatever predictor the analysis answers within the limits, and the plan carries the winner's residual in its shortest section, or is verbatim if and only if in 64-bit words that residual leaves the carriable range |
| SubframeEncode.ExhaustiveIsShort | internal/frame/subframe_encode.go:77-155 | With exhaustive pricing the planned subframe is no longer than verbatim, than the analysed predictor and than any fixed order from the chosen one up, at any partition order, and longer than a lower fixed order by less than the warm-up that order saves |
| OrderLoss.ExhaustiveNotShortest | internal/frame/subframe_encode.go:205-235 | The block 1, 0, 0: order 1 is chosen, whose subframe takes 21 bits and the depth, where that of order 0 takes 23 bits |
| SubframeEncode.WriteSubframe | internal/frame/subframe_encode.go:159-205 | Appends exactly the bits of the planned subframe |
| HeaderSyntax.CodedRoundTrip | internal/frame/header_encode.go:160-188 | Every number below 2^36 is read back (section 9.1.5 of RFC 9639) |
| HeaderSyntax.BlockSizeRoundTrip | internal/frame/header_encode.go:123-156 | Every block size 1..65536 is recovered from its code and extra field |
| HeaderSyntax.SampleRateRoundTrip | internal/frame/header_encode.go:54-97 | Every rate is recovered from its code and extra field, through STREAMINFO where it has no code |
| HeaderSyntax.DepthRoundTrip | internal/frame/header_encode.go:102-118 | Every depth is recovered from its code, through STREAMINFO where it has none |
| HeaderSyntax.HeaderRoundTrip | internal/frame/header_encode.go:19-46 | A written header is read back with every field, the blocking strategy included, and the stored CRC-8 is the one computed over it (section 9.1 of RFC 9639) |
| FormatTables.CommonSizes | internal/frame/header_encode.go:123-156 | The sizes with a code of their own are 192, 144 times a power of two and powers of two, and each is written with its code |
| FormatTables.UncommonSizes | internal/frame/header_encode.go:123-156 | A size is spelled out if and only if it has no code, in 8 bits up to 256 and in 16 bits beyond |
| FormatTables.LeadBytes | internal/frame/header.go:194-232 | A lead byte of n bytes is n ones and a zero in front of its payload, and no other byte is one |
| FormatTables.ShortestForm | internal/frame/header_encode.go:160-188 | A number is written in as few bytes as hold it |
| FormatTables.BodyKinds | internal/frame/subframe.go:64-130 | The type code decides kind and order of a subframe, and the reserved codes are refused |
| FormatTables.PartsTile | internal/rice/rice.go:49-80 | A block splits at an order if and only if equal parts tile it and the first holds the warm-up |
| HeaderCodec.WriteUTF8 | internal/frame/header_encode.go:160-188 | Appends the coded number, for every value below 2^36 |
| HeaderCodec.WriteFrameHeader | internal/frame/header_encode.go:19-46 | Appends exactly the printed header with its CRC-8, which CrcDivision.HeaderSumIsRemainder identifies |
| HeaderCodec.ReadCodedNumber | internal/frame/header.go:194-232 | Value, position and error of the grammar for any bytes |
| HeaderCodec.ReadHeaderBody | internal/frame/header.go:29-105 | Value, position and error of the header grammar for any bytes, the CRC-8 taken from the tap |
| FrameSyntax.StereoInverse | internal/frame/decorrelate.go:20-34 | Left/side, right/side and mid/side each recover any pair of samples |
| FrameDecode.StereoExact | internal/frame/decorrelate.go:20-79 | For subframe samples in range no sum or difference of the inverses wraps its word |
| FrameDecode.DecorrelateLeftSide | internal/frame/decorrelate.go:20-53 | In place: the verdict is that of the exact channels, and an accepted pair is them |
| FrameDecode.DecorrelateRightSide | internal/frame/decorrelate.go:25-65 | In place: the verdict is that of the exact channels, and an accepted pair is them |
| FrameDecode.DecorrelateMidSide | internal/frame/decorrelate.go:30-79 | In place: the verdict is that of the exact channels, and an accepted pair is them |
| FrameSyntax.AcceptedInRange | internal/frame/frame.go:127-193 | For arbitrary input, every sample of every channel of an accepted frame is within the frame's depth |
| FrameSyntax.VerdictIsDeferred | internal/frame/frame.go:127-193 | Behind a parsed body a damaged footer reports the checksum error whatever the samples are, and the range error is given only when the stored CRC-16 is that of the whole frame |
| FrameSyntax.FrameRoundTrip | internal/frame/frame.go:95-201 | A printed frame is parsed back wherever it stands in a stream, with both checksums matching |
| FrameDecode.TapIsFrame | internal/frame/frame.go:127-193 | At a byte boundary the bytes in the tap are exactly the bits of the frame so far |
| FrameDecode.DecodeStereoDecorrelated | internal/frame/frame.go:251-325 | Both subframes are read to their end; verdict and channels are those of the exact inverse |
| FrameDecode.Decode | internal/frame/frame.go:95-201 | For any input and any splitting by the source: the error or the frame of the grammar, with every field and channel, and the reader right behind it; a rejected frame changes no field but the channels, and those only once its header was read |
| FrameEncode.Decorrelate | internal/frame/encode.go:100-156 | Side and mid in words are the exact ones and within their depths |
| FrameEncode.ChooseAssignment | internal/frame/encode.go:100-156 | Under the full search no assignment is dearer than the one chosen is, and earlier ones are strictly dearer; under the adaptive one the cheaper of two |
| FrameEncode.EncodeStereo | internal/frame/encode.go:100-225 | The two-channel frame decodes to the pair; each of the four candidates is planned for its signal at its depth, and no assignment under the full search, and neither of the two under the adaptive one, prints a shorter frame |
| FrameEncode.FinishFrame | internal/frame/encode.go:159-162 | Pads to a byte and appends the CRC-16 of every byte before |
| FrameEncode.EncodeFrame | internal/frame/encode.go:44-85 | The bytes are a printed frame of the given channels and number, at most 8 MiB long; two channels under the full or adaptive search are the shortest choice among the planned candidates, and otherwise each channel is planned for itself |
| FrameEncode.FrameLossless | internal/frame/encode.go:44-85 | Wherever an encoded frame stands in a stream, decoding accepts it, consumes exactly its bytes and gives back its channels, size and number |
| FrameLossless.EncodeThenDecode | internal/frame/encode.go:44-85 | Encoding any block of 4..32 bits and 1..8 channels and decoding it from a source with anything behind it gives back the channels and every field, whatever the planner and the analysis chose |
| FrameCut.CutFrame | internal/frame/frame.go:95-201 | A whole frame in a source that ends earlier is parsed as before when the end lies behind it, and truncated otherwise |
| FrameCut.WindowFrame | internal/frame/frame.go:95-201 | Any candidate: what a window of the stream decides is the outcome on the whole stream, and otherwise it is truncated |
| RfcExample.ExampleFrame | internal/frame/frame.go:95-201 | The 15 bytes of the frame of appendix D.1 of RFC 9639 are a valid frame of one sample, 25588 and 10416, with both checksums and wasted bits |
| RfcExample.ExampleFile | internal/meta/meta.go:36-111 | The 57 bytes of that file: what STREAMINFO declares, where the audio starts and the four bytes it decodes to |
| Packing.Deinterleave | pcm/pack.go:74-111 | The one content of the channel buffers that packs back to the bytes, for any bytes, and within any depth that all samples of the bytes are within |
| Packing.AppendPacked | pcm/decoder.go:727-803 | Appends exactly the interleaved bytes of the channels |
| Metadata.PointsRoundTrip | internal/meta/seektable.go:46-76 | A written table of fitting points is read back point by point |
| Metadata.TableParsed | internal/meta/seektable.go:59-76 | Of any table, placeholders anywhere in it are dropped and nothing else is |
| Metadata.PointBits | internal/meta/seektable.go:46-55 | A point is its sample number and offset in 64 bits each and its length in 16 |
| Metadata.TableRoundTrip | internal/meta/meta.go:36-111 | A section with a seek table and padding is read back: properties, sizes and exactly the points, up to the first audio byte |
| Metadata.PlainRoundTrip | internal/meta/meta.go:36-111 | The same for a section without a seek table |
| Metadata.EncodeStreamInfo | internal/meta/encode.go:21-37 | The 34 bytes are exactly the fields |
| Metadata.ReadMetadata | internal/meta/meta.go:36-111 | Value, position and error of the metadata grammar for any bytes, a leading ID3v2 tag included |
| Metadata.TagSkipped | internal/meta/meta.go:140-167 | A whole ID3v2 tag in front of the marker is skipped by its length, footer included |
| Metadata.TagLength | internal/meta/meta.go:140-167 | The length of a tag is four bytes of seven bits, the highest first, and ten more for a footer |
| StreamEncoder.ChunkingIndependence | pcm/encoder.go:432-481 | Full blocks and a shorter rest are determined by their concatenation, so how the input was split over writes cannot matter |
| StreamEncoder.Encoder.WriteInitialMetadata | pcm/encoder.go:332-425 | Establishes the invariant behind a section with placeholders; refused if and only if seek points are wanted and the sink cannot seek |
| StreamEncoder.Encoder.RecordPoint | pcm/encoder.go:488-553 | The points stay those of the first frames to cross an interval, as many as there is room for |
| StreamEncoder.Encoder.EmitBlock | pcm/encoder.go:488-553 | Any accepted block becomes one more frame, which is the best one for the configured parameters when its samples are within the depth and its number within 36 bits; when the sink fails no block, frame, point, counter or digest input changes |
| StreamEncoder.Encoder.Write | pcm/encoder.go:432-481 | For any bytes: the returned count is that of the bytes now accounted for by full blocks and a rest below one block, also after a failure |
| StreamEncoder.Encoder.PatchTable | pcm/encoder.go:611-638 | The recorded points replace the placeholders in place, the unused places become padding, and the audio does not move |
| StreamEncoder.Encoder.Close | pcm/encoder.go:557-644 | For any input: the last short block is flushed and the header rewritten, whose bits StreamHeader.StreamInfoSays spells out; which error is given, and that closing again does nothing |
| StreamEncoder.FramesSmall | pcm/encoder.go:488-553 | No frame exceeds 8 MiB and all offsets stay below 2^63, so every header and seek-point field holds its value |
| StreamEncoder.BlocksSuit | pcm/encoder.go:432-481 | When the samples of the whole input are within the depth and fewer than 2^36, every block that it is cut into can be carried by the format |
| StreamEncoder.Encoder.Readable | pcm/encoder.go:557-644 | What Close leaves is read back as the declared properties and exactly the recorded points, the audio starts where it did, sample numbers increase strictly, and offsets are the lengths of all earlier frames |
| StreamEncoder.Encoder.ReadableUnpatched | pcm/encoder.go:332-425 | A stream whose sink cannot seek is readable as well |
| StreamHeader.StreamInfoSays | pcm/encoder.go:557-644 | Bytes 8 to 42 of a finished, patched stream: the size of its first block twice, at least 16, the shortest and the longest frame length, the format, the number of samples and the digest of the input, field by field |
| StreamHeader.UnpatchedSays | pcm/encoder.go:332-425 | The same bytes of a stream that cannot be patched: the block size and count of the configuration, no frame lengths and no digest |
| StreamHeader.CrossesIs | pcm/encoder.go:488-553 | A frame gets a seek point when it is the first or a multiple of the interval lies behind the start of the frame before it and not behind its own |
| StreamHeader.TableHolds | pcm/encoder.go:488-553 | The table holds the first such frames, in order, as many as there are places, 4096 unless configured and never more than a block can hold |
| StreamLossless.DecodesToInput | pcm/decoder.go:613-634 | Wherever an encoder's frames stand at the end of some data, decoding from their start gives exactly the input bytes and sample count, and ends cleanly |
| StreamLossless.WholeStream | pcm/encoder.go:557-644 | The finished stream decodes to exactly the input; with a seekable sink STREAMINFO declares its number of samples and, unless skipped, its digest, and otherwise the configured count and no digest; rate, channels and depth are those of the configuration |
| StreamLossless.Replay | pcm/decoder.go:694-722 | Opening and draining an encoder's stream: no error but the drain's own, no byte that was not put in, and without an error all of them |
| Sessions.WriteMany | pcm/encoder.go:432-481 | Any sequence of writes of any bytes accounts for the concatenation of its parts, and fails only with the sink |
| Sessions.EncodeStream | pcm/encoder.go:557-644 | A whole encoding of any input fails only by the refusals or a failing sink and leaves full nonempty blocks of the input, and the stream is the one written for it when the samples are within the announced depth and fewer than 2^36 |
| Sessions.RoundTrip | pcm/decoder.go:694-722 | The law of the codec: any split of any input that is within the announced depth and shorter than 2^36 samples, encoded and decoded, comes back whole, unless the input is refused or a sink fails; a sink that does not fail gives no error |
| StreamDecoder.Decoder.DecodeNextFrame | pcm/decoder.go:613-634 | One more frame becomes pending and what remains is unchanged, or the stream is settled with the verdict on everything decoded from its start |
| StreamDecoder.Decoder.Settle | pcm/decoder.go:613-671 | How a stream ends: before any seek with the verdict on everything since its start, the error where decoding stopped or else the digest or count check over all samples, and after a seek with the reason decoding stopped; sticky unless it is a clean end |
| StreamDecoder.Decoder.FinalIs | pcm/decoder.go:654-671 | A stream that ends at a frame boundary ends with the mismatch if and only if checking is on, the declared digest has a nonzero byte and differs from that of everything decoded; truncated if and only if no digest was checked and fewer samples came than declared; clean otherwise; a source that ends inside a frame is truncated |
| StreamDecoder.Decoder.FinalAfterSeek | pcm/decoder.go:613-671 | After a seek neither digest nor count is checked |
| StreamDecoder.Decoder.Read | pcm/decoder.go:674-691 | What is delivered is the front of what remained, and all that is pending when it is less than asked for; an error comes with no bytes and is the one of FinalIs, which the rest of the stream was bound to end with; after a failure no byte ever comes |
| StreamDecoder.Decoder.WriteTo | pcm/decoder.go:694-722 | Everything that remained is drained in order; the error is the one of FinalIs, none for a clean end, or the drain's |
| StreamDecoder.Decoder.SeekFailed | pcm/decoder.go:414-419 | No reader, a sticky error and nothing to deliver |
| Sessions.ReadMany | pcm/decoder.go:674-691 | Any run of reads delivers the front of what remained, and nothing after a failure |
| Resync.FindNextFrame | internal/frame/resync.go:39-59 | The first candidate that decodes or is cut by the data |
| Resync.FindInWindow | internal/frame/resync.go:39-59 | In a window of a clean stream the scan gets past false sync patterns to the next frame, unless the window ends too early to tell |
| Resync.FalseFrameFound | internal/frame/resync.go:39-59 | A place that decodes is taken for a frame wherever it stands, behind any number of rejected sync patterns, unless the window ends too early to tell |
| SeekSearch.SearchFinds | pcm/decoder.go:426-476 | The halving keeps the start of the target frame inside its bounds, and both phases end on that frame |
| SeekSearch.TableKeeps | pcm/decoder.go:588-606 | Narrowing by sound points keeps the start of the target frame inside the bounds |
| SeekSearch.VariableIsContiguous | pcm/decoder.go:426-476 | With variable block sizes the coded number of a frame is its first sample |
| SeekSearch.FixedIsContiguous | pcm/decoder.go:426-476 | With a fixed block size frames counted from 0, all full but the last, start where the search expects |
| SeekSearch.PastEndExactly | pcm/decoder.go:426-476 | Behind the end the count of samples is reported if and only if no halving of the byte range falls behind the start of the last frame but one and not behind that of the last; 0 otherwise |
| SeekSearch.SmallFramesKeepCount | pcm/decoder.go:426-476 | The count is kept whenever the last two frames take at most 32769 bytes together |
| SeekSearch.SmallFramesTight | pcm/decoder.go:426-476 | With 32770 bytes it can be lost |
| SeekSearch.PastEndLosesCount | pcm/decoder.go:426-476 | It is lost for any two frames of 50000 and 40000 bytes |
| StreamDecoder.Decoder.Probe | pcm/decoder.go:491-535 | Terminates on any content; on a clean stream it finds the first frame at or behind the offset, growing its window, and tells a cut frame from a clean end |
| StreamDecoder.Decoder.SearchFrame | pcm/decoder.go:426-476 | Terminates on any content; on a clean stream it lands where the search over the frame list does, and only a failing source or a cut frame is an error |
| StreamDecoder.Decoder.Land | pcm/decoder.go:553-574 | The landing frame is decoded and the samples before the target dropped; only a failing source is an error |
| StreamDecoder.Decoder.SeekToSample | pcm/decoder.go:363-402 | On a clean stream a sample that exists is reached exactly and reading on is the suffix of the full decode from it; behind the end the outcome is exact too, a target in a cut frame is an error, other errors need a failing source, and every error is sticky; on any content a successful seek leaves a fresh reader or the end |
| Playback.SuffixFromSample | pcm/decoder.go:553-574 | Skipping n samples of a frame and playing on is the suffix of the whole from that sample |
| Playback.RestShort | pcm/decoder.go:613-634 | A source that fails plays the front of what all of it would, up to the failure |
| StreamLossless.SeekReady | pcm/encoder.go:488-553 | Frame numbers, block sizes and seek points of an encoded stream agree as the search needs |
| StreamSeek.EncodedIsSeekable | pcm/encoder.go:557-644 | An encoder's stream without a false frame is a clean stream for a decoder that opened it |
| StreamSeek.PlayFrom | pcm/decoder.go:363-402 | Seeking in an encoder's stream and draining gives exactly the input from that sample on, unless the source or the drain fails, and never anything else |
| StreamSeek.SmallFramesFound | pcm/decoder.go:363-402 | A seek behind the end of a clean stream with small last frames finds the number of samples |
| StreamSeek.SeekBehindTwoFrames | pcm/decoder.go:363-402 | A seek behind the end of a clean stream of two frames of 50000 and 40000 bytes reports sample 0 |
| LongFrames.TwoFrameFileExists | pcm/decoder.go:426-476 | A file of two such frames, raw samples without a sync pattern inside, exists for any digest field |
| LongFrames.SeekBehindItsEnd | pcm/decoder.go:363-402 | Opening that file and seeking to any place behind its 89978 samples reports sample 0, unless the source fails |
| PlaySession.Session | pcm/decoder.go:363-722 | Any mix of reads, drains and seeks over a clean stream, whatever fails on the way: every byte delivered is the next one, every seek goes to the sample asked for, and every read and drain gives the error that is due; steps before the first failure are exact |
| PlaySession.EncodedSession | pcm/decoder.go:363-722 | The same over an encoder's stream, whose tape is the input |

## Findings

Four properties that the documentation suggests do not hold as such. For each the model keeps
the program as it is, gives an input and proves when the property holds.

- Minimal Rice parameters. The comment at internal/rice/encode.go:149 reads as if the window
  always held the best parameter. `RiceParam.ParamNotExact` is an input for which it does not,
  `RiceParam.ParamExactIff` says exactly when it does, and `RiceParam.ParamWithinOneBit` bounds
  the loss.
- The tightest fixed order. The comment at internal/frame/subframe_encode.go:205-212 promises a
  tighter pick from pricing every order. The residuals are compared without their warm-up samples,
  so a higher order can win and give the longer subframe: `OrderLoss.ExhaustiveNotShortest` is such
  a block. `SubframeEncode.ExhaustiveIsShort` says what holds: against orders from the chosen one up
  the pick is never longer, against a lower order by less than the warm-up that it saves.
- The position after a seek behind the end. `SeekToSample` documents the total count of
  samples. When STREAMINFO does not declare one, pcm/decoder.go reports 0 whenever the binary
  phase has probed the last frame, because the linear phase then decodes nothing.
  `SeekSearch.PastEndExactly` gives the condition over frame offsets,
  `SeekSearch.SmallFramesKeepCount` and `SeekSearch.SmallFramesTight` a simple bound and that
  it is the best of its kind, and `LongFrames.SeekBehindItsEnd` runs the whole seek on a file
  that `LongFrames.TwoFrameFileExists` constructs. The clauses of
  `StreamDecoder.Decoder.SeekToSample` state the outcome in every case.
- Reads of more than 57 bits. When the source delivered its last bytes together with its error,
  `ReadBits` refuses a wide read that does not fit beside the unaligned bits although all its
  bits are buffered. `BitReader.WideReadRefused` is such a run, and the contract of
  `BitReader.Reader.ReadBits` says exactly when. The decoder never reads more than 36 bits at once.

Seeking is exact as long as `Resync.NoFalseFrame` holds. A sync pattern other than a frame start
may stand anywhere, but decoding from it, over at most 8 MiB, must fail for another reason than
the end of those bytes; behind the last whole frame it is enough that it fails. An encoder's
stream meets this unless its coded residuals or raw samples happen to look like a frame. That
the condition is needed is `Resync.FalseFrameFound`: the raw samples of a verbatim subframe can
hold the bytes of a whole frame.

## Left out

- SIMD kernels and architecture dispatch: the Go references stand for them, and which of two
  routes an architecture takes is the parameter `Arch`.
- The floating-point LPC analysis: a parameter, any function from samples and their width to a
  predictor or none; `SubframeEncode.AnalyzeLpc` takes its answers within the limits that the
  program's analysis keeps to.
- MD5: a parameter, any function from bytes to bytes; `StreamEncoder.Digest` takes its results of
  16 bytes.
- Operating-system I/O, error texts and wrapping, and sources that return neither bytes nor an
  error: a source hands out any nonempty part of what is left and then its error; a sink or a
  seekable file may fail at any operation.
- Whether the source of a seek fails before its end is settled when the reader is opened there,
  not read by read; the source that a stream is first opened on does not fail.
- A seek opens a new reader where the program resets the old one to another offset, and each
  reader owns what is left of its source, so two readers that share the position of one file
  cannot be expressed.
- RicePlan.PlanFromTables: table entries, totals and the starting best cost are unbounded
  numbers and the table is a two-dimensional array, where the program has a flat slice and the
  largest integer as a sentinel.
- The fallback plan for an order that the block does not divide into
  (internal/rice/encode.go:471-487): the encoder never reaches it.
- LpcRoutes.RegisterKernel: one kernel with its registers in a sequence stands for the unrolled
  copies, one for each order.
- Buffers are allocated per call; capacity growth, pooling and `Reset` are not modelled.
- StreamEncoder.Encoder.EncodeChunk: what a frame holds is left open when a sample exceeds the
  announced depth or the frame number exceeds 36 bits; the format cannot carry either, and the
  program does not check them.
- Sessions.RoundTrip: asks for samples within the depth, and fewer than 2^36 of them, the range
  of the STREAMINFO field.
- Seek arithmetic is on unbounded integers; the 64-bit reading of seek-point fields is modelled
  (`SeekSearch.Signed64`), overflow of sums of offsets is not.
- The content of Vorbis comments, ID3v2 tags and other blocks is opaque, and sample conversion
  on output, in-memory interleaved encoding with a known digest, the frame-at-a-time wrappers
  and the options of the constructors are not modelled.
