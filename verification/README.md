# Two speech codecs and a loss counter, in Dafny

This project models the arithmetic of three parts of the repository and proves properties of it.

* **GSM 06.10 (`gsm/src`)**, a full-rate speech codec on 16-bit words: preprocessing, LPC analysis, short-term lattice
  filters, long-term predictor, RPE coding, coder and decoder, the 33-byte frame format, the alternating 32- and 33-byte
  blocks of WAV49 streams, and the array format of `gsm_implode` and `gsm_explode`.
* **G.722 (`g722`)**, a two-band ADPCM codec at 8, 7 and 6 bits a code: quantisers, scale factors, predictor, band-split
  filters, lockstep and accuracy, and the packed byte stream.
* **The RTP loss counter** `lostcalc` of `baresip/src/stream.c`.

Every procedure that updates state is a method on the fields or arrays that the C code updates. It is proved equal to a
function on values, and the properties that the codecs promise are lemmas about these functions: for all inputs, from all
reachable states, over runs of any length.

| file | contents |
|---|---|
| `Words.dfy` | 16- and 32-bit arithmetic of `add.c` and `private.h` |
| `ShortTerm.dfy` | log-area ratios and the lattice filters |
| `Preprocess.dfy` | offset compensation and pre-emphasis |
| `Lpc.dfy` | autocorrelation, Schur recursion, quantisation of log-area ratios |
| `Prediction.dfy` | the linear prediction behind both: normal equations, and the lattice as prediction error filter |
| `Rpe.dfy` | weighting filter, grid selection, APCM quantiser, grid positioning |
| `LongTerm.dfy` | lag search, gain, long-term filters |
| `GsmCodec.dfy` | coder and decoder, lockstep, `struct gsm_state` |
| `GsmFrame.dfy`, `GsmArray.dfy` | the 33-byte format, `gsm_encode`, `gsm_decode`, `gsm_implode`, `gsm_explode` |
| `BitStreams.dfy`, `ShiftRegister.dfy`, `WavFrame.dfy`, `WavCodec.dfy` | bit streams, the shift register, the WAV49 blocks, the codec joined by them |
| `G722Band.dfy`, `G722Quantiser.dfy`, `G722Stability.dfy` | one sub-band, its quantisers, and the stability of its predictor |
| `G722Codec.dfy`, `G722Stream.dfy`, `G722Program.dfy` | the codec on values, its byte stream, its procedures |
| `G722FilterBank.dfy` | the two band-split filters in a row, and sound through the whole codec |
| `RtpLoss.dfy` | the loss counter |

`dafny verify dfyconfig.toml` checks the whole project.

How C is read:

* `word` and `longword` are subset types of `int`. A declaration with one of these types is a proof that the C variable
  loses no bits and that no signed operation overflows; where C does drop bits, the model says `ToWord`.
* `x >> n` on signed numbers is floor division, which the code gets either from the machine or from the macro `SASR`
  (`Words.SasrIsFloor`).
* Products and shifts whose values do not matter for a proof go through the recursive functions `Times`, `Shr` and `Shl`;
  `TimesIsProduct`, `ShrIsDivision` and `ShlIsProduct` say what they are.
* Where a `requires` appears on a step it is the invariant that every reachable state keeps, or an assertion of the C code
  that the callers are proved to meet.

Results that differ from what comments suggest:

* The synthesis filter undoes the analysis filter as long as no forward addition saturates (`ShortTerm.RunInverse`). Where
  one does, the sample comes back if and only if `ShortTerm.Loss`, a function of the forward path alone, is zero
  (`ShortTerm.SampleReturnedIff`), and then no other residual would do better (`ShortTerm.LossIsFinal`). Saturation occurs
  and loses samples: `ShortTerm.FullScaleIsLost` has two samples at full scale after silence, for every frame whose first
  coded ratio is above 32. It need not lose them (`ShortTerm.ClippedYetReturned`).
* `gsm_div` is described for `num > 0`; the code accepts 0 and returns 0, and returns 32767 for equal arguments.
* The roundings of pre-emphasis and de-emphasis cancel except for samples of the form 8192 k + 4096
  (`Preprocess.EmphasisRoundingCancels`).
* The line marked "? overflow ?" in `lpc.c` never overflows (`Lpc.AcfDominated`, `Lpc.ShiftFits`).
* A packed G.722 decoder call can end with one complete code still in its buffer, because its loop stops with the last
  byte; the code comes out with the next call (`G722Stream.PackedRoundTrip`, `G722Stream.CollectConcat`).
* `gsm_implode` accepts any words; the 33-byte format returns them unchanged exactly if each fits its field
  (`GsmArray.LosslessIff`).

## Model

| member | source | states |
|---|---|---|
| `Words.AddMacro` | gsm/inc/private.h:117-119 | The one-comparison form of GSM_ADD is saturating addition, as in gsm_add, for all pairs of words. |
| `Words.SubMacro` | gsm/inc/private.h:121-123 | GSM_SUB is saturating subtraction for all pairs of words. |
| `Words.LAddMacro` | gsm/inc/private.h:102-108 | GSM_L_ADD through unsigned arithmetic is the 32-bit saturated sum for all pairs of longwords. |
| `Words.LSub` | gsm/src/add.c:79-97 | gsm_L_sub through unsigned arithmetic is the 32-bit saturated difference. |
| `Words.GsmMultR` | gsm/src/add.c:42-50 | The masked product returned by gsm_mult_r is the rounded product of the macro GSM_MULT_R except for two MIN_WORDs. |
| `Words.GsmMult` | gsm/src/add.c:36-40 | gsm_mult is the macro GSM_MULT except for two MIN_WORDs. |
| `Words.WordProduct` | gsm/inc/private.h:93-97 | Products of words fit 32 bits with room for rounding, and only MIN_WORD squared reaches 2^30. |
| `Words.MultRShrinks` | gsm/inc/private.h:93-94 | A factor below one never enlarges a word, and rounding keeps the sign. |
| `Words.FindMaxAbs` | gsm/src/rpe.c:275-280 | The search loops return the largest GSM_ABS of an array: an upper bound that is attained. |
| `Words.BitOff` | gsm/src/add.c:99-116 | The table gives the number of leading zeros of every byte. |
| `Words.Norm` | gsm/src/add.c:118-152 | For every non-zero longword the shift count moves positive values into [2^30, 2^31) and negative ones into [-2^31, -2^30]. |
| `Words.AsrIsDivision` | gsm/src/add.c:184-196 | gsm_asr by 0 to 15 is floor division by a power of two. |
| `Words.Div` | gsm/src/add.c:207-236 | The 15-step loop returns floor(num * 2^15 / denum), 0 for num 0 and 32767 for equal arguments, and its variables never overflow. |
| `Words.QuotientBound` | gsm/src/add.c:207-236 | The quotient fits a word for all 0 < num < denum. |
| `Words.SasrIsFloor` | gsm/inc/private.h:51-56 | The portable form of SASR is floor division. |
| `ShortTerm.DecodeLarShiftIsExact` | gsm/src/short_term.c:54-69 | For every received code of the field width the shift by ten loses no bits. |
| `ShortTerm.DecodeLarsInto` | gsm/src/short_term.c:24-74 | The eight unrolled steps write the decoded log-area ratios. |
| `ShortTerm.Coefficients` | gsm/src/short_term.c:92-141 | The interpolation for the segment, then converted in place, gives the segment's reflection coefficients; which ratios those are is said by InterpolatedWeights. |
| `ShortTerm.InterpolatedWeights` | gsm/src/short_term.c:92-141 | For all words: in segment k the previous ratio counts (3-k)/4 and the current one (k+1)/4, rounded down by at most two. |
| `ShortTerm.FrameWeights` | gsm/src/short_term.c:347-386 | The coefficients that segment k of a coded frame is filtered with come from those weighted means of the last frame's and this frame's decoded ratios. |
| `ShortTerm.AnalysisSegments` | gsm/src/short_term.c:370-386 | Sample t of a frame is analysed with segment 0 for t < 13, 1 for t < 27, 2 for t < 40 and 3 from there on, one memory running through. |
| `ShortTerm.SynthesisSegments` | gsm/src/short_term.c:413-429 | The same samples belong to the same segments in the synthesis filter. |
| `ShortTerm.LarpToRp` | gsm/src/short_term.c:145-180 | The conversion never yields MIN_WORD and keeps the sign, for every word. |
| `ShortTerm.LarpToRpIncreases` | gsm/src/short_term.c:145-180 | The piecewise conversion is monotonic across its three pieces. |
| `ShortTerm.LarpToRpInPlace` | gsm/src/short_term.c:145-180 | The loop converts all eight ratios in place into coefficients other than MIN_WORD. |
| `ShortTerm.PathsAgree` | gsm/src/short_term.c:206-224 | The synthesis lattice passes through the intermediate values of the analysis lattice, in reverse, if and only if no forward addition saturates. |
| `ShortTerm.LatticeInverse` | gsm/src/short_term.c:281-303 | From equal memories, one sample through analysis and synthesis comes back bit for bit and both memories end equal, for any order and coefficients, if the forward path does not saturate; saturation of the remembered values does no harm. |
| `ShortTerm.LossDecides` | gsm/src/short_term.c:206-224 | For every order, coefficients and memory, saturated or not: what comes back for a sample is less, the same or more, as Loss, computed on the forward path, is negative, zero or positive. |
| `ShortTerm.LossIsFinal` | gsm/src/short_term.c:281-303 | Where Loss is not zero, every residual whatsoever is synthesised to a value on that side of the sample. |
| `ShortTerm.SampleReturnedIff` | gsm/src/short_term.c:206-224 | A sample comes back, and any residual exists from which it would, if and only if Loss is zero. |
| `ShortTerm.OneStageExact` | gsm/src/short_term.c:210-221 | A single stage is undone exactly if and only if its forward addition does not saturate. |
| `ShortTerm.ClippedYetReturned` | gsm/src/short_term.c:206-224 | Samples at the lower end of the scale whose third addition is the first to saturate come back all the same. |
| `ShortTerm.SignalInverse` | gsm/src/short_term.c:184-305 | Whole signals of any length come back unchanged, with equal memories afterwards, if nothing saturates on the forward path. |
| `ShortTerm.SignalRetracedIff` | gsm/src/short_term.c:184-305 | For whole signals the synthesis filter retraces the analysis filter if and only if no forward addition saturates anywhere. |
| `ShortTerm.SignalDeparts` | gsm/src/short_term.c:184-305 | A signal comes back up to its first saturating sample, and that sample is less, the same or more as its Loss says. |
| `ShortTerm.BufferFlip` | gsm/src/short_term.c:355-356 | After a frame the other buffer holds its ratios, the next frame interpolates from them, and two frames restore the index. |
| `ShortTerm.FrameInverse` | gsm/src/short_term.c:370-386 | A frame of four segments with four coefficient sets is inverted exactly if nothing saturates on the forward path. |
| `ShortTerm.FrameDeparts` | gsm/src/short_term.c:370-386 | The same as for signals, over the four segments of a frame. |
| `ShortTerm.RunInverse` | gsm/src/short_term.c:347-430 | Over runs of frames with arbitrary coded ratios in which nothing saturates on the forward path, synthesis of the analysed signal is the signal, and both filters end in the same state. |
| `ShortTerm.RunDeparts` | gsm/src/short_term.c:347-430 | Every run from equal memories comes back up to its first saturating sample; that one comes back exactly if its Loss is zero, and the run only if it is. |
| `ShortTerm.FullScaleIsLost` | gsm/src/short_term.c:347-430 | After any codes and from a cleared memory, a frame with first code above 32, 40 zero samples and 32767 twice: the second 32767 comes back as less. |
| `ShortTerm.AnalyseSample` | gsm/src/short_term.c:208-223 | The in-place inner loop computes the lattice of the specification and the new memory. |
| `ShortTerm.AnalysisFiltering` | gsm/src/short_term.c:184-225 | The loop over a segment filters it in place and touches nothing else. |
| `Prediction.LatticeIsPredictionError` | gsm/src/short_term.c:184-225 | Over signals of any length from a cleared memory in which nothing saturates, every output of the lattice is the present sample plus the step-up weighted sum of the samples before it, to (2^order - 1)/2. |
| `ShortTerm.SynthesiseSample` | gsm/src/short_term.c:280-303 | The downward loop that shifts v while it computes gives the specified output and memory. |
| `ShortTerm.SynthesisFiltering` | gsm/src/short_term.c:266-305 | The loop over a segment writes the synthesised samples and keeps the ones before. |
| `ShortTerm.AnalyseFrame` | gsm/src/short_term.c:370-386 | The four segments of 13, 14, 13 and 120 samples with their own coefficients. |
| `ShortTerm.SynthesiseFrame` | gsm/src/short_term.c:413-429 | The same on the synthesis side. |
| `Preprocess.StateBound` | gsm/src/preprocess.c:92-101 | The invariant keeps L_z2 below 2^30 in magnitude, with room for the rounding constant. |
| `Preprocess.NextZ2IsRounded` | gsm/src/preprocess.c:79-97 | The split 31-by-16-bit product and GSM_L_ADD compute the exact recursion to within half a unit; the addition never saturates. |
| `Preprocess.Step` | gsm/src/preprocess.c:60-108 | One sample keeps the invariant; s1, msp, lsp, mp and all sums fit their types. |
| `Preprocess.AverageIsConvex` | gsm/src/preprocess.c:79-97 | The new average z1 * 2^15 - L_z2 is a convex combination of the old one and the previous input, up to one half. |
| `Preprocess.NeverSaturates` | gsm/src/preprocess.c:35-114 | For every input run from the initial state the filter state stays below 2^30. |
| `Preprocess.ConstantInputShrinks` | gsm/src/preprocess.c:79-97 | Under constant input the state shrinks strictly until it is below the rounding threshold. |
| `Preprocess.OffsetIsRemoved` | gsm/src/preprocess.c:79-107 | From any reachable state the filter output is zero after 21010 or more samples of constant input. |
| `Preprocess.EmphasisRoundingCancels` | gsm/src/preprocess.c:106-108 | The roundings of pre-emphasis here and de-emphasis in decode.c:30 cancel if and only if the sample is not 4096 modulo 8192. |
| `Preprocess.Process` | gsm/src/preprocess.c:35-114 | The loop over 160 samples is the run of the step function on the stored state. |
| `Lpc.ScaledIsSmall` | gsm/src/lpc.c:46-87 | After scaling every sample is at most 2048 in magnitude, whatever the input. |
| `Lpc.CorrByEnergies` | gsm/src/lpc.c:92-135 | Twice a partial correlation is bounded by two energies. |
| `Lpc.CauchySchwarz` | gsm/src/lpc.c:92-135 | Every autocorrelation is bounded in magnitude by the one of lag zero. |
| `Lpc.AcfDominated` | gsm/src/lpc.c:92-137 | The nine sums of every frame fit 32 bits and are dominated by the first, which is not negative. |
| `Lpc.ShiftFits` | gsm/src/lpc.c:203-204 | A dominated value shifted by the norm of the first one does not overflow. |
| `Lpc.EchoCorrelates` | gsm/src/lpc.c:92-135 | The energy of a signal with its echo k samples later added is that of both plus twice the correlation at lag k. |
| `Lpc.Autocorrelation` | gsm/src/lpc.c:27-146 | The loops compute the nine sums of the scaled signal and leave the rescaled signal behind. |
| `Lpc.ErrorPowerShrinks` | gsm/src/lpc.c:216-233 | Each recursion step has P[1] within P[0]'s magnitude, does not saturate, and does not increase P[0]. |
| `Lpc.SchurStep` | gsm/src/lpc.c:232-241 | The in-place update of P and K, one m after the other, is the simultaneous recursion NextP and NextK. |
| `Lpc.Reflect` | gsm/src/lpc.c:178-243 | For every dominated L_ACF the procedure computes ReflectionCoefficients with gsm_div only called for 0 <= num <= denum, and none is MIN_WORD; that they belong to L_ACF is said by NormalEquations. |
| `Prediction.SchurTracks` | gsm/src/lpc.c:210-242 | As long as no addition saturates, after n steps every P and K is within (2^n - 1)/2 of the exact correlation of the order-n step-up polynomial with the autocorrelation, forwards and backwards. |
| `Prediction.ReflectionCancels` | gsm/src/lpc.c:216-230 | The coefficient of a step cancels P[1] against P[0], to one unit, or two where GSM_ABS clips MIN_WORD. |
| `Prediction.NormalEquations` | gsm/src/lpc.c:193-242 | For every frame and every order n that is reached without saturation, the prediction error with the computed coefficients is uncorrelated with each of the lags 1..n, to 2^n units of correlations whose energy is at least 16384. |
| `Lpc.LarRoundTrip` | gsm/src/lpc.c:247-284 | LARp_to_rp undoes the transformation to log-area ratios except for the lowest bit of small coefficients. |
| `Lpc.Transform` | gsm/src/lpc.c:247-284 | The loop transforms all eight coefficients in place. |
| `Lpc.Quantise` | gsm/src/lpc.c:305-312 | Every code lies between 0 and MAC - MIC, that is within 6, 6, 5, 5, 4, 4, 3 and 3 bits. |
| `Lpc.LarQuantizationError` | gsm/src/lpc.c:305-322 | Decoding a code that was not limited is off by at most half a quantization step and five units. |
| `Lpc.Code` | gsm/src/lpc.c:288-325 | The eight unrolled steps quantise in place. |
| `Lpc.Analyse` | gsm/src/lpc.c:327-342 | The whole analysis: eight codes, and the signal as Autocorrelation leaves it. |
| `Rpe.ConvolutionUnrolled` | gsm/src/rpe.c:57-95 | The unrolled expression without the two zero taps is the 11-tap convolution of the comment. |
| `Rpe.WeightingFilter` | gsm/src/rpe.c:23-113 | On the array with zero guard cells the filter is the zero-padded convolution with rounding and clamping, without overflow. |
| `Rpe.TapsSymmetric` | gsm/src/rpe.c:53-98 | The filter is symmetric about its middle tap and its taps sum to 22766/8192. |
| `Rpe.PulseResponse` | gsm/src/rpe.c:53-112 | A single sample is spread over five places on each side, each with the tap of its distance, rounded and saturated. |
| `Rpe.WeightedBackwards` | gsm/src/rpe.c:53-112 | A sub-segment played backwards is weighted backwards, so the filter adds no delay. |
| `Rpe.GridIsFirstMaximum` | gsm/src/rpe.c:138-211 | The chosen grid has the largest energy and is the least such grid. |
| `Rpe.EnergyOfGrid` | gsm/src/rpe.c:159-210 | What the selection compares is the energy of the samples 3i + m, over sixteen, to the two dropped bits of each. |
| `Rpe.SharedSum` | gsm/src/rpe.c:163-206 | The sum shared by the grids 0 and 3 is part of both. |
| `Rpe.GridSelection` | gsm/src/rpe.c:117-220 | The code with the shared sum selects that grid and copies its 13 samples; no sum overflows. |
| `Rpe.ExponentRange` | gsm/src/rpe.c:285-298 | The exponent is the number of halvings that bring the maximum below 512, at most six. |
| `Rpe.PeakBound` | gsm/src/rpe.c:285-308 | For every maximum the code fits six bits, and its decoded exponent and mantissa bound the scaled maximum by (9 + mant) * 2^11. |
| `Rpe.ScaledSample` | gsm/src/rpe.c:327-334 | Every sample of a block, shifted by 6 - exp, stays a word and below that bound. |
| `Rpe.CodedRange` | gsm/src/rpe.c:334-337 | Every coded sample lies in 0..7. |
| `Rpe.LevelError` | gsm/src/rpe.c:330-380 | In the scaled domain quantization costs at most an eighth of the decoded maximum. |
| `Rpe.SampleError` | gsm/src/rpe.c:330-383 | Coding and decoding a sample is off by at most an eighth of the decoded maximum and the rounding of the final shift. |
| `Rpe.BlockError` | gsm/src/rpe.c:450-489 | For every sub-segment and each of the 13 samples of the selected grid: the decoder reconstructs it at its own place with the error of SampleError. |
| `Rpe.ComputeExpMant` | gsm/src/rpe.c:224-255 | The mantissa loop terminates and gives an exponent in -4..6 and a mantissa in 0..7 for every six-bit code. |
| `Rpe.ComputeExponent` | gsm/src/rpe.c:285-296 | The loop with the itest flag counts the halvings. |
| `Rpe.Quantise` | gsm/src/rpe.c:257-346 | The procedure returns the specified code, exponent, mantissa and samples. |
| `Rpe.InverseQuantise` | gsm/src/rpe.c:350-384 | The loop reconstructs the 13 samples; all its assertions hold. |
| `Rpe.PositionedOnGrid` | gsm/src/rpe.c:415-422 | The commented form: sample i is at Mc + 3i and every other cell is zero. |
| `Rpe.GridPositioning` | gsm/src/rpe.c:388-413 | The switch into the loop writes exactly these 40 cells and no other, for all four grids. |
| `Rpe.Encode` | gsm/src/rpe.c:450-471 | The encoder's sub-segment is replaced by what the decoder would reconstruct from the returned parameters, and the guard cells stay zero. |
| `Rpe.Decode` | gsm/src/rpe.c:473-489 | The decoder reconstructs that sub-segment from any parameters of the right widths. |
| `LongTerm.FindScale` | gsm/src/long_term.c:174-192 | The shift count that leaves ten-bit samples. |
| `LongTerm.WorkBound` | gsm/src/long_term.c:194-197 | All working samples are at most 512 in magnitude. |
| `LongTerm.SearchBound` | gsm/src/long_term.c:204-241 | The largest correlation stays below 0x28000000, so that doubling it does not overflow. |
| `LongTerm.BestLagIsFirstMaximum` | gsm/src/long_term.c:201-237 | The lag is the least one in 40..120 with the largest correlation if that is positive, and 40 otherwise. |
| `LongTerm.CommonScale` | gsm/src/long_term.c:241-261 | L_max and L_power are one common scaling, by 1/32, of the correlation of d with dp at the lag and of the energy of dp there, with the rounding of each. |
| `LongTerm.SearchLag` | gsm/src/long_term.c:201-241 | The search loop with its running maximum returns that lag and correlation. |
| `LongTerm.GainIsFirstLevel` | gsm/src/long_term.c:286 | The gain code is the first whose decision level reaches the normalised ratio. |
| `LongTerm.GainByRatio` | gsm/src/long_term.c:266-287 | The gain code is the first whose decision level reaches the ratio of L_max to L_power, both within one part in 2^14. |
| `LongTerm.Calculate` | gsm/src/long_term.c:157-288 | The whole parameter computation, without overflow in L_result, L_power, R or S. |
| `LongTerm.AnalysisFiltering` | gsm/src/long_term.c:835-866 | The gains of the four STEPs are those of gsm_QLB; the estimate is written over dp itself, which is harmless because lags are at least 40, and the residual goes to e; all other cells stay. |
| `LongTerm.ResidualUndone` | gsm/src/long_term.c:857 | For every history, lag, gain and sub-segment: from the residual the synthesis filter (line 941) reconstructs a sample if and only if its subtraction did not saturate. |
| `LongTerm.ResidualErrorKept` | gsm/src/long_term.c:857 | With any coded residual a sample is missed by no more than its residual is. |
| `LongTerm.EstimateCorrelates` | gsm/src/long_term.c:854-865 | The estimate is gain times the history at the lag that was searched: its correlation with d is the gain times the one found, to half a unit a sample. |
| `LongTerm.UsedLag` | gsm/src/long_term.c:924-928 | The lag used by the decoder is in 40..120 for every received lag, and is the received one if that is in range. |
| `LongTerm.SynthesisFiltering` | gsm/src/long_term.c:906-950 | The decoder reconstructs 40 samples from the history and shifts the history by 40. |
| `GsmCodec.EncodeSub` | gsm/src/code.c:68-94 | The lag of every coded sub-segment is in 40..120. |
| `GsmCodec.UnquantisedSub` | gsm/src/code.c:70-90 | A decoder that receives the coded lag and gain and the unquantised residual plays the sub-segment, sample by sample exactly where the encoder's subtraction does not saturate. |
| `GsmCodec.SubErrorIsRpeError` | gsm/src/decode.c:56-59 | With the coded residual, what it plays is missed by no more than the RPE section misses the residual. |
| `GsmCodec.SubInStep` | gsm/src/code.c:81-94 | The encoder's local decoder and the decoder compute the same history from a sub-segment's parameters. |
| `GsmCodec.SubsInStep` | gsm/src/code.c:68-96 | Four sub-segments in the sliding window and one memcpy equal four shifts by 40. |
| `GsmCodec.FrameInStep` | gsm/src/code.c:58-97 | One frame keeps the residual history, the log-area ratios and the buffer index of both sides equal. |
| `GsmCodec.RunInStep` | gsm/src/code.c:58-97 | After every run of frames from states in step, encoder and decoder are in step. |
| `GsmCodec.Lockstep` | gsm/src/gsm_create.c:34-45 | The same from newly created codecs. |
| `GsmCodec.TransparentFrame` | gsm/src/decode.c:54-64 | Where the residual of a frame is recovered and nothing saturates forward, the decoder plays the de-emphasis of the very signal that the coder analysed, and the filter memories agree again. |
| `GsmCodec.Decode` | gsm/src/decode.c:37-64 | Decoding is total: any parameters of the right widths, from any reachable state, give a reachable state. |
| `GsmCodec.Truncated` | gsm/src/decode.c:32 | Output samples are multiples of eight, rounded down. |
| `GsmCodec.EmphasisUndone` | gsm/src/decode.c:29-33 | Over every run, msr of the decoder stays 0 to 8 above mp of the encoder (preprocess.c:102-112) if it was, and equal to it where the roundings cancel. |
| `GsmCodec.PlayedIsTwice` | gsm/src/decode.c:29-33 | The sample played is twice that msr, saturated and cut to thirteen bits. |
| `GsmCodec.Gsm.constructor` | gsm/src/gsm_create.c:34-45 | A new object is the initial state of both sides. |
| `GsmCodec.Gsm.ShortTermAnalysisFilter` | gsm/src/short_term.c:347-387 | The driver decodes into one buffer, interpolates from the other and filters the frame in place. |
| `GsmCodec.Gsm.ShortTermSynthesisFilter` | gsm/src/short_term.c:389-430 | The same for synthesis. |
| `GsmCodec.Gsm.CodeSub` | gsm/src/code.c:68-94 | One pass over the aliased window dp, dpp of dp0 gives the specified parameters and history, and keeps the guard cells zero. |
| `GsmCodec.Gsm.CodeSubs` | gsm/src/code.c:68-96 | The loop over the sub-segments and the memcpy. |
| `GsmCodec.Gsm.Code` | gsm/src/code.c:27-97 | Gsm_Coder: new state and parameters are those of the specification. |
| `GsmCodec.Gsm.Postprocess` | gsm/src/decode.c:20-35 | The loop de-emphasises, doubles and truncates in place. |
| `GsmCodec.Gsm.DecodeFrame` | gsm/src/decode.c:37-64 | Gsm_Decoder: new state and samples are those of the specification. |
| `GsmFrame.LarsRoundTrip` | gsm/src/gsm_encode.c:349-360 | The masks and shifts of the five bytes of log-area ratios are inverted by those of gsm_decode. |
| `GsmFrame.SubRoundTrip` | gsm/src/gsm_encode.c:361-382 | The same for the seven bytes of a sub-segment. |
| `GsmFrame.LarsInOrder` | gsm/src/gsm_encode.c:349-360 | As one number, the first five bytes are the nibble 13 followed by the eight log-area ratios in order, highest bit first. |
| `GsmFrame.SubInOrder` | gsm/src/gsm_encode.c:361-382 | As one number, the seven bytes of a sub-segment are Nc, bc, Mc, xmaxc and the 13 samples in order. |
| `GsmFrame.FieldsOfParameters` | gsm/src/gsm_encode.c:349-382 | Each of these fields has the value of the coder's parameter of that name. |
| `GsmFrame.PackThenUnpack` | gsm/src/gsm_encode.c:347-448 | Every parameter set that the coder emits comes out of the parser of gsm_decode unchanged. |
| `GsmFrame.UnpackThenPack` | gsm/src/gsm_decode.c:252-355 | Any 33 bytes with the magic nibble are the packing of what they are parsed into. |
| `GsmFrame.Receive` | gsm/src/gsm_decode.c:252-360 | gsm_decode is total: frames without the magic nibble are rejected and change nothing, and all others are decoded into a reachable state. |
| `GsmFrame.StreamInStep` | gsm/src/gsm_encode.c:347-450 | Through the 33-byte format, no frame of a run is rejected and both sides stay in step. |
| `GsmFrame.Encode` | gsm/src/gsm_encode.c:347-450 | gsm_encode in this format writes the 33 bytes of the coded frame and updates the state. |
| `GsmFrame.Decode` | gsm/src/gsm_decode.c:252-361 | gsm_decode in this format returns -1 and leaves everything alone, or decodes the frame. |
| `GsmArray.SubThrough` | gsm/src/gsm_implode.c:387-418 | Any 17 words through gsm_implode and gsm_explode are cut to the widths of their fields. |
| `GsmArray.ImplodeThenExplode` | gsm/src/gsm_implode.c:371-520 | The same for all 76 words of a frame. |
| `GsmArray.LosslessIff` | gsm/src/gsm_implode.c:371-520 | The array survives the format if and only if every word fits its field. |
| `GsmArray.ExplodeThenImplode` | gsm/src/gsm_explode.c:278-414 | Every accepted frame is imploded again into the same bytes. |
| `GsmArray.ImplodeIsPack` | gsm/src/gsm_implode.c:371-520 | gsm_implode of a frame's parameters is what gsm_encode writes. |
| `GsmArray.ImplodeInto` | gsm/src/gsm_implode.c:371-520 | The procedure fills the 33 bytes. |
| `GsmArray.ExplodeInto` | gsm/src/gsm_explode.c:278-416 | The procedure fills the 76 words, or returns -1 and leaves them alone. |
| `BitStreams.StreamInjective` | gsm/src/gsm_encode.c:20-104 | Fields of known widths can be read back from their bits in only one way. |
| `BitStreams.ParseThenStream` | gsm/src/gsm_decode.c:26-136 | Parsing any bits into fields of given widths loses nothing. |
| `BitStreams.OrAbove` | gsm/src/gsm_encode.c:115-116 | Bitwise or of a shifted field with the bits below it is addition. |
| `BitStreams.AndIsRemainder` | gsm/src/gsm_decode.c:27-29 | The & with a mask of ones is the remainder. |
| `ShiftRegister.ShiftIn` | gsm/src/gsm_encode.c:115-116 | A field shifted in from above moves the register's 16-bit window along the stream. |
| `ShiftRegister.ByteOut` | gsm/src/gsm_encode.c:117 | The byte taken from the register is the one at its place in the stream. |
| `ShiftRegister.TakeField` | gsm/src/gsm_decode.c:27 | Masking and shifting down removes the next field of the stream from the register. |
| `ShiftRegister.CutShifted` | gsm/src/gsm_implode.c:117-118 | A word of any value, shifted up in sixteen bits, leaves its low bits and nothing else in the register. |
| `ShiftRegister.BitWriter.Put` | gsm/src/gsm_encode.c:115-116 | One field further in the stream, for any word, never losing a bit of the 16-bit register. |
| `ShiftRegister.BitWriter.Emit` | gsm/src/gsm_encode.c:117 | One byte further, at the only shift that matches the count of bits. |
| `ShiftRegister.BitReader.Load` | gsm/src/gsm_decode.c:28 | A byte joins the bits in the register without overlap or overflow. |
| `ShiftRegister.BitReader.Reload` | gsm/src/gsm_decode.c:26 | The register is empty wherever the code overwrites it. |
| `ShiftRegister.BitReader.Take` | gsm/src/gsm_decode.c:27 | The value of the next field. |
| `WavFrame.FrameBits` | gsm/src/gsm_encode.c:20-104 | The 76 fields are 260 bits. |
| `WavFrame.WriteSub1` | gsm/src/gsm_encode.c:127-150 | The statements for a sub-segment of a first frame write its 17 fields and seven bytes. |
| `WavFrame.WriteSub2` | gsm/src/gsm_encode.c:245-268 | The same for a second frame, which is shifted by four bits. |
| `WavFrame.ReadSub1` | gsm/src/gsm_decode.c:39-62 | The statements of the decoder for a first frame read these fields. |
| `WavFrame.ReadSub2` | gsm/src/gsm_decode.c:152-175 | The same for a second frame. |
| `WavFrame.Recovered` | gsm/src/gsm_decode.c:19-249 | The parameters of a frame are recovered from its bits, whatever follows. |
| `WavFrame.PairBits` | gsm/src/gsm_encode.c:108-342 | The 32 and 33 bytes of a pair, with the nibble carried in frame_chain, are the 520 bits of the two frames. |
| `WavFrame.PairRoundTrip` | gsm/src/gsm_decode.c:19-249 | Read as 33 and 32 bytes, with the decoder's own nibble, they give the two frames, whatever the nibbles before. |
| `WavFrame.RunRoundTrip` | gsm/src/gsm_encode.c:108-342 | Lossless transport of every run of frame pairs. |
| `WavFrame.PairBytesRoundTrip` | gsm/src/gsm_decode.c:19-249 | Any 65 bytes are a pair of frames, and are written again as they were read. |
| `WavFrame.Packer.Encode` | gsm/src/gsm_encode.c:108-342 | The packer with frame_index and frame_chain writes the specified block. |
| `WavFrame.Packer.Decode` | gsm/src/gsm_decode.c:19-249 | The unpacker reads the specified frame from any bytes. |
| `WavFrame.ArraysRoundTrip` | gsm/src/gsm_implode.c:115-369 | Any two arrays of 76 words come back cut to the widths of their fields, and unchanged exactly if every word is in the range of its field. |
| `WavFrame.Packer.Implode` | gsm/src/gsm_implode.c:115-369 | The same blocks from any 76 words, of which the register keeps the low bits, with frame_index left to the caller. |
| `WavFrame.Packer.Explode` | gsm/src/gsm_explode.c:22-276 | The 76 words of the frame, from any bytes, in the target array, with frame_index left to the caller. |
| `WavCodec.PairInStep` | gsm/src/gsm_encode.c:106-342 | Two frames through 32 and 33 bytes, read as 33 and 32, keep the decoder in step with the encoder. |
| `WavCodec.StreamInStep` | gsm/src/gsm_decode.c:19-249 | Lockstep over every run of frame pairs through the WAV49 blocks, whatever nibbles the two sides begin with. |
| `WavCodec.PlayedPairIsTwoCalls` | gsm/src/gsm_decode.c:19-249 | The pairs of the stream are two successive calls of gsm_decode, for any 65 bytes. |
| `WavCodec.Encode` | gsm/src/gsm_encode.c:13-343 | gsm_encode with wav_fmt: the block of the coded frame, and the new codec, index and nibble. |
| `WavCodec.Decode` | gsm/src/gsm_decode.c:14-361 | gsm_decode with wav_fmt, for any bytes: the samples, and the new codec, index and nibble. |
| `G722Band.Scale` | g722/g722_encode.c:350-354 | For every reachable logarithm the scale factor is in [32, 16384] in the low band and in [8, 16384] in the high band. |
| `G722Band.OctaveDoubles` | g722/g722_encode.c:350-354 | Raising the logarithm by 2048 doubles the scale factor, up to the bit that the shift drops. |
| `G722Band.ScaleIncreases` | g722/g722_encode.c:350-354 | A larger logarithm never gives a smaller scale factor. |
| `G722Band.LogScale` | g722/g722_encode.c:341-348 | The logarithm stays within its limits. |
| `G722Band.LogScaleLaw` | g722/g722_encode.c:341-348 | Inside the limits the logarithm leaks by 1/128 and takes the step of the code. |
| `G722Band.UpPol2` | g722/g722_decode.c:73-88 | The second pole coefficient stays within 0.75. |
| `G722Band.Pole2Law` | g722/g722_decode.c:73-88 | Inside the limits the coefficient leaks by 1/128 and moves with the agreement of signs two samples apart, less the first coefficient's share with that of one sample apart. |
| `G722Band.UpPol1` | g722/g722_decode.c:90-101 | The first pole coefficient stays within 15/16 minus the second; this limit itself is never saturated. |
| `G722Band.Pole1Law` | g722/g722_decode.c:90-101 | Inside the limits the coefficient leaks by 1/256 and moves by 3/256 with the agreement of signs one sample apart. |
| `G722Band.UpZero` | g722/g722_decode.c:103-112 | The saturation of the zero coefficients never clips. |
| `G722Band.ZeroLaw` | g722/g722_decode.c:103-112 | For all values the coefficient leaks by 1/256 and moves by 1/128 with the agreement of the new difference and the one it multiplies; a zero difference moves nothing. |
| `G722Band.Predict` | g722/g722_decode.c:59-146 | The predictor update keeps the coefficients in the stability triangle and the scale factor unchanged. |
| `G722Band.PredictedState` | g722/g722_decode.c:66-145 | Where everything goes: the difference enters the delay line in front, r is s + d, p is what the poles did not predict, and sp and sz are computed from the new delay lines and new coefficients. |
| `G722Band.PoleSection` | g722/g722_decode.c:128-133 | sp is (a1 r1 + a2 r2) / 2^14 rounded down by less than two, for all coefficients, where the doubling and the sum do not saturate. |
| `G722Band.ZeroSection` | g722/g722_decode.c:135-142 | sz before its limit is the sum of b[i] d[i] / 2^14, rounded down by at most one a tap. |
| `G722Band.Adapt` | g722/g722_decode.c:326-346 | One adaptation keeps the invariant: stable coefficients, a logarithm in range, and the scale factor that belongs to it. |
| `G722Band.DifferenceRange` | g722/g722_decode.c:316-328 | The quantised difference needs at most fifteen bits. |
| `G722Stability.PolesInsideUnitCircle` | g722/g722_decode.c:84-101 | In every state with the invariant, real and complex poles of the predictor lie inside the unit circle. |
| `G722Stability.PredictorIsStable` | g722/g722_decode.c:66-145 | Every prediction, from any state and for any difference, is to two units a step of the recursion r[n] = a1 r[n-1] + a2 r[n-2] over the latest reconstructed values, and every pole of that recursion is inside the unit circle, where nothing saturates. |
| `G722Band.BandState.constructor` | g722/g722_encode.c:175-189 | A cleared band with the first scale factor satisfies the invariant. |
| `G722Band.BandState.UpdatePole2` | g722/g722_decode.c:73-88 | The code of UPPOL2, all of whose values fit their types. |
| `G722Band.BandState.UpdatePole1` | g722/g722_decode.c:90-101 | The code of UPPOL1. |
| `G722Band.BandState.UpdateZeros` | g722/g722_decode.c:103-112 | The loop of UPZERO. |
| `G722Band.BandState.Filter` | g722/g722_decode.c:128-145 | The filter sums fit 32 bits and are saturated at the end. |
| `G722Band.BandState.Block4` | g722/g722_decode.c:59-146 | block4 computes the predictor update; encoder and decoder differ only in the order of one sum. |
| `G722Band.BandState.AdaptByEncoder` | g722/g722_encode.c:336-356 | The encoder's statements for inverse quantiser, logarithm, scale factor and predictor compute one adaptation. |
| `G722Band.BandState.AdaptByDecoder` | g722/g722_decode.c:326-346 | The decoder's statements compute the same adaptation. |
| `G722Quantiser.CellContains` | g722/g722_encode.c:326-333 | The search ends in the decision cell that contains the magnitude. |
| `G722Quantiser.ThresholdsIncrease` | g722/g722_encode.c:328-333 | The scaled thresholds are ordered for every scale factor. |
| `G722Quantiser.QuantiseLow` | g722/g722_encode.c:325-334 | The search loop with its break, and the code tables for both signs. |
| `G722Quantiser.HighLevelMatches` | g722/g722_encode.c:368-376 | The level of a high-band code has the sign of the difference and is the outer one beyond the threshold. |
| `G722Quantiser.QuantiseHigh` | g722/g722_encode.c:368-372 | The two-bit decision and its tables. |
| `G722Quantiser.CodeSplits` | g722/g722_decode.c:295-315 | At every rate the decoder finds in the code the bits with which the encoder adapts, and the upper bits of the low-band code. |
| `G722Quantiser.CodeIs` | g722/g722_encode.c:358-395 | A code is the two high-band bits above the six low-band bits, less the bits that the rate drops from the bottom. |
| `G722Quantiser.TablesInterleave` | g722/g722_decode.c:216-259 | At every rate the decoder's level for a cell lies between the thresholds of the group of cells that share its transmitted bits. |
| `G722Quantiser.OverloadCell` | g722/g722_encode.c:325-334 | The overload cell begins at the last threshold, and a clipped difference falls into it. |
| `G722Quantiser.LowBandError` | g722/g722_decode.c:316-319 | Outside overload the decoded difference is off by at most the width of the group of cells, at 8, 7 and 6 bits. |
| `G722Quantiser.SampleAccuracy` | g722/g722_decode.c:316-324 | The same for the limited output against the limited low-band input, which is the input itself in the limiter's range. |
| `G722Codec.Sums` | g722/g722_encode.c:310-319 | The accumulators of both filters are bounded and fit 32 bits. |
| `G722FilterBank.SplitSteady` | g722/g722_encode.c:307-319 | Constant sound goes to the low band alone, at half its value. |
| `G722FilterBank.SplitAlternating` | g722/g722_encode.c:307-319 | Sound that alternates in sign goes to the high band alone. |
| `G722FilterBank.BackwardPath` | g722/g722_decode.c:395-405 | Transmit and receive filter in a row, over the odd places: one symmetric filter, the autocorrelation of the coefficients, for all values. |
| `G722FilterBank.ResponseIsDelay` | g722/g722_decode.c:395-405 | That filter is a delay of eleven pairs with a gain of one, to 80 units of a 16-bit signal. |
| `G722FilterBank.FilterBankIsDelay` | g722/g722_decode.c:390-407 | Sound whose bands arrive to an error comes out of the receive filter 22 samples later, first sample first, to 86 units and four times the error, before the conversion to 16 bits. |
| `G722FilterBank.EncoderWindow` | g722/g722_encode.c:301-306 | After any number of steps the encoder's window is the latest 24 samples. |
| `G722FilterBank.DecoderWindow` | g722/g722_decode.c:390-395 | After any number of codes the decoder's window holds the latest twelve sums and differences of its bands, each at its place. |
| `G722FilterBank.SoundThroughCodec` | g722/g722_decode.c:295-409 | End to end, from any states of encoder and decoder: the first pair of 24 samples is what the decoder plays for the twelfth code, as exactly as the two bands of the twelve pairs come through. |
| `G722Codec.EncodeSample` | g722/g722_encode.c:288-395 | One code fits the rate, and the invariants of both bands are kept. |
| `G722Codec.DecodeSample` | g722/g722_decode.c:295-409 | Any number is a code; the invariants of both bands are kept. |
| `G722Codec.OutputIsReconstruction` | g722/g722_decode.c:316-378 | What a band puts out, in the high band always and in the low band at 48 kbit/s, is the signal that its predictor goes on from. |
| `G722Codec.CodesFit` | g722/g722_encode.c:358-395 | Every code of a run fits the rate. |
| `G722Codec.EncodeConcat` | g722/g722_encode.c:288-395 | Encoding in pieces gives the codes and state of one run. |
| `G722Codec.DecodeConcat` | g722/g722_decode.c:276-412 | Decoding in pieces gives the samples and state of one run. |
| `G722Codec.SampleInStep` | g722/g722_encode.c:322-395 | After each code the decoder's low band is the encoder's, and the high band too if both sides use it, at every rate. |
| `G722Codec.RunInStep` | g722/g722_decode.c:295-378 | The same over every run and for every combination of narrow and wide band. |
| `G722Codec.Lockstep` | g722/g722_encode.c:173-191 | The same from newly initialised codecs. |
| `G722Codec.LowBandAccuracy` | g722/g722_decode.c:299-324 | At every rate, in narrow, wide or mixed band, outside overload the low-band output is within the group's width of the limited low-band input. |
| `G722Codec.RunLowBandAccuracy` | g722/g722_decode.c:299-324 | The same for every code of every run, from newly initialised codecs. |
| `G722Codec.NarrowBandAccuracy` | g722/g722_decode.c:299-393 | In narrow-band mode outside overload the output is within the group's width of the input in the band, and within twice that plus one of the sample. |
| `G722Codec.RunAccuracy` | g722/g722_decode.c:299-393 | The same for every sample of every run. |
| `G722Stream.PackCodeKeeps` | g722/g722_encode.c:399-409 | Adding a code loses no bit, leaves fewer than eight, and nothing above them in out_buffer. |
| `G722Stream.EmitKeeps` | g722/g722_encode.c:399-409 | Over a run, what was pending and the codes are the bytes sent and what is pending. |
| `G722Stream.UnpackCodeKeeps` | g722/g722_decode.c:278-288 | Taking a code loses no bit and leaves at most one code in the buffer. |
| `G722Stream.CollectKeeps` | g722/g722_decode.c:276-293 | Over all bytes, the codes and what is left are what was pending and the bytes. |
| `G722Stream.PackedRoundTrip` | g722/g722_decode.c:276-293 | The codes that arrive are a prefix of those sent, and exactly the bits in the two buffers are missing. |
| `G722Stream.PlainRoundTrip` | g722/g722_encode.c:409-412 | Codes of a byte each all arrive. |
| `G722Stream.CollectConcat` | g722/g722_decode.c:276-293 | Unpacking in chunks gives the same codes for any split of the bytes. |
| `G722Stream.EncodeInChunks` | g722/g722_encode.c:202-415 | One call of g722_encode equals two calls on the parts, for any split into whole steps. |
| `G722Stream.DecodeInChunks` | g722/g722_decode.c:202-412 | One call of g722_decode equals two calls on the parts, for any split. |
| `G722Stream.StreamInStep` | g722/g722_decode.c:276-412 | Through the byte stream the decoder is in step with the encoder as of the codes that have arrived, and only the buffered bits are missing. |
| `G722Program.Accumulate` | g722/g722_encode.c:311-317 | The filter loop, whose accumulators never overflow. |
| `G722Program.Encoder.constructor` | g722/g722_encode.c:173-191 | The init function fixes rate, band and packing and gives the initial state. |
| `G722Program.Encoder.NextCode` | g722/g722_encode.c:290-395 | One pass of the loop up to the code. |
| `G722Program.Encoder.Put` | g722/g722_encode.c:397-412 | The output of the code. |
| `G722Program.Encoder.Encode` | g722/g722_encode.c:202-415 | Into any buffer that holds the bytes it writes, g722_encode writes the specified bytes and returns their number, with the specified state. |
| `G722Program.Decoder.constructor` | g722/g722_decode.c:173-191 | The init function of the decoder. |
| `G722Program.Decoder.Take` | g722/g722_decode.c:295-315 | The switch over the three rates. |
| `G722Program.Decoder.Play` | g722/g722_decode.c:295-409 | One pass of the loop from the code on. |
| `G722Program.Decoder.Fetch` | g722/g722_decode.c:278-293 | The next code of the input. |
| `G722Program.Decoder.Decode` | g722/g722_decode.c:202-412 | g722_decode terminates, writes the specified samples and returns their number, with the specified state. |
| `RtpLoss.Step` | baresip/src/stream.c:129-148 | The number stays the sentinel or below 65536; it changes exactly with accepted packets. |
| `RtpLoss.Receiver.LostCalc` | baresip/src/stream.c:129-148 | The procedure is the step function on pseq. |
| `RtpLoss.StepMeans` | baresip/src/stream.c:131-143 | In terms of unwrapped numbers: duplicates and packets up to 100 behind are refused, gaps below 3000 are counted, larger jumps resynchronise. |
| `RtpLoss.Conservation` | baresip/src/stream.c:129-148 | Between jumps, accepted plus lost packets are the advance of the sender's numbers, across wrap-around, reordering and duplication. |
| `RtpLoss.ConservationFromStart` | baresip/src/stream.c:329 | The same from the creation of the stream. |
| `RtpLoss.RefusedLeaveNoTrace` | baresip/src/stream.c:136-143 | A run with and without a refused packet has the same state and account. |

## Left out

* Floating-point and cut variants (`USE_FLOAT_MUL`, `FAST`, `LTP_CUT`), which the build of the repository does not define:
  the integer code is the reference.
* Options of `gsm_option`, `gsm_print`, `gsm_debug`, allocation and release of states, and the command-line tool `toast`.
* The order in which `gsm_explode` stores the words of a WAV49 frame: the model reads the frame and then stores all of
  them. A negative word shifted left in `gsm_implode` is taken as two's complement.
* `gsm_L_mult`, `gsm_L_asl`, `gsm_L_asr` and `gsm_L_add` as functions, which the modelled code does not call.
* `itu_test_mode` of G.722, which no function of the repository sets; the fields `in_buffer` of the encoder and
  `out_buffer` of the decoder, which are never used.
* How much of one band the G.722 filters leave in the other between the two frequencies of SplitSteady and
  SplitAlternating.
* Unrolled and macro-generated statements are loops in the model where all steps have one form (the sub-segments of a
  frame, `STEP` in `lpc.c`, `rpe.c`, `long_term.c` and `short_term.c`); the statements of a WAV49 sub-segment are kept.
* Parameters that the C code passes through separate pointers (`Nc`, `bc`, `Mc`, `xmaxc`, `xMc`) are collected in values,
  and input that is only read is a sequence. The arrays inside the C structures of G.722 are fields with values: they
  cannot be shared in C, so no aliasing is lost.
* The 33-byte formats are bit-vector functions whose bytes are then stored one after the other.
* Timers, sockets and the rest of `stream.c`; the `re` library is not part of this model.
- ShortTerm.RunDeparts: is exact up to and including the first sample with a saturating addition; when that sample comes
  back nevertheless, the memories of the two filters may differ, and nothing is said about the samples after it.
- ShortTerm.AnalysisFiltering: takes coefficients other than MIN_WORD, which is what LARp_to_rp delivers.
- Lpc.Reflect: takes sums dominated by the first one, which is what Autocorrelation delivers for every frame.
- Lpc.Autocorrelation: models the rescaling of the samples as truncation to 16 bits and does not claim that it restores
  them.
- Prediction.NormalEquations: holds for the orders that the recursion reaches (it ends early where P[0] < |P[1]|) and as
  long as no addition of the steps before has saturated.
- Prediction.LatticeIsPredictionError: is about one set of coefficients, from a cleared memory, as long as no addition
  saturates.
- GsmCodec.EmphasisUndone: covers runs in which the last addition of pre-emphasis does not saturate; a sample it clips is
  not restored.
- GsmCodec.TransparentFrame: says nothing about frames whose residual the RPE coding changes, other than through
  SubErrorIsRpeError.
- G722Band.PoleSection: leaves open what sp is where a doubled value or the sum saturates; so does PredictorIsStable.
- G722Band.ZeroSection: takes differences within 16383; those of a code are within 12404 (DifferenceRange).
- G722FilterBank.FilterBankIsDelay: is stated before the conversion to 16 bits, which wraps around in the code and the
  model.
- G722FilterBank.SoundThroughCodec: takes the error of the high band as given; that of the low band is LowBandAccuracy.
- G722Quantiser.LowBandError: says nothing about the overload cell, where the error has no bound.
- G722Program.Encoder.Encode: takes an even number of samples in wide-band mode, because the C loop reads samples in
  pairs.
- RtpLoss.Conservation: covers runs between resynchronising jumps; a jump discards the gap by design.
