# rav1e: entropy coding and in-loop filters, modelled and proved

rav1e is an AV1 encoder. This project models the parts of it whose correctness is not
visible from any one function, and proves what they promise.

**Range coder.** `WriterBase<WriterEncoder>` keeps a 16-bit range, a window of low bits and
a buffer of words that may still receive a carry. `RangeInterval` is the ideal coder:
intervals of unbounded precision, and the bitstreams that lie in them. `EncoderState` shows
that every fixed-width step is exactly one narrowing of that interval; `EncoderFlush` that
the bytes of `done` lie in the last one; `Encoder` is the writer as a class, including
checkpoints, and `SymbolCost` and `BitCost` its bit counts. `Reader` is the matching decoder
(section 8.2.6 of the AV1 Bitstream & Decoding Process Specification), and `RoundTrip` joins
the two: any message coded with any mix of adaptive and fixed tables is read back exactly.
`Cdf` treats the tables and their adaptation, `Subexp` and `HeaderBits` the subexponential
codes in the range coder and in frame headers. `Writers` has the two
simulators, and searches of stores and rollbacks followed by a replay; `LfQueue` is the
superblock queue that replays them.

**Deblocking.** `DeblockFilters` has the filters as the encoder computes them, and
`DeblockReference` the same filters as section 7.14.6 of the AV1 specification words them, with
a proof that they agree on every line of pixels. `DeblockSchedule` and `DeblockPlane` prove
that the interleaved, lagged walk over a plane equals all visible vertical edges followed by all
horizontal ones. `DeblockTally` proves the level search that tallies differences.

**Self-guided restoration.** `LrfIntegral` proves wrapped integral images exact,
`LrfArith` that the 32-bit arithmetic on box sums fits, `LrfStripe` that rotating row
buffers give the same pixels as computing every box row first, `LrfSharing` when a row may
serve two output rows. `LrfReference` has the filter as the AV1 specification words it, and proves
that every pixel agrees and depends on its own neighbourhood only.

**Two-pass rate control.** `RatePackets` is the byte format and its parser, `RatePass1` what
the first pass writes, `RateFeed` and `RateIntake` what feeding it back means apart from how
it is cut, `RateWindow` the ring of frame metrics with its running statistics and ready flag.
`RateFile` and `RateStream` follow a whole file through the second pass, fed and encoded in
any order, and `RateWanted` says how many bytes the next frame waits for; `RateWhole` does the
same where no look-ahead is configured and there is no ring.

**Smaller pieces.** `Cdef` (filtering with sentinel padding, section 7.15) and `CdefReference`
(the same filter from the specification's tables), `HexagonSearch` (a search that skips half
of its candidates), `RdoLoop` (why the CDEF and restoration decisions stop alternating). `Bits` holds machine widths and shifts.

Methods carry the loops and updates of the source; each is proved against a function or an
invariant, and lemmas prove what those promise. Types `u8`, `u16` and `u32` are integers
with a range, so that every arithmetic step on them is also a proof that it does not
overflow; wrapping operations are written as such.

## Where the code and its comments differ

- `done` says the symbols decode correctly "regardless of the bits that follow"
  (src/ec.rs:435-436). They do when zeros follow, which is what a reader supplies past the
  end of its data. For anything else, `Encoder.WriterEncoder.Done` states the exact condition
  on `low`, `rng` and `cnt` before the call, and `Encoder.OneSymbol` codes a symbol whose byte
  only zeros may follow.
- With the radius-2 pass off, `sgrproj_stripe_filter` gives two output rows the same
  radius-2 row (src/lrf.rs:740-750), which belongs to the first.
  `LrfSharing.SharingRightIff`: all pixels of all stripes are right if and only if that pass
  has weight zero. The solver always returns a zero weight then
  (`LrfStripe.SolverKeepsSharingHarmless`).
- Once no frames are left but some were dropped, the second pass declares itself ready with
  an empty window. `RateWindow.RCState.UpdateState` states that this is the only way for
  readiness to be wrong, and `RateStream.OneDroppedFrame` reaches it.
- A summary without intra frames is accepted, but reading stops after it and the next input
  is taken for another summary. `RateIntake.CutAfterNoIntra` says that only then does it
  matter where a stream is cut, and `RateIntake.NoIntraShows` gives such a summary.
- `symbol_bits` subtracts a correction from the bits in the window. On encoder states every
  subtraction is in range; on counters and recorders, whose `cnt` stays at -9, they all are if
  and only if the range is at most 0x8B95, which one flat bit already exceeds
  (`Writers.PriceAfterFlatBit`). Where they wrap, the cost is right all the same.
- The frame counts are 32 bits wide so that scale sums fit 64 bits over a whole file, as a
  comment says (src/rate.rs:421-422). They fit in every file of n frames if and only if n is
  below 2^23 (`RatePass1.SumsFitIff`), and `RatePass1.TooManyFrames` runs the first pass over
  2^23 frames at the cap on scales: the summary it writes is rejected.
  `RatePass1.Pass1State.SummaryIsAccepted` says which summaries are accepted.
- `parse_frame_data_packet` sets the ready flag when one frame was missing before the packet.
  If that frame is hidden and not the last, a shown frame is still missing:
  `RateWindow.RCState.ParseFrameDataPacket` has the exact condition, and
  `RateStream.OneHiddenFrame` a state where it fails. The flag still means
  that the head of the ring is current.
- `twopass_bytes_needed` calls its answer a lower bound, of which 0 means that encoding can
  proceed (src/api/context.rs:163-170). Once the summary is known both hold on a whole file
  (`RateWanted.WantedIsLower`, `RateStream.Ask`), except that 0 is also the answer after the last
  frame, and after a packet that was rejected when it was the last one wanted. Before, the answer
  is that for the configured look-ahead, whatever the file has and is held of it:
  `RateWanted.FirstWantedIsLower` has the exact condition for a lower bound, and
  `RateWanted.OneFrameAsksTooMuch` a file for which it is none.

## Model

| member | source | states |
|---|---|---|
| `RangeInterval.SubrangeBounds` | src/ec.rs:334-346 | for every range from 32768 up and every token `symbol` may store, the sub-range is inside the range and at least four wide |
| `RangeInterval.ScaleBoundIsShare` | src/ec.rs:337-344 | each bound is the frequency's share rng * f / 2^15 of the range, and falls short of it by no more than the eight bits of the range and the six of the frequency that are dropped |
| `RangeInterval.WidthIsShare` | src/ec.rs:334-346 | so a symbol's sub-range differs from rng * (fl - fh) / 2^15 by at most that and the floor: four for the symbol, and for the first symbol four for each one after it |
| `RangeInterval.FloorOnly` | src/ec.rs:337-344 | a symbol without a share of its own gets the four of the floor |
| `RangeInterval.NarrowHolds` | src/ec.rs:265-288 | a bitstream lies in the rescaled interval exactly when it lies in the sub-range chosen before rescaling, and then in the interval before the token |
| `RangeInterval.CodeHolds` | src/ec.rs:265-288 | intervals nest over a whole run: a bitstream of the interval of all tokens is one of the interval of each beginning |
| `RangeInterval.NarrowInUnit` | src/ec.rs:265-288 | no token moves the interval past the top of the unit interval, so no carry leaves the first byte |
| `Cdf.AdaptableIsCodable` | src/ec.rs:520-537 | the form adaptation keeps meets everything `symbol` asserts of a table |
| `Cdf.SymbolsTile` | src/ec.rs:520-537 | at any valid range the symbols of a table tile the range from 0 to rng without gap or overlap, each at least four wide |
| `Cdf.SymbolUnique` | src/ec.rs:1031-1055 | at most one symbol of a table has an interval containing a given bitstream |
| `Cdf.UpdateCdf` | src/ec.rs:935-955 | the in-place adaptation loop moves every entry by its own step and leaves the counter one higher or at 32 |
| `Cdf.AdaptedMoves` | src/ec.rs:935-955 | an entry moves by 1/16 to 1/128 of its way to 0 or to 32768: twice as little from four symbols on, from 16 symbols coded on, and again from 32; the counter goes up to 32 |
| `Cdf.AdaptedStays` | src/ec.rs:935-955 | adaptation keeps a table sorted, below 32768 and its count at most 32, whatever the symbol |
| `Cdf.AdaptedAll` | src/ec.rs:935-955 | so does any sequence of adaptations |
| `Cdf.AdaptedFavours` | src/ec.rs:935-955 | adapting to a symbol never narrows that symbol's own sub-range, at any range |
| `EncoderState.StoredNarrows` | src/ec.rs:265-288 | the fixed-width store, with its one or two words leaving the window, is exactly narrowing the unbounded interval, carries included |
| `EncoderState.StoredReachable` | src/ec.rs:265-288 | a store keeps -9 <= cnt <= -1, rng >= 32768, low + rng <= 2^(cnt+25), words at most 511 and the value below one; it only appends words |
| `EncoderState.StoredAllCodes` | src/ec.rs:265-288 | over any run the encoder state stands for the interval of the tokens stored |
| `EncoderState.StoredAllExtends` | src/ec.rs:302-307 | words emitted for a beginning are never touched by later stores, so truncating the buffer undoes them |
| `EncoderFlush.FlushPointInside` | src/ec.rs:434-442 | the point `done` flushes is in [low, low + 32768) and its low 14 bits are zero |
| `EncoderFlush.FlushedHolds` | src/ec.rs:434-470 | the flushed bytes, read with zeros after them, lie in the final interval, at the flush point itself |
| `EncoderFlush.FlushedBelowOne` | src/ec.rs:462-470 | resolving carries needs no byte in front of the first |
| `Encoder.WriterEncoder.constructor` | src/ec.rs:184-188 | a new encoder stands for no tokens |
| `Encoder.WriterEncoder.Store` | src/ec.rs:265-288 | appends one token to those the state stands for, without overflow in any of the fixed-width steps |
| `Encoder.WriterEncoder.Symbol` | src/ec.rs:520-537 | stores the token of a symbol of any codable table |
| `Encoder.WriterEncoder.SymbolWithUpdate` | src/ec.rs:548-562 | codes with the table as it is and then adapts it |
| `Encoder.WriterEncoder.Bool` | src/ec.rs:485-489 | codes a bit as one of two symbols |
| `Encoder.WriterEncoder.Tell` | src/ec.rs:782-787 | whole bits used are the shifts spent on the tokens plus one, plus the fake bits |
| `Encoder.WriterEncoder.TellFrac` | src/ec.rs:796-798 | eighths of bits used by the tokens, with the subtraction always in range |
| `Encoder.WriterEncoder.SymbolBits` | src/ec.rs:572-605 | on every encoder state the cost is exactly the increase of `tell_frac` that coding the symbol would cause, and no subtraction is out of range |
| `SymbolCost.SymbolBits` | src/ec.rs:572-605 | for any fields a writer can have the cost is the growth of the count, even where 32-bit subtractions wrap; none does if and only if bits are left in the window or the range is at most 0x8B95 |
| `Encoder.WriterEncoder.TakeCheckpoint` | src/ec.rs:294-301 | a checkpoint holds what identifies the tokens stored so far |
| `Encoder.WriterEncoder.Rollback` | src/ec.rs:302-307 | returns to the tokens of any earlier checkpoint, whatever was stored or rolled back since; fake bits stay |
| `Encoder.WriterEncoder.Done` | src/ec.rs:434-473 | the bytes are those flushed from the state; they lie in the interval of every token stored, are as few as the bits told allow, end in a one right after these bits, and stay correct whatever bytes follow if and only if the state, before the call, has room for a unit above its flush point |
| `Encoder.WriterEncoder.ResolveCarries` | src/ec.rs:461-470 | turns words of up to 511 into bytes of the same base-256 value and number |
| `EncoderTail.AnyTailHolds` | src/ec.rs:434-442 | for any interval and bytes in it: any tail stays in it if and only if a whole unit of the last place fits below its top |
| `EncoderTail.FlushedTail` | src/ec.rs:434-442 | what is flushed from any reachable state stays correct whatever follows if and only if its low, rng and cnt leave room |
| `EncoderTail.TailCanMatter` | src/ec.rs:434-442 | the state after one symbol has no room: it flushes to the byte 153, and two bytes of ones after it leave the interval |
| `EncoderTail.TrailingBit` | src/ec.rs:434-442 | the bit right after those told is a one, and only zeros follow it: the trailing bits of a tile |
| `Encoder.OneSymbol` | src/ec.rs:434-473 | coding one symbol of a table and calling `done` gives exactly that byte, which only zeros may follow |
| `Encoder.TwoFlatBits` | src/ec.rs:434-473 | coding the flat bits 0 and 1 gives exactly the byte 80 |
| `Reader.Reader.constructor` | src/ec.rs:975-985 | the first window agrees with the stream |
| `Reader.Reader.Refill` | src/ec.rs:987-999 | adds bytes, or zeros past the end, until the window is full, and the window still measures the distance from the code to the top of the interval |
| `Reader.XorOnes` | src/ec.rs:987-999 | the exclusive or that feeds a byte in is a subtraction, since the bits it meets are ones |
| `Reader.Reader.Normalize` | src/ec.rs:1001-1012 | rescales window and interval together |
| `Reader.Reader.Locate` | src/ec.rs:1031-1050 | the table walk stops at the symbol whose bounds enclose the window top |
| `Reader.ChosenSymbol` | src/ec.rs:1031-1055 | that symbol's sub-interval contains the bitstream |
| `Reader.Reader.Symbol` | src/ec.rs:1031-1055 | decodes a symbol and narrows the interval by its token |
| `Reader.Reader.Bool` | src/ec.rs:1014-1029 | the two-way decode narrows by the token `bool` stores |
| `RoundTrip.NextSymbol` | src/ec.rs:1031-1055 | a symbol that a bitstream of the message picks after a beginning of it is the message's next symbol |
| `RoundTrip.BeginningHolds` | src/ec.rs:265-288 | a bitstream of a message is one of each beginning of the message |
| `RoundTrip.Encode` | src/ec.rs:548-562 | codes any message, each symbol with a table in memory that adapts, a fixed table, or as a bit, as the symbols before it decide; leaves the adapted tables |
| `RoundTrip.EncodeSymbol` | src/ec.rs:485-562 | one symbol is coded with `symbol_with_update`, `symbol` or `bool`, and the tables in memory learn it |
| `RoundTrip.Decode` | src/ec.rs:1031-1055 | reads back the message from any bitstream in its interval and leaves the same adapted tables |
| `RoundTrip.DecodeSymbol` | src/ec.rs:1014-1055 | one symbol is decoded with `symbol` or `bool`, and the tables in memory learn the same |
| `RoundTrip.EncodeDecode` | src/ec.rs:1058-1151 | for every message and every starting tables, decoding the zero-extended bytes of `done` gives back exactly the symbols coded |
| `Writers.WriterCounter.Store` | src/ec.rs:195-201 | the counter keeps the range and the bits of an encoder fed the same tokens |
| `Writers.WriterCounter.Tell` | src/ec.rs:782-787 | and tells the same number of bits |
| `Writers.WriterCounter.TellFrac` | src/ec.rs:796-798 | and the same eighths of bits |
| `Writers.WriterCounter.SymbolBits` | src/ec.rs:572-605 | and reports the same costs, with every subtraction in range if and only if its range is at most 0x8B95 |
| `Writers.WriterCounter.Rollback` | src/ec.rs:218-221 | and returns exactly to an earlier position |
| `Writers.WriterRecorder.Store` | src/ec.rs:230-237 | the recorder keeps range, bits and the tokens themselves |
| `Writers.WriterRecorder.Tell` | src/ec.rs:782-787 | and tells the same number of bits |
| `Writers.WriterRecorder.TellFrac` | src/ec.rs:796-798 | and the same eighths of bits |
| `Writers.WriterRecorder.SymbolBits` | src/ec.rs:572-605 | and reports the same costs, with every subtraction in range if and only if its range is at most 0x8B95 |
| `Writers.PriceAfterFlatBit` | src/ec.rs:572-605 | one flat bit leaves a counter at range 0xFFF0, where pricing any symbol has a subtraction out of range |
| `Writers.WriterRecorder.Rollback` | src/ec.rs:252-257 | and returns exactly to an earlier position |
| `Writers.WriterRecorder.Replay` | src/ec.rs:418-426 | the encoder ends as if the recorded tokens had been stored in it directly; the recorder ends as good as new |
| `Writers.WriterRecorder.ReplayInto` | src/ec.rs:418-426 | the same into another recorder |
| `Writers.TracksReturn` | src/ec.rs:809-811 | returning to a saved position keeps the earlier positions valid and forgets the later ones |
| `Writers.SearchAndReplay` | src/ec.rs:803-811 | any search of stores, checkpoints and rollbacks on recorder and counter, then a replay, leaves the encoder with just the surviving tokens; at every step both tell the bits and range of an encoder with the tokens surviving so far |
| `BitCost.FracCompute` | src/ec.rs:357-379 | three squarings give the total in eighths of a bit, and the 32-bit subtraction wraps exactly when the bits do not cover the correction |
| `BitCost.CorrectionSound` | src/ec.rs:357-379 | the correction l meets 2^(120+l) <= rng^8, so the total never under-reports |
| `BitCost.CorrectionMono` | src/ec.rs:357-379 | a wider range never has a smaller correction, and none exceeds seven |
| `BitCost.CorrectionZero` | src/ec.rs:357-379 | the correction is zero exactly for ranges up to 0x8B95 |
| `BitCost.CorrectionTurns` | src/ec.rs:357-379 | the correction reaches 1 to 7 at the ranges 35734, 38968, 42496, 46341, 50536, 55110 and 60098 |
| `BitCost.CorrectionIsFloor` | src/ec.rs:357-379 | it is eight times the logarithm of rng / 2^15 rounded down, except at 42495, 55109 and 60097 only, where it is one less |
| `BitCost.FracBitsGrow` | src/ec.rs:796-798 | coding one more token never lowers the count |
| `Subexp.LiteralRoundTrip` | src/ec.rs:506-510 | a literal is read back as its low bits, with nothing after it consumed |
| `Subexp.QuniformRoundTrip` | src/ec.rs:624-635 | every value below n is read back from its quasi-uniform code |
| `Subexp.SubexpRoundTrip` | src/ec.rs:656-677 | every value is read back from its subexponential code, from any step of the loop on |
| `Subexp.SmallShape` | src/ec.rs:656-677 | a value below 2^k is coded as a zero and its k low bits, unless the quasi-uniform code takes over |
| `Subexp.LargeShape` | src/ec.rs:656-677 | a larger one as a one for every doubling from there, a zero and the bits below its highest |
| `Subexp.RecenterBijection` | src/ec.rs:715-721 | recentring around any reference is a bijection of [0, n-1], inverted by the decoder's formula |
| `Subexp.NearerIsSmaller` | src/ec.rs:715-721 | of two values the one nearer to the reference gets the smaller code number, and of two as near the one towards the nearer end |
| `Subexp.RefSubexpRoundTrip` | src/ec.rs:715-721 | the code with a reference is undone by the decoding process of sections 5.9.27 to 5.9.29 |
| `Subexp.SignedRefSubexpRoundTrip` | src/ec.rs:746-755 | so is the signed code, for every low <= v, r < high |
| `Subexp.Literal` | src/ec.rs:506-510 | stores the bits of a literal as flat tokens |
| `Subexp.WriteQuniform` | src/ec.rs:624-635 | stores exactly the bits of the quasi-uniform code |
| `Subexp.WriteSubexp` | src/ec.rs:656-677 | the loop ends without overflow and stores exactly the bits of the subexponential code |
| `Subexp.WriteUnsignedSubexpWithRef` | src/ec.rs:715-721 | stores the bits of the code with a reference |
| `Subexp.WriteSignedSubexpWithRef` | src/ec.rs:746-755 | stores the bits of the signed code |
| `Subexp.CountQuniform` | src/ec.rs:639-650 | eight times the number of bits the writer stores |
| `Subexp.CountSubexp` | src/ec.rs:684-707 | eight times the number of bits the writer stores |
| `Subexp.CountUnsignedSubexpWithRef` | src/ec.rs:730-738 | eight times the number of bits the writer stores |
| `HeaderBits.BitWriter.WriteVar` | src/ec.rs:861-874 | appends the bits of a value most significant first |
| `HeaderBits.BitWriter.WriteQuniform` | src/ec.rs:861-874 | appends the same bits as the range coder's quasi-uniform code, in 16-bit arithmetic |
| `HeaderBits.BitWriter.WriteSubexpfin` | src/ec.rs:875-897 | the loop ends without 16-bit overflow and appends the same bits as the range coder's subexponential code |
| `HeaderBits.BitWriter.WriteRefsubexpfin` | src/ec.rs:898-906 | the same with a reference |
| `HeaderBits.BitWriter.WriteSRefsubexpfin` | src/ec.rs:907-917 | writes what the signed decoding process reads from 1 - n up to n |
| `LfQueue.TileQueue.Push` | src/encoder.rs:3543-3567 | a recorded superblock joins the end of the queue |
| `LfQueue.TileQueue.HeadReady` | src/encoder.rs:3391-3399 | the head is ready exactly when its unit in every plane is |
| `LfQueue.TileQueue.Decide` | src/encoder.rs:3402-3437 | the loop filter decision is made unless some unit of the superblock was decided before, and then counts for all of them, entry by entry |
| `LfQueue.TileQueue.WriteLrf` | src/encoder.rs:3439-3449 | codes, plane by plane, the units the superblock is the first to reach |
| `LfQueue.TileQueue.CodeEntry` | src/encoder.rs:3400-3459 | units, then the blocks up to the CDEF index, then the index and the rest |
| `LfQueue.TileQueue.CodeHead` | src/encoder.rs:3400-3459 | codes and pops the head; the encoder still holds exactly what the popped superblocks code |
| `LfQueue.TileQueue.Check` | src/encoder.rs:3376-3465 | pops exactly the ready superblocks at the head, in order, and keeps the tile's invariant |
| `LfQueue.TileQueue.Done` | src/encoder.rs:3664-3670 | for the units and indices as decided, the tile's bytes hold every superblock's share in queue order, whenever the queue was checked: its units that come after all before it, plane by plane, and then its own recording |
| `LfQueue.CodedAtMostOnce` | src/encoder.rs:3439-3449 | of two superblocks that code units of one plane the later codes the larger, so no unit is coded twice |
| `LfQueue.CodedAtFirst` | src/encoder.rs:3439-3449 | every unit is coded with the first superblock in it and no other if and only if units are first reached in increasing order |
| `LfQueue.CodesNewHigh` | src/encoder.rs:3439-3449 | a superblock codes its unit of a plane exactly when that unit comes after those of all superblocks before it |
| `LfQueue.EmittedIsShares` | src/encoder.rs:3439-3449 | what a queue of superblocks codes is, one after the other, for each plane in order the unit if it comes after all before, and then the superblock's own recording with its CDEF index in the middle |
| `LfQueue.NewHighIsFirst` | src/encoder.rs:3439-3449 | where units are first reached in increasing order, those are the units first reached with that superblock |
| `LfQueue.DecidedBeforeCoded` | src/encoder.rs:3402-3449 | a superblock codes nothing undecided if and only if all or none of its units were decided before |
| `DeblockFilters.LimitAdjoint` | src/deblock.rs:333-341 | limit_to_level is the exact adjoint of the limit a level allows, at every bit depth |
| `DeblockFilters.BlimitAdjoint` | src/deblock.rs:343-351 | the same for the edge limit |
| `DeblockFilters.ThreshAdjoint` | src/deblock.rs:353-361 | the same for the high-variance threshold |
| `DeblockFilters.MaskIsLimits` | src/deblock.rs:363-374 | the mask and nhev levels are where the limits of section 7.14.6.2 stop being exceeded |
| `DeblockFilters.OneClampIsEnough` | src/deblock.rs:147-224 | leaving out the clamp before rounding changes nothing, for any input (what the debug assertions check) |
| `DeblockFilters.FilteredInRange` | src/deblock.rs:309-316 | filtered pixels are pixels, at every size, level and bit depth |
| `DeblockFilters.FilteredKeepsEnds` | src/deblock.rs:499-515 | the outermost taps are never changed by sizes above four |
| `DeblockReference.Window6` | src/deblock.rs:248-257 | the unrolled six-tap filter is the moving window of section 7.14.6.4 |
| `DeblockReference.Window8` | src/deblock.rs:262-273 | so is the eight-tap filter |
| `DeblockReference.WideIsWindowed` | src/deblock.rs:288-306 | so are all wide filters over the whole line |
| `DeblockReference.NarrowIsReference` | src/deblock.rs:147-224 | the narrow filters are those of section 7.14.6.3, with its offsets and clamps |
| `DeblockReference.MasksAgree` | src/deblock.rs:363-374 | filter, high-variance and flatness masks agree with section 7.14.6.2 |
| `DeblockReference.FilteredIsReference` | src/deblock.rs:846-875 | for every size, taps, level and bit depth one line is filtered as section 7.14.6.1 says |
| `DeblockPlane.DeblockRow` | src/deblock.rs:393-403 | filters one row across a vertical edge in place and touches nothing else |
| `DeblockPlane.DeblockColumn` | src/deblock.rs:406-416 | filters one column across a horizontal edge in place and touches nothing else |
| `DeblockPlane.FilterVEdge` | src/deblock.rs:1099-1143 | filters the four rows of a vertical edge, each from the pixels before |
| `DeblockPlane.FilterHEdge` | src/deblock.rs:1195-1239 | filters the four columns of a horizontal edge |
| `DeblockSchedule.DependsOnFootprint` | src/deblock.rs:1294-1458 | filtering an edge depends on nothing outside its footprint |
| `DeblockSchedule.ClearCommutes` | src/deblock.rs:1294-1458 | a vertical and a horizontal edge far enough apart can be filtered in either order, with footprints of up to seven pixels each side |
| `DeblockSchedule.LateVertical` | src/deblock.rs:1294-1458 | a vertical edge filtered after horizontal ones clear of it might as well have come before them |
| `DeblockSchedule.EachOnce` | src/deblock.rs:1294-1458 | the reference order visits every edge of the plane exactly once |
| `DeblockSchedule.ReferenceInRaster` | src/deblock.rs:1294-1458 | the reference order is the raster order of the plane's edges, vertical before horizontal |
| `DeblockSchedule.StraddlesEdge` | src/deblock.rs:1069-1158 | the taps read lie symmetrically about the edge, which runs between the middle two |
| `DeblockPlane.UnitsAreShown` | src/deblock.rs:1322-1333 | the units walked over are exactly those with a pixel that is inside the frame and in a coded block, at either subsampling |
| `DeblockPlane.EnabledByLevels` | src/deblock.rs:1302-1320 | a plane is filtered exactly when one of its own levels is set |
| `DeblockPlane.FilterBothRows` | src/deblock.rs:1367-1441 | a lagged pair of rows still amounts to all vertical edges so far followed by all horizontal ones |
| `DeblockPlane.Walk` | src/deblock.rs:1317-1457 | the whole interleaved schedule amounts to all vertical edges followed by all horizontal edges |
| `DeblockPlane.Deblock` | src/deblock.rs:1294-1458 | for every frame size, subsampling and map of edge filters, the plane ends as if exactly the edges with a visible unit had been filtered in raster order, all vertical then all horizontal ones, or unchanged when none of its levels is set |
| `DeblockTally.AddLine` | src/deblock.rs:420-472 | one line adds to every level's sum exactly the squared error that level would leave |
| `DeblockTally.AddSegment` | src/deblock.rs:552-625 | so do the lines of an edge segment together |
| `DeblockTally.ErrorFits` | src/deblock.rs:329-331 | a line's error fits the 32-bit sum at every bit depth up to 12 |
| `DeblockTally.PrefixSum` | src/deblock.rs:1582-1585 | the prefix sum turns differences into totals |
| `DeblockTally.BestLevel` | src/deblock.rs:1589-1600 | returns the first level with the least total |
| `DeblockTally.OptimizeLevel` | src/deblock.rs:1553-1600 | no level leaves less squared error over all taps of all lines, and no lower level as little; level 0 means unfiltered |
| `DeblockTally.OptimizeSharedLevel` | src/deblock.rs:1602-1612 | the same for the level both chroma directions share |
| `DeblockTally.TotalsDiffer` | src/deblock.rs:420-640 | the totals over the taps counted differ between any two levels exactly as the squared errors over all taps do |
| `LrfIntegral.GetIntegralSquare` | src/lrf.rs:367-379 | four wrapped table entries give the true sum of the window, whenever that sum fits, however often the table overflowed |
| `LrfIntegral.VertPaddedIter.Next` | src/lrf.rs:446-467 | yields the clamped row, of the deblocked plane outside the stripe and of the CDEF output inside it |
| `LrfIntegral.ColumnAgrees` | src/lrf.rs:530-627 | index and width handed to the horizontal iterator clamp exactly where the plane's crop does |
| `LrfIntegral.NearestMayRead` | src/lrf.rs:381-528 | every padded pixel is the one nearest to its own position that may be read, from CDEF output inside the stripe and deblocked pixels around it |
| `LrfIntegral.PadRow` | src/lrf.rs:530-627 | both iterators together give one padded row |
| `LrfIntegral.FillRow` | src/lrf.rs:530-627 | running wrapped sums and squares extend both tables by one row |
| `LrfIntegral.SetupIntegralImage` | src/lrf.rs:530-627 | both tables hold, modulo 2^32, all sums of the clamped and padded source |
| `LrfArith.SpreadOfExtremes` | src/lrf.rs:345-362 | n * sumsq - sum^2 over a window is largest at some split between zero and maximal pixels |
| `LrfArith.SpreadBound` | src/lrf.rs:345-362 | the sharper bound of 20 or 156 times the squared maximum for 9 and 25 pixels |
| `LrfArith.VarianceBound` | src/lrf.rs:345-362 | rounding the sums to 8 bits first raises the scaled variance by no more than a linear term |
| `LrfArith.ParamsArePasses` | src/lrf.rs:56-73 | all sixteen parameter sets have strengths within those limits, and none turns both passes off |
| `LrfArith.WeightBound` | src/lrf.rs:345-362 | 1 <= a <= 256 |
| `LrfArith.FinishFits` | src/lrf.rs:345-362 | p * s and every product before it fits u32 at 8, 10 and 12 bits |
| `LrfArith.WeightedSumFits` | src/lrf.rs:345-362 | (256 - a) * sum * one_over_n fits u32 |
| `LrfArith.SumFinish` | src/lrf.rs:345-362 | the u32 computation is exact for the sums of any window of pixels, with a in 1..256 and b at most 2^20 |
| `LrfStripe.BoxAb` | src/lrf.rs:176-200 | fills one buffer row with the box values of one stripe row |
| `LrfStripe.BoxF1` | src/lrf.rs:267-291 | the radius-1 pass reads box rows y, y+1, y+2 out of three rotating rows |
| `LrfStripe.BoxF2` | src/lrf.rs:301-341 | the radius-2 pass reads box rows y and y+2 out of two rotating rows and makes two output rows at once |
| `LrfStripe.ApplyFilter` | src/lrf.rs:797-815 | projects one row within i32 |
| `LrfStripe.StripeFilter` | src/lrf.rs:630-828 | with rotating buffers, odd heights included, every pixel is what computing all box rows first would give, whenever the radius-2 pass is on or has no weight |
| `LrfStripe.SetupAndFilter` | src/lrf.rs:630-828 | the same starting from the planes |
| `LrfSharing.LinesAreSource` | src/lrf.rs:630-664 | inside the frame a stripe's own pixels are the padded source's, four rows and columns in |
| `LrfReference.BoxIsCentred` | src/lrf.rs:685-763 | each box depends only on the pixels up to its radius around its own centre |
| `LrfReference.PixelIsLocal` | src/lrf.rs:685-828 | a filtered pixel depends only on itself and the source up to two pixels around it, or three if the radius-2 pass is on |
| `LrfReference.BoxIsWorded` | src/lrf.rs:176-240 | each box's weight and mean are those of the AV1 specification for the window around that position |
| `LrfReference.F1IsWorded` | src/lrf.rs:259-291 | the radius-1 pass weighs the nine boxes around a pixel 4 on the cross and 3 in the corners |
| `LrfReference.F2IsWorded` | src/lrf.rs:293-343 | the radius-2 pass weighs 6 and 5 those of odd rows only, with one row less of rounding where the pixel's own row is odd |
| `LrfReference.PixelIsWorded` | src/lrf.rs:685-828 | every filtered pixel is the one the specification words |
| `LrfStripe.SharingHarmless` | src/lrf.rs:735-750 | sharing one radius-2 row between two output rows is right when that pass has no weight |
| `LrfStripe.SharingExact` | src/lrf.rs:735-750 | with the pass off, the two projections before rounding agree if and only if the weight is zero, the row is the first of its pair or the two pixels are equal |
| `LrfSharing.SharingRightIff` | src/lrf.rs:735-750 | with the pass off, every pixel of every stripe of any planes is right if and only if its weight is zero, at any bit depth, radius-1 strength and other weight |
| `LrfSharing.DarkSpotShows` | src/lrf.rs:735-750 | for every nonzero weight, a grey plane with one black pixel whose lower neighbour comes out wrong |
| `LrfStripe.SolverKeepsSharingHarmless` | src/lrf.rs:1059-1066 | the weights the solver returns never let sharing matter |
| `RatePackets.PacketRoundTrip` | src/rate.rs:1294-1319 | every frame's metrics, negative log scales included, are read back from the packet written |
| `RatePackets.PacketLayout` | src/rate.rs:1294-1319 | byte 0 is the frame type, the top bit of byte 3 tells whether it is shown, and bytes 4 to 7 are the log scale, low byte first |
| `RatePackets.LowByteFirst` | src/rate.rs:1247-1258 | byte i written of a value is its i-th digit to base 256 |
| `RatePackets.SummaryRoundTrip` | src/rate.rs:1322-1339 | a summary is read back as written, or rejected by its own values only |
| `RatePackets.SummaryAccepted` | src/rate.rs:313-361 | a written summary is accepted if and only if counts and sums are non-negative and 1 <= ntus <= frames <= i32::MAX |
| `RatePackets.BufferVal` | src/rate.rs:1247-1258 | writes the low bytes of a value, least significant first, and nothing else |
| `RatePackets.EmitFrameData` | src/rate.rs:1307-1315 | leaves exactly the bytes of the packet |
| `RatePackets.EmitSummary` | src/rate.rs:1322-1339 | leaves exactly the bytes of the summary |
| `RatePass1.Pass1State.UpdateState` | src/rate.rs:1072-1164 | a frame that was encoded, dropped or shown again awaits emission with its log scale, capped at 16, and is counted by type; a trial encode is overwritten and counts for nothing |
| `RatePass1.LogScaleIsNearest` | src/rate.rs:1086-1123 | the log scale kept is the estimate rounded to the nearest multiple of 2^-24, at most 16, and -64 for a frame dropped or shown again |
| `RatePass1.Pass1State.EmitFrameData` | src/rate.rs:1294-1319 | emits the packet of that frame and adds it to TUs and scale sums, which may wrap; fails exactly when 2^31 - 1 frames were encoded |
| `RatePass1.Pass1State.EmitSummary` | src/rate.rs:1322-1339 | writes the TUs, counts and scale sums of all packets emitted, in the widths they have |
| `RatePass1.Pass1State.SummaryIsAccepted` | src/rate.rs:313-361 | a summary pass 1 writes is accepted if and only if some frame was shown and no scale sum wrapped to a negative one, and its total is the number of packets |
| `RatePass1.Pass1State.SummaryIsTrue` | src/rate.rs:1294-1339 | the summary describes exactly the frames if and only if their scale sums fit 64 bits |
| `RatePass1.Pass1State.ShortSummaryIsAccepted` | src/rate.rs:1294-1339 | below 2^23 frames it does, and one shown frame makes it acceptable |
| `RatePass1.SumsFitIff` | src/rate.rs:421-424 | scale sums fit 64 bits for all files of n frames with capped scales if and only if n < 2^23 |
| `RatePass1.TooManyFrames` | src/rate.rs:1294-1339 | the first pass over 2^23 frames at the cap writes a summary that is rejected for a negative scale sum |
| `RatePass1.WrittenIsWhole` | src/rate.rs:1294-1339 | what pass 1 wrote of fewer than 2^23 frames is a file the second pass can read in full if and only if it has a shown frame and an intra frame |
| `RatePackets.RCDeserialize.BufferFill` | src/rate.rs:271-281 | takes bytes until the goal or the end of input, in order, losing none |
| `RatePackets.RCDeserialize.UnbufferVal` | src/rate.rs:285-296 | the little-endian value of the next n bytes |
| `RatePackets.RCDeserialize.ParseMetrics` | src/rate.rs:299-310 | reads a packet or reports its frame type as invalid |
| `RatePackets.RCDeserialize.ParseSummary` | src/rate.rs:313-361 | reads a summary or reports the first thing wrong with it |
| `RateFeed.AbsorbSplit` | src/rate.rs:1525-1611 | feeding input in two pieces, the second after what the first left over, is feeding it at once |
| `RateIntake.TakeInSplit` | src/rate.rs:1619-1645 | wherever a stream of summary and packets is cut, feeding the rest after what was left over is feeding it at once, if its summary has intra frames |
| `RateIntake.CutAfterNoIntra` | src/rate.rs:1619-1645 | after a summary without intra frames the cut makes no difference if and only if nothing follows |
| `RateIntake.NoIntraShows` | src/rate.rs:1619-1645 | the summary of a file of one inter frame is such a summary |
| `RateIntake.RejectedStays` | src/rate.rs:1619-1645 | an input that was rejected is rejected again |
| `RateIntake.ChunksAreTheStream` | src/rate.rs:1619-1645 | if the summary of a stream has intra frames, any sequence of its chunks comes to the same as the whole stream |
| `RateFile.FramesFollow` | src/rate.rs:1525-1611 | of the packets of any frames, whatever part is fed, exactly the first frames enter the window; reading fails only for want of a slot |
| `RateFile.StepIn` | src/rate.rs:1619-1645 | a whole file stays underway whatever is fed next: nothing is lost, and it is rejected only if the ring has no room for the frames wanted |
| `RateFile.StepOut` | src/rate.rs:1125-1148 | encoding the head leaves the file underway with its next frame |
| `RateFile.FullMeansRoom` | src/rate.rs:1447-1463 | once no more frames are wanted, the ring had room for all that were |
| `RateStream.FeedChunks` | src/rate.rs:1619-1645 | repeated calls, each with what the one before left over, do what the chunks mean |
| `RateStream.RunSteps` | src/rate.rs:1072-1157 | feeding a whole file in any pieces and encoding in any order, without drops: the current metrics are the file's frames in order; it is rejected only if the ring is too small; once all is fed a frame is ready until none is left |
| `RateStream.EncodeAll` | src/rate.rs:1072-1157 | fed all that is left after each frame, the second pass gets through the file, with nothing left over, if and only if no stretch with fewer shown frames than the look-ahead is too long for the ring |
| `RateStream.Ask` | src/rate.rs:1593-1598 | on a whole file, nothing is asked for exactly when the next frame is ready or every frame is encoded |
| `RateStream.FeedAsked` | src/api/context.rs:163-188 | the loop callers are told to write, which feeds as many bytes as are asked for until none are, ends with the next frame ready unless every frame is encoded, if and only if the ring has room |
| `RateStream.OneDroppedFrame` | src/rate.rs:1072-1157 | a file of one frame that is dropped: nothing left, nothing buffered, and ready |
| `RateStream.OneHiddenFrame` | src/rate.rs:1465-1516 | a file of a hidden frame and another, given the first as a packet: ready, and still a frame missing |
| `RateWhole.WholeState.TwopassParseSummary` | src/rate.rs:1385-1426 | with no ring, a summary is taken over as the statistics of the window, or rejected |
| `RateWhole.WholeState.ParseFrameData` | src/rate.rs:1525-1543 | with no ring, one packet becomes the current metrics, or is kept if incomplete or malformed; with no input answers what the packet lacks |
| `RateWhole.WholeState.TwopassIn` | src/rate.rs:1619-1645 | with no ring: summary, then one packet whenever no frame is current, none after the last frame; with no input answers the bytes wanted, none when ready or at the end |
| `RateWhole.FeedMore` | src/rate.rs:1619-1645 | feeding a whole file in any pieces never fails; the next frame becomes ready exactly when the bytes its packet, and the summary, still lack were fed, and is once all is fed unless there is none |
| `RateWhole.EncodeNext` | src/rate.rs:1125-1157 | taking the current frame out of the statistics leaves them describing exactly the frames after it |
| `RateWhole.RunSteps` | src/rate.rs:1072-1157 | feeding and encoding in any order, without drops: the frames encoded are the file's in order, and the window always describes exactly the frames left |
| `RateWhole.AllServed` | src/rate.rs:1125-1157 | after the last frame every statistic is zero again and no byte is left over |
| `RateFeed.PacketsAreRead` | src/rate.rs:1525-1611 | while frames are wanted, the packets written for any frames put exactly those frames in the window |
| `RateWindow.DescribeEnter` | src/rate.rs:1489-1504 | a frame entering keeps counts, scale sums and shown frames equal to folds of the window |
| `RateWindow.DescribeLeave` | src/rate.rs:1125-1140 | so does the first frame leaving |
| `RateWindow.CountsAddUp` | src/rate.rs:1447-1463 | the counts by type add up to the number of frames in the window |
| `RateWindow.RCState.constructor` | src/rate.rs:1360-1403 | an empty window with a finite ring, to which no summary was fed |
| `RateWindow.RCState.SetupSecondPass` | src/rate.rs:1385-1403 | with a finite buffer a summary sets TUs, frame counts and look-ahead and leaves the window as it is |
| `RateWindow.RCState.TwopassParseSummary` | src/rate.rs:1409-1426 | takes header bytes, and at 68 of them the summary, or rejects it |
| `RateWindow.RCState.FramesNeeded` | src/rate.rs:1447-1463 | enough to fill the reservoir, never more than are left: the clamp never gets a negative upper end |
| `RateWindow.RCState.Enter` | src/rate.rs:1487-1504 | the frame is appended to the live entries, wherever the ring wraps |
| `RateWindow.RCState.ParseFrameDataPacket` | src/rate.rs:1465-1516 | with no bytes held over, accepts exactly a well-formed packet when a frame is missing and a slot free, and appends its frame; ready means the head is current; if one frame was missing the flag is set, and none is missing then if and only if the frame is shown or the last |
| `RateFeed.OneMore` | src/rate.rs:1447-1463 | a frame lowers the number missing by at most one, and the last one wanted leaves none missing exactly when it is shown or no other is left |
| `RateFeed.MissingIsLeast` | src/rate.rs:1447-1463 | the number missing is the least number of shown frames that fill the reservoir or are all that is left |
| `RateFeed.WantsMore` | src/rate.rs:1447-1463 | frames are wanted exactly while fewer shown ones than the look-ahead are buffered and some frame left is not |
| `RateWindow.RCState.ReadPacket` | src/rate.rs:1548-1594 | one round of the reading loop is one step of feeding |
| `RateWindow.RCState.ParseFrameData` | src/rate.rs:1525-1611 | consumes what feeding consumes and ends in the window, held bytes and error it ends in; ready exactly when no frame is missing; with no input answers what the packets of the missing frames lack |
| `RateWindow.RCState.ReadFrames` | src/rate.rs:1634-1643 | once a summary is known: takes in packets as feeding says, none after the last frame; ready means the head is current unless no frames are left and some were dropped; with no input the state is ready if none is missing, and nothing else changes |
| `RateWindow.RCState.TwopassIn` | src/rate.rs:1619-1645 | takes in any input as its meaning says, summary first; keeps the invariant; ready means the head is current unless no frames are left and some were dropped; with no input answers the bytes wanted, and while frames are left 0 exactly when ready, unless the last packet wanted was just rejected |
| `RateWanted.TooFew` | src/rate.rs:1593-1598 | no input shorter than the bytes wanted, whatever it holds, ends the shortage of frames |
| `RateWanted.MissingIsEnough` | src/rate.rs:1447-1463 | at least the missing frames have to be read, and they suffice if and only if they are all shown or are all that is left |
| `RateWanted.LeastDecides` | src/rate.rs:1619-1645 | feeding a whole file from any point on, summary included, the next frame is ready exactly when a least number of bytes, counted from the file's frames, were fed |
| `RateWanted.WantedIsLower` | src/rate.rs:1593-1598 | once the summary is known the bytes wanted are never more than that number, and equal it exactly when the missing frames are all shown or the last |
| `RateWanted.FirstWantedIsLower` | src/rate.rs:1432-1443 | before, they are a lower bound exactly when the frames needed beyond the look-ahead make up for the bytes held: if nothing is held and the file has as many TUs as the look-ahead, and without hidden frames only then |
| `RateWanted.OneFrameAsksTooMuch` | src/rate.rs:1432-1443 | for a file of one frame and any longer look-ahead more is asked for than the frame waits for |
| `RateWindow.RCState.Leave` | src/rate.rs:1127-1148 | the first live entry leaves and every statistic is again a fold of the rest |
| `RateWindow.RCState.UpdateState` | src/rate.rs:1125-1157 | after a frame is encoded or dropped the window has moved on by one frame, and ready means the head is current if and only if it is not the case that no frames are left and some were dropped; a trial encode changes nothing |
| `RateWindow.RCState.EndFrame` | src/rate.rs:1125-1157 | the head leaves and the next buffered frame becomes current |
| `Cdef.SentinelContributesNothing` | src/cdef.rs:146-159 | the padding value constrains to zero against any pixel up to 12 bits at every strength and damping in use |
| `Cdef.ConstrainBetween` | src/cdef.rs:146-159 | a constrained difference lies between zero and the difference |
| `Cdef.ConstrainTapers` | src/cdef.rs:146-159 | a small difference passes whole, a large one not at all, and between them by as much less as the damped difference is larger, for either sign |
| `Cdef.AdjustStrengthWeakens` | src/cdef.rs:315-322 | adjusting by variance never strengthens |
| `Cdef.AdjustStrengthGrows` | src/cdef.rs:315-322 | the adjusted strength grows with the variance, from a quarter at the least to all of it from 2^18 |
| `Cdef.PadIntoTmp16` | src/cdef.rs:161-194 | copies exactly the available pixels, leaving the padding value elsewhere |
| `Cdef.AddTap` | src/cdef.rs:198-298 | adding a padded tap is adding it if available and skipping it if not, in sum, minimum and maximum |
| `Cdef.FilterPixel` | src/cdef.rs:198-298 | a pixel filtered with padding is the pixel filtered by skipping unavailable taps |
| `Cdef.FilterBlock` | src/cdef.rs:198-298 | so is every pixel of a block, at every edge combination and bit depth |
| `Cdef.SumsRange` | src/cdef.rs:198-298 | minimum and maximum stay within any bounds on the centre and the available taps |
| `Cdef.OutputBetween` | src/cdef.rs:198-298 | so does the output pixel |
| `Cdef.FlatUnchanged` | src/cdef.rs:198-298 | a pixel equal to all its available taps is unchanged |
| `Cdef.DirectionsGoRound` | src/cdef.rs:242-251 | the far taps of the eight directions go round half the square two pixels away, and each near tap is halfway |
| `Cdef.QuarterTurn` | src/cdef.rs:242-263 | four directions further is a quarter turn, so the secondary taps form a cross |
| `Cdef.Weights` | src/cdef.rs:236-241 | all weights add up to 24, half of it primary, and fall to a half with distance, primary ones at even strengths only |
| `CdefReference.SumIsWorded` | src/cdef.rs:257-290 | the taps added one after the other give the sum the AV1 specification words over its tables |
| `CdefReference.SumsExtent` | src/cdef.rs:265-290 | the running minimum and maximum are those of the centre and the available taps, and are attained |
| `CdefReference.PixelIsWorded` | src/cdef.rs:291-296 | the pixel moves by a sixteenth of that sum, rounded to nearest with halves away from zero, within that extent |
| `HexagonSearch.Overlap` | src/me.rs:1022-1025 | after a move three of the six neighbours are the old centre and two old neighbours |
| `HexagonSearch.NeighboursAfterMove` | src/me.rs:1055-1137 | testing the other three is enough: none of all six then beats the better of before and now |
| `HexagonSearch.Search` | src/me.rs:1055-1137 | ends for any cost function, never returns a worse cost; when the hexagon stage ends nothing on the hexagon around it beats the centre, and the result is the centre or a vector of the 3x3 square around it that nothing on that square beats |
| `RdoLoop.PotentialFalls` | src/rdo.rs:2169-2173 | an improvement of one unit's recorded cost, or its first visit, lowers the potential of all units |
| `RdoLoop.DecideUnit` | src/rdo.rs:2606-2740 | the unit keeps the best filter seen in any pass so far, and a changed choice means a first visit or a strictly lower cost |
| `RdoLoop.DecideRestoration` | src/rdo.rs:2572-2746 | the change flag is set exactly when some unit's filter changed |
| `RdoLoop.DecideCdef` | src/rdo.rs:2372-2571 | every superblock gets the first of its cheapest indices; the flag is set exactly when one changed |
| `RdoLoop.Decide` | src/rdo.rs:2364-2746 | the decision loop ends for every cost oracle with non-negative integer costs; each unit's filter is then the best of all passes, each index the first cheapest of the last CDEF search, and one of the two searches has just left everything as it was |

## Left out

- Context modelling, symbol selection and default tables: tables and the order in which they are used are parameters.
- `write_golomb` and `add_bits_frac`: an unbounded code of literals, and a counter that only `tell` reads.
- Backtraces and desynchronisation debugging.
- The generic `WriterBase<S>` is modelled as three classes, one per storage backend.
- Subexp.WriteQuniform: n from 2^31 up, where `1 << l` overflows in the source.
- Subexp.WriteSubexp: n from 2^31 up or k above 30, where 32-bit sums of the source overflow.
- HeaderBits.BitWriter.WriteSubexpfin: n from 0x8000 up or k above 14, where the 16-bit sums of the source may wrap; I/O errors of the bit sink.
- LfQueue.TileQueue.CodeEntry: the symbols of a restoration unit or CDEF index are given functions of superblock, plane and unit, not of the adaptive tables.
- LfQueue.TileQueue.Done: that the decisions themselves would come out the same at another time; in the source they also depend on what was encoded before.
- LfQueue.TileQueue.Decide: what the decision computes; RdoLoop treats that part on its own.
- Deblocking levels per block, segment and reference, transform sizes and skip flags: a map from edges to filter size and level.
- DeblockTally.AddSegment: which segments `sse_plane` visits; `sse_h_edge` looks sizes up as if for vertical edges, so totals are stated for the segments it is given.
- DeblockTally.AddLine: the 64-bit tallies are unbounded integers.
- Planes are two-dimensional arrays or sequences of rows, not strided buffers with offsets.
- `wiener_stripe_filter`, the floating-point solver of `sgrproj_solve` and its sums; the solver's estimate is a parameter.
- Assembly versions, feature detection, threads and profiling.
- The single-pass controller, quantizer selection, and the fixed-point exponentials: bexp_q24 is a parameter.
- `RCState` is modelled as two classes, `RateWindow.RCState` with a ring of frame metrics and `RateWhole.WholeState` without one.
- RateWindow.RCState.TwopassIn: feeding this way after frames were fed as single packets under a summary without intra frames.
- RateWindow.RCState.ParseFrameDataPacket: a call while part of a summary is held; and single packets where there is no ring, which simply become current.
- RateStream.RunSteps: runs with dropped frames, after which readiness can be wrong.
- RateWindow.RCState.UpdateState: the reservoir and the scale filters; only the second pass's window is modelled.
- RatePass1.Pass1State.UpdateState: the estimate of the log scale is a parameter; the scale filters.
- RatePass1.Pass1State.SummaryIsAccepted: more than 2^31 - 1 frames, which takes dropped ones; sums that overflow wrap, as they do where overflow is not checked.
- Cdef: direction search, skip conditions and the choice of strengths.
- HexagonSearch.Search: costs come from a given function, in place of block matching; the uneven multi-hexagon stages around it.
- RdoLoop.Decide: costs are non-negative integers given per pass, unit and choice, in place of floating-point rate and distortion; superblocks and units that are skipped outright.
- Obu and header syntax other than the codes above, the C interface, speed settings and lookahead.
