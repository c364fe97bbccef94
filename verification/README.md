# Verified models of the designer, the mail and the session clock

This project models, in Dafny, the parts of the platform where a silent mistake is expensive, and
proves what the code promises about them. The centre is the QR encoder that prints on posters and
certificates; around it stand the cache key of a render, the session clock, the sign-up rate
limiter, the mail row overlay and the geometry of the designer and the avatar crop.

`dafny verify dfyconfig.toml` checks everything. Loops and classes of the source are methods and
classes here, each proved against a function that says what it computes; the lemmas then say what
that function is worth.

## What is proved

**QR encoder** (`packages/designer-runtime/src/qr.ts`, ISO/IEC 18004:2015). `QrEncoder.EncodeQr`
is the end-to-end theorem: whatever it returns, the reader of `QrReader.dfy`, which takes its
format strings, mask pictures and block counts from the standard's tables, not the encoder's, and is given
nothing but the square of modules, gets the level, the mask and the bytes back; the version is the smallest
that fits and the mask the first of least penalty. It rests on:

- `GaloisField.dfy`: the reference field is polynomial multiplication over GF(2) with long division
  by 0x11d; the tables of the source compute it, because x has order 255.
- `PolynomialDivision.dfy`, `ReedSolomon.dfy`: the shift register divides by the generator, and what it
  leaves makes the block vanish at the roots; and, by the Vandermonde argument, up to half as many
  damaged words as there are error-correction words can be corrected in only one way.
- `Capacity.dfy`, `BitStream.dfy`, `Interleaving.dfy`: the words of a message, and back.
- `SymbolLayout.dfy`, `FormatWords.dfy`, `MaskPictures.dfy`, `FunctionPictures.dfy`, `SymbolPicture.dfy`, `Grid.dfy`: the picture of a symbol,
  defined module by module, and the writes to the two arrays that leave it; the zigzag is a bijection
  onto the free modules and they hold every bit.
- `Penalty.dfy`: the mask penalty as written.

The reader also reads damaged symbols (`QrReader.DamagedSymbolReads`), which is what the error
correction is printed for, with the damage counted in words or, in `DamagedModules.dfy`, in modules;
a reader that takes both copies of the format reads with any six of their thirty modules wrong.

**Cache key** (`fingerprint.ts`): `Fingerprint.dfy` proves the text unambiguous, and order-blind
exactly where it should be; `JsonText.dfy` reads it as JSON.

**Session clock** (`session-status.ts`): `SessionClock.dfy`. The stored-window form agrees with the
days at every instant exactly when no day runs on past the end of a later day that is followed by a
gap. The comments at lines 250 and 254 speak of an end plus two hours; the constant at line 213 is
eight hours, and the model follows the constant.

**Rate limiter** (`anti-spam.ts`): `RateLimiter.dfy`. The map with its sweep answers as an unbounded
log would, on any set of addresses, if and only if none of them is another one followed by `|` and
anything: `LikeTheLogIff`.

**Mail rows** (`layout.ts`): `MailRows.dfy`. A malformed overlay cannot lose a block, unless two
blocks share an id that it names. `raw.layout in ROW_LAYOUTS` at line 45 also finds the names that
every object inherits; the model has them, and they are harmless.

**Layers** (`arrange.ts`): `LayerStacking.dfy` and `LayerSpacing.dfy`. The reorder is one step, and
undone by its opposite, exactly when the two neighbours' `z` are equal or no third layer of either
`z` stands on the wrong side of them in the document (`CleanSwap`). The comment at lines 91-96
says that only the moved layer's `z` changes unless the two are equal; the code also gives the neighbour
the moved layer's (`StepWrites`).

**Presets, geometry, crop** (`presets.ts`, `geometry.ts`, `crop-geometry.ts`): `Presets.dfy`,
`SafeArea.dfy`, `Geometry.dfy`, `CropGeometry.dfy`. A proportional layer composed inside the safe box
derives inside it before rounding. After rounding it crosses an end edge, by one pixel, exactly when it
is flush with that end and scales to a size ending in a half, which the source frame decides. So the
comment at lines 318-323, that only layers too large are reported, is not quite true; nor does it hold on
the block axis, where nothing pulls a layer inside (`FixedFallsOff`). `ReportedIff` says exactly when any
visible layer, of any mode and wherever it stands, is reported, and `FixedReportedIff` what that comes
to for a fixed layer that would fit.

`Lists.dfy`, `Outcomes.dfy`, `Bytes.dfy` and `Frames.dfy` hold what several of these share.

## Model

| member | source | states |
|---|---|---|
| `QrEncoder.EncodeQr` | packages/designer-runtime/src/qr.ts:368-401 | The matrix is the symbol of the smallest version that fits and of the first mask of least penalty, and the reader, which has the standard's tables and is given only the square of modules, gets back exactly the level, the mask and the bytes; a refusal happens exactly when none of versions 1-10 fits, that is, when the bytes are more than version 10 holds by the standard's table. |
| `QrEncoder.ChooseVersion` | packages/designer-runtime/src/qr.ts:370-380 | 0 exactly when nothing fits, else the smallest version that does. |
| `QrEncoder.TooLong` | packages/designer-runtime/src/qr.ts:370-380 | No version fits exactly when there are more bytes than version 10 holds at that level. |
| `QrEncoder.ChooseMask` | packages/designer-runtime/src/qr.ts:385-399 | The first of the eight masks with the least penalty, and its symbol. |
| `QrEncoder.DrawSymbol` | packages/designer-runtime/src/qr.ts:388-391 | Function patterns, data and format, written in that order, leave module by module the picture defined independently of the writes. |
| `QrReader.SymbolReads` | packages/designer-runtime/src/qr.ts:368-401 | A symbol of any message, version, level and mask reads as that level, that mask and those bytes. |
| `QrReader.DamagedSymbolReads` | packages/designer-runtime/src/qr.ts:21-39 | Still true of a damaged symbol with at most three wrong modules in the format strip and, in every block, at most half as many wrong words as it has error-correction words. |
| `DamagedModules.DamagedModulesRead` | packages/designer-runtime/src/qr.ts:281-298 | The same counted on the print: at most three modules of the strip look different, and at most half as many of the modules of each block as it has error-correction words. |
| `DamagedModules.BlockDamage` | packages/designer-runtime/src/qr.ts:281-298 | A block reads wrong in no more words than it has modules that look different. |
| `DamagedModules.BothCopiesRead` | packages/designer-runtime/src/qr.ts:264-266 | A reader that takes both strips together reads the message with any six of their thirty modules wrong and the blocks damaged as above; with the second copy intact, any six of the first. |
| `DamagedModules.OtherCopyReads` | packages/designer-runtime/src/qr.ts:264-266 | The second copy alone gives the format, with at most three of its modules wrong, whatever became of the first. |
| `QrReader.SymbolsDiffer` | packages/designer-runtime/src/qr.ts:368-401 | Two different (bytes, level, mask) never give the same symbol of a version. |
| `QrReader.StripsSpellFormat` | packages/designer-runtime/src/qr.ts:251-267 | Both strips of a symbol, read lowest bit first, spell the published format word of its level and mask. |
| `QrReader.CornersSpellVersion` | packages/designer-runtime/src/qr.ts:235-245 | Both corners of a symbol from version 7 on hold the eighteen published bits, three to a line. |
| `FunctionPictures.FinderCorners` | packages/designer-runtime/src/qr.ts:189-202 | The three corners of every symbol show the finder of section 6.3 with its separator. |
| `FunctionPictures.AlignmentSquares` | packages/designer-runtime/src/qr.ts:210-217 | Every alignment pattern off the finders shows the standard's square. |
| `FunctionPictures.TimingLines` | packages/designer-runtime/src/qr.ts:204-208 | Both timing lines alternate from finder to finder, through the alignment patterns on them. |
| `FunctionPictures.DarkModule` | packages/designer-runtime/src/qr.ts:232-233 | The dark module is dark. |
| `QrReader.SymbolWords` | packages/designer-runtime/src/qr.ts:281-298 | Walking the same zigzag with the mask taken off reads every codeword back. |
| `MaskPictures.MaskIsPicture` | packages/designer-runtime/src/qr.ts:270-279 | At every module the eight formulas agree with the pictures of the mask patterns in section 7.8.2 of ISO/IEC 18004:2015, which are what the reader takes the mask off with. |
| `QrReader.CodewordsFill` | packages/designer-runtime/src/qr.ts:95-177 | The codewords of a message number exactly the words of the version. |
| `GaloisField.MulIsShiftAdd` | packages/designer-runtime/src/qr.ts:43-58 | Product of polynomials over GF(2) reduced modulo 0x11d equals shift-and-add with the "times x" step. |
| `GaloisField.MulDistributes` | packages/designer-runtime/src/qr.ts:58 | Multiplication distributes over XOR on both sides. |
| `GaloisField.MulCommutes` | packages/designer-runtime/src/qr.ts:58 | Multiplication is commutative. |
| `GaloisField.MulAssociates` | packages/designer-runtime/src/qr.ts:58 | Multiplication is associative. |
| `GaloisField.NoZeroDivisors` | packages/designer-runtime/src/qr.ts:58 | A product is zero only if a factor is. |
| `GaloisField.MulAlphas` | packages/designer-runtime/src/qr.ts:58 | x^i times x^j is x^((i + j) mod 255). |
| `GaloisField.OrderOfX` | packages/designer-runtime/src/qr.ts:44-56 | 2 has order exactly 255, from 255 = 3 * 5 * 17. |
| `GaloisField.AlphaInjective` | packages/designer-runtime/src/qr.ts:49-55 | The 255 powers listed in EXP are distinct. |
| `GaloisField.LogExists` | packages/designer-runtime/src/qr.ts:46-51 | Every nonzero byte is a power of x, so LOG is total on them. |
| `GaloisField.Tables.constructor` | packages/designer-runtime/src/qr.ts:45-56 | The two loops fill EXP with the powers of x (all 512 of them) and LOG with its inverse. |
| `GaloisField.Tables.Times` | packages/designer-runtime/src/qr.ts:58 | The table-driven product is the field's. |
| `ReedSolomon.GeneratorMonic` | packages/designer-runtime/src/qr.ts:70-81 | The generator has leading coefficient 1 and degree + 1 coefficients. |
| `ReedSolomon.GeneratorIsProduct` | packages/designer-runtime/src/qr.ts:70-81 | Its value anywhere is the product of the values of (x + EXP[i]). |
| `ReedSolomon.GeneratorRoots` | packages/designer-runtime/src/qr.ts:70-81 | It vanishes at x^0 ... x^(degree - 1). |
| `ReedSolomon.GeneratorOfSeven` | packages/designer-runtime/src/qr.ts:64-68 | The generator for seven words is the published row. |
| `ReedSolomon.SyndromesVanish` | packages/designer-runtime/src/qr.ts:83-93 | Any data followed by its error-correction words vanishes at x^0 ... x^(count - 1). |
| `PolynomialDivision.RegisterDivides` | packages/designer-runtime/src/qr.ts:83-93 | For every data block and every count: the data shifted by `count` places is a multiple of the generator plus the error-correction words, coefficient by coefficient. |
| `PolynomialDivision.EcIsRemainder` | packages/designer-runtime/src/qr.ts:83-93 | No other quotient and remainder of those lengths recompose it: the register computes the remainder of the division. |
| `PolynomialDivision.EvalProduct` | packages/designer-runtime/src/qr.ts:83-93 | The product in that identity is the product of polynomials: its value is the product of the values, at every point. |
| `ReedSolomon.EcIsUnique` | packages/designer-runtime/src/qr.ts:83-93 | In a block of at most 255 words they are also the only `count` words that make it vanish at the roots. |
| `ReedSolomon.FewTermsDoNotVanish` | packages/designer-runtime/src/qr.ts:21-34 | A nonzero polynomial with n terms of degree below 255 does not vanish at n consecutive powers. |
| `ReedSolomon.MinimumDistance` | packages/designer-runtime/src/qr.ts:21-34 | Two different codewords of at most 255 words differ in more than `count` places. |
| `ReedSolomon.CorrectsErrors` | packages/designer-runtime/src/qr.ts:21-34 | A word with at most count / 2 damaged places has one codeword that near: the one printed. |
| `ReedSolomon.ComputeGenerator` | packages/designer-runtime/src/qr.ts:70-81 | The source's double loop, with its reversal, computes the generator. |
| `ReedSolomon.MultiplyByRoot` | packages/designer-runtime/src/qr.ts:73-77 | One round of it multiplies by (x + e). |
| `ReedSolomon.EcCodewords` | packages/designer-runtime/src/qr.ts:83-93 | The shift register computes the specified error-correction words. |
| `Capacity.RowsFillTheSymbol` | packages/designer-runtime/src/qr.ts:95-123 | Every row of SPECS fills its version exactly and has blocks short enough for the code. |
| `Capacity.RowsAreEvenSplits` | packages/designer-runtime/src/qr.ts:98-115 | Every row of SPECS is what the standard's two columns, error-correction words and blocks, determine: the even split of what the version leaves for data, longer blocks last. |
| `BitStream.BytesThatFit` | packages/designer-runtime/src/qr.ts:370-376 | What fits a version and level is what the standard's table of byte capacities says, for all forty. |
| `BitStream.ToBitsAt` | packages/designer-runtime/src/qr.ts:128-130 | Bit k of a field is the shift the source takes. |
| `BitStream.DataWords` | packages/designer-runtime/src/qr.ts:133-159 | Exactly the data capacity of words come out. |
| `BitStream.CountFits` | packages/designer-runtime/src/qr.ts:137-140 | The count of anything that fits, fits its 8 or 16 bits. |
| `BitStream.HeaderIsPrefix` | packages/designer-runtime/src/qr.ts:136-141 | The words start with mode, count and payload. |
| `BitStream.ReadDataWords` | packages/designer-runtime/src/qr.ts:133-159 | Reading mode, count and payload back gives the bytes, for every length that fits. |
| `BitStream.DataWordsInjective` | packages/designer-runtime/src/qr.ts:133-159 | Two messages never share their data words. |
| `BitStream.Bits.Push` | packages/designer-runtime/src/qr.ts:126-131 | Appends exactly the low bits of the value, highest first. |
| `BitStream.EncodeData` | packages/designer-runtime/src/qr.ts:133-159 | Succeeds exactly when the message fits, and then gives the specified words. |
| `BitStream.PushHeader` | packages/designer-runtime/src/qr.ts:135-141 | Pushes mode, count and payload. |
| `BitStream.Terminate` | packages/designer-runtime/src/qr.ts:143-147 | The terminator and the zero bits up to the byte. |
| `BitStream.GatherWords` | packages/designer-runtime/src/qr.ts:149-154 | Groups the bits into words. |
| `BitStream.Pad` | packages/designer-runtime/src/qr.ts:155-157 | Pads to the capacity with filler words that alternate 0xEC and 0x11, starting with 0xEC. |
| `Interleaving.DeinterleaveColumns` | packages/designer-runtime/src/qr.ts:172-175 | Reading by columns is invertible for any list of block lengths. |
| `Interleaving.ColumnsKeepWords` | packages/designer-runtime/src/qr.ts:172-175 | Nothing is lost or duplicated on the way, for any blocks. |
| `Interleaving.ReceiveInterleaved` | packages/designer-runtime/src/qr.ts:164-177 | A reader that knows the row of SPECS gets every block and its own error-correction words. |
| `Interleaving.InterleaveInvertible` | packages/designer-runtime/src/qr.ts:164-177 | Those blocks, joined, are the data words; each with its own words is a codeword; and the length is the row's total. |
| `Interleaving.InterleaveKeepsWords` | packages/designer-runtime/src/qr.ts:172-174 | The data words are permuted. |
| `Interleaving.SpreadApart` | packages/designer-runtime/src/qr.ts:161-174 | Two words of a block are apart by one word of every block that reaches the later one, for each round between them. |
| `Interleaving.BurstSpreads` | packages/designer-runtime/src/qr.ts:161-163 | A burst of damage lands across the blocks: of blocks of `width` or `width + 1` words none loses more than one word in as many as there are blocks, rounded up, and a longer block one more. |
| `Interleaving.SymbolBurst` | packages/designer-runtime/src/qr.ts:161-177 | So in every symbol: a burst in its data words, or in its error-correction words, costs no block more than that. |
| `Interleaving.SplitBlocks` | packages/designer-runtime/src/qr.ts:166-169 | The two loops cut the words into the row's blocks. |
| `Interleaving.TakeColumns` | packages/designer-runtime/src/qr.ts:172-175 | The nested loop reads the blocks by columns. |
| `Interleaving.Interleave` | packages/designer-runtime/src/qr.ts:164-177 | The whole routine computes the specified interleaving. |
| `SymbolLayout.ColumnSixReserved` | packages/designer-runtime/src/qr.ts:204-208 | The column the walk skips is reserved from top to bottom. |
| `SymbolLayout.AlignmentCentres` | packages/designer-runtime/src/qr.ts:117-118 | The alignment centres run from the timing line to seven from the far edge, with one halfway from version 7 on. |
| `SymbolLayout.ZigzagVisitsOnce` | packages/designer-runtime/src/qr.ts:281-298 | The walk visits every unreserved module of the grid exactly once and no other. |
| `SymbolLayout.ReservedCovered` | packages/designer-runtime/src/qr.ts:188-246 | Every reserved module lies in the listed rectangles. |
| `SymbolLayout.FreeCellsBound` | packages/designer-runtime/src/qr.ts:188-246 | So at least size squared less their area are free. |
| `SymbolLayout.RoomForEveryBit` | packages/designer-runtime/src/qr.ts:281-298 | The free modules hold every bit of every codeword, in each version. |
| `FormatWords.RoundsAreDivision` | packages/designer-runtime/src/qr.ts:251-255 | The ten rounds leave the remainder by the format generator. |
| `FormatWords.FormatIsPublished` | packages/designer-runtime/src/qr.ts:248-255 | The format word of each level and mask is the string that annex C of ISO/IEC 18004:2015 prints for it. |
| `FormatWords.CodeWeight` | packages/designer-runtime/src/qr.ts:248-255 | No codeword but zero is lighter than seven. |
| `FormatWords.FormatDistance` | packages/designer-runtime/src/qr.ts:248-255 | Any two of the thirty-two format strings differ in at least seven places. |
| `FormatWords.DamagedFormatReads` | packages/designer-runtime/src/qr.ts:251-267 | Any number of copies of a format string, with at most three wrong modules a copy on average, however they fall, reads as what was printed. |
| `FormatWords.VersionWordIsCodeword` | packages/designer-runtime/src/qr.ts:235-239 | The version word starts with the version and is divisible by its generator. |
| `FormatWords.VersionValues` | packages/designer-runtime/src/qr.ts:235-239 | The version words are those of annex D. |
| `SymbolPicture.FormatStrips` | packages/designer-runtime/src/qr.ts:257-267 | Both copies lie on reserved modules clear of the dark module, and each module holds one bit of one copy. |
| `SymbolPicture.StripsAreCopies` | packages/designer-runtime/src/qr.ts:257-267 | Every strip module is the place of its bit in one of the two copies. |
| `SymbolPicture.DataBitIsShift` | packages/designer-runtime/src/qr.ts:290-291 | The data bit is the shift and mask of the source, zero past the end. |
| `Grids.Grid.constructor` | packages/designer-runtime/src/qr.ts:180 | A grid of light, unreserved modules. |
| `Grids.Grid.Set` | packages/designer-runtime/src/qr.ts:183-186 | Writes and reserves exactly one module. |
| `Grids.Grid.SetData` | packages/designer-runtime/src/qr.ts:183-186 | Writes exactly one module, and reserves none. |
| `Grids.Grid.ToMatrix` | packages/designer-runtime/src/qr.ts:400 | The picture row by row. |
| `Grids.PlaceFinder` | packages/designer-runtime/src/qr.ts:189-199 | One finder with its separator, clipped to the grid, and nothing else. |
| `Grids.PlaceTiming` | packages/designer-runtime/src/qr.ts:204-208 | The two timing patterns, and nothing else. |
| `Grids.PlaceAlignments` | packages/designer-runtime/src/qr.ts:210-217 | Exactly the alignment patterns that do not sit on a finder. |
| `Grids.ReserveFormat` | packages/designer-runtime/src/qr.ts:219-233 | Reserves the strips and sets the dark module, and nothing else. |
| `Grids.ComputeVersionWord` | packages/designer-runtime/src/qr.ts:237-239 | The version word. |
| `Grids.PlaceVersion` | packages/designer-runtime/src/qr.ts:235-245 | Both copies of the version word from version 7 on, and nothing else. |
| `Grids.PlaceFunctionPatterns` | packages/designer-runtime/src/qr.ts:188-246 | Leaves the picture's function modules, reserved, and nothing else reserved. |
| `Grids.ComputeFormatWord` | packages/designer-runtime/src/qr.ts:252-255 | The format word, which is the published one. |
| `Grids.PlaceFormat` | packages/designer-runtime/src/qr.ts:251-268 | Writes only the strips, not the dark module, equal in both copies, and changes no reservation. |
| `Grids.PlaceData` | packages/designer-runtime/src/qr.ts:281-298 | Fills the free modules in zigzag order with masked bits and changes no reserved module. |
| `Grids.PlacePair` | packages/designer-runtime/src/qr.ts:284-295 | One pair of columns of that walk. |
| `Grids.PlaceModule` | packages/designer-runtime/src/qr.ts:288-293 | One module of that walk. |
| `Penalties.ScoreLine` | packages/designer-runtime/src/qr.ts:308-317 | The run loop scores every maximal run of five or more as its length less two. |
| `Penalties.ScoreSquares` | packages/designer-runtime/src/qr.ts:321-326 | Three for every single-coloured two-by-two square. |
| `Penalties.ScoreFinders` | packages/designer-runtime/src/qr.ts:328-335 | Forty for every finder-like window in a row or column. |
| `Penalties.CountDark` | packages/designer-runtime/src/qr.ts:337-338 | The number of dark modules. |
| `Penalties.FinderLikeRuns` | packages/designer-runtime/src/qr.ts:328-329 | A window matches exactly when it starts dark and its runs are 1:1:3:1:1 and four light modules. |
| `Penalties.ImbalanceSteps` | packages/designer-runtime/src/qr.ts:337-339 | Ten for each whole step of five by which the dark percentage, as a fraction, is away from fifty. |
| `Penalties.ScorePenalty` | packages/designer-runtime/src/qr.ts:302-341 | The four rules together. |
| `Fingerprint.EscapeUnique` | packages/designer-runtime/src/fingerprint.ts:46 | Quoted text can be read off the front of what follows it in one way. |
| `Fingerprint.PrefixFree` | packages/designer-runtime/src/fingerprint.ts:45-54 | No value's text is a proper prefix of another's, in any context a value stands in. |
| `Fingerprint.EqualTextMeansSame` | packages/designer-runtime/src/fingerprint.ts:45-54 | Equal texts come from values equal up to key order and undefined-valued keys. |
| `Fingerprint.SameMeansEqualText` | packages/designer-runtime/src/fingerprint.ts:45-54 | Such values have equal texts. |
| `Fingerprint.CanonicalDecides` | packages/designer-runtime/src/fingerprint.ts:41-54 | Both directions, for all value trees. |
| `Fingerprint.SortTextsDecides` | packages/designer-runtime/src/fingerprint.ts:67 | Sorting forgets the order of the fonts and nothing else. |
| `Fingerprint.FingerprintDecides` | packages/designer-runtime/src/fingerprint.ts:56-69 | Two sources share a text exactly when template, document, bindings and the multiset of font hashes agree. |
| `JsonText.SourceText` | packages/designer-runtime/src/fingerprint.ts:60-68 | The whole text, key by key, in its order. |
| `JsonText.KeysAscend` | packages/designer-runtime/src/fingerprint.ts:48-53 | An object's text is its defined properties, each once, with strictly ascending keys. |
| `JsonText.LessIs` | packages/designer-runtime/src/fingerprint.ts:52 | The order of keys is by the first code unit that differs, a shorter key first. |
| `JsonText.EscapeReads` | packages/designer-runtime/src/fingerprint.ts:46 | A JSON reader gets every string back from its quoted text. |
| `JsonText.EscapeIsPlain` | packages/designer-runtime/src/fingerprint.ts:46 | Quoted text has no control character and no lone surrogate. |
| `JsonText.UnitIs` | packages/designer-runtime/src/fingerprint.ts:46 | Nothing else is escaped, and the short escapes are used where there is one. |
| `JsonText.DigitsRead` | packages/designer-runtime/src/fingerprint.ts:46 | The digits of a number are read back as it, without leading zeros. |
| `SessionClock.BetweenDays` | src/lib/session-status.ts:238-247 | The index search finds a gap exactly when there is one. |
| `SessionClock.ChronologicalSorts` | src/lib/session-status.ts:226-231 | The days are sorted and are the same days. |
| `SessionClock.ChronologicalOrder` | src/lib/session-status.ts:226-231 | By start, a missing one as 0, and then by id. |
| `SessionClock.OrderIsIrrelevant` | src/lib/session-status.ts:279-303 | Neither resolved day nor check-in day depends on the list's order. |
| `SessionClock.WindowsDisjoint` | src/lib/session-status.ts:249-263 | The capped windows of two days never overlap. |
| `SessionClock.TakingIsLastBegun` | src/lib/session-status.ts:279-289 | A day that takes attendance has begun and no later one has. |
| `SessionClock.ResolveIsLastBegun` | src/lib/session-status.ts:297-303 | Looking for the check-in day first changes nothing: the resolved day is the last begun, else the first. |
| `SessionClock.ResolveDayIsCurrent` | src/lib/session-status.ts:297-303 | None only for no days; otherwise the latest day begun, the later id of two that start together, or the first if none has, over the unsorted list. |
| `SessionClock.ResolveDayAdvances` | src/lib/session-status.ts:297-303 | As time passes the resolved day never moves back. |
| `SessionClock.CheckInDayIs` | src/lib/session-status.ts:213-289 | A day takes attendance exactly while it is the latest begun and its end is less than 28 800 000 ms past. |
| `SessionClock.PhaseAgreesIff` | src/lib/session-status.ts:164-247 | A published session's phase agrees with its days at every instant if and only if no day straddles a gap. |
| `SessionClock.DisjointDaysAgree` | src/lib/session-status.ts:164-247 | So disjoint days always agree: live while a day is, ended once all are, open otherwise. |
| `SessionClock.StraddlingDisagrees` | src/lib/session-status.ts:233-247 | A straddling day gives an instant of disagreement. |
| `SessionClock.EndedIsAbsorbing` | src/lib/session-status.ts:164-207 | Once ended, a session stays ended. |
| `SessionClock.ClockMattersTo` | src/lib/session-status.ts:164-207 | Which states read as what at every instant, and which two look at the clock. |
| `SessionClock.EndsWhen` | src/lib/session-status.ts:312-318 | A running or published session has ended exactly from its end on, or from its duration after its start if it has no end. |
| `SessionClock.NoStartStaysOpen` | src/lib/session-status.ts:203-207 | A published session with no start is open, and none is live before its start. |
| `SessionClock.DayPhaseIs` | src/lib/session-status.ts:218-224 | A day is live from its start up to its end. |
| `SessionClock.StaleRowReadsTheSame` | src/lib/session-status.ts:126-142 | From its first start a published row reads as an in-progress one. |
| `RateLimiter.SweepChangesNothing` | src/lib/anti-spam.ts:65-71 | The sweep changes no recent time, now or later. |
| `RateLimiter.RecentTwice` | src/lib/anti-spam.ts:72 | Filtering early changes nothing later. |
| `RateLimiter.AfterStandsFor` | src/lib/anti-spam.ts:78-86 | One call keeps the map standing for the unbounded log. |
| `RateLimiter.KeysApart` | src/lib/anti-spam.ts:83-84 | Unless one of the two addresses is the other followed by a bar, equal pair keys are equal pairs, and a pair key is no address. |
| `RateLimiter.RunStandsFor` | src/lib/anti-spam.ts:62-86 | After every run with a clock that never goes back the map stands for the log. |
| `RateLimiter.RunAnswersLikeTheLog` | src/lib/anti-spam.ts:78-86 | Over every such run, if no address is another one followed by a bar, the verdict is the unbounded log's. |
| `RateLimiter.LikeTheLogIff` | src/lib/anti-spam.ts:78-86 | For a set of addresses: every verdict of every such run on them is the log's if and only if none is another one followed by a bar and anything. |
| `RateLimiter.SixthOfPairOr51stOfIp` | src/lib/anti-spam.ts:58-60 | That verdict in numbers: refused exactly from the sixth attempt of a pair, or the fifty-first of an address, within 600 000 ms. |
| `RateLimiter.SweepBoundsTheMap` | src/lib/anti-spam.ts:61-71 | Past ten thousand keys a call leaves none without an attempt within ten minutes; up to there nothing is dropped. |
| `RateLimiter.BarConfusesKeys` | src/lib/anti-spam.ts:83 | A call from an address that equals a pair key, and four from the pair, make the verdicts differ. |
| `RateLimiter.Limiter.constructor` | src/lib/anti-spam.ts:62 | An empty map stands for the empty log at any clock. |
| `RateLimiter.Limiter.Record` | src/lib/anti-spam.ts:64-76 | Sweeps, filters and pushes on the map as specified. |
| `RateLimiter.Limiter.IsRateLimited` | src/lib/anti-spam.ts:78-86 | Answers as specified, and like the log, which the object keeps beside the map. |
| `MailRows.ReadRows` | packages/mail-runtime/src/layout.ts:29-69 | The loops over rows, columns and ids compute the specified rows. |
| `MailRows.ColumnsAsWritten` | packages/mail-runtime/src/layout.ts:45-63 | A record with as many lists as its layout has columns gives one row: its own id and layout, and in each column the known blocks that column is the first to name; none at all if nothing is in them, unless empty rows are kept. |
| `MailRows.SinglesOtherwise` | packages/mail-runtime/src/layout.ts:49-57 | Any other record gives one row for each known block it is the first to name, in its order. |
| `MailRows.RowWidths` | packages/mail-runtime/src/blocks.ts:191-196 | Every row with columns has as many as its layout: two for `1/1` and `1/2`, three for `1/1/1`, never one for `1`; an inherited name counts its function's parameters. |
| `MailRows.LookupIsLast` | packages/mail-runtime/src/layout.ts:32 | Of two blocks with one id the map keeps the last. |
| `MailRows.RowsFlatten` | packages/mail-runtime/src/layout.ts:42-68 | For any overlay: the known named blocks in the order first named, then the others in document order. |
| `MailRows.RowsKeepBlocksIff` | packages/mail-runtime/src/layout.ts:10-12 | The rows are a permutation of the blocks if and only if no two blocks share an id that the overlay names. |
| `MailRows.TwinsLoseABlock` | packages/mail-runtime/src/layout.ts:32-40 | If two do, the multiset of blocks changes. |
| `MailRows.OneColumnRowsAreFlat` | packages/mail-runtime/src/layout.ts:49-57 | An overlay of one-column rows in document order is the flat document. |
| `LayerStacking.OrderIs` | packages/designer-runtime/src/arrange.ts:83-88 | The stable sort is the only ascending list of all layers. |
| `LayerStacking.UnderIsLess` | packages/designer-runtime/src/arrange.ts:79-88 | One layer is painted under another exactly by `z`, ties by place in the document. |
| `LayerStacking.PaintedByZ` | packages/designer-runtime/src/arrange.ts:83-88 | In the document's terms: the smaller `z` first, a missing one as 0, the earlier of two that are equal. |
| `LayerStacking.ReorderLayer` | packages/designer-runtime/src/arrange.ts:98-132 | The routine computes the specified edit. |
| `LayerStacking.SameLayers` | packages/designer-runtime/src/arrange.ts:90-97 | Every move keeps the same layers under the same ids; only `z` may differ. |
| `LayerStacking.StepIs` | packages/designer-runtime/src/arrange.ts:113-131 | Forward on a layer is backward on the one above it, and is one exchange in the paint order if and only if their `z` are equal or the swap is clean. |
| `LayerStacking.StepWrites` | packages/designer-runtime/src/arrange.ts:116-131 | All that a step writes: equal `z`, the two change places in the document; unequal, each takes the other's number. |
| `LayerStacking.NoStep` | packages/designer-runtime/src/arrange.ts:101-116 | Already at that end, or unknown: the document itself. |
| `LayerStacking.FrontAndBack` | packages/designer-runtime/src/arrange.ts:105-112 | Only the named layer is written, and it alone moves to the end of the paint order. |
| `LayerStacking.NumberPastTheOthers` | packages/designer-runtime/src/arrange.ts:105-112 | Its new number is one past the greatest, or before the least, of all the others'. |
| `LayerStacking.ForwardThenBackward` | packages/designer-runtime/src/arrange.ts:113-131 | Forward then backward restores the paint order if and only if forward was such a step, or the layer is alone. |
| `LayerStacking.SwapIsClean` | packages/designer-runtime/src/arrange.ts:119-124 | Exchanging the `z` of two neighbours exchanges their places when the swap is clean. |
| `LayerStacking.OnlyCleanSwaps` | packages/designer-runtime/src/arrange.ts:119-124 | And only then. |
| `LayerSpacing.ArrangedAre` | packages/designer-runtime/src/arrange.ts:184-188 | The members are arranged by x on the inline axis and by y on the block axis, ties in document order, each once. |
| `LayerSpacing.Place` | packages/designer-runtime/src/arrange.ts:195-200 | The cursor loop places each member at the nearest whole pixel to its ideal start. |
| `LayerSpacing.DistributeLayers` | packages/designer-runtime/src/arrange.ts:183-209 | The whole routine, with fewer than three members a no-op. |
| `LayerSpacing.LastIdeal` | packages/designer-runtime/src/arrange.ts:189-200 | The cursor telescopes to the last layer's start. |
| `LayerSpacing.EqualGaps` | packages/designer-runtime/src/arrange.ts:177-209 | First and last stay, every gap on the page (from x + w to the next x inline, from y + h to the next y on the block axis) is within a pixel of the average of the gaps there were, and none is an overlap unless that average is. |
| `LayerSpacing.NothingElseMoves` | packages/designer-runtime/src/arrange.ts:201-208 | Only members change, inline only their x and on the block axis only their y, and the paint order does not. |
| `Presets.BoxesHaveRoom` | packages/designer-runtime/src/presets.ts:120-152 | Safe boxes are never empty, at any document size. |
| `Presets.SafeBoxes` | packages/designer-runtime/src/presets.ts:53-129 | The nine safe boxes in pixels, five millimetres of paper being 59. |
| `Presets.InsetsInProportion` | packages/designer-runtime/src/presets.ts:145-152 | A page of no preset's size keeps 80 of 1080 and 80 of 1350 as its insets, to the nearest pixel. |
| `Presets.AtHome` | packages/designer-runtime/src/presets.ts:132-152 | A document at a preset's size has that preset's safe box. |
| `Presets.PlaceFrame` | packages/designer-runtime/src/presets.ts:224-274 | The branches over locals compute the specified frame and factor. |
| `Presets.DeriveLayer` | packages/designer-runtime/src/presets.ts:211-295 | The whole patch of a layer: frame, declared crop, refitted type. |
| `Presets.CropAloneMovesNothing` | packages/designer-runtime/src/presets.ts:176-187 | Declaring only a crop for a preset keeps the rest of what `default` set, and leaks to no other preset. |
| `Presets.DeclaredWins` | packages/designer-runtime/src/presets.ts:176-187 | Anchor, inline anchor, scale and crop, each for itself: where the layer declares one for the page, what its default says of it makes no difference to what is derived. |
| `Presets.DefaultFills` | packages/designer-runtime/src/presets.ts:176-187 | Where it does not, the default is used, and entries for other pages are not. |
| `Presets.NothingDeclared` | packages/designer-runtime/src/presets.ts:182-185 | Declared nowhere: block start, inline start, proportional. |
| `Presets.KindsChange` | packages/designer-runtime/src/presets.ts:276-293 | Besides the frame only the crop of an image and the type of text can change, and a crop declared for the page is the image's. |
| `Presets.TextFollowsFrame` | packages/designer-runtime/src/presets.ts:284-293 | Type is refitted by the factor of the frame, and not when that is one, or on a whole page. |
| `Presets.TypeRefits` | packages/designer-runtime/src/presets.ts:284-293 | Type comes out a whole number of pixels, at least one, within half a pixel of its scale, and its smallest size no larger. |
| `Presets.ProportionalStaysInside` | packages/designer-runtime/src/presets.ts:204-272 | A proportional layer inside the source box lands inside the target box, for every preset pair and anchor pair, before rounding; the pull to the box never acts. |
| `Presets.InlineEdgesHold` | packages/designer-runtime/src/presets.ts:244-260 | However it scales, a layer starts inside the inline edges, and ends inside exactly when it is no wider than the box. |
| `Presets.SpacingScales` | packages/designer-runtime/src/presets.ts:204-207 | The spacing of two layers scales with them. |
| `Presets.ShrinkIsLargest` | packages/designer-runtime/src/presets.ts:204-207 | The factor is the largest at which the source box fits the target box. |
| `Presets.ShapeKept` | packages/designer-runtime/src/presets.ts:238-242 | A proportional layer keeps its shape. |
| `Presets.HomeKeepsLayers` | packages/designer-runtime/src/presets.ts:199-295 | At its own preset a proportional or fixed layer inside the box, not centred there and without a crop for it, stays as it is. |
| `SafeArea.RoundedCrosses` | packages/designer-runtime/src/presets.ts:274 | Rounding a frame inside the box keeps its start edges, and passes an end edge, by one pixel, exactly when it is flush with it and its size ends in a half. |
| `SafeArea.CrossesExactly` | packages/designer-runtime/src/presets.ts:204-274 | For a proportional layer inside the source box that is decided by its source frame: flush with the source end, still flush after scaling, and scaled to a size ending in a half. |
| `SafeArea.ReportSays` | packages/designer-runtime/src/presets.ts:318-342 | Every report is of a visible layer, with exactly the edges its derived frame crosses; if that layer is proportional and inside the source box, whatever the others are, those are end edges, by one pixel, under that condition. |
| `SafeArea.ReportedWhen` | packages/designer-runtime/src/presets.ts:318-342 | Such a layer is reported if and only if that condition holds on one of the two axes. |
| `SafeArea.SafeAreaViolations` | packages/designer-runtime/src/presets.ts:325-342 | The loop gives, in order, exactly the reports. |
| `SafeArea.OnePixelHappens` | packages/designer-runtime/src/presets.ts:274 | A layer for which that pixel is reported. |
| `SafeArea.EdgesCrossed` | packages/designer-runtime/src/presets.ts:224-274 | After rounding, in every mode but `page` and for every anchor: the inline start is never crossed, and each other edge is crossed exactly under a condition on the source frame. |
| `SafeArea.ReportedIff` | packages/designer-runtime/src/presets.ts:318-342 | A visible layer of any mode, anywhere on the page, is reported if and only if one of those conditions holds of it, or it is a `page` layer. |
| `SafeArea.FixedReportedIff` | packages/designer-runtime/src/presets.ts:227-272 | A fixed layer no larger than the target box is reported if and only if it is not centred and, measured from the edge it is held at, starts before it or ends further from it than the box is high. |
| `SafeArea.BlockEdgesHold` | packages/designer-runtime/src/presets.ts:262-272 | Before rounding, when each block edge is kept, for every anchor: nothing pulls a layer to the box on this axis. |
| `SafeArea.FixedFallsOff` | packages/designer-runtime/src/presets.ts:227-272 | A small fixed layer, inside the safe box of a story, that is derived off the page of the Open Graph card. |
| `SafeArea.PageAlwaysReported` | packages/designer-runtime/src/presets.ts:214-222 | A `page` layer is always reported at all four edges, by the insets. |
| `Geometry.NormaliseRotation` | packages/designer-runtime/src/geometry.ts:49-56 | The reductions compute the one congruent angle in (-180, 180]. |
| `Geometry.NormalIsCanonical` | packages/designer-runtime/src/geometry.ts:49-56 | Two angles have the same form exactly when they are congruent. |
| `Geometry.LogicalAgain` | packages/designer-runtime/src/geometry.ts:58-78 | To the page and back is the same frame, key for key, exactly when it is a stored one. |
| `Geometry.FromInlineStart` | packages/designer-runtime/src/geometry.ts:58-62 | `x` is measured from the side of the page where lines begin. |
| `Geometry.PhysicalAgain` | packages/designer-runtime/src/geometry.ts:58-78 | From a whole-pixel box and back is the same box. |
| `Geometry.LogicalIsNear` | packages/designer-runtime/src/geometry.ts:64-78 | What is stored is within half a pixel, on the page. |
| `Geometry.MoveFrame` | packages/designer-runtime/src/geometry.ts:82-85 | A stored frame keeps its size and rotation and moves on the page by the delta, rounded. |
| `Geometry.MovedOnPage` | packages/designer-runtime/src/geometry.ts:80-85 | In both directions the frame moves by the rounded delta on the page, and keeps size and rotation. |
| `Geometry.MovesAdd` | packages/designer-runtime/src/geometry.ts:80-85 | Whole-pixel moves add up, and cancel. |
| `Geometry.ResizeFrame` | packages/designer-runtime/src/geometry.ts:95-126 | The routine computes the specified box. |
| `Geometry.FreeSize` | packages/designer-runtime/src/geometry.ts:97-107 | The new width and height, handle by handle, from the pointer's movement turned into the layer's axes. |
| `Geometry.SidesStay` | packages/designer-runtime/src/geometry.ts:115-125 | On a layer that is not turned: which sides and middles stay, handle by handle, with or without proportion and minimum. |
| `Geometry.QuarterTurned` | packages/designer-runtime/src/geometry.ts:97-125 | On one turned by a quarter: pulling its right side, which points down, down makes it wider and leaves its upper end. |
| `Geometry.OppositeStays` | packages/designer-runtime/src/geometry.ts:115-125 | The corner or side opposite the handle stays, for every handle, rotation, proportion and minimum. |
| `Geometry.OppositeSideStays` | packages/designer-runtime/src/geometry.ts:87-125 | A side handle keeps every point of the opposite side where it was, whatever the minimum, and its length exactly when it is not shorter than the minimum. |
| `Geometry.CornerFollowsPointer` | packages/designer-runtime/src/geometry.ts:101-125 | A free corner goes exactly where the pointer takes it. |
| `Geometry.RatioHeld` | packages/designer-runtime/src/geometry.ts:108-114 | A held proportion is exact, and the larger of the two growths. |
| `Geometry.ResizeStored` | packages/designer-runtime/src/geometry.ts:95-126 | The stored frame is within half a pixel of the box whose opposite point stayed. |
| `CropGeometry.SettledIff` | src/components/avatar-picker/crop-geometry.ts:40-46 | With zoom in range, the clamp has nothing to do exactly when the saved square lies in the image. |
| `CropGeometry.ClampSettles` | src/components/avatar-picker/crop-geometry.ts:40-46 | Clamping is idempotent and always leaves the square in the image. |
| `CropGeometry.SavedSquareIsInside` | src/components/avatar-picker/crop-geometry.ts:49-78 | After any run of gestures and stage resizes the saved square lies wholly in the image. |
| `CropGeometry.SavedSide` | src/components/avatar-picker/crop-geometry.ts:68-78 | After any run its side is the image's shorter side divided by the zoom, between all of it and a third. |
| `CropGeometry.UnderIs` | src/components/avatar-picker/crop-geometry.ts:68-73 | The point under a place on the stage, by where the image's corner lies on the stage. |
| `CropGeometry.UnderCentre` | src/components/avatar-picker/crop-geometry.ts:68-78 | The image point under the circle's centre is the middle of the saved square. |
| `CropGeometry.TapCentres` | src/components/avatar-picker/crop-geometry.ts:60-66 | A tap brings its point to the centre exactly when the square around it lies in the image. |
| `CropGeometry.PanFollows` | src/components/avatar-picker/crop-geometry.ts:55-58 | A drag takes what is under a point to where the pointer went, exactly when the square there lies in the image. |
| `CropGeometry.ZoomKeepsPoint` | src/components/avatar-picker/crop-geometry.ts:48-53 | A zoom keeps the point under the centre exactly when it is not clamped. |
| `CropGeometry.ZoomInKeepsPoint` | src/components/avatar-picker/crop-geometry.ts:48-53 | Zooming in never is, and zooming back gives the same view. |

## Left out

- `qrSvg` and every other text assembly (HTML, CSS, mail): no deep property.
- `TextEncoder`: `EncodeQr` takes the bytes of the text.
- Table lookups past the end of `EXP`, which need more than 512 error-correction words: modelled as adding nothing; SPECS never asks for more than 30.
- Penalties.ScorePenalty: is the code's penalty, not that of section 7.8.3 of ISO/IEC 18004:2015; the code scores the finder-like pattern only when four light modules follow it (lines 328-335).
- Penalties.ScorePenalty: takes the dark share as an exact fraction, where the code divides in floating point.
- The reader's block correction is stated as "the codeword that near", not as a decoding algorithm; the version is read from the size, not from the version word.
- `canonical` on NaN, negative zero, fractions, array holes and values with `toJSON`: values are null, undefined, booleans, integers, strings, arrays and objects. Integers stand for safe ones; from 1e21 on `JSON.stringify` writes an exponent.
- Overlapping days of one session, the subject of SessionClock.StraddlingDisagrees, are refused by the constraint `session_days_no_overlap` (supabase/migrations/0100_session_days.sql:102); the database is not part of this model.
- Parsing of instants and time zones: an instant is a number of milliseconds, absent where the source's parse is null.
- `localeCompare`: a day's id is its rank in that order; distinct ids have distinct ranks.
- Day labels, seat states, permissions and the rest of `session-status.ts`: case tables.
- The signed form tokens of `anti-spam.ts`: HMAC is not part of this model.
- Fractional frames: frames are whole pixels, as every tool of the designer writes them.
- LayerStacking.ReorderLayer: requires distinct ids, which validate.ts:121 enforces; with a repeated id the code's `Math.max` may run over nothing.
- LayerSpacing.DistributeLayers: requires distinct ids, for the same reason.
- Alignment, grouping, fitting and tap-to-place in `arrange.ts`: one expression per coordinate.
- The snapping guides, the marquee and `rotateFromPointer`: no property that spans them.
- Geometry.ResizeFrame: takes the cosine and sine as numbers; `CornerFollowsPointer` asks that their squares add up to one.
- Floating-point rounding in `presets.ts`, `geometry.ts`, `arrange.ts` and `crop-geometry.ts`: arithmetic is over the reals, and `Math.round` is floor(x + 1/2).
- CropGeometry.SavedSquareIsInside: image sides and circle are positive; a stage of size zero is not modelled.
- Font measurement, the DOM, React state, Supabase, Next routing, the worker and its queue: not part of this model.
