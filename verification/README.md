# Warehouse verification

A Dafny model of the parts of the AYROVI warehouse system that carry the most logic, and proofs
about it. Verify everything with `dafny verify dfyconfig.toml`.

## What is modelled

**The QR label codec** (`backend/public/assets/Encoder-BiNMo8QT.js`), writer and reader.
Bottom up:

- `GaloisField`, `Polynomials`: an abstract field of 256 elements and its polynomials;
  `FieldTables`, `Bytes`, `GenericGF`, `GenericGFPoly`: the tables and coefficient lists of the
  program refine them.
- `ReedSolomonCode`, `SystematicCode`, `KeyEquation`, `EuclideanAlgorithm`, `ErrorCorrection`,
  `Acceptance`: the code as functions, and the theorem that floor(t/2) errors are repaired;
  `ReedSolomonEncoder`, `ReedSolomonDecoder`: the classes that compute these functions in place.
- `BitStrings`, `Words`, `BitArray`, `BitMatrix`, `BitSource`: bits packed in words and bytes
  against plain sequences. A word is a sequence of 32 booleans; the shifts and masks of the
  program are functions on it, and `WordNumbers` has the arithmetic behind the masks.
- `Segments`, `SegmentWriting`, `SegmentReading`, `Versions`: modes, count fields, terminator, and
  the choice of the version in two passes; `SegmentLayout` and `VersionTable` hold the bits and the
  table against the standard.
- `Blocks`, `Encoder`, `DataBlocks`, `BlockCoding`: splitting and interleaving, both ways.
- `Placement`, `MatrixUtil`, `BitMatrixParser`, `PlacementRoundTrip`: the zig-zag walk and the
  masks; `Layout`, `FunctionPatterns`, `PatternWriting`, `SymbolBuilding`, `AlignmentTables`,
  `DataCellCount`: the reserved cells of both sides and the room they leave; `PatternColours`: their
  colours by rings and lines.
- `BchCodes`, `FormatInformation`, `VersionInformation`, `InformationReading`, `NearestWords`: the
  two small codes.
- `QrRoundTrip`, `QrEncoder`, `Decoder`: a symbol as a whole. `IsSymbol` says what the writer
  draws, `ReadSymbol` what the reader makes of a matrix, and `TextSurvives`,
  `DamagedTextSurvives` and `PrintedTextReads` connect them; `QrLoop` writes and reads a text with
  the field of the QR code.

Beside it, `AztecStuffing` has the bit stuffing of Aztec codes, and `CheckDigits` and
`LinearChecksums` the check digits of the linear codes, with known ones in `ChecksumExamples`.

**The continuous scanner** (`backend/public/assets/ContinuousScanner-C4iHk8mU.js`):
`ScannerStates` is the transition table over runs of events, `Consensus` the vote over frames of
recognised text, `Extraction` the codes of one frame, `ScanSession` the duplicate filter and the
session that joins all of them, one frame being one step.

**Two changes of the whole database.** `Schema` has the 58 tables and 96 foreign keys,
`ReferentialDb` what a deletion does under RESTRICT, CASCADE and SET NULL, `ResetPlan` and
`ResetResult` the clean-up of test data, `ResetRoles` and `ResetReport` its outcome by role names
and tables. `Catalogue` has the permissions and roles, `AccessMatrix` the same read by the
permission, `Seeding` what a seed run does to them, `PermissionStore` the loops that do it, and
`PermissionColumns` when the unique pair of resource and action stops them.

Sequences, sets and maps stand for the arrays and tables the program replaces as a whole; classes
and arrays for those it updates in place. A throw is a `None`, a false result or a constructor
of its own.

## Where the program and its documentation differ

- The seed calls itself safe to run many times (`backend/prisma/seed.ts:4`). It is for the seeded
  roles. A role of another name that held the legacy `locations.manage` gains `locations.view` in
  the first run and loses it in the second (`SecondRunIdle`, `SecondRunDiffers`); one that holds
  `locations.view` itself loses it at once (`ViewIsLost`), although the comment maps that key to
  itself (`backend/prisma/seed.ts:409`).
- The inbound role is said to match receiving, putaway and sorting (`backend/prisma/seed.ts:242`).
  It lacks picking, which sorting has, and adds a view of the stations (`InboundIsNotSorting`).
- The clean-up lists users with an administrative role as preserved; those with an operational role
  as well are deleted (`AdminsPreserved`, `ManagerIsDeleted`).
- The administrator of the warehouse is described as administering the operations
  (`backend/prisma/seed.ts:190`). The role executes the five flows and views none of them, since it
  names keys to manage them that are not catalogued (`AdministratorExecutesUnseen`).
- Two floor roles of the seed, batch and temporary storage, are not operational for the clean-up;
  users with only these are left (`BatchWorkersStay`).
- The report of the clean-up does not list four tables that are emptied with the receiving sessions
  (`TablesAfter`).
- The Reed-Solomon decoder can accept a word that is not of the code; `AcceptedIsCodeword` says
  exactly when it does not, and `RepairedExactly` what a caller can rely on.
- The version recommended is not always the smallest with room; `RecommendedIsFirst` says exactly
  when it is.
- A text that fits version 40 is refused as too big when it leaves fewer than seven bits to spare
  (`NothingRecommended`, `RefusedExactly`); 7089 digits at level L, the most the standard allows,
  are an example (`RefusedThoughItFits`).
- The check digit of UPC and EAN is exact up to 56 digits, not beyond (`AcceptedExactly`).

## Model

| member | source | states |
|---|---|---|
| `FieldTables.TablesMakeField` | backend/public/assets/Encoder-BiNMo8QT.js:4 | If x runs through all nonzero elements, the tables with exclusive or as sum are a field: associative, distributive, with inverses, exponents adding up. |
| `FieldTables.PowersOnto` | backend/public/assets/Encoder-BiNMo8QT.js:4 | Every nonzero element is a power of x, so the logarithm table has an entry for each. |
| `FieldTables.MulIsRepeat` | backend/public/assets/Encoder-BiNMo8QT.js:4 | Multiplying by the i-th power through the tables is doubling i times modulo the primitive polynomial. |
| `FieldTables.QrGenerates` | backend/public/assets/Encoder-BiNMo8QT.js:4 | For the primitive 285 of the QR code, x does run through all 255 nonzero elements. |
| `FieldTables.DataMatrixGenerates` | backend/public/assets/Encoder-BiNMo8QT.js:4 | So does it for the primitive 301 of Data Matrix and eight-bit Aztec codes. |
| `GenericField.PowerTable` | backend/public/assets/Encoder-BiNMo8QT.js:4 | The loop of the constructor fills entry i with the i-th doubling of 1. |
| `GenericField.LogarithmTable` | backend/public/assets/Encoder-BiNMo8QT.js:4 | The second loop inverts the power table on all nonzero elements. |
| `GenericField.GenericGF.constructor` | backend/public/assets/Encoder-BiNMo8QT.js:4 | The tables built are those of the field for that primitive. |
| `GenericField.GenericGF.Exp` | backend/public/assets/Encoder-BiNMo8QT.js:4 | Powers are those of the field. |
| `GenericField.GenericGF.Log` | backend/public/assets/Encoder-BiNMo8QT.js:4 | The logarithm is the exponent below 255 whose power is the element. |
| `GenericField.GenericGF.Inverse` | backend/public/assets/Encoder-BiNMo8QT.js:4 | The inverse is the field inverse of a nonzero element. |
| `GenericField.GenericGF.Multiply` | backend/public/assets/Encoder-BiNMo8QT.js:4 | Adding logarithms modulo 255, zero apart, is the field product. |
| `Polynomials.EvalAdd` | backend/public/assets/Encoder-BiNMo8QT.js:4 | Evaluation respects sums. |
| `Polynomials.EvalMul` | backend/public/assets/Encoder-BiNMo8QT.js:4 | Evaluation respects products. |
| `Polynomials.RootsDivide` | backend/public/assets/Encoder-BiNMo8QT.js:4 | A polynomial vanishing at distinct points is a multiple of their product: the algebra under the generator. |
| `Polynomials.RootsBounded` | backend/public/assets/Encoder-BiNMo8QT.js:4 | A nonzero polynomial has no more roots than its degree: the algebra under the root search. |
| `GenericPolynomials.Construct` | backend/public/assets/Encoder-BiNMo8QT.js:4 | Leading zeros are stripped and the polynomial stays. |
| `GenericPolynomials.BuildMonomial` | backend/public/assets/Encoder-BiNMo8QT.js:4 | The list is that of c x^degree. |
| `GenericPolynomials.EvaluateAt` | backend/public/assets/Encoder-BiNMo8QT.js:4 | Horner with its two short cuts is evaluation. |
| `GenericPolynomials.AddOrSubtract` | backend/public/assets/Encoder-BiNMo8QT.js:4 | The padded sum of two lists is the polynomial sum. |
| `GenericPolynomials.Multiply` | backend/public/assets/Encoder-BiNMo8QT.js:4 | The double loop is the polynomial product. |
| `GenericPolynomials.MultiplyScalar` | backend/public/assets/Encoder-BiNMo8QT.js:4 | The scaled list is the scaled polynomial. |
| `GenericPolynomials.MultiplyByMonomial` | backend/public/assets/Encoder-BiNMo8QT.js:4 | Scaling and shifting is multiplying by c x^degree. |
| `GenericPolynomials.DivideBy` | backend/public/assets/Encoder-BiNMo8QT.js:4 | The division loop ends and returns quotient and remainder of the specification. |
| `ReedSolomonCode.DivideCorrect` | backend/public/assets/Encoder-BiNMo8QT.js:4 | quotient * divisor + remainder is the dividend, and the remainder is zero or of smaller degree. |
| `ReedSolomonCode.DivideUnique` | backend/public/assets/Encoder-BiNMo8QT.js:4 | No other quotient and remainder satisfy that. |
| `ReedSolomonCode.GeneratorLen` | backend/public/assets/Encoder-BiNMo8QT.js:8 | The generator of t check symbols is monic of degree t. |
| `SystematicCode.GeneratorRoots` | backend/public/assets/Encoder-BiNMo8QT.js:8 | The generator vanishes at exp(i + base) for all i < t. |
| `SystematicCode.EncodedIsCodeword` | backend/public/assets/Encoder-BiNMo8QT.js:8 | Data followed by its check symbols has only zero syndromes. |
| `SystematicCode.CheckSymbolsUnique` | backend/public/assets/Encoder-BiNMo8QT.js:8 | For at most 255 check symbols, they are the only ones that complete the data to a word of the code. |
| `ReedSolomonEncoding.ReedSolomonEncoder.BuildGenerator` | backend/public/assets/Encoder-BiNMo8QT.js:8 | The cached generator returned is the product of the t linear factors; the cache only grows. |
| `ReedSolomonEncoding.ReedSolomonEncoder.Encode` | backend/public/assets/Encoder-BiNMo8QT.js:8 | The data prefix stays, the check symbols follow it in place; it fails exactly without check symbols or without data, touching nothing. |
| `ReedSolomonCode.SyndromesDecide` | backend/public/assets/Encoder-BiNMo8QT.js:4 | All syndromes are zero exactly for words of the code. |
| `KeyEquation.KeyEquationHolds` | backend/public/assets/Encoder-BiNMo8QT.js:4 | For every list of errors: locator * syndromes is the evaluator modulo x^t. |
| `KeyEquation.LocatorRoots` | backend/public/assets/Encoder-BiNMo8QT.js:4 | The locator vanishes exactly at the inverses of the error locations. |
| `KeyEquation.MagnitudeCorrect` | backend/public/assets/Encoder-BiNMo8QT.js:4 | The decoder formula, with its extra factor for base 1, gives back the error value. |
| `EuclideanAlgorithm.Turn` | backend/public/assets/Encoder-BiNMo8QT.js:4 | One turn of the loop keeps r = u x^T + t S and the unit determinant of the cofactors. |
| `EuclideanAlgorithm.LoopMeetsKeyEquation` | backend/public/assets/Encoder-BiNMo8QT.js:4 | Whatever was received, a returned pair satisfies sigma * S = omega modulo x^T, sigma is 1 at zero, and omega is below half degree. |
| `EuclideanAlgorithm.LoopFindsErrors` | backend/public/assets/Encoder-BiNMo8QT.js:4 | With 1 to T/2 errors the loop stops with exactly their locator and evaluator. |
| `ErrorCorrection.LocationsFound` | backend/public/assets/Encoder-BiNMo8QT.js:4 | The search over all elements yields exactly the error locations. |
| `ErrorCorrection.DecodeRestores` | backend/public/assets/Encoder-BiNMo8QT.js:4 | A word that differs from a codeword in at most t/2 places is repaired to exactly that codeword, for words of up to 255 symbols and every t. |
| `ErrorCorrection.DecodeKeepsCodewords` | backend/public/assets/Encoder-BiNMo8QT.js:4 | A word of the code is left unchanged. |
| `Acceptance.AcceptedIsCodeword` | backend/public/assets/Encoder-BiNMo8QT.js:4 | A word the decoder accepts is a word of the code if and only if the evaluator is short enough for the locator. |
| `Acceptance.AcceptedWrongly` | backend/public/assets/Encoder-BiNMo8QT.js:4 | For every t from 2 on and every length from t to 255, a word with nonzero syndromes that is accepted unchanged: the root search does not fail on a constant locator. |
| `Acceptance.AcceptedIsNear` | backend/public/assets/Encoder-BiNMo8QT.js:4 | Whatever was received, an accepted word differs from it in at most half as many places as there are check symbols, rounded up. |
| `Acceptance.RepairedExactly` | backend/public/assets/Encoder-BiNMo8QT.js:4 | For an even number of check symbols and up to 255 symbols: the decoder repairs a word to a word of the code if and only if one lies within half that number of places. |
| `ReedSolomonDecoding.ReedSolomonDecoder.ComputeSyndromes` | backend/public/assets/Encoder-BiNMo8QT.js:4 | The syndromes in the order the decoder stores them, and whether all are zero. |
| `ReedSolomonDecoding.ReedSolomonDecoder.RunEuclideanAlgorithm` | backend/public/assets/Encoder-BiNMo8QT.js:4 | The loop with its three throws computes what the specification says. |
| `ReedSolomonDecoding.ReedSolomonDecoder.FindErrorLocations` | backend/public/assets/Encoder-BiNMo8QT.js:4 | Roots found in order, the short cut for one error included; it fails when their number is not the degree. |
| `ReedSolomonDecoding.ReedSolomonDecoder.FindErrorMagnitudes` | backend/public/assets/Encoder-BiNMo8QT.js:4 | The magnitudes of the specification. |
| `ReedSolomonDecoding.ReedSolomonDecoder.DecodeInPlace` | backend/public/assets/Encoder-BiNMo8QT.js:4 | The array ends as the specification of the decoder says, half repaired when a location is outside the word. |
| `BitStrings.ReadWritten` | backend/public/assets/Encoder-BiNMo8QT.js:6 | A number that fits its width is read back from its bits. |
| `BitStrings.GroupFlatten` | backend/public/assets/Encoder-BiNMo8QT.js:1 | Bytes written bit by bit are the bytes read in groups of eight. |
| `Words.NumberOfTrailingZeros` | backend/public/assets/Encoder-BiNMo8QT.js:1 | The halving tests find the lowest bit set, 32 for none. |
| `Words.NumberOfLeadingZeros` | backend/public/assets/Encoder-BiNMo8QT.js:1 | The halving tests count the zeros above the highest bit set. |
| `BitArrays.BitArray.Get` | backend/public/assets/Encoder-BiNMo8QT.js:1 | A bit of the sequence; past the end false. |
| `BitArrays.BitArray.Set` | backend/public/assets/Encoder-BiNMo8QT.js:1 | Exactly that bit becomes true. |
| `BitArrays.BitArray.Flip` | backend/public/assets/Encoder-BiNMo8QT.js:1 | Exactly that bit changes. |
| `BitArrays.BitArray.EnsureCapacity` | backend/public/assets/Encoder-BiNMo8QT.js:1 | Room grows, the sequence stays. |
| `BitArrays.BitArray.AppendBit` | backend/public/assets/Encoder-BiNMo8QT.js:1 | One bit more at the end. |
| `BitArrays.BitArray.AppendBits` | backend/public/assets/Encoder-BiNMo8QT.js:1 | The lowest n bits, the highest first; it fails for n > 32 and changes nothing. |
| `BitArrays.BitArray.AppendBitArray` | backend/public/assets/Encoder-BiNMo8QT.js:1 | The other sequence at the end. |
| `BitArrays.BitArray.Clear` | backend/public/assets/Encoder-BiNMo8QT.js:1 | All bits false, the size kept. |
| `BitArrays.BitArray.SetRange` | backend/public/assets/Encoder-BiNMo8QT.js:1 | Exactly the bits from start to end are set, across words; it fails exactly for a bad range. |
| `BitArrays.BitArray.IsRange` | backend/public/assets/Encoder-BiNMo8QT.js:1 | Whether all bits of the range have the value; it fails exactly for a bad range. |
| `BitArrays.BitArray.GetNextSet` | backend/public/assets/Encoder-BiNMo8QT.js:1 | The first set bit from a place on, or the size. |
| `BitArrays.BitArray.GetNextUnset` | backend/public/assets/Encoder-BiNMo8QT.js:1 | The first bit not set from a place on, or the size; padding bits do not mislead it. |
| `BitArrays.BitArray.XorWith` | backend/public/assets/Encoder-BiNMo8QT.js:1 | The bitwise sum; it fails exactly for different sizes. |
| `BitArrays.BitArray.ToBytes` | backend/public/assets/Encoder-BiNMo8QT.js:1 | Each byte is eight bits of the sequence, zeros past the end; the rest of the target stays. |
| `BitArrays.BitArray.Reverse` | backend/public/assets/Encoder-BiNMo8QT.js:1 | The sequence is turned around, through mirrored words and the shift across words. |
| `WordNumbers.RangeMaskNumber` | backend/public/assets/Encoder-BiNMo8QT.js:1 | The mask of bits f to u is the number (2 << u) - (1 << f) in 32-bit arithmetic with a sign, where 2 << 31 is zero. |
| `WordNumbers.RangeBelowNumber` | backend/public/assets/Encoder-BiNMo8QT.js:1 | The mask of the bits below f is the number (1 << f) - 1, also in 32-bit arithmetic. |
| `WordNumbers.GroupMaskNumbers` | backend/public/assets/Encoder-BiNMo8QT.js:1 | The five masks of the reversal are the hexadecimal constants of the program. |
| `WordNumbers.NumberInjective` | backend/public/assets/Encoder-BiNMo8QT.js:1 | A word is determined by its number. |
| `BitArrays.WordReversed` | backend/public/assets/Encoder-BiNMo8QT.js:1 | The five swaps by masks turn a word around. |
| `BitArrays.ReversedAt` | backend/public/assets/Encoder-BiNMo8QT.js:1 | The reversed sequence read from the far end. |
| `BitMatrices.BitMatrix.Get` | backend/public/assets/Encoder-BiNMo8QT.js:2 | The module at x, y. |
| `BitMatrices.BitMatrix.Set` | backend/public/assets/Encoder-BiNMo8QT.js:2 | Exactly that module becomes dark. |
| `BitMatrices.BitMatrix.Flip` | backend/public/assets/Encoder-BiNMo8QT.js:2 | Exactly that module changes. |
| `BitMatrices.BitMatrix.SetRegion` | backend/public/assets/Encoder-BiNMo8QT.js:2 | Exactly the modules of the rectangle become dark; it fails exactly for an empty or protruding one. |
| `BitMatrices.BitMatrix.GetRow` | backend/public/assets/Encoder-BiNMo8QT.js:2 | The array given, if long enough, and otherwise a new one holds the modules of the row, zeros behind them. |
| `BitMatrices.BitMatrix.SetRow` | backend/public/assets/Encoder-BiNMo8QT.js:2 | The row holds the bits of the array, the others stay. |
| `BitMatrices.BitMatrix.Rotate180` | backend/public/assets/Encoder-BiNMo8QT.js:2 | The module at (x, y) comes from (w-1-x, h-1-y), for even and odd heights. |
| `BitMatrices.TurnedTwice` | backend/public/assets/Encoder-BiNMo8QT.js:2 | Half a turn twice is nothing. |
| `BitSources.BitSource.ReadBits` | backend/public/assets/Encoder-BiNMo8QT.js:6 | The next n bits as a number, across bytes; it fails exactly outside 1 to 32 or past the end. |
| `BitSources.BitSource.Available` | backend/public/assets/Encoder-BiNMo8QT.js:6 | As many bits as were not read. |
| `Segments.ModeChosen` | backend/public/assets/Encoder-BiNMo8QT.js:18 | Numeric mode only for digits, alphanumeric mode only for its 45 characters. |
| `Segments.CodeInverse` | backend/public/assets/Encoder-BiNMo8QT.js:18 | The character table of the reader inverts the code table of the writer. |
| `Segments.CharacterInverse` | backend/public/assets/Encoder-BiNMo8QT.js:18 | And the code table inverts the character table. |
| `Segments.NumericRoundTrip` | backend/public/assets/Encoder-BiNMo8QT.js:6 | Digits packed in threes are unpacked, whatever follows. |
| `Segments.AlphanumericRoundTrip` | backend/public/assets/Encoder-BiNMo8QT.js:6 | Characters packed in pairs are unpacked, whatever follows. |
| `SegmentLayout.NumericCanonical` | backend/public/assets/Encoder-BiNMo8QT.js:6 | What the reader takes for digits are exactly the bits the writer gives these digits, and what follows. |
| `SegmentLayout.NumericRefusedExactly` | backend/public/assets/Encoder-BiNMo8QT.js:6 | The reader refuses a payload of digits if and only if no digits have these bits. |
| `SegmentLayout.AlphanumericCanonical` | backend/public/assets/Encoder-BiNMo8QT.js:6 | What the reader takes for characters are exactly the bits the writer gives these characters, and what follows. |
| `SegmentLayout.AlphanumericRefusedExactly` | backend/public/assets/Encoder-BiNMo8QT.js:6 | The reader refuses a payload of characters if and only if no characters have these bits. |
| `Segments.TerminateFills` | backend/public/assets/Encoder-BiNMo8QT.js:18 | Terminating succeeds exactly when the bits fit, ends at exactly 8 * capacity bits, keeps the bits and puts up to four zeros behind them. |
| `Segments.StopsAtTerminator` | backend/public/assets/Encoder-BiNMo8QT.js:6 | The reader stops at four zeros and at a terminator cut short by the end. |
| `Segments.SegmentRoundTrip` | backend/public/assets/Encoder-BiNMo8QT.js:6 | A numeric or alphanumeric text that fits is read back from mode, count, payload and terminator. |
| `Segments.PartsParsed` | backend/public/assets/Encoder-BiNMo8QT.js:6 | The segments of any list of digit or alphanumeric texts are taken off in turn, whatever was read before and whatever follows, and their texts are joined in order. |
| `Segments.PartsRead` | backend/public/assets/Encoder-BiNMo8QT.js:6 | Bits that hold such segments and a terminator, which their end may cut short, parse to the texts joined. |
| `SegmentLayout.OtherModes` | backend/public/assets/Encoder-BiNMo8QT.js:6 | Of the other mode indicators 0 ends the text, the seven of open kinds are recognised, and the six that do not exist are a format failure. |
| `SegmentLayout.ModeChosenExactly` | backend/public/assets/Encoder-BiNMo8QT.js:18 | Numeric mode for nonempty texts of the digits, alphanumeric mode for the other nonempty texts of the 45 characters, byte mode for all else. |
| `SegmentLayout.CharacterAt` | backend/public/assets/Encoder-BiNMo8QT.js:6 | The code of a character is its place in the 45-character alphabet written out. |
| `SegmentLayout.CountWidths` | backend/public/assets/Encoder-BiNMo8QT.js:6 | The widths of the count field are those of table 3 of ISO/IEC 18004 for all four modes and three ranges of versions. |
| `SegmentLayout.Filling` | backend/public/assets/Encoder-BiNMo8QT.js:18 | Behind the bits stand zeros to the end of the byte in which a four-bit terminator ends, or of the symbol, and then 0xEC and 0x11 in turn. |
| `SegmentLayout.DigitsExample` | backend/public/assets/Encoder-BiNMo8QT.js:18 | 01234567 in version 1 gets the bits of the worked example of section 7.4.3. |
| `SegmentLayout.CharactersExample` | backend/public/assets/Encoder-BiNMo8QT.js:18 | AC-42 in version 1 gets the bits of the worked example of section 7.4.4. |
| `SegmentWriting.AppendNumericBytes` | backend/public/assets/Encoder-BiNMo8QT.js:18 | The loop appends the packed digits of the specification. |
| `SegmentWriting.AppendAlphanumericBytes` | backend/public/assets/Encoder-BiNMo8QT.js:18 | The loop appends the packed characters; it fails on a character without a code. |
| `SegmentWriting.AppendLengthInfo` | backend/public/assets/Encoder-BiNMo8QT.js:18 | The count in the width of mode and version; it fails exactly when the count is too large. |
| `SegmentWriting.TerminateBits` | backend/public/assets/Encoder-BiNMo8QT.js:18 | Terminator, alignment and pad bytes are those of the specification; it fails exactly when the bits do not fit. |
| `SegmentReading.DecodeNumericSegment` | backend/public/assets/Encoder-BiNMo8QT.js:6 | The loop reads what the specification parses, or fails with it. |
| `SegmentReading.DecodeAlphanumericSegment` | backend/public/assets/Encoder-BiNMo8QT.js:6 | The loop reads what the specification parses, or fails with it. |
| `SegmentReading.DecodeSegments` | backend/public/assets/Encoder-BiNMo8QT.js:6 | The loop over segments yields the parse of the whole bit string; for any list of digit or alphanumeric segments with a terminator that is their texts joined. |
| `QrEncoder.DetermineMode` | backend/public/assets/Encoder-BiNMo8QT.js:18 | The mode chosen is that of the specification. |
| `Versions.RowsGrow` | backend/public/assets/Encoder-BiNMo8QT.js:6 | Capacities strictly increase with the version at every level. |
| `Versions.DataIsGroupData` | backend/public/assets/Encoder-BiNMo8QT.js:6 | In every row of the table the blocks hold the data codewords the writer counts, fill the version, have 7 to 30 check bytes and lengths that differ by at most one, and fit the code. |
| `VersionTable.TableDetermined` | backend/public/assets/Encoder-BiNMo8QT.js:6 | Every entry of the table follows from the check symbols per block and the number of blocks of table 9 of ISO/IEC 18004, and from the modules the symbol leaves for data. |
| `Versions.RecommendedFits` | backend/public/assets/Encoder-BiNMo8QT.js:18 | Whatever version the two passes recommend has room for the header, its own count field and the data. |
| `Versions.RecommendedIsFirst` | backend/public/assets/Encoder-BiNMo8QT.js:18 | The recommendation is the first version with room if and only if that one has seven bits to spare; texts for which nothing is recommended are included. |
| `Versions.NothingRecommended` | backend/public/assets/Encoder-BiNMo8QT.js:18 | Nothing is recommended if and only if version 40 has fewer than seven bits to spare, whether it has room or not. |
| `Versions.LargestHasRoom` | backend/public/assets/Encoder-BiNMo8QT.js:18 | What has room in any version, with its own count field, has room in version 40. |
| `Versions.NotAlwaysFirst` | backend/public/assets/Encoder-BiNMo8QT.js:18 | 25 alphanumeric characters fit version 1-L, yet version 2 is recommended. |
| `Versions.CountFits` | backend/public/assets/Encoder-BiNMo8QT.js:18 | A text whose bits fit never has a count too large for its field. |
| `QrEncoder.FindVersion` | backend/public/assets/Encoder-BiNMo8QT.js:18 | The first version in order for which the room test holds. |
| `Blocks.InterleavedAt` | backend/public/assets/Encoder-BiNMo8QT.js:18 | Every symbol of every block goes to the position the reader takes it from. |
| `Blocks.BlockRoundTrip` | backend/public/assets/Encoder-BiNMo8QT.js:6 | For any shape with at least one short block the reader recovers every block from the interleaved codewords. |
| `Blocks.OwnerPosition` | backend/public/assets/Encoder-BiNMo8QT.js:6 | Every position belongs to a symbol of a block that is put there. |
| `Blocks.PositionOwner` | backend/public/assets/Encoder-BiNMo8QT.js:6 | No two symbols share a position: every byte is moved exactly once. |
| `Blocks.DeinterleaveInterleave` | backend/public/assets/Encoder-BiNMo8QT.js:6 | Blocks read from any codewords, written again, are those codewords. |
| `BlockEncoding.SplitSums` | backend/public/assets/Encoder-BiNMo8QT.js:18 | The sums tested by the splitting agree when both divisions leave the same remainder, as they do for every version. |
| `BlockEncoding.GetNumDataBytesAndNumEcBytesForBlockId` | backend/public/assets/Encoder-BiNMo8QT.js:18 | Sizes of one block; it fails exactly for a block that does not exist, never on the mismatch tests. |
| `BlockEncoding.GenerateEcBytes` | backend/public/assets/Encoder-BiNMo8QT.js:18 | The check bytes are the check symbols of the code. |
| `BlockEncoding.InterleaveWithEcBytes` | backend/public/assets/Encoder-BiNMo8QT.js:18 | The bits appended are the interleaved blocks with their check bytes; it fails exactly when the bits are not as many bytes as announced, or when total and data bytes leave different rests by the number of blocks, which they do for no version; the size test never fails. |
| `DataBlocks.GetDataBlocks` | backend/public/assets/Encoder-BiNMo8QT.js:6 | The three loops fill the blocks the specification names, for any shape. |
| `BlockCoding.BlockRestored` | backend/public/assets/Encoder-BiNMo8QT.js:6 | One damaged block is repaired to its data and check bytes. |
| `BlockCoding.DataSurvives` | backend/public/assets/Encoder-BiNMo8QT.js:6 | Data survives interleaving and damage of up to half the check bytes in every block. |
| `BlockCoding.FewDamagedRepairable` | backend/public/assets/Encoder-BiNMo8QT.js:6 | Damage of up to half the check bytes of one block is repairable wherever it falls. |
| `Placement.WalkVisitsOnce` | backend/public/assets/Encoder-BiNMo8QT.js:18 | For every odd dimension the zig-zag walk visits every cell outside column 6 exactly once. |
| `Placement.WalkAt` | backend/public/assets/Encoder-BiNMo8QT.js:18 | Which cell comes when: up the two rightmost columns, down the next two, right before left in every row, column 6 left out. |
| `Placement.MasksAgree` | backend/public/assets/Encoder-BiNMo8QT.js:8 | All eight mask formulas of the writer equal those of the reader at every cell. |
| `Placement.SameReserved` | backend/public/assets/Encoder-BiNMo8QT.js:6 | Equal reserved cells mean the same data cells in the same order. |
| `MatrixWriting.EmbedDataBits` | backend/public/assets/Encoder-BiNMo8QT.js:18 | Bits and trailing zeros, masked, fill the free cells in the order of the walk; it fails exactly when bits are left over. |
| `MatrixWriting.ByteMatrix.Clear` | backend/public/assets/Encoder-BiNMo8QT.js:8 | All cells become the value. |
| `BitMatrixParser.UnmaskBitMatrix` | backend/public/assets/Encoder-BiNMo8QT.js:6 | Exactly the modules the mask selects are inverted. |
| `BitMatrixParser.ReadCodewords` | backend/public/assets/Encoder-BiNMo8QT.js:6 | The codewords under the free modules in the order of the walk; it fails exactly when their number is not that of the version. |
| `PlacementRoundTrip.ModuleRoundTrip` | backend/public/assets/Encoder-BiNMo8QT.js:6 | The mask put on is the mask taken off at every module. |
| `PlacementRoundTrip.PlacementRead` | backend/public/assets/Encoder-BiNMo8QT.js:6 | For every odd dimension, reserved set and mask the walk over the unmasked symbol finds the written bit at every module scanned right. |
| `PlacementRoundTrip.PlacementRoundTrip` | backend/public/assets/Encoder-BiNMo8QT.js:6 | From an undamaged symbol exactly the written bits are read, then zeros. |
| `FunctionPatterns.ReservedCellsAgree` | backend/public/assets/Encoder-BiNMo8QT.js:6 | For every dimension from 21: the finder squares with their separators, format areas, timing, dark module and version areas of the writer are the boxes and lines of the reader; the alignment patterns are taken to be the same for any list of centres, which `EmbedReserved` shows for the centres of the tables. |
| `FunctionPatterns.BuildFunctionPattern` | backend/public/assets/Encoder-BiNMo8QT.js:6 | The matrix marks finders, separators, format areas, timing, alignment and version areas, and nothing else. |
| `PatternWriting.EmbedPositionDetectionPatternsAndSeparators` | backend/public/assets/Encoder-BiNMo8QT.js:18 | On an empty symbol nothing is thrown, the three finders and six separators are drawn and nothing else; around each finder centre the rings 2 and 4 are light and the others dark. |
| `SymbolBuilding.EmbedTimingPatterns` | backend/public/assets/Encoder-BiNMo8QT.js:18 | Alternating modules on the free cells of row and column 6. |
| `SymbolBuilding.EmbedPositionAdjustmentPatterns` | backend/public/assets/Encoder-BiNMo8QT.js:18 | An alignment pattern around every pair of centres that is free, light exactly in the first ring around its centre, on empty cells only. |
| `SymbolBuilding.EmbedTypeInfo` | backend/public/assets/Encoder-BiNMo8QT.js:18 | The 15 bits at both copies, nothing else changed. |
| `SymbolBuilding.EmbedVersionInfo` | backend/public/assets/Encoder-BiNMo8QT.js:18 | The 18 bits at both copies from version 7 on, nothing else changed. |
| `SymbolBuilding.EmbedReserved` | backend/public/assets/Encoder-BiNMo8QT.js:18 | All patterns together: nothing is thrown, the cells taken are exactly those the reader marks, all function patterns have their colours in the end, and both information fields are legible. |
| `SymbolBuilding.EmbedBasicPatterns` | backend/public/assets/Encoder-BiNMo8QT.js:18 | Finders, separators, dark module, alignment and timing have their colours, none draws over another, and nothing else is taken. |
| `PatternColours.FinderRatio` | backend/public/assets/Encoder-BiNMo8QT.js:18 | In a coloured symbol row and column through a finder centre run 1:1:3:1:1, with light beside them. |
| `AlignmentTables.CentresByRule` | backend/public/assets/Encoder-BiNMo8QT.js:18 | The table of centres follows a rule: v / 7 + 2 of them, from column 6 to the seventh-last, with equal even gaps but for the first. |
| `AlignmentTables.TimingAlternates` | backend/public/assets/Encoder-BiNMo8QT.js:18 | In every version the coloured timing lines are dark in even and light in odd places without a break, through the alignment patterns as well. |
| `PatternColours.AlignmentClear` | backend/public/assets/Encoder-BiNMo8QT.js:18 | No alignment pattern touches a finder, a separator, the dark module or the format information. |
| `AlignmentTables.CentresGood` | backend/public/assets/Encoder-BiNMo8QT.js:18 | The centre tables of writer and reader agree for all 40 versions, and their rows suit drawing and marking. |
| `DataCellCount.AlignmentPieces` | backend/public/assets/Encoder-BiNMo8QT.js:6 | The alignment area as a disjoint union of boxes and strips. |
| `DataCellCount.RoomIsExact` | backend/public/assets/Encoder-BiNMo8QT.js:6 | Counted modules left for data hold the codewords of the version with fewer than eight over. |
| `DataCellCount.DataCellsOfVersion` | backend/public/assets/Encoder-BiNMo8QT.js:6 | The walk over the free modules of each of the 40 versions yields exactly its number of codewords. |
| `BchCodes.CalculateBchCode` | backend/public/assets/Encoder-BiNMo8QT.js:18 | The loop is division over two elements; it fails exactly for a zero polynomial. |
| `BchCodes.MsbIs` | backend/public/assets/Encoder-BiNMo8QT.js:18 | The degree found is the only number of its kind. |
| `FormatInformation.FormatComputed` | backend/public/assets/Encoder-BiNMo8QT.js:18 | The computed 15 bits are the masked word of the code for level and mask. |
| `FormatInformation.FormatTableRight` | backend/public/assets/Encoder-BiNMo8QT.js:6 | The 32 words the reader compares with are the words of the code, in order. |
| `QrRoundTrip.FormatWords` | backend/public/assets/Encoder-BiNMo8QT.js:6 | The words of mask 0 are 77C4 for level L, 5412 for M, 355F for Q and 1689 for H. |
| `FormatInformation.FormatDistance` | backend/public/assets/Encoder-BiNMo8QT.js:6 | Two different format words differ in at least seven places. |
| `VersionInformation.VersionComputed` | backend/public/assets/Encoder-BiNMo8QT.js:18 | The computed 18 bits are the word of the code for the version. |
| `VersionInformation.VersionTableRight` | backend/public/assets/Encoder-BiNMo8QT.js:6 | The 34 words the reader compares with are those of versions 7 to 40. |
| `VersionInformation.VersionDistance` | backend/public/assets/Encoder-BiNMo8QT.js:6 | Two different version words differ in at least eight places. |
| `InformationReading.DecodeFormatInformation` | backend/public/assets/Encoder-BiNMo8QT.js:6 | The search, and its second try with the mask, as specified. |
| `InformationReading.DecodeVersionInformation` | backend/public/assets/Encoder-BiNMo8QT.js:6 | The search for the nearest word within three bits, as specified. |
| `InformationReading.FormatSurvives` | backend/public/assets/Encoder-BiNMo8QT.js:6 | Level and mask survive three wrong bits in each copy. |
| `InformationReading.VersionSurvives` | backend/public/assets/Encoder-BiNMo8QT.js:6 | A copy with up to three wrong bits decodes to its version. |
| `InformationReading.VersionReadBack` | backend/public/assets/Encoder-BiNMo8QT.js:6 | One copy within three bits is enough, the other notwithstanding, because of the test against the size. |
| `NearestWords.FormatDecodedExactly` | backend/public/assets/Encoder-BiNMo8QT.js:6 | Whatever the two copies are: the first of the nearest format words within three bits of a copy is read; if there is none, the same with the mask taken off; nothing if and only if there is none either. |
| `NearestWords.VersionDecodedExactly` | backend/public/assets/Encoder-BiNMo8QT.js:6 | Whatever the copy is: the first of the nearest version words within three bits, and nothing if and only if there is none. |
| `InformationReading.ReadFormatInformation` | backend/public/assets/Encoder-BiNMo8QT.js:6 | Both copies are gathered from their cells and searched. |
| `InformationReading.ReadVersion` | backend/public/assets/Encoder-BiNMo8QT.js:6 | Version from the size below 7, from the two copies above. |
| `QrRoundTrip.DataRoundTrip` | backend/public/assets/Encoder-BiNMo8QT.js:18 | The data bytes of a text fill the version recommended and parse back to the text. |
| `QrRoundTrip.RefusedExactly` | backend/public/assets/Encoder-BiNMo8QT.js:18 | A text is refused if and only if its segment leaves fewer than seven bits of version 40 to spare. |
| `QrRoundTrip.RoomInLargest` | backend/public/assets/Encoder-BiNMo8QT.js:18 | A text with room in some version has room in version 40. |
| `QrRoundTrip.RefusedThoughItFits` | backend/public/assets/Encoder-BiNMo8QT.js:18 | 7089 digits fill version 40 at level L to the last bit, can be terminated, and are refused. |
| `QrRoundTrip.LongestDigits` | backend/public/assets/Encoder-BiNMo8QT.js:18 | 7089 digits are a text of numeric mode. |
| `QrRoundTrip.FormatReadBack` | backend/public/assets/Encoder-BiNMo8QT.js:6 | From a legible symbol level and mask are read right. |
| `QrRoundTrip.VersionReadRight` | backend/public/assets/Encoder-BiNMo8QT.js:6 | From a legible symbol the version is read right. |
| `QrRoundTrip.CodewordsSurvive` | backend/public/assets/Encoder-BiNMo8QT.js:6 | No more codewords are read wrong than data modules are wrong. |
| `QrRoundTrip.TextSurvives` | backend/public/assets/Encoder-BiNMo8QT.js:6 | Any text in digits or alphanumeric characters, at any level, under any mask, is read back from a legible symbol whose blocks are repairable. |
| `QrRoundTrip.DamagedTextSurvives` | backend/public/assets/Encoder-BiNMo8QT.js:6 | So it is with up to half the check bytes of a block of wrong data modules, wherever they are. |
| `QrRoundTrip.PrintedTextReads` | backend/public/assets/Encoder-BiNMo8QT.js:6 | And from every flawless symbol. |
| `QrEncoder.SplitIsShape` | backend/public/assets/Encoder-BiNMo8QT.js:18 | The block sizes the writer computes are those of the version table. |
| `QrEncoder.EncodeText` | backend/public/assets/Encoder-BiNMo8QT.js:18 | The codewords of the text, or none exactly when its segment leaves fewer than seven bits of version 40 to spare. |
| `QrEncoder.BuildMatrix` | backend/public/assets/Encoder-BiNMo8QT.js:18 | The matrix is the symbol of the codewords, with all function patterns in their colours; it fails exactly for a mask that does not exist. |
| `QrEncoder.EncodeSymbol` | backend/public/assets/Encoder-BiNMo8QT.js:18 | The writer draws a symbol of the text, with all function patterns in their colours, or none exactly when its segment leaves fewer than seven bits of version 40 to spare; no other failure can occur. |
| `QrDecoder.CorrectErrors` | backend/public/assets/Encoder-BiNMo8QT.js:6 | One block is repaired and its data kept, or a checksum failure. |
| `QrDecoder.CorrectBlocks` | backend/public/assets/Encoder-BiNMo8QT.js:6 | All data bytes in order, or a checksum failure. |
| `QrDecoder.DecodeBitMatrix` | backend/public/assets/Encoder-BiNMo8QT.js:6 | The reader with both attempts, as it is and mirrored; when both fail, the first failure stands. |
| `QrDecoder.ReadInformation` | backend/public/assets/Encoder-BiNMo8QT.js:6 | Version and format information, seen as it is or mirrored. |
| `QrDecoder.DecodeData` | backend/public/assets/Encoder-BiNMo8QT.js:6 | Codewords, blocks and segments as specified; the mask is left off the matrix. |
| `QrDecoder.Mirror` | backend/public/assets/Encoder-BiNMo8QT.js:6 | Exchanging the pairs that differ transposes the matrix. |
| `QrDecoder.UnmaskedTwice` | backend/public/assets/Encoder-BiNMo8QT.js:6 | Taking the mask off again restores the matrix for the second attempt. |
| `QrDecoder.MirroredIsRead` | backend/public/assets/Encoder-BiNMo8QT.js:6 | What is read as it is, is read; its mirror image is, whenever the first attempt at that fails. |
| `QrDecoder.MirroredTextReads` | backend/public/assets/Encoder-BiNMo8QT.js:6 | So the mirror image of a damaged symbol of a text gives the text, whenever the first attempt fails. |
| `QrLoop.Print` | backend/public/assets/Encoder-BiNMo8QT.js:18 | One pixel to a module: dark exactly where the symbol has a one. |
| `QrLoop.WriteSymbol` | backend/public/assets/Encoder-BiNMo8QT.js:18 | With the polynomial 285: the symbol of the text with the check symbols of that field and coloured function patterns, or none exactly when the text leaves fewer than seven bits of version 40 to spare. |
| `QrLoop.EighthPower` | backend/public/assets/Encoder-BiNMo8QT.js:4 | In the field of the QR code the eighth power of x is 29, so its polynomial has the terms 8, 4, 3, 2 and 0. |
| `QrLoop.WriteAndRead` | backend/public/assets/Encoder-BiNMo8QT.js:18 | With the field of the QR code: every text in digits or alphanumeric characters that leaves seven bits of version 40 to spare is written and read back, at every level and under every mask; the others are refused. |
| `AztecStuffing.StuffBits` | backend/public/assets/Encoder-BiNMo8QT.js:20 | The loop ends and appends the stuffed words of the specification. |
| `AztecStuffing.WordUnstuffed` | backend/public/assets/Encoder-BiNMo8QT.js:20 | A stuffed word is never all zeros or all ones, and the reader takes from it the bits the writer took. |
| `AztecStuffing.StuffingRoundTrip` | backend/public/assets/Encoder-BiNMo8QT.js:4 | For every bit string and word size from 2 on, reading the stuffed words gives the string and fewer ones than a word has bits. |
| `AztecStuffing.NoBadWord` | backend/public/assets/Encoder-BiNMo8QT.js:20 | No word of a stuffed string is 0 or all ones. |
| `AztecStuffing.UnstuffBits` | backend/public/assets/Encoder-BiNMo8QT.js:4 | The counting and the filling loop together compute the data bits; it fails exactly for a word of zeros or of ones. |
| `CheckDigits.GetStandardChecksum` | backend/public/assets/Encoder-BiNMo8QT.js:6 | The two loops and the truncating remainder give the check digit; it fails exactly on a character that is no digit. |
| `CheckDigits.CheckStandardChecksum` | backend/public/assets/Encoder-BiNMo8QT.js:6 | The verdict of the specification, malformed strings apart. |
| `CheckDigits.AcceptedExactly` | backend/public/assets/Encoder-BiNMo8QT.js:6 | Accepted exactly are digit strings whose 3-1 weighted sum is a multiple of ten and, when the sum of the others passes 1000, whose check digit is zero. |
| `CheckDigits.ShortAcceptedExactly` | backend/public/assets/Encoder-BiNMo8QT.js:6 | Up to 56 digits: exactly those with a weighted sum that is a multiple of ten. |
| `CheckDigits.LongRefused` | backend/public/assets/Encoder-BiNMo8QT.js:6 | A string of 57 digits with a right check digit that is refused. |
| `CheckDigits.WrongDigitSeen` | backend/public/assets/Encoder-BiNMo8QT.js:6 | A single wrong character is never accepted. |
| `CheckDigits.SwapSeen` | backend/public/assets/Encoder-BiNMo8QT.js:6 | Exchanged neighbours are accepted if and only if they are equal or differ by five and, when the sum of the others then passes 1000, the check digit is zero. |
| `CheckDigits.ShortSwapSeen` | backend/public/assets/Encoder-BiNMo8QT.js:6 | Up to 56 digits: if and only if they are equal or differ by five. |
| `LinearChecksums.Check128` | backend/public/assets/Encoder-BiNMo8QT.js:6 | The running total with the last character taken out again is the weighted sum test. |
| `LinearChecksums.WrongCode128` | backend/public/assets/Encoder-BiNMo8QT.js:6 | A wrong data character is accepted if and only if its place is a multiple of 103. |
| `LinearChecksums.WrongEnds128` | backend/public/assets/Encoder-BiNMo8QT.js:6 | A wrong check or start character is never accepted. |
| `LinearChecksums.CheckOne93` | backend/public/assets/Encoder-BiNMo8QT.js:6 | The backward loop with its cycling weight is the weighted sum test. |
| `LinearChecksums.Check93` | backend/public/assets/Encoder-BiNMo8QT.js:6 | Both check characters are tested, with weights up to 20 and 15. |
| `LinearChecksums.WrongCharacter93` | backend/public/assets/Encoder-BiNMo8QT.js:6 | A single wrong character, data or check, is never accepted. |
| `ChecksumExamples.PencilIsAccepted` | backend/public/assets/Encoder-BiNMo8QT.js:6 | EAN 4006381333931 is accepted, and refused with another last digit. |
| `ChecksumExamples.Test93IsAccepted` | backend/public/assets/Encoder-BiNMo8QT.js:6 | TEST93 with the check characters + and 6 is accepted as Code 93. |
| `ChecksumExamples.PjjIsAccepted` | backend/public/assets/Encoder-BiNMo8QT.js:6 | PJJ123C with the check character 54 is accepted as Code 128. |
| `ScannerStates.AcceptedWasSubmitted` | backend/public/assets/ContinuousScanner-C4iHk8mU.js:1 | For every run of events: acceptances, submissions, validations and candidates taken are at most one another, in that order. |
| `ScannerStates.SuccessHasItsCandidate` | backend/public/assets/ContinuousScanner-C4iHk8mU.js:1 | Success is entered no more often than a candidate was found. |
| `ScannerStates.SubmittingIsLeftBy` | backend/public/assets/ContinuousScanner-C4iHk8mU.js:1 | SUBMITTING is left exactly by ACCEPTED, REJECTED, EXIT or a restart. |
| `ScannerStates.SubmittingLasts` | backend/public/assets/ContinuousScanner-C4iHk8mU.js:1 | Until one of these happens it lasts, and nothing else is submitted. |
| `ScannerStates.ExitingIsLeftBy` | backend/public/assets/ContinuousScanner-C4iHk8mU.js:1 | Leaving is final until closed or restarted. |
| `ScannerStates.TableByEvent` | backend/public/assets/ContinuousScanner-C4iHk8mU.js:1 | Each event leads to one state only, and in exactly which states it is taken. |
| `ScannerStates.ResumeScans` | backend/public/assets/ContinuousScanner-C4iHk8mU.js:1 | RESUME leads back to scanning after success and error and from every unfinished candidate, and is ignored elsewhere. |
| `ScannerStates.NextSubmission` | backend/public/assets/ContinuousScanner-C4iHk8mU.js:1 | After any outcome of a submission the next code can be submitted. |
| `Consensus.LeaderLeads` | backend/public/assets/ContinuousScanner-C4iHk8mU.js:1 | The code the voter picks has the highest count, the earliest entry among equals. |
| `Consensus.PushDecides` | backend/public/assets/ContinuousScanner-C4iHk8mU.js:1 | A code is returned just when one reaches the threshold with this frame, and then exactly; a reset follows. |
| `Consensus.ReturnedIsAgreed` | backend/public/assets/ContinuousScanner-C4iHk8mU.js:1 | A returned code occurred in exactly the needed number of frames since the last reset, inside the window, and none had before. |
| `Consensus.AgreedIsReturned` | backend/public/assets/ContinuousScanner-C4iHk8mU.js:1 | With the first frame in which some count reaches the threshold a code is returned. |
| `Consensus.ConsensusVoter.PushFrame` | backend/public/assets/ContinuousScanner-C4iHk8mU.js:1 | The map of counts and the frame counter change as the specification over the frames says. |
| `ScanSession.FilterMatchesHistory` | backend/public/assets/ContinuousScanner-C4iHk8mU.js:1 | A repeated code is delivered if and only if another was delivered since its most recent sighting, suppressed ones included, or 2500 ms have passed. |
| `ScanSession.HeldCodeDeliversOnce` | backend/public/assets/ContinuousScanner-C4iHk8mU.js:1 | A code held before the camera is delivered once. |
| `ScanSession.ThreeOfTwelve` | backend/public/assets/ContinuousScanner-C4iHk8mU.js:1 | The voter of the session returns a code if and only if with this frame some code is in three of the frames since the last reset, at most twelve; the code is in exactly three. |
| `ScanSession.Session.Detect` | backend/public/assets/ContinuousScanner-C4iHk8mU.js:1 | The two variables decide as the history does, and a delivered code goes to submission. |
| `ScanSession.Session.Vote` | backend/public/assets/ContinuousScanner-C4iHk8mU.js:1 | The voter takes the text of the frame as specified, and a code it returns, and no other, goes to the filter; that is so if and only if some code is in three of the at most twelve frames counted, and the code is in three of them. |
| `ScanSession.Session.Frame` | backend/public/assets/ContinuousScanner-C4iHk8mU.js:1 | One frame: nothing at all changes while submitting; a bar code goes to the filter and clears the misses; without one, from the eighteenth miss on and in every eighth frame, a code of the text goes to the filter if and only if some code is now in three of the at most twelve frames counted, and that code is in three of them; otherwise nothing does. |
| `ScanSession.Session.Happen` | backend/public/assets/ContinuousScanner-C4iHk8mU.js:1 | Every other event follows the table and changes nothing but the state. |
| `ScanSession.Session.AcceptedWereDelivered` | backend/public/assets/ContinuousScanner-C4iHk8mU.js:1 | Over the whole session the codes handed over are those of the sightings the filter passed, in order, and no more codes were accepted than handed over. |
| `Extraction.NormaliseIsNormal` | backend/public/assets/ContinuousScanner-C4iHk8mU.js:1 | A normalised code has only capitals, digits and inner hyphens. |
| `Extraction.NormaliseTwice` | backend/public/assets/ContinuousScanner-C4iHk8mU.js:1 | Normalising again changes nothing. |
| `Extraction.OthersDropped` | backend/public/assets/ContinuousScanner-C4iHk8mU.js:1 | Normalising drops every character that is no ASCII letter, digit or hyphen, wherever it stands. |
| `Extraction.SmallIsCapital` | backend/public/assets/ContinuousScanner-C4iHk8mU.js:1 | A small letter counts as its capital. |
| `Extraction.CodeStays` | backend/public/assets/ContinuousScanner-C4iHk8mU.js:1 | Capitals, digits and inner hyphens stay as they are. |
| `Extraction.OuterHyphensDropped` | backend/public/assets/ContinuousScanner-C4iHk8mU.js:1 | Hyphens in front and behind are dropped. |
| `Extraction.ExtractCodes` | backend/public/assets/ContinuousScanner-C4iHk8mU.js:1 | The codes of a frame are free of duplicates, the longest first and equally long ones in the order of their first matches, and exactly the matches that pass the filter. |
| `Extraction.StopWordsIdle` | backend/public/assets/ContinuousScanner-C4iHk8mU.js:1 | The stop words exclude nothing the digit test does not. |
| `ReferentialDb.CascadesDown` | backend/prisma/schema.prisma:328-2707 | Cascades never run in a circle. |
| `ReferentialDb.DeletionKeepsIntegrity` | tools/test-data-reset-pg.ts:405-583 | An allowed deletion, with its cascades and nulls, leaves no dangling reference. |
| `ReferentialDb.DoomedInReach` | tools/test-data-reset-pg.ts:405-583 | A deletion removes rows only of tables its cascades reach. |
| `ReferentialDb.DeletionFrame` | tools/test-data-reset-pg.ts:405-583 | Rows out of reach, and references into tables out of reach, stay. |
| `ReferentialDb.OrphansGone` | tools/test-data-reset-pg.ts:491-516 | A table whose rows need a parent is empty once the parent table is. |
| `ResetPlan.EmptyingIsOrdered` | tools/test-data-reset-pg.ts:423-527 | Each step empties a table only after those that restrict it. |
| `ResetPlan.OrderedIsSafe` | tools/test-data-reset-pg.ts:423-527 | Any plan in such an order is safe from RESTRICT at every step. |
| `ResetPlan.SafeRuns` | tools/test-data-reset-pg.ts:423-527 | A safe plan runs to its end from every database with intact references and keeps them intact. |
| `ResetPlan.WorkerStep` | tools/test-data-reset-pg.ts:529-549 | Deleting workers and their rows is never restricted once tasks and corrections are gone, and takes nothing of others. |
| `ResetPlan.ResetIsSafe` | tools/test-data-reset-pg.ts:400-583 | From every intact database the 20 steps succeed, references stay intact, and exactly the rows outside the plan are left, with exactly the references whose target is left. |
| `ResetResult.UsersLeft` | tools/test-data-reset-pg.ts:112-127 | Exactly the users without an operational role are left. |
| `ResetRoles.OperationalPosts` | tools/test-data-reset-pg.ts:44-47 | Of the fourteen seeded roles exactly eight are operational, the batch and temporary storage workers not among them; administrative are exactly the three supervising roles and the viewer. |
| `ResetRoles.OperationalNames` | tools/test-data-reset-pg.ts:44-47 | No name but those of the eight roles is operational. |
| `ResetRoles.RolesApart` | tools/test-data-reset-pg.ts:44-47 | No role is both operational and administrative. |
| `ResetRoles.UsersLeftByRole` | tools/test-data-reset-pg.ts:112-127 | A user with any of the eight roles is deleted, a user with none of them is left. |
| `ResetRoles.BatchWorkersStay` | tools/test-data-reset-pg.ts:112-127 | Users who are only batch or temporary storage workers are left, although the seed makes these floor roles. |
| `ResetResult.FixedRowsKept` | tools/test-data-reset-pg.ts:405-583 | Every station, device, location and other master row is left. |
| `ResetResult.FixedRefsKept` | tools/test-data-reset-pg.ts:403-421 | Their references are kept but for the assignments of deleted workers. |
| `ResetReport.TablesAfter` | tools/test-data-reset-pg.ts:400-583 | For each of the 58 tables: it is emptied, keeps every row, or loses the log entries selected. |
| `ResetReport.ReportHolds` | tools/test-data-reset-pg.ts:182-224 | The tables that the report announces as deleted are empty afterwards, and those it announces as kept have every row. |
| `ResetReport.WorkersRowsGo` | tools/test-data-reset-pg.ts:400-583 | Of roles, sessions and push tokens exactly those of deleted users go. |
| `ResetResult.AdminsPreserved` | tools/test-data-reset-pg.ts:128-130 | The report counts administrators as preserved rightly if and only if none has an operational role too. |
| `ResetResult.ManagerIsDeleted` | tools/test-data-reset-pg.ts:128-130 | A manager who also picks is counted as preserved and deleted. |
| `ResetResult.NoOrphans` | tools/test-data-reset-pg.ts:606-672 | The orphan checks afterwards find nothing, for every foreign key. |
| `ResetResult.SecondResetIdle` | tools/test-data-reset-pg.ts:400-583 | A second clean-up finds no worker and leaves every row and every reference of a row as it is. |
| `Catalogue.StructurePermissions` | backend/prisma/seed.ts:40-51 | Of the physical structure exactly five actions are catalogued, `manage` not among them. |
| `Catalogue.WarehouseIsLegacy` | backend/prisma/seed.ts:40-51 | No key of the old `warehouse` resource is catalogued. |
| `Catalogue.RolesAreCatalogued` | backend/prisma/seed.ts:174-402 | Every key a seeded role names is catalogued. |
| `Catalogue.FloorIsNoAdministration` | backend/prisma/seed.ts:237-387 | No floor role holds a key of the control centre or administration, but the inbound role `stations.view`. |
| `Catalogue.ManagerCreatesNothing` | backend/prisma/seed.ts:212-236 | The manager role holds no create permission. |
| `Catalogue.ViewerOnlyViews` | backend/prisma/seed.ts:389-401 | The viewer role holds only view permissions. |
| `Catalogue.InboundIsNotSorting` | backend/prisma/seed.ts:237-262 | The inbound role is receiving plus putaway plus `stations.view`, and not sorting. |
| `AccessMatrix.CatalogueIs` | backend/prisma/seed.ts:43-140 | The catalogue key by key, resource by resource. |
| `AccessMatrix.SeededMay` | backend/prisma/seed.ts:174-402 | The access matrix read by the permission: for each of the fourteen role names and every key whether the seed grants it. |
| `PermissionColumns.RefusedAt` | backend/prisma/seed.ts:462-469 | Key i of the catalogue is refused if and only if a row of another key, none of the keys before it, has its resource and action. |
| `PermissionColumns.NoClashAgain` | backend/prisma/seed.ts:462-469 | A table that holds the catalogue never refuses it again. |
| `PermissionColumns.PermissionsDistinct` | backend/prisma/seed.ts:40-140 | No two catalogued keys have the same resource and action. |
| `PermissionStores.PermissionStore.UpsertPermission` | backend/prisma/seed.ts:462-469 | The key exists afterwards under its id with its columns, or it is refused, exactly when another row has these, and nothing changes. |
| `PermissionStores.PermissionStore.UpsertCatalogue` | backend/prisma/seed.ts:462-469 | The whole catalogue is there afterwards, or the run stops, exactly when some row clashes. |
| `PermissionStores.PermissionStore.MoveHolders` | backend/prisma/seed.ts:432-445 | Every holder of the legacy permission holds its targets instead; no other grant changes. |
| `PermissionStores.PermissionStore.MigrateLegacy` | backend/prisma/seed.ts:423-456 | One legacy key is migrated as specified, self-mapping filter and conditional deletion included. |
| `PermissionStores.PermissionStore.MigrateLegacyPermissions` | backend/prisma/seed.ts:423-456 | All legacy keys are migrated in order. |
| `PermissionStores.PermissionStore.ReconcileRole` | backend/prisma/seed.ts:475-497 | The role ends with exactly the catalogued keys it names; no other role changes. |
| `PermissionStores.PermissionStore.Seed` | backend/prisma/seed.ts:458-497 | The run stops exactly when a row of another key has the resource and action of a catalogued one, before any role or grant is touched; otherwise it takes the tables to the state of the specification, keeps ids unique and grants valid, and a further run is not stopped. |
| `Seeding.MigrationIs` | backend/prisma/seed.ts:416-456 | The four migrations in order, as one step. |
| `Seeding.SeedingConverges` | backend/prisma/seed.ts:416-497 | From any tables the run is not stopped at (see `Seed`), every seeded role ends with exactly its permissions, no legacy-only key is left, and no grant is to a missing permission. |
| `AccessMatrix.AccessAfterRun` | backend/prisma/seed.ts:416-497 | From any tables the run is not stopped at, every role by its name ends with exactly the keys of the access matrix. |
| `AccessMatrix.ExecutionAfterRun` | backend/prisma/seed.ts:416-497 | Who executes a flow afterwards: the three supervising roles and those whose work it is; a batch only its worker and the first administrator. |
| `AccessMatrix.AdministratorExecutesUnseen` | backend/prisma/seed.ts:192-216 | The warehouse administrator ends with the execution of the five flows and without the view of any of them, as they have no key to manage them. |
| `Seeding.RunOthers` | backend/prisma/seed.ts:416-497 | A role that is not seeded is migrated and nothing else. |
| `Seeding.FloorAfterRun` | backend/prisma/seed.ts:416-497 | Whatever floor roles held before, afterwards none holds administration keys, except `stations.view` of the inbound role. |
| `Seeding.SeededAgain` | backend/prisma/seed.ts:475-497 | A second run leaves the seeded roles as they are. |
| `Seeding.ViewIsLost` | backend/prisma/seed.ts:416-445 | A custom role with `locations.view` keeps it if and only if it held `locations.manage`. |
| `Seeding.SecondRunIdle` | backend/prisma/seed.ts:416-497 | A second run changes nothing if and only if no custom role held the legacy `locations.manage`. |
| `Seeding.SecondRunDiffers` | backend/prisma/seed.ts:416-497 | Tables for which the second run differs from the first. |
| `Seeding.ThirdRunIdle` | backend/prisma/seed.ts:416-497 | A third run never changes anything. |

## Left out

- FieldTables.TablesMakeField: fields of 256 elements only; those of 16, 64, 1024 and 4096 elements, which Aztec codes use, are outside all field and Reed-Solomon results.
- GenericField.GenericGF.constructor: the same.
- GenericField.GenericGF.Log: the throw for zero is a precondition, because no caller passes zero; the same holds for Inverse.
- GenericPolynomials.Construct: the throw for an empty list is a precondition, because no caller passes one.
- GenericPolynomials.DivideBy: the throw for a zero divisor is a precondition, because no caller passes one.
- ReedSolomonEncoding.ReedSolomonEncoder.Encode: at most 256 check symbols with the base added; beyond that the program reads past its power table.
- ReedSolomonDecoding.ReedSolomonDecoder.DecodeInPlace: the same bound on the number of check symbols, and a word of at least one symbol.
- QrEncoder.EncodeSymbol: texts of numeric or alphanumeric mode, not of byte mode, whose bytes come from the encoder of the browser; the mask is an argument; the penalty rules that choose it are not modelled, the theorems hold for every choice.
- QrEncoder.EncodeText: the same texts.
- QrRoundTrip.TextSurvives: the same texts; byte mode is read as one outcome `Foreign`.
- QrDecoder.DecodeBitMatrix: square matrices; an attempt that meets a segment of an open kind counts as not failed.
- SegmentReading.DecodeSegments: byte, Kanji, ECI, FNC1, structured append and Hanzi segments are one outcome `Foreign`; their text comes from the decoder of the browser.
- BitArrays.BitArray.Set: places inside the size are a precondition, as for Flip; the program does not check them and writes into the padding, or nowhere.
- BitArrays.BitArray.Flip: the same.
- BitMatrices.BitMatrix.Get: coordinates inside the matrix are a precondition, as for Set and Flip; the program does not check them.
- BitMatrices.BitMatrix.Set: the same.
- BitMatrices.BitMatrix.Flip: the same.
- BlockEncoding.InterleaveWithEcBytes: at least one data byte and one check byte for every block, as in every version.
- Consensus.PushDecides: a code that is the empty string would not be returned by the program; the codes of a frame have at least six characters.
- AztecStuffing.StuffBits: word sizes 2 to 30, so that 1 << size is exact; the callers pass 4 to 12. Layers, Reed-Solomon words and the drawing of Aztec codes are not modelled.
- Extraction.ExtractCodes: the matches of the three patterns are arguments; characters outside ASCII whose capital is an ASCII letter are not modelled.
- LinearChecksums.Check128: characters are given by their values; the widths of the bars are not modelled.
- LinearChecksums.Check93: characters are given by their place in the alphabet.
- ResetPlan.ResetIsSafe: each statement is a function from one database to the next, so row counts and the printed report are not modelled; columns that are no foreign keys (states, times, names) have no part in the model; the selection of log entries by their action is a set of ids. The test worker created afterwards is not modelled.
- Seeding.SeedingConverges: speaks of runs that are not stopped by the unique pair of resource and action; `Seed` says exactly when one is.
- PermissionStores.PermissionStore.Seed: descriptions are not modelled; ids come from a counter; the order of the catalogue is an argument, and the permissions of a role are a set of keys. Users, settings and demo data of the seed are not modelled.
- Image side: binarisation, finder and alignment detection, perspective, camera and rendering, which compute in floating point.
- PDF417, RSS, Data Matrix and the bar patterns of the linear codes: large tables without a writer in use. UPC-E expansion is left out with them.
- Asynchronous interleaving of the scanner: a frame is one step; an exit during an awaited decoding is not modelled.
- Repair of the schema at start-up: only its foreign key actions are used, as the schema file declares them.
- The remaining pages, services and scripts of the repository.
