# prototype-jpeg: a verified model of its exact core

prototype-jpeg is a small JPEG-style image codec written in Python. This
project models the parts of it that are exact integer and sequence logic,
and proves their properties in Dafny:

- **The entropy front end** (`prototype_jpeg/codec.py`):
  - differential coding of the DC coefficients;
  - run-length coding of the AC coefficients, ending with the EOB symbol;
  - the zig-zag scan of a square block (`move_zig_zag_idx`, `iter_zig_zag`,
    `inverse_iter_zig_zag`), which is the scan order of ITU-T T.81 section
    A.3.6, Figure A.6;
  - the lookup of a value in `HUFFMAN_CATEGORIES` (`index_2d`), as in ITU-T
    T.81 section F.1.2.1, Table F.1;
  - the DC path of `encode_huffman` and the fixed codeword tables;
  - what `Encoder.__init__` computes: the DC value of every block, its
    differences, and the run-length code of every block's AC
    coefficients.
- **The array helpers** (`prototype_jpeg/utils.py`):
  - chroma subsampling by striding (`downsample`) and its undoing by
    repetition (`upsample`);
  - cutting a plane into blocks (`block_slice`) and putting them back
    (`block_combine`), with numpy's reshape and swapaxes semantics down to
    which exception is raised;
  - `quantize` and its inverse over real numbers, with the tables of ITU-T
    T.81 Annex K (Tables K.1 and K.2).
- **The layout bookkeeping of `compress` and `extract`**
  (`prototype_jpeg/__init__.py`):
  - the quality check;
  - padding each plane to a multiple of 8 and cropping it back;
  - the per-block quantization loops;
  - stacking the Cb and Cr blocks and splitting them apart again;
  - the fill-bit count `remaining_bits_length` and the segment lengths
    `data_slice_lengths`;
  - the slicing of the stored bits back into segments;
  - the subsampled chroma size, computed with `school_round`.

## Model conventions

- Python exceptions are `Failure(e)` values of a `Result` type. `e` is the
  exception class Python raises: ValueError, IndexError, KeyError or
  ZeroDivisionError.
- Bit strings are `string`s of `'0'` and `'1'`, as the codec builds them
  before handing them to `bitarray`.
- 2-D arrays are `seq<seq<int>>`; a 3-D array of blocks is a sequence of
  those.
- DCT coefficients (the input and output of `quantize`) are `real`s.

## Where the model departs from the tests or the documentation

The model follows the code as written.

- **No ZRL.** `encode_run_length` never splits a run of zeros at 15 and
  never emits ZRL. The unit tests expect ZRL for runs of 16 or more zeros,
  and so does the JPEG standard. `RunLength.LongRunIsOnePair` proves that
  any run, however long, becomes one pair. `RunLength.LongRunFixture` gives
  the code's actual output for the test input `(1, 0 × 16, 99)`.
- **`encode_huffman` takes three arguments.** The tests call it with two.
  The model takes the value type as an argument: DC is the path the tests
  mean, and AC fails with KeyError, because the AC tables are keyed by
  pairs.

## Model

| member | source | states |
|---|---|---|
| `Differential.EncodeDifferential` | prototype_jpeg/codec.py:63-67 | the length is kept and the first element is unchanged |
| `Differential.DecodeDifferential` | prototype_jpeg/codec.py:70-71 | element i is the sum of the first i + 1 inputs (`itertools.accumulate`) |
| `Differential.SumOfDifferences` | prototype_jpeg/codec.py:63-71 | the running sum of the differences up to i is the i-th original value |
| `Differential.DecodeEncode` | prototype_jpeg/codec.py:63-71 | decode(encode(s)) == s for every s, the empty sequence included |
| `Differential.EncodeDecode` | prototype_jpeg/codec.py:63-71 | encode(decode(s)) == s for every s |
| `Differential.DifferentialFixture` | tests/tests_unit/test_codec.py:465-468 | the ten evenly spaced values from -128 to 127 encode to the expected differences |
| `RunLength.GroupBy` | prototype_jpeg/codec.py:75-76 | the groups are maximal, non-empty runs whose values concatenate to the input; there are none exactly for an empty input |
| `RunLength.TrimTrailing` | prototype_jpeg/codec.py:79-80 | dropping a trailing zero group leaves a maximal grouping whose values end in a non-zero value, followed in the input only by zeros |
| `RunLength.EmitGroups` | prototype_jpeg/codec.py:81-91 | the loop with the `borrow` flag emits exactly the recursive `Emit` of the groups |
| `RunLength.EmitRle` | prototype_jpeg/codec.py:81-91 | the loop's output extends the reference code (each non-zero value paired with the zeros just before it) over the values of the groups |
| `RunLength.EmitCode` | prototype_jpeg/codec.py:74-92 | the loop's output, with EOB appended, is the reference code of the whole input, trailing zeros included |
| `RunLength.EncodeRunLength` | prototype_jpeg/codec.py:74-92 | an empty input raises IndexError (at `groups[-1]`); any other input gives the reference code followed by EOB |
| `RunLength.RleShape` | prototype_jpeg/codec.py:74-92 | every pair before EOB has a non-negative run and a non-zero value; there are none exactly when the input is all zeros |
| `RunLength.CodeShape` | prototype_jpeg/codec.py:74-92 | the code ends in EOB; EOB occurs nowhere else and ZRL not at all; the code is exactly [EOB] iff the input is all zeros |
| `RunLength.RleZeros` | prototype_jpeg/codec.py:74-92 | leading zeros only lengthen the run of the next pair |
| `RunLength.TrailingZeros` | prototype_jpeg/codec.py:79-80 | zeros after the last non-zero value add nothing to the code |
| `RunLength.LongRunIsOnePair` | prototype_jpeg/codec.py:87-89 | n zeros followed by v code as [(n, v), EOB] for every n: runs are not split at 15 |
| `RunLength.LongRunFixture` | tests/tests_unit/test_codec.py:520-522 | (1, 0 × 16, 99) codes as [(0, 1), (16, 99), EOB] |
| `RunLength.StripTrailingZeros` | prototype_jpeg/codec.py:74-97 | the longest prefix that is empty or ends in a non-zero value, with only zeros after it |
| `RunLength.ExpandRle` | prototype_jpeg/codec.py:95-97 | expanding the reference code gives the input without its trailing zeros |
| `RunLength.ExpandAppend` | prototype_jpeg/codec.py:97 | the expansion of a concatenation is the concatenation of the expansions |
| `RunLength.DecodeRunLength` | prototype_jpeg/codec.py:95-97 | computes decode_run_length: every (l, k) becomes l zeros and then k, and the last element is dropped; what that means is stated by `DecodeEncode`, `DecodeEncodeExact` and `EscapeSymbols` |
| `RunLength.DecodeEncode` | prototype_jpeg/codec.py:74-97 | decode(encode(s)) is s without its trailing zeros, for every non-empty s |
| `RunLength.DecodeEncodeExact` | prototype_jpeg/codec.py:74-97 | the round trip is exact when s ends in a non-zero value |
| `RunLength.EscapeSymbols` | prototype_jpeg/codec.py:95-97 | [EOB] decodes to the empty sequence, and ZRL expands to sixteen zeros |
| `RunLength.DecodeFixture` | tests/tests_unit/test_codec.py:524-530 | the decoding fixture of the unit tests |
| `ZigZag.Move` | prototype_jpeg/codec.py:130-133 | below the last column j advances and i drops by one, but not below 0; otherwise i advances |
| `ZigZag.Step` | prototype_jpeg/codec.py:107-110 | computes one coordinate move of the walk, the parity case of the loop body; `Advance` ties it to both loop branches and `StepIndex` shows it moves to the next scan position |
| `ZigZag.Walk` | prototype_jpeg/codec.py:104-110 | computes the cell the walk reaches after k steps from (0, 0); `WalkIndex`, `WalkCovers` and `WalkInjective` show it visits every cell of the block once, in scan order |
| `ZigZag.Advance` | prototype_jpeg/codec.py:107-110 | the coordinate update of both loops is one `Step` of the walk |
| `ZigZag.OffsetRange` | prototype_jpeg/codec.py:100-133 | a cell's place on its anti-diagonal is within the diagonal's length |
| `ZigZag.BaseLow` | prototype_jpeg/codec.py:100-133 | the first d <= n diagonals hold d (d + 1) / 2 cells |
| `ZigZag.BaseHigh` | prototype_jpeg/codec.py:100-133 | the cell count of the first d diagonals, from the longest one on |
| `ZigZag.BaseTotal` | prototype_jpeg/codec.py:100-133 | the 2n - 1 diagonals hold all n * n cells |
| `ZigZag.BaseMono` | prototype_jpeg/codec.py:100-133 | the cell count before a diagonal grows with the diagonal |
| `ZigZag.LastCell` | prototype_jpeg/codec.py:100-133 | the bottom-right cell is the last of the scan |
| `ZigZag.IndexRange` | prototype_jpeg/codec.py:100-133 | every cell's scan position is in [0, n * n) |
| `ZigZag.IndexInjective` | prototype_jpeg/codec.py:100-133 | different cells have different scan positions |
| `ZigZag.StepIndex` | prototype_jpeg/codec.py:107-110 | a step from any cell but the last stays in the block and moves to the next scan position |
| `ZigZag.SameDiagonal` | prototype_jpeg/codec.py:107-110 | along an anti-diagonal, x rises on even diagonals and falls on odd ones |
| `ZigZag.NextDiagonal` | prototype_jpeg/codec.py:107-110 | the last cell of a diagonal is followed by the first cell of the next |
| `ZigZag.WalkIndex` | prototype_jpeg/codec.py:104-110 | the k-th cell of the walk lies in the block at scan position k, for every k < n * n |
| `ZigZag.OnlyCell` | prototype_jpeg/codec.py:100-133 | no other cell shares a cell's scan position |
| `ZigZag.AllIndexed` | prototype_jpeg/codec.py:100-133 | every cell has a scan position in [0, n * n) |
| `ZigZag.WalkCovers` | prototype_jpeg/codec.py:100-133 | the walk reaches every cell of the block |
| `ZigZag.WalkInjective` | prototype_jpeg/codec.py:100-133 | the walk visits no cell twice |
| `ZigZag.ZigZagScan` | prototype_jpeg/codec.py:100-111 | the scan of an n x n block has n * n values |
| `ZigZag.InverseZigZag` | prototype_jpeg/codec.py:114-127 | the block built from n * n values is n x n |
| `ZigZag.IterZigZag` | prototype_jpeg/codec.py:100-111 | ValueError for a non-square block and for the empty block, which `np.nditer` refuses; otherwise the values along the walk, one per cell |
| `ZigZag.ScanStartsAtCorner` | prototype_jpeg/codec.py:24-30 | the first value of the scan is b[0][0], the DC value `Encoder.dc` reads |
| `ZigZag.InverseOfScan` | prototype_jpeg/codec.py:100-127 | inverse_iter_zig_zag(iter_zig_zag(b)) == b |
| `ZigZag.ScanOfInverse` | prototype_jpeg/codec.py:100-127 | iter_zig_zag(inverse_iter_zig_zag(s)) == s |
| `ZigZag.Isqrt` | prototype_jpeg/codec.py:115-118 | the integer square root: r * r <= m < (r + 1) * (r + 1) |
| `ZigZag.IsqrtOfSquare` | prototype_jpeg/codec.py:115-118 | the root of n * n is n |
| `ZigZag.InverseIterZigZag` | prototype_jpeg/codec.py:114-127 | ValueError when the length is not a perfect square; otherwise a fresh size x size array holding the inverse scan |
| `ZigZag.FillAlongWalk` | prototype_jpeg/codec.py:120-126 | the loop writes every cell of the array with its value of the inverse scan |
| `ZigZag.WalkFixture` | tests/tests_unit/test_codec.py:484-487 | the 16 cells of a 4 x 4 walk, in order |
| `ZigZag.ScanFixture` | tests/tests_unit/test_codec.py:484-487 | the scan of 0..15 in a 4 x 4 block is [0, 1, 4, 8, 5, 2, 3, 6, 9, 12, 13, 10, 7, 11, 14, 15] |
| `Huffman.Range` | prototype_jpeg/codec.py:148-160 | Python's range(lo, hi) has hi - lo values |
| `Huffman.Categories` | prototype_jpeg/codec.py:144-161 | computes HUFFMAN_CATEGORIES, sixteen rows built from ranges; `BandShape`, `CategoriesPartition`, `CategoryMember` and `CategoryOnly` state their contents |
| `Huffman.BandShape` | prototype_jpeg/codec.py:144-161 | row s has 2^s values: -(2^s - 1) up to -2^(s-1), then 2^(s-1) up to 2^s - 1 |
| `Huffman.BandCategory` | prototype_jpeg/codec.py:144-161 | every value of row s has s bits of magnitude |
| `Huffman.BandIncreasing` | prototype_jpeg/codec.py:144-161 | every row is strictly increasing |
| `Huffman.CategoriesPartition` | prototype_jpeg/codec.py:144-161 | the rows partition [-32767, 32767]: every value is in the row of its category and in no other row |
| `Huffman.CategoryMember` | prototype_jpeg/codec.py:144-161 | v sits in row Category(v), at BandIndex(v) |
| `Huffman.CategoryOnly` | prototype_jpeg/codec.py:144-161 | v occurs in no row but Category(v) |
| `Huffman.FindInRow` | prototype_jpeg/codec.py:138-140 | the first column at or after j that holds the target, or none |
| `Huffman.FindFrom` | prototype_jpeg/codec.py:136-141 | the first (row, column) in row-major order holding the target; ValueError exactly when there is none |
| `Huffman.FirstOccurrence` | prototype_jpeg/codec.py:136-141 | the first occurrence in row-major order is the one found |
| `Huffman.Find2dAbsent` | prototype_jpeg/codec.py:136-141 | the search raises exactly when the target is nowhere in the table |
| `Huffman.Index2d` | prototype_jpeg/codec.py:136-141 | the nested search loop returns the same result as the search function |
| `Huffman.CategoryLookup` | prototype_jpeg/codec.py:136-161 | looking v up in HUFFMAN_CATEGORIES gives (size, v if v > 0 else v + 2^size - 1) |
| `Huffman.BandIndexValue` | prototype_jpeg/codec.py:144-161 | the position in its row gives the value back |
| `Huffman.DcCodewords` | prototype_jpeg/codec.py:164-192 | the two DC codeword tables, transcribed; `DcTables`, `DcShape` and the two prefix-free lemmas state their shape |
| `Huffman.DcTables` | prototype_jpeg/codec.py:163-193 | each DC table has twelve codewords of bits, none a prefix of another |
| `Huffman.DcShape` | prototype_jpeg/codec.py:163-193 | each DC table has twelve codewords of bits |
| `Huffman.DcLuminancePrefixFree` | prototype_jpeg/codec.py:165-178 | the luminance DC table is prefix-free |
| `Huffman.DcChrominancePrefixFree` | prototype_jpeg/codec.py:179-192 | the chrominance DC table is prefix-free |
| `Huffman.AcCodewords` | prototype_jpeg/codec.py:194-557 | the two AC codeword dictionaries, from the transcribed key list and the non-empty entries; `AcKeySet` and `AcFilledEntries` state their keys and filled entries |
| `Huffman.AcKeySet` | prototype_jpeg/codec.py:194-557 | both AC tables, built from the transcribed key list and the non-empty entries, have exactly the keys (run, size) for runs 0..15 and sizes 1..10, plus EOB and ZRL |
| `Huffman.AcFilledEntries` | prototype_jpeg/codec.py:194-557 | a codeword is non-empty exactly for EOB, ZRL and, in the luminance table, the runs 0 to 2 |
| `Huffman.LuminanceFilled` | prototype_jpeg/codec.py:195-375 | the luminance entries written with a codeword are EOB, ZRL and the runs 0 to 2 |
| `Huffman.ChrominanceFilled` | prototype_jpeg/codec.py:376-557 | the chrominance entries written with a codeword are EOB and ZRL |
| `Huffman.EncodeHuffman` | prototype_jpeg/codec.py:53-60 | computes encode_huffman with its range check, table lookup and formatting; `EncodeHuffmanSpec`, `EncodeDcCode`, `DecodeEncodeDc` and `EncodeDcInjective` state what it returns |
| `Huffman.EncodeHuffmanSpec` | prototype_jpeg/codec.py:53-60 | ValueError iff v <= -2048 or v >= 2048; KeyError on the AC path; otherwise the category's codeword, then exactly `size` bits denoting the value's position in its row |
| `Huffman.CategoryBound` | prototype_jpeg/codec.py:54-56 | the accepted values have categories 0 to 11, so the DC tables cover them |
| `Huffman.EncodeDcCode` | prototype_jpeg/codec.py:53-60 | a DC value is coded as the codeword of its category followed by the formatted position (nothing for 0) |
| `Huffman.FindCodeword` | prototype_jpeg/codec.py:44-50 | a reference definition with no counterpart in the code, which only outlines this search in comments: the first category at or after k, in table order, whose codeword starts the stream; it is the partner that `DecodeEncodeDc` uses to state that DC codes can be read back |
| `Huffman.FindsOnlyPrefix` | prototype_jpeg/codec.py:163-193 | in a prefix-free table, the codeword that starts a stream is the one found |
| `Huffman.DecodeShape` | prototype_jpeg/codec.py:163-193 | a codeword followed by `size` bits is read back as that category and position, whatever follows |
| `Huffman.DecodeEncodeDc` | prototype_jpeg/codec.py:53-60 | every DC code, followed by anything, is read back as its value and its length |
| `Huffman.EncodeDcInjective` | prototype_jpeg/codec.py:53-60 | different DC values get different codes |
| `Huffman.FormatFixtureOne` | prototype_jpeg/codec.py:60 | '{:02b}'.format(1) is '01' |
| `Huffman.FormatFixtureMax` | prototype_jpeg/codec.py:60 | '{:011b}'.format(2047) is eleven ones |
| `Huffman.EncodeFixtureMax` | tests/tests_unit/test_codec.py:263-278 | 2047 in the luminance table is 11111111011111111111 |
| `Huffman.EncodeFixtureNegative` | tests/tests_unit/test_codec.py:279-287 | -2 in the luminance table is 01101 |
| `Bits.FormatExact` | prototype_jpeg/codec.py:59-60 | a value below 2^width is written with exactly width bits that denote it |
| `Bits.DigitsValue` | prototype_jpeg/codec.py:60 | the binary numeral of v denotes v and has as many digits as v has bits |
| `Encoding.DcValues` | prototype_jpeg/codec.py:28-30 | b[0][0] of every block, in order; IndexError exactly when some block lacks that cell |
| `Encoding.AcCode` | prototype_jpeg/codec.py:24-26 | the code of one block exists exactly when the block is square with at least two rows; otherwise IndexError for a block of one value, whose AC part is empty, and ValueError from iter_zig_zag for every other block |
| `Encoding.AcCodes` | prototype_jpeg/codec.py:24-26 | computes the run_length_ac comprehension over all blocks, stopping at the first error; `AcCodesAll`, `AcCodesFailed`, `AcCodesSnoc` and `AcCodeStops` state its result |
| `Encoding.AcCodesAll` | prototype_jpeg/codec.py:24-26 | all codes are built, one per block and in block order, exactly when every block can be coded |
| `Encoding.AcCodesFailed` | prototype_jpeg/codec.py:24-26 | after a failing block nothing else is looked at |
| `Encoding.AcCodesSnoc` | prototype_jpeg/codec.py:24-26 | one more block appends its code, or makes its error the result |
| `Encoding.AcCodeStops` | prototype_jpeg/codec.py:24-26 | the first block whose code fails ends the whole comprehension with its error |
| `Encoding.Setup` | prototype_jpeg/codec.py:16-30 | computes the two fields `__init__` derives, taking dc's error first; `SetupSucceeds`, `SetupError` and `SetupRestores` state when it succeeds, which error it raises and that the fields rebuild every block |
| `Encoding.SetupSucceeds` | prototype_jpeg/codec.py:16-26 | `__init__` succeeds exactly when every block is square with at least two rows, and then keeps one DC difference and one AC code per block |
| `Encoding.SetupError` | prototype_jpeg/codec.py:16-30 | IndexError when a block has no top-left cell, since `dc` is computed first; otherwise the error of the first block that cannot be coded |
| `Encoding.Fit` | prototype_jpeg/codec.py:24 | a reference definition with no counterpart in the code: a sequence cut or padded with zeros to a length, used by `Restore` to put back the trailing zeros that encode_run_length drops |
| `Encoding.Restore` | prototype_jpeg/codec.py:16-30 | a reference definition with no counterpart in the code: the square block rebuilt from a DC value and an AC code; it is the partner `SetupRestores` uses to show that the two fields lose nothing |
| `Encoding.FitStripped` | prototype_jpeg/codec.py:24 | the first value and the AC values without their trailing zeros, padded back, give the scan again |
| `Encoding.RestoreBlock` | prototype_jpeg/codec.py:24-30 | a codable block is rebuilt from its DC value and its AC code |
| `Encoding.SetupRestores` | prototype_jpeg/codec.py:16-30 | the fields `__init__` keeps rebuild every block: the summed DC differences and the AC codes |
| `Encoding.Encoder.Init` | prototype_jpeg/codec.py:16-17 | the three fields hold the given values |
| `Encoding.Encoder.Create` | prototype_jpeg/codec.py:16-26 | `Encoder(data)` raises the setup's error, or is a fresh encoder whose fields are the DC differences and AC codes and which rebuilds every block |
| `Encoding.BlockCode` | prototype_jpeg/codec.py:24 | the statement computes the code of one block |
| `Encoding.RunLengthAc` | prototype_jpeg/codec.py:24-26 | the nested comprehension, layer by layer and block by block, computes the codes of all blocks |
| `Encoding.LayerCodes` | prototype_jpeg/codec.py:24-26 | the blocks of one layer extend the codes of the layers before it, or end everything with the first error |
| `Sampling.Strided` | prototype_jpeg/utils.py:84 | s[::k] has ceil(len / k) elements, element i being s[i k] |
| `Sampling.RepeatEach` | prototype_jpeg/utils.py:100 | `repeat(k)` has len k elements, element i being s[i / k] |
| `Sampling.SliceStep` | prototype_jpeg/utils.py:84 | a step of 0 raises ValueError; a positive step strides |
| `Sampling.Downsample` | prototype_jpeg/utils.py:71-84 | computes downsample: the array itself for mode 4, otherwise arr[::3 - mode, ::2]; `DownsampleFails`, `DownsampleShape`, `DownsampleRectangular` and `DownsampleUpsample` state its result |
| `Sampling.DownsampleFails` | prototype_jpeg/utils.py:82-84 | downsample raises (ValueError) exactly for mode 3, whose row step is 0 |
| `Sampling.DownsampleShape` | prototype_jpeg/utils.py:82-84 | modes 1 and 2: ceil(rows / (3 - mode)) rows of ceil(cols / 2) cells, cell (i, j) being cell (i (3 - mode), 2 j) |
| `Sampling.DownsampleRectangular` | prototype_jpeg/utils.py:84 | a rectangular array stays rectangular, with ceil(cols / 2) columns |
| `Sampling.Upsample` | prototype_jpeg/utils.py:87-100 | computes upsample: the array itself for mode 4, otherwise each row repeated 3 - mode times and each column twice; `UpsampleShape`, `UpsampleFails` and `DownsampleUpsample` state its result |
| `Sampling.UpsampleShape` | prototype_jpeg/utils.py:98-100 | (3 - mode) times the rows and twice the columns, cell (i, j) being cell (i / (3 - mode), j / 2) |
| `Sampling.UpsampleFails` | prototype_jpeg/utils.py:98-100 | upsample raises (ValueError) exactly for modes above 4, whose repeat count is negative |
| `Sampling.StridedRepeat` | prototype_jpeg/utils.py:84-100 | striding by k undoes repeating k times |
| `Sampling.NarrowWiden` | prototype_jpeg/utils.py:84-100 | keeping every other column undoes doubling every column |
| `Sampling.DownsampleUpsample` | prototype_jpeg/utils.py:71-100 | downsample(upsample(a, m), m) == a for the modes 1, 2 and 4 |
| `Sampling.DownsampleFixture` | tests/tests_unit/test_utils.py:73-104 | the 2 x 3 array in mode 1 becomes [[0, 102]] |
| `Sampling.UpsampleFixture` | tests/tests_unit/test_utils.py:106-146 | the 2 x 2 array in mode 1 becomes the expected 4 x 4 array |
| `Blocks.InferDim` | prototype_jpeg/utils.py:115-117 | numpy's -1 dimension: defined exactly when the known dimensions are positive and divide the size, ValueError otherwise |
| `Blocks.Reshape3` | prototype_jpeg/utils.py:117 | reshaping into n blocks of rows x cols cells |
| `Blocks.Ravel3Reshape3` | prototype_jpeg/utils.py:117 | reading the blocks back row-major gives the cells again |
| `Blocks.Reshape3Ravel3` | prototype_jpeg/utils.py:117 | reshaping the read-back cells gives the blocks again |
| `Blocks.SliceAxes` | prototype_jpeg/utils.py:115-116 | the first reshape and the axis swap keep the number of cells |
| `Blocks.Restack` | prototype_jpeg/utils.py:117 | the last reshape yields blocks of nrows x ncols cells |
| `Blocks.BlockSlice` | prototype_jpeg/utils.py:103-117 | every result block has nrows x ncols cells |
| `Blocks.BlockSliceAccepts` | prototype_jpeg/utils.py:114-117 | block_slice raises exactly when a reshape cannot be done: ZeroDivisionError for nrows = 0, ValueError otherwise |
| `Blocks.BlockSliceMisfit` | prototype_jpeg/utils.py:115 | known dimensions that do not divide the size raise ValueError |
| `Blocks.BlockSliceValue` | prototype_jpeg/utils.py:114-117 | when both reshapes succeed, the result is the cells with their middle axes swapped, cut into blocks |
| `Blocks.BlockSliceRaster` | prototype_jpeg/utils.py:103-117 | when nrows divides the height and ncols the width, the blocks are the sub-blocks of the array in raster order |
| `Blocks.BlockSliceBlocks` | prototype_jpeg/utils.py:114-117 | the blocks are the block rows of the 4-D reading with its middle axes swapped |
| `Blocks.BlockCombine` | prototype_jpeg/utils.py:120-143 | the result has nrows x ncols cells |
| `Blocks.Regrid` | prototype_jpeg/utils.py:139-143 | the reshapes after the size check yield nrows x ncols cells |
| `Blocks.Reshape2` | prototype_jpeg/utils.py:143 | reshaping into rows x cols cells |
| `Blocks.BlockCombineAccepts` | prototype_jpeg/utils.py:136-143 | block_combine raises exactly when the size differs from nrows x ncols or a reshape cannot be done; ZeroDivisionError for blocks without rows, ValueError otherwise |
| `Blocks.CombineSlice` | prototype_jpeg/utils.py:103-143 | block_combine(block_slice(a, nr, nc), h, w) == a whenever block_slice succeeds |
| `Blocks.SliceCombine` | prototype_jpeg/utils.py:103-143 | block_slice(block_combine(bs, h, w), nr, nc) == bs whenever block_combine succeeds |
| `Blocks.SubBlock` | prototype_jpeg/utils.py:103-117 | the nrows x ncols block of the array at a given top-left cell |
| `Blocks.Grid` | prototype_jpeg/utils.py:103-117 | the grid of sub-blocks of an array whose sides are block multiples |
| `Blocks.GridCell` | prototype_jpeg/utils.py:103-117 | grid entry (q, p) is the sub-block at (q nrows, p ncols) |
| `Blocks.SliceFixture` | tests/tests_unit/test_utils.py:148-160 | the 4 x 4 array 0..15 is cut into the expected four 2 x 2 blocks |
| `Blocks.CountingRaster` | tests/tests_unit/test_utils.py:148-160 | those blocks are the four sub-blocks in raster order |
| `Blocks.CountingBlocks` | tests/tests_unit/test_utils.py:148-160 | the four sub-blocks of the array 0..15, cell by cell |
| `Blocks.CombineFixture` | tests/tests_unit/test_utils.py:170-182 | the four blocks combine into the 4 x 4 array 0..15 |
| `Blocks.MisfitFixtures` | tests/tests_unit/test_utils.py:162-196 | 3 x 3 blocks of a 4 x 4 array raise ValueError, and 16 cells do not combine into 4 x 3 |
| `Blocks.InvertibleFixture` | tests/tests_unit/test_utils.py:198-205 | the 8 x 8 array 0..63 cut into 2 x 2 blocks combines back into itself |
| `Quantization.TablesShape` | prototype_jpeg/utils.py:5-24 | both tables are 8 x 8 with no entry below 10 |
| `Quantization.Table` | prototype_jpeg/utils.py:155-158 | the luminance table exactly for the block type 'y' |
| `Quantization.Factor` | prototype_jpeg/utils.py:159 | ZeroDivisionError exactly for quality 0; the factor is 0 exactly for quality 100 |
| `Quantization.QualityFifty` | prototype_jpeg/utils.py:159 | quality 50 uses the tables as they are |
| `Quantization.FactorRange` | prototype_jpeg/utils.py:159 | for the accepted qualities (0, 95] the factor lies in [10, 5000] |
| `Quantization.FactorDecreasing` | prototype_jpeg/utils.py:159 | a higher quality gives a smaller factor |
| `Quantization.StepNonZero` | prototype_jpeg/utils.py:159-162 | a non-zero factor gives non-zero steps |
| `Quantization.StepAtLeastOne` | prototype_jpeg/utils.py:159-162 | a factor of 10 or more gives steps of at least 1 |
| `Quantization.Divide` | prototype_jpeg/utils.py:162 | each result cell times its step is the input cell |
| `Quantization.Multiply` | prototype_jpeg/utils.py:161 | each result cell is the input cell times its step |
| `Quantization.Quantize` | prototype_jpeg/utils.py:154-162 | ZeroDivisionError exactly for quality 0; otherwise an 8 x 8 block |
| `Quantization.MultiplyDivide` | prototype_jpeg/utils.py:160-162 | multiplying back a divided block gives it back |
| `Quantization.DivideMultiply` | prototype_jpeg/utils.py:160-162 | dividing a multiplied block gives it back |
| `Quantization.DequantizeQuantize` | prototype_jpeg/utils.py:154-162 | the inverse call undoes the forward call exactly, over the reals |
| `Quantization.QuantizeDequantize` | prototype_jpeg/utils.py:154-162 | the forward call undoes the inverse call exactly |
| `Quantization.QuantizeShrinks` | prototype_jpeg/utils.py:162 | at the accepted qualities, quantizing never enlarges a coefficient and keeps its sign |
| `Quantization.QuantizeFixture` | tests/tests_unit/test_utils.py:264-294 | luminance quantization at quality 50 of the test block: 236 / 16 and -23 / 12 |
| `Quantization.DequantizeFixture` | tests/tests_unit/test_utils.py:296-326 | luminance dequantization at quality 50 of the test block: 15 x 16 = 240 and four more cells |
| `Layers.CheckQuality` | prototype_jpeg/__init__.py:35-36 | ValueError exactly when the quality is outside (0, 95] |
| `Layers.AcceptedQuality` | prototype_jpeg/__init__.py:35-36 | an accepted quality gives a factor in [10, 5000], so both directions of quantize are defined |
| `Layers.QuantizeBlocks` | prototype_jpeg/__init__.py:72-77 | one result block per input block; only quality 0 raises, and only when there is a block |
| `Layers.DequantizeQuantizeBlocks` | prototype_jpeg/__init__.py:198-206 | dequantizing a layer's quantized blocks gives them back |
| `Layers.QuantizeLayer` | prototype_jpeg/__init__.py:72-77 | every block of the layer is replaced in place by its quantized value |
| `Layers.DequantizeLayer` | prototype_jpeg/__init__.py:198-206 | ZeroDivisionError for quality 0 before any block is written; otherwise every block is replaced in place by its dequantized value |
| `Layers.Vstack` | prototype_jpeg/__init__.py:95 | the Cb blocks, then the Cr blocks |
| `Layers.SplitHalves` | prototype_jpeg/__init__.py:188-191 | two halves of equal length that concatenate to the input; ValueError exactly for an odd count |
| `Layers.SplitVstack` | prototype_jpeg/__init__.py:188-191 | splitting stacked Cb and Cr blocks of equal count gives them back |
| `Layers.ChromaRoundTrip` | prototype_jpeg/__init__.py:56-70 | Cb and Cr planes of one shape give equally many blocks, so the split in extract separates them again |
| `Padding.PadAmount` | prototype_jpeg/__init__.py:63-64 | computes the pad compress adds to one dimension; `PadAmountLeast` shows it is the least reaching a multiple of 8 |
| `Padding.PadAmountLeast` | prototype_jpeg/__init__.py:63-64 | the pad is below 8 and reaches the least multiple of 8 at or above n |
| `Padding.PaddedSize` | prototype_jpeg/__init__.py:213-216 | extract's padded size is the size plus compress's pad |
| `Padding.PadIsByteFill` | prototype_jpeg/__init__.py:63-64 | the pad is the same rounding as the fill bits |
| `Padding.Pad` | prototype_jpeg/__init__.py:60-67 | the padded plane has the padded size in both directions |
| `Padding.PadContents` | prototype_jpeg/__init__.py:60-67 | padding keeps every cell and adds only zeros below and to the right |
| `Padding.Crop` | prototype_jpeg/__init__.py:224 | arr[:rows, :cols]: both bounds clamped to the array |
| `Padding.CropPad` | prototype_jpeg/__init__.py:224 | cropping a padded plane to its size gives it back |
| `Padding.PlaneRoundTrip` | prototype_jpeg/__init__.py:211-224 | a padded plane is cut into (rows / 8)(cols / 8) blocks that combine back at extract's padded size, and the crop gives the plane back |
| `Padding.PlaneBlockCount` | prototype_jpeg/__init__.py:60-70 | the number of blocks of a padded plane |
| `Padding.SchoolRound` | prototype_jpeg/__init__.py:126-129 | computes school_round, ceiling or Python's round after the fraction test; `SchoolRoundHalfUp` shows it rounds halves up |
| `Padding.SchoolRoundHalfUp` | prototype_jpeg/__init__.py:126-129 | school_round rounds to the nearest integer, halves up |
| `Padding.HalfUp` | prototype_jpeg/__init__.py:152-153 | school_round(s / 2) is ceil(s / 2) for every size s |
| `Padding.SubsampledSize` | prototype_jpeg/__init__.py:148-154 | computes the chroma size extract expects for the subsampling mode; `SubsampledShape` and `UpsampleCovers` tie it to downsample and upsample |
| `Padding.SubsampledShape` | prototype_jpeg/__init__.py:147-154 | the size extract computes is the shape downsample gives in the modes 1, 2 and 4 |
| `Padding.UpsampleCovers` | prototype_jpeg/__init__.py:229-231 | upsampling a plane of the subsampled size covers the full size, so the crop yields exactly rows x cols |
| `Padding.SizeFixture` | prototype_jpeg/__init__.py:147-154 | a 10 x 13 plane pads to 16 x 16, and its 4:2:0 chroma is 5 x 7, padded to 8 x 8 |
| `Bitstream.PySlice` | prototype_jpeg/__init__.py:163-182 | a Python slice with clamped bounds; an ordinary slice when the bounds are in range |
| `Bitstream.DropLast` | prototype_jpeg/__init__.py:161 | bits[:-k] drops the last k bits, or everything when there are fewer |
| `Bitstream.BitsToBytes` | prototype_jpeg/__init__.py:119 | bitarray's bits2bytes, the number of bytes that hold the bits; `RemainingBits` and `RemainingBitsLeast` state the fill it gives |
| `Bitstream.RemainingBits` | prototype_jpeg/__init__.py:119 | the fill is below 8 and makes whole bytes |
| `Bitstream.RemainingBitsLeast` | prototype_jpeg/__init__.py:119 | no shorter fill makes whole bytes |
| `Bitstream.ByteFill` | prototype_jpeg/__init__.py:117-119 | the stored stream is the bits followed by the fill, a whole number of bytes |
| `Bitstream.StripFill` | prototype_jpeg/__init__.py:160-161 | computes extract's removal of the fill bits when there are any; `StripByteFill` shows it undoes the byte fill |
| `Bitstream.StripByteFill` | prototype_jpeg/__init__.py:160-161 | stripping the fill gives the bits back |
| `Bitstream.SliceLengths` | prototype_jpeg/__init__.py:120 | the length of every segment, in order |
| `Bitstream.Pack` | prototype_jpeg/__init__.py:105-121 | the bits are the segments joined in order; the header records the grey-level flag, the length of every segment and the fill count of the joined bits, and the bits plus that fill are exactly as long as the byte-filled stream |
| `Bitstream.Slice` | prototype_jpeg/__init__.py:163-182 | two segments for grey level, four otherwise; IndexError exactly when the header has too few lengths |
| `Bitstream.Unpack` | prototype_jpeg/__init__.py:156-182 | computes extract's preprocessing, stripping the fill and then slicing; `UnpackPack` shows it recovers the segments compress joined |
| `Bitstream.UnpackPack` | prototype_jpeg/__init__.py:105-182 | extract recovers exactly the segments compress joined, for both layouts |
| `Bitstream.RemainingBitsFixture` | prototype_jpeg/__init__.py:119 | 13 bits get 3 fill bits, and 16 or 0 bits get none |

## Left out

- DCT and IDCT (`dct2d`, `idct2d`): floating-point trigonometry from scipy.
- Colour conversion (`rgb2ycbcr`, `ycbcr2rgb`): floating-point numerics.
- Rounding and clipping (`np.rint`, `np.clip`) and the level offset of ±128: floating-point numerics.
- File I/O, timing and logging in `compress` and `extract`. Their results are parameters of the model: the stored bits and the header.
- The header's `size`, `quality` and `subsampling_mode` fields: they are copied, not computed. The modelled header records only the layout fields.
- `Encoder.encode` and `Decoder`: both are empty stubs in the code.
- `decode_huffman`: imported by the tests but not defined in the code. The model's codeword search in `Huffman.DecodeWith` only partners the DC prefix-freeness proof.
- The AC path of `encode_huffman` is only modelled as far as it raises: the AC tables are keyed by pairs, so an integer key raises KeyError.
- Prefix-freeness of the AC tables is not claimed: most AC codewords are empty strings, so it is false for this code.
- ZRL splitting of long zero runs: the code does not do it (see above).
- The call `Encoder(data[Y], LUMINANCE)` at `prototype_jpeg/__init__.py:84` does not match the one-argument constructor at `prototype_jpeg/codec.py:16`. The model's encoder takes only the layers.
- The constants `Y`, `CB` and `CR` imported from `prototype_jpeg/utils.py` do not exist there. Block types are strings, and `quantize` compares them with `'y'`.
- The 8 x 8 zig-zag fixture is not restated as a lemma. The 4 x 4 fixture is, and the general walk lemmas cover every block size.
- Quantization.Quantize: the forward direction at quality 100 is excluded by a precondition. The factor is then 0, and numpy would produce infinities and NaNs, which reals cannot model. `compress` never reaches it, because it rejects qualities above 95.
- Layers.QuantizeLayer: requires a quality in (0, 95], which `compress` checks before the loop.
- Encoding.Encoder.Create: requires every block to be rectangular, as every numpy array is.
- ZigZag.IterZigZag: requires a rectangular block, as every numpy array is. Non-square and empty blocks raise ValueError as in the code.
- ZigZag.Isqrt: `len(seq) ** 0.5` and `is_integer()` are modelled as an exact integer square root. This ignores floating-point error for very long sequences.
- Blocks.BlockCombine: takes the block shape as parameters and requires every block to have it, since a 3-D numpy array has one shape for all blocks.
- The sampling, padding and block functions take integer cells, whereas the codec's planes hold floats. Their behaviour does not depend on the cell values.
- Quantization.Divide: the broadcast of the table is modelled for 8 x 8 blocks only, which is the size the codec uses.
- The per-block loops of `compress` and `extract` model only the quantize step; the DCT steps beside it are left out (see above).
- Padding.PlaneRoundTrip: stated for planes with at least one row and one column; an image always has both. Negative block dimensions cannot arise, since dimensions are natural numbers.
- Array cells are numpy int64 integers (`astype(int)`) in the code and mathematical integers in the model; the codec's coefficients are far below the 64-bit range, so no overflow is modelled.
