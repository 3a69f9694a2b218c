# EAN-8 scanline decoder: verified model of its integer core

LineVision reads an EAN-8 bar code from one row of a grayscale image. The
row is thresholded to black and white. The program then estimates the width
of one module from the black runs of the row and matches the resampled
modules against the EAN-8 symbol structure: a start guard, four characters
of number set A, a middle guard, four characters of number set C and an end
guard, 67 modules in all (ISO/IEC 15420).

This project models the deterministic, integer-only part of that pipeline
in Dafny and proves properties of it:

- `decode.dfy` (module `Decode`): `find_module`, the module-width estimator.
  A run is a stretch of 0 pixels. It is closed only by a 255 pixel, and it
  is entered into a histogram indexed by run length. The result is the run
  length whose count first reached the largest count. `FindModule` is the
  imperative histogram loop, proved against `IsFirstMode`, an independent
  description of that answer.
- `ean_patterns.dfy` (module `EanPatterns`): the `L_CODE` and `R_CODE`
  tables, stated from the binary patterns the source writes. It also reads
  a row of modules as an integer, most significant module first.
- `ean_layout.dfy` (module `EanLayout`): the `SegmentGuard` values, the
  67-module layout, and the documented contract of `is_valid_structure`.
  `Symbol` renders a symbol from eight digits. It is used to show that the
  contract is satisfiable and that the layout with the two tables determines
  the digits.
- `imaging.dfy` (module `Imaging`): the `Image` record and `binarization`,
  the in-place threshold of the image buffer.
- `ean_errors.dfy` (module `EanErrors`): the `EAN8Error` enumeration and
  `ean8_error_to_string`.
- `base.dfy` (module `Base`): `Option`, `Byte` (an 8-bit pixel) and `Bit`
  (one module).

Behaviour of `find_module` that the model keeps:

- Every black run is entered into the histogram, whatever its length.
- Ties go to the length that reached the top count first in scan order,
  not to the smallest length.
- The result is 0 when the row has no 0 pixel, including an empty row.

## Model

| member | source | states |
|---|---|---|
| `Decode.Step` | src/decode.c:10-21 | One pixel of the loop: runs already entered stay entered and at most one is added, and the black pixels accounted for (closed runs plus the open run) grow by one exactly when the pixel is 0. |
| `Decode.Scan` | src/decode.c:9-22 | After the loop has read a row, every 0 pixel lies in exactly one run: the closed run lengths plus the open run add up to the number of 0 pixels. |
| `Decode.RecordedRuns` | src/decode.c:9-30 | The lengths entered in the histogram, the flushed open run included, add up to the number of 0 pixels of the row. |
| `Decode.Record` | src/decode.c:11-16 | Entering a run length `c` adds one to `hist[c]` only, so the histogram stays the count of each length entered, and the running maximum stays the first-to-reach largest count. |
| `Decode.FindModule` | src/decode.c:4-34 | The result is the first-to-reach mode (`IsFirstMode`) of the run lengths the scan records. It is 0 exactly when the scanned pixels hold no 0. Otherwise it lies in 1..length. The row is only read. |
| `Decode.ScanBounds` | src/decode.c:9-22 | A closed run lasts at least 1 pixel and is shorter than the row. The open run spans the whole row exactly when every pixel is 0. Nothing is recorded or open exactly when no pixel is 0. |
| `Decode.RecordedRunsBounds` | src/decode.c:9-30 | Every recorded length lies in 1..length. A run of the full length is recorded exactly when the row is non-empty and all black. Nothing is recorded exactly when the row has no 0 pixel. |
| `Decode.FlushAsClosingSpace` | src/decode.c:24-30 | The run still open at the end of the row is recorded exactly as if a 255 pixel had closed it. |
| `Decode.ScanIgnoresOtherValues` | src/decode.c:10-21 | Pixels other than 0 and 255 neither extend nor close a run. Removing them changes neither the scan state nor the recorded runs. |
| `Decode.LeadsStep` | src/decode.c:11-16 | Entering one more run length and updating the maximum with a strict `>` keeps `max` the largest count. It also keeps `max_value` the length that reached that count first. |
| `Decode.FirstModeIsMode` | src/decode.c:25-29 | The answer is a recorded length, and no length was recorded more often. |
| `Decode.FirstModeUnique` | src/decode.c:13-15 | The first-to-reach tie-break determines a single answer. |
| `Decode.TieGoesToFirstToReach` | src/decode.c:13-16 | For runs 3, 2, 3, 2 the answer is 3 and not 2: ties do not go to the smallest length. |
| `Decode.UniformRunsMode` | src/decode.c:9-33 | When every recorded run has the same length w, the answer is w. |
| `Decode.AsWrittenInBoundsIff` | src/decode.c:5-30 | With the `length` histogram slots the source allocates, every histogram index stays in bounds exactly when the row is empty or has a pixel that is not 0. |
| `Decode.AllBlackRowOverflows` | src/decode.c:24-25 | For the all-black row 0, 0, 0 the flush indexes slot 3 of a 3-slot histogram. |
| `EanPatterns.TableEntry` | src/ean_patterns.c:4-29 | Each table has 10 entries indexed by digit. Every entry is below 128, and its seven modules are the source's binary literal. |
| `EanPatterns.LPatternShape` | src/ean_patterns.c:4-15 | Every set-A pattern starts with 0, ends with 1 and has an odd number of 1s. |
| `EanPatterns.LCodeShape` | src/ean_patterns.c:4-15 | Every `L_CODE` entry is below 64. Its most significant bit is 0, its least significant bit is 1, and it has an odd number of 1 bits. |
| `EanPatterns.PatternsComplement` | src/ean_patterns.c:4-29 | Each set-C pattern flips every module of the set-A pattern of the same digit. |
| `EanPatterns.RCodeComplement` | src/ean_patterns.c:4-29 | `R_CODE[d] == 127 - L_CODE[d]` for every digit, and the modules of the two entries are bitwise complements. |
| `EanPatterns.RCodeShape` | src/ean_patterns.c:18-29 | Every `R_CODE` entry lies in 64..127. Its most significant bit is 1, its least significant bit is 0, and it has an even number of 1 bits. This is derived from set A through the complement. |
| `EanPatterns.LCodeDistinct` | src/ean_patterns.c:4-15 | `L_CODE` entries are pairwise distinct, so an exact match names at most one digit. |
| `EanPatterns.RCodeDistinct` | src/ean_patterns.c:18-29 | `R_CODE` entries are pairwise distinct. |
| `EanPatterns.TablesDisjoint` | src/ean_patterns.c:4-29 | No value appears in both tables. |
| `EanLayout.GuardPatterns` | include/ean_patterns.h:8-11 | `EDGE_GUARD` spells the modules 1, 0, 1 and `MIDDLE_GUARD` spells 0, 1, 0, 1, 0. The layout totals 3 + 28 + 5 + 28 + 3 = 67 modules. |
| `EanLayout.ZoneOf` | include/ean_patterns.h:44-52 | Every module offset below 67 lies in one of the eleven regions. Left digit k covers [3+7k, 10+7k), the middle guard [31, 36), right digit k [36+7k, 43+7k) and the end guard [64, 67). |
| `EanLayout.ZonesDisjoint` | include/ean_patterns.h:44-52 | No two regions overlap. |
| `EanLayout.ZoneWithinSymbol` | include/ean_patterns.h:44-52 | Every region ends within the 67-module window. |
| `EanLayout.IsValidStructure` | include/ean_patterns.h:38-66 | A window that passes fits in the bitstream (`index + 67 <= length`) and begins and ends on a bar module. |
| `EanLayout.StructureByGuardModules` | include/ean_patterns.h:38-66 | `is_valid_structure` holds exactly when `index + 67 <= length` and each guard module of the window holds its guard value: 101 at `index`, 01010 at `index+31` and 101 at `index+64`. |
| `EanLayout.OnlyGuardsDecide` | include/ean_patterns.h:63-64 | Two bitstreams of the same length that agree on the guard modules of the window get the same verdict. |
| `EanLayout.NonGuardModuleIrrelevant` | include/ean_patterns.h:41-64 | Rewriting any digit module of the window, or any module outside it, leaves the verdict unchanged. |
| `EanLayout.SymbolZones` | include/ean_patterns.h:44-52 | In a rendered symbol each guard region holds its guard. Left digit k holds the `L_CODE` pattern of that digit and right digit k holds the `R_CODE` pattern. |
| `EanLayout.SymbolIsValidStructure` | include/ean_patterns.h:38-66 | A rendered symbol with any modules before and after it passes `is_valid_structure` at its own offset. |
| `EanLayout.SymbolDeterminesDigits` | src/ean_patterns.c:4-29 | Two digit strings that render to the same symbol are equal: the layout and the two tables lose no information. |
| `Imaging.Image.constructor` | include/image.h:3-8 | Given int dimensions whose product fits in an int and a buffer of at least that many samples, the fields hold the dimensions and buffer given and the image satisfies `Valid`. |
| `Imaging.Binarization` | src/image.c:105-111 | For a non-null image the first `width*height*channels` samples become 255 if they were above the threshold and 0 otherwise. The samples beyond that count, the dimensions and the buffer reference are unchanged. A null image changes nothing. |
| `Imaging.BinarizedAt` | src/image.c:108-109 | Each output sample depends only on the input sample at the same index. |
| `Imaging.BinarizedIsBlackOrWhite` | src/image.c:109 | Every output sample is 0 or 255. |
| `Imaging.BinarizedIdempotent` | src/image.c:109 | For every threshold, thresholding twice equals thresholding once. |
| `Imaging.BinarizedExtremes` | src/image.c:109 | A threshold of 255 or more makes every sample 0. A negative threshold makes every sample 255. |
| `EanErrors.Code` | include/ean_errors.h:7-20 | The enumerators take the values 0..5, and only `EAN8_ERROR_NONE` is 0. |
| `EanErrors.FromCode` | include/ean_errors.h:7-20 | An integer names an enumerator exactly when it lies in 0..5, and then it names the enumerator with that value. |
| `EanErrors.CodeRoundTrip` | include/ean_errors.h:7-20 | Every enumerator is recovered from its value. |
| `EanErrors.ErrorToString` | src/ean_errors.c:3-13 | The message is "Unknown error" exactly for values outside the six codes. |
| `EanErrors.KnownMessages` | src/ean_errors.c:5-10 | Each of the six codes maps to its fixed message, for example `EAN8_ERROR_NONE` to "No error". |
| `EanErrors.MessagesIdentifyCodes` | src/ean_errors.c:5-11 | The six messages are pairwise distinct, so the mapping is injective on known codes. |

## Findings

| source | as written | input that shows it | evidently intended | confidence | as-written member | corrected member |
|---|---|---|---|---|---|---|
| src/decode.c:5-25 | `hist` gets `length` slots, but the flush after the loop writes `hist[counter]`. `counter` equals `length` when every pixel is 0. | the row 0, 0, 0 with `length` 3 writes `hist[3]` | one slot for every run length 0..length, which is `length + 1` slots | not executed; the index follows directly from the code | `Decode.AllBlackRowOverflows` | `Decode.FindModule` |

## Left out

- `open_image`, `close_image`, `save_image_png`, `print_image_info` and `print_image` are left out. They are file I/O through the stb_image library, and printing.
- `otsu_threshold` is left out. Its choice of threshold rests on `double` means and variances. `Binarization` takes the threshold as a parameter.
- src/main.c is left out. It is command-line plumbing: argument parsing, printing and cleanup.
- `create_segment_ean`, `destroy_segment_ean`, `print_segment_ean`, `compute_check_digit`, `decode_code_ean8`, `decode_left_set_ean8`, `decode_right_set_ean8` and `decode_ean8` are declared in include/ean_patterns.h, but their definitions are not part of this model. So are the `SegmentEAN` record they work on, the resampling of pixels into modules, the search for a first valid offset and the check-digit computation. `Symbol` and `SymbolDeterminesDigits` state only what the layout and the tables imply.
- `EanLayout.IsValidStructure` is modelled from its documentation, because its definition is not part of this model. Its `length` argument is the length of the `data` sequence. A window that does not fit in the bitstream is reported as not valid.
- `EAN8_LENGTH`, `EAN8_SET_LENGTH` and `EAN8_CODE_LENGTH` are declared `extern` and their definitions are not part of this model. Their values 67, 28 and 7 follow from the documented layout.
- `Decode.FindModule` does not model allocation failure or release. The unchecked `calloc` and the `free` become a fresh Dafny array.
- `Imaging.Binarization` does not model C integer overflow of `width * height * channels`. `Image.Valid` requires that the product and its parts fit in an `int`.
