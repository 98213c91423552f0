# cnn-pipeline-rtl: hex-dump codec and integer CNN reference, in Dafny

This project models the bit-exact integer reference of a 4x4-convolution
accelerator, as the two Python scripts of the repository compute it:

- `conv.py` reads a memory image from `@ADDR HEX... // comment` text lines.
  Each line holds 64-bit words printed big-endian, and the decoder turns
  them into a zero-filled little-endian byte buffer. It then takes an int8
  image and an int8 4x4 kernel out of that buffer and convolves them
  ("valid", stride 1, kernel not flipped). Unless `--act` is exactly
  `none`, it also applies an activation, zero-pads and average-pools
  2x2 blocks with a divisor of 4 truncating toward zero. Finally it widens
  the result to a multiple of 8 columns, clips it to int8 and writes it
  back as 8-byte dump lines.
- `img2svmem.py` builds the input file. It fits a grayscale image to a
  target size by cropping and zero padding, and turns a kernel preset into
  16 int8 bytes of {-1, 0, 1}. It then writes the kernel bytes followed by
  every pixel plus 128 as `@ADDR  HEX` lines.

Everything is modelled as pure functions over immutable values:

- byte buffers are `seq<Byte>`;
- matrices are rectangular `seq<seq<int>>`;
- a dump file is its text: the writers' lines each followed by `\n`, cut
  back into lines by `splitlines()` when loaded;
- every `ValueError` the scripts raise is a `Result.Err` value.

Python's slice rules, the int32 casts, floor division and
truncation toward zero are written out explicitly.

Modules, in dependency order:

- `Results`: the error values and the `Result` type.
- `Text`: whitespace, `strip`, `split("//", 1)`, `lower`, hex digits, `splitlines`.
- `Bytes`: the per-word byte reversal, the int8 and uint8 views, and the hex spelling of bytes.
- `Matrix`: rectangles, flattening and reshape.
- `Extract`: `read_kernel_i8` and `read_image_i8`.
- `Arith`: int32 wrap and the division helpers.
- `Conv`: the convolution.
- `Stages`: activation, `zero_pad`, column widening and clip.
- `Pooling`: both pools.
- `HexDecode`: `load_hexdump_u8_little`.
- `HexEncode`: the three line writers.
- `HexRoundTrip`: what the reader recovers from the writers.
- `Packer`: `img2svmem.py`.
- `Pipeline`: the numeric path of `main`.

Points where the code behaves differently from what its comments,
docstrings or names suggest; the model follows the code:

- `conv4x4_valid_i8_i8` does not flip the kernel. The flip at conv.py:216 is
  commented out, although the docstring says "True 4x4 convolution".
- Leaky ReLU divides in floating point and casts to int32 (conv.py:254). That
  truncates toward zero: -9 becomes -2.
- `zero_pad` grows only the bottom and the right (conv.py:262-263). The
  docstring says all sides.
- `avg_pool_4x4_stride4_valid_i32` does not trim the input to even sides. It
  hands the whole input to `blocks2x2_grid`, which refuses a non-square or
  odd-sided input (conv.py:281-285). Only an input with fewer than two rows
  or columns gives an empty result.
- `write_hexdump_from_little` puts the zeros of a short last line in front
  of the data (conv.py:166). The docstring says "at higher addresses". So
  the data of a short last line reads back at the high end of that line
  (`HexRoundTrip.HexdumpRoundTrip`). `write_mem_addr8_from_u8` reverses
  and then fills at the end, which has the same effect for little-endian
  words.
- `write_hexdump_from_little` writes its comment as given. A comment that
  holds a line break turns into further physical lines, which the loader
  then parses on their own (`Text.BrokenLineSplits`). The round trip is
  proved for comments without line boundaries. With a line break, a later
  physical line is skipped when it holds no `@` before any `//`, but it can
  also parse as a record or fail as an odd line: the comment "x\n@1 f"
  gives a line "@1 f" with an odd digit count
  (`HexRoundTrip.OddAddressLine`, an instance of
  `HexRoundTrip.OddDataRefused`). The one call in `main` passes
  "image (input)".
- `main` tests `args.act != 'none'` case-sensitively (conv.py:433), while
  `apply_activation` lower-cases the name. So `NONE` runs the pool
  (`Pipeline.NoneIsCaseSensitive`).
- `main` never calls `pool_2x2_stride2`: the call at conv.py:450 is
  commented out, so `--pool` has no effect (`Pipeline.PoolIgnored`).
- `write_mem_addr8_from_u8` compares `endian` with `"little"` exactly.
  `save_addr8_with_kernel` lower-cases it first.

## Model

| member | source | states |
|---|---|---|
| Bytes.ZeroBytes | projectFall2025.v3/projectFall2025/scripts/conv.py:166 | `k` bytes, every one 0: the fill a short hexdump line gets |
| Bytes.ReversePer8 | projectFall2025.v3/projectFall2025/scripts/conv.py:84-90 | keeps the length; byte `i` of the result is the mirror of byte `i` inside its own 8-byte word, a short last word being mirrored on its own |
| Bytes.ReversePer8Involution | projectFall2025.v3/projectFall2025/scripts/conv.py:84-90 | reversing inside each word twice gives the buffer back |
| Bytes.ToSigned | projectFall2025.v3/projectFall2025/scripts/conv.py:202 | the int8 view of a byte lies in [-128, 128) and agrees with the byte modulo 256 |
| Bytes.FromSigned | projectFall2025.v3/projectFall2025/scripts/conv.py:143-144 | the uint8 view of an int8 value is the byte whose int8 view is that value |
| Bytes.SignedRoundTrip | projectFall2025.v3/projectFall2025/scripts/conv.py:143-144 | viewing a byte as int8 and back as uint8 gives the byte |
| Bytes.ReverseReverse | projectFall2025.v3/projectFall2025/scripts/conv.py:89 | reversing a chunk twice gives it back |
| Bytes.WordMirrorShift | projectFall2025.v3/projectFall2025/scripts/conv.py:87-89 | the mirror positions of the first word, and past it those of the remaining words moved up by 8 |
| Bytes.HexOfBytes | projectFall2025.v3/projectFall2025/scripts/conv.py:172 | two hex digits per byte, with no whitespace and no slash, so nothing the reader strips or cuts |
| Bytes.FromHex | projectFall2025.v3/projectFall2025/scripts/conv.py:113 | an even run of hex digits decodes to half as many bytes |
| Bytes.FromHexOfBytes | projectFall2025.v3/projectFall2025/scripts/conv.py:113 | decoding the hex spelling of bytes gives the bytes back |
| Text.HexChar | projectFall2025.v3/projectFall2025/scripts/conv.py:139 | a lower-case digit whose value is `v`, never whitespace, `/` or `-` |
| Text.HexValue | projectFall2025.v3/projectFall2025/scripts/conv.py:109 | a hex digit of either case has a value below 16 |
| Text.HexDigits | projectFall2025.v3/projectFall2025/scripts/conv.py:175 | the `x` spelling of `n`: at least one hex digit, and `int(s, 16)` reads it back as `n` |
| Text.ParseHexOfZeros | projectFall2025.v3/projectFall2025/scripts/conv.py:109 | a run of zeros reads as 0 |
| Text.ParseHexLeadingZeros | projectFall2025.v3/projectFall2025/scripts/conv.py:109 | leading zeros do not change the value `int(s, 16)` reads |
| Text.PadHex | projectFall2025.v3/projectFall2025/scripts/conv.py:175 | zero-filled to the requested width and never truncated; reads back as `n` |
| Text.FormatHex | projectFall2025.v3/projectFall2025/scripts/conv.py:175 | the spelling of an address never holds a slash, so the comment cut leaves it whole |
| Text.FormatHexReadsBack | projectFall2025.v3/projectFall2025/scripts/conv.py:175 | a non-negative address takes at least `width` digits and reads back as itself; a negative one starts with `-` |
| Text.LowerChar | projectFall2025.v3/projectFall2025/scripts/conv.py:248-250 | A-Z go to a-z; every other character except the Kelvin sign is kept |
| Text.Lower | projectFall2025.v3/projectFall2025/scripts/conv.py:248-250 | lower-casing keeps the length |
| Text.LowerOfLowerAscii | projectFall2025.v3/projectFall2025/scripts/conv.py:248-250 | a lower-case ASCII word is its own lower case, so the compared names match themselves |
| Text.BeforeComment | projectFall2025.v3/projectFall2025/scripts/conv.py:103 | the longest prefix holding no `//`; when it is shorter than the line, a `//` starts right after it |
| Text.BeforeCommentSkipsPrefix | projectFall2025.v3/projectFall2025/scripts/conv.py:103 | a prefix without slashes passes the comment cut unchanged |
| Text.BeforeCommentMarker | projectFall2025.v3/projectFall2025/scripts/conv.py:177 | of a `  // comment` tail only the two spaces survive the cut |
| Text.TrimLeft | projectFall2025.v3/projectFall2025/scripts/conv.py:103 | drops exactly the leading whitespace: the rest starts with a non-space |
| Text.TrimRight | projectFall2025.v3/projectFall2025/scripts/conv.py:103 | drops exactly the trailing whitespace: the rest ends with a non-space |
| Text.StripAround | projectFall2025.v3/projectFall2025/scripts/conv.py:103 | stripping whitespace from around a word that starts and ends with a non-space gives the word |
| Text.TrimLeftAround | projectFall2025.v3/projectFall2025/scripts/conv.py:103 | leading whitespace in front of a non-space is removed and nothing else |
| Text.TrimRightAround | projectFall2025.v3/projectFall2025/scripts/conv.py:103 | trailing whitespace after a non-space is removed and nothing else |
| Text.CutAndStripWord | projectFall2025.v3/projectFall2025/scripts/conv.py:103 | a line of spaces, a slash-free word and an optional `  //` comment is cut and stripped to the word |
| Text.RemoveSpaces | projectFall2025.v3/projectFall2025/scripts/conv.py:110 | no whitespace is left, and text of hex digits and whitespace leaves only hex digits |
| Text.RemoveSpacesAppend | projectFall2025.v3/projectFall2025/scripts/conv.py:110 | removing whitespace distributes over concatenation |
| Text.RemoveSpacesKeeps | projectFall2025.v3/projectFall2025/scripts/conv.py:110 | text without whitespace is unchanged |
| Text.RemoveSpacesDrops | projectFall2025.v3/projectFall2025/scripts/conv.py:110 | all-whitespace text vanishes |
| Text.FirstBreak | projectFall2025.v3/projectFall2025/scripts/conv.py:98 | the first line boundary of `splitlines()`, with none before it, or the end of the text |
| Text.SplitLines | projectFall2025.v3/projectFall2025/scripts/conv.py:98 | `splitlines()` yields lines that hold no boundary |
| Text.SplitWrittenLines | projectFall2025.v3/projectFall2025/scripts/conv.py:98 | a file written as `line + "\n"` for boundary-free lines splits back into exactly those lines |
| Text.BrokenLineSplits | projectFall2025.v3/projectFall2025/scripts/conv.py:98 | a written line holding a line break comes back as two lines |
| Text.FormatHexNoBreak | projectFall2025.v3/projectFall2025/scripts/conv.py:139 | the spelling of an address holds no line boundary |
| Matrix.FlattenLength | projectFall2025.v3/projectFall2025/scripts/conv.py:129 | an `h` by `w` array flattens to `h * w` values |
| Matrix.FlattenIndex | projectFall2025.v3/projectFall2025/scripts/conv.py:129 | cell `(r, c)` lands at position `r * w + c` of the flat order |
| Matrix.FlattenAt | projectFall2025.v3/projectFall2025/scripts/conv.py:129 | position `r * w + c` of the flat order holds cell `(r, c)` |
| Matrix.Zeros | projectFall2025.v3/projectFall2025/scripts/conv.py:219 | an `h` by `w` array of zeros |
| Matrix.Reshape | projectFall2025.v3/projectFall2025/scripts/conv.py:202 | a flat sequence of `h * w` values becomes `h` rows of `w` |
| Matrix.ReshapeCell | projectFall2025.v3/projectFall2025/scripts/conv.py:208 | cell `(r, c)` of the reshaped array is flat element `r * w + c` |
| Matrix.ReshapeI8 | projectFall2025.v3/projectFall2025/scripts/conv.py:202 | reshaping int8 values gives an int8 array |
| Matrix.FlattenReshape | projectFall2025.v3/projectFall2025/scripts/conv.py:202 | flattening undoes reshaping |
| Extract.SliceBound | projectFall2025.v3/projectFall2025/scripts/conv.py:202 | a slice bound lands inside the buffer and is kept when already inside |
| Extract.PySlice | projectFall2025.v3/projectFall2025/scripts/conv.py:202 | for bounds inside the buffer it is the plain slice; it is never longer than the buffer |
| Extract.Signed | projectFall2025.v3/projectFall2025/scripts/conv.py:202 | the int8 view keeps the length and views each byte as int8 |
| Extract.View | projectFall2025.v3/projectFall2025/scripts/conv.py:202 | a successful reshape gives an `h` by `w` int8 array |
| Extract.ReadKernelI8 | projectFall2025.v3/projectFall2025/scripts/conv.py:198-202 | a success is a 4x4 int8 array |
| Extract.ReadImageI8 | projectFall2025.v3/projectFall2025/scripts/conv.py:204-208 | a success is an `H` by `W` int8 array |
| Extract.ViewInside | projectFall2025.v3/projectFall2025/scripts/conv.py:204-208 | a window inside the buffer reads cell `(r, c)` from byte `off + r*w + c` as int8 |
| Extract.ReadKernelAt | projectFall2025.v3/projectFall2025/scripts/conv.py:198-202 | for an offset >= 0 the read fails, with the kernel error, exactly when 16 bytes do not fit; otherwise cell `(r, c)` is byte `off + 4r + c` as int8 |
| Extract.ReadKernelFromEnd | projectFall2025.v3/projectFall2025/scripts/conv.py:198-202 | a negative offset succeeds exactly between `-len` and -17 and then counts from the end; from -16 to -1 the reshape fails |
| Extract.ReadImageOutcome | projectFall2025.v3/projectFall2025/scripts/conv.py:204-208 | for an offset >= 0 the read fails, with the image error, exactly when `H*W` bytes do not fit; otherwise it is the in-buffer window |
| Conv.AddShifted | projectFall2025.v3/projectFall2025/scripts/conv.py:223 | one loop step adds `img[y+dy][x+dx] * k` to every accumulator cell |
| Conv.Accumulate | projectFall2025.v3/projectFall2025/scripts/conv.py:219-223 | the accumulator stays `(H-3)` by `(W-3)` through the 16 steps |
| Conv.AccumulateCell | projectFall2025.v3/projectFall2025/scripts/conv.py:221-223 | after `t` steps a cell holds the complete kernel rows below `t/4` and the first `t%4` products of row `t/4`; after 16 it is the whole window sum |
| Conv.AccumulateStep | projectFall2025.v3/projectFall2025/scripts/conv.py:223 | step `s` adds exactly the product for kernel cell `(s/4, s%4)` |
| Conv.StepIndex | projectFall2025.v3/projectFall2025/scripts/conv.py:221-222 | the step counter walks the kernel cells row by row |
| Conv.Conv4x4Valid | projectFall2025.v3/projectFall2025/scripts/conv.py:210-224 | fails, as too small, exactly when H < 4 or W < 4; otherwise the result is `(H-3)` by `(W-3)` |
| Conv.ConvCell | projectFall2025.v3/projectFall2025/scripts/conv.py:215-223 | cell `(y, x)` is the int32 wrap of the sum of `img[y+dy][x+dx] * ker[dy][dx]`, with the kernel not flipped |
| Conv.ProductBound | projectFall2025.v3/projectFall2025/scripts/conv.py:220-223 | a product of two int8 values is at most 16384 in magnitude |
| Conv.RowTermsBound | projectFall2025.v3/projectFall2025/scripts/conv.py:220-223 | `n` products of a kernel row are at most `16384 * n` in magnitude |
| Conv.RowsTermsBound | projectFall2025.v3/projectFall2025/scripts/conv.py:220-223 | `n` kernel rows contribute at most `65536 * n` in magnitude |
| Conv.ConvNoWrap | projectFall2025.v3/projectFall2025/scripts/conv.py:427 | for int8 inputs every cell is at most 16*128*128 in magnitude, so the int32 accumulator never wraps and the cell is the exact window sum |
| Arith.DivModUnique | projectFall2025.v3/projectFall2025/scripts/conv.py:242 | any split `x == q*w + r` with `0 <= r < w` is floor division's quotient and remainder |
| Arith.Wrap32 | projectFall2025.v3/projectFall2025/scripts/conv.py:233 | the int32 cast lands in int32, agrees with its input modulo 2^32, and keeps int32 values |
| Arith.DivTtz | projectFall2025.v3/projectFall2025/scripts/conv.py:267-273 | the quotient has the sign of the dividend |
| Arith.DivTtzIsTruncQuotient | projectFall2025.v3/projectFall2025/scripts/conv.py:267-273 | `DivTtz` is the quotient rounded toward zero, and no other value is |
| Arith.IdivTruncI32 | projectFall2025.v3/projectFall2025/scripts/conv.py:237-245 | fails exactly for a divisor <= 0, naming it; a success lies in int32 |
| Arith.IdivTruncIsDivTtz | projectFall2025.v3/projectFall2025/scripts/conv.py:237-245 | floor division moved up for a negative dividend with a remainder is division truncated toward zero |
| Arith.IdivRoundI32 | projectFall2025.v3/projectFall2025/scripts/conv.py:227-233 | fails exactly for a divisor <= 0, naming it; a success lies in int32 |
| Arith.RoundQuotientNearest | projectFall2025.v3/projectFall2025/scripts/conv.py:227-233 | the quotient is within half a divisor of `x/d` and has the sign of `x`; a tie rounds away from zero |
| Arith.HalfUpRound | projectFall2025.v3/projectFall2025/scripts/conv.py:230-231 | adding half the divisor before floor division rounds a non-negative value to nearest, ties up |
| Stages.ActivationOf | projectFall2025.v3/projectFall2025/scripts/conv.py:247-255 | an unknown name is refused under its own spelling |
| Stages.Activate | projectFall2025.v3/projectFall2025/scripts/conv.py:251-254 | non-negative values pass unchanged and a negative value moves toward 0 without passing it; the identity changes nothing and ReLU never yields a negative |
| Stages.ApplyActivation | projectFall2025.v3/projectFall2025/scripts/conv.py:247-255 | fails exactly for an unknown name; otherwise keeps the shape and applies the selected activation to every cell |
| Stages.ActivationNames | projectFall2025.v3/projectFall2025/scripts/conv.py:248-253 | the accepted names are the empty one and, in any case, none, relu, lrelu, leaky, leaky_relu and leaky-relu; the identity is exactly the empty name or any-case none |
| Stages.ReluIsMax | projectFall2025.v3/projectFall2025/scripts/conv.py:251-252 | ReLU is `max(x, 0)` |
| Stages.LeakyQuarter | projectFall2025.v3/projectFall2025/scripts/conv.py:253-254 | leaky ReLU keeps `x >= 0` and maps a negative `x` to its quarter truncated toward zero |
| Stages.LeakyExamples | projectFall2025.v3/projectFall2025/scripts/conv.py:254 | -9 goes to -2, not the floor -3; -3 goes to 0 |
| Stages.ReluIdempotent | projectFall2025.v3/projectFall2025/scripts/conv.py:251-252 | ReLU applied twice equals ReLU applied once |
| Stages.Map | projectFall2025.v3/projectFall2025/scripts/conv.py:252-254 | an element-wise activation keeps the shape and maps each cell |
| Stages.ZeroPad | projectFall2025.v3/projectFall2025/scripts/conv.py:257-264 | a pad <= 0 returns the input; otherwise the result is `(H+pad)` by `(W+pad)` |
| Stages.ZeroPadCorner | projectFall2025.v3/projectFall2025/scripts/conv.py:261-263 | the input sits at the top-left and every added cell, below or right, is 0 |
| Stages.ClipI8 | projectFall2025.v3/projectFall2025/scripts/conv.py:465 | the clip lands in int8, keeps int8 values and saturates at -128 and 127 |
| Stages.ClipMat | projectFall2025.v3/projectFall2025/scripts/conv.py:465 | clipping keeps the shape and clips every cell |
| Stages.PadColsToMultipleOf8 | projectFall2025.v3/projectFall2025/scripts/conv.py:66-81 | the width becomes the next multiple of 8, or stays when already one; the rows are kept |
| Stages.WidenedIsMultipleOf8 | projectFall2025.v3/projectFall2025/scripts/conv.py:70-74 | adding `8 - w%8` columns reaches a multiple of 8 |
| Stages.PadColsSpec | projectFall2025.v3/projectFall2025/scripts/conv.py:66-81 | the new width is the least multiple of 8 not below the old; old cells stay, new ones are 0, and padding twice equals padding once |
| Pooling.BlockMax | projectFall2025.v3/projectFall2025/scripts/conv.py:349 | the maximum is one of the block's four cells and no smaller than any of them |
| Pooling.Grid | projectFall2025.v3/projectFall2025/scripts/conv.py:286-287 | block `(i, j)` is `a[2i:2i+2, 2j:2j+2]` |
| Pooling.Blocks2x2Grid | projectFall2025.v3/projectFall2025/scripts/conv.py:275-287 | fails exactly for a non-square input (first) or an odd side; otherwise it is the `N/2` by `N/2` block grid |
| Pooling.SumEach2x2 | projectFall2025.v3/projectFall2025/scripts/conv.py:289-297 | each cell is the sum of the four cells of its block |
| Pooling.QuarterEach | projectFall2025.v3/projectFall2025/scripts/conv.py:326-327 | each cell is its sum wrapped to int32 and then divided by 4 truncating toward zero |
| Pooling.AvgPool4x4Stride4ValidI32 | projectFall2025.v3/projectFall2025/scripts/conv.py:318-327 | a success is a rectangular array |
| Pooling.AvgPoolOutcome | projectFall2025.v3/projectFall2025/scripts/conv.py:318-327 | below two rows or columns the result is empty; otherwise it fails for a non-square input or an odd side, else gives `N/2` by `N/2` cells, each its block sum divided by 4 toward zero, as `idiv_trunc_i32` would |
| Pooling.AvgPoolExamples | projectFall2025.v3/projectFall2025/scripts/conv.py:326 | block sums -7 and 7 give -1 and 1 |
| Pooling.AvgPoolOneBlock | projectFall2025.v3/projectFall2025/scripts/conv.py:318-327 | a 2x2 input pools to its block sum divided by 4 toward zero |
| Pooling.Pool2x2Stride2TtzAvg | projectFall2025.v3/projectFall2025/scripts/conv.py:300-316 | no whole block returns the input; otherwise an odd last row or column is dropped and each block sum is divided by 4 toward zero |
| Pooling.MaxPool | projectFall2025.v3/projectFall2025/scripts/conv.py:342-349 | no whole block returns the input; otherwise each cell is the maximum of its block |
| Pooling.Pool2x2Stride2 | projectFall2025.v3/projectFall2025/scripts/conv.py:330-350 | fails exactly for a mode outside none/avg/max in any case; empty or any-case none returns the input; any-case "avg" gives the truncating average pool and "max" the block-maximum pool |
| Pooling.AvgPoolsAgree | projectFall2025.v3/projectFall2025/scripts/conv.py:300-327 | on an even square whose block sums fit in int32, the pool `main` calls equals the avg mode of `pool_2x2_stride2` |
| HexDecode.HexRun | projectFall2025.v3/projectFall2025/scripts/conv.py:13 | the longest run of hex digits at the front of the text |
| HexDecode.HexRunOf | projectFall2025.v3/projectFall2025/scripts/conv.py:13 | digits followed by a non-digit form a run of exactly their length |
| HexDecode.MatchLine | projectFall2025.v3/projectFall2025/scripts/conv.py:13 | a match is leading whitespace, `@`, one or more address digits (group 1) and a rest of at least two characters starting with whitespace and holding only hex digits and whitespace; every such line matches (MatchLineOf) |
| HexDecode.MatchLineOf | projectFall2025.v3/projectFall2025/scripts/conv.py:13 | every line of the pattern's shape matches, with its digits as group 1: leading tabs or spaces, whitespace inside the data and trailing whitespace included |
| HexDecode.LeadingSpaceIgnored | projectFall2025.v3/projectFall2025/scripts/conv.py:13 | leading whitespace before a non-space does not change whether or how a line matches |
| HexRoundTrip.OddDataRefused | projectFall2025.v3/projectFall2025/scripts/conv.py:103-112 | a line `@<address digits> <hex>` with an odd number of data digits is refused, and the error names that raw line |
| HexRoundTrip.OddAddressLine | projectFall2025.v3/projectFall2025/scripts/conv.py:111-112 | the line `@1 f`, which a comment holding a line break can leave behind, is refused as an odd digit count naming that line |
| HexDecode.MatchLineShape | projectFall2025.v3/projectFall2025/scripts/conv.py:13 | a matching line is leading whitespace, `@`, the address digits and the rest |
| HexDecode.ParseLine | projectFall2025.v3/projectFall2025/scripts/conv.py:103-115 | an odd digit count is reported with the raw line |
| HexDecode.NoAtNoMatch | projectFall2025.v3/projectFall2025/scripts/conv.py:13 | text without `@` never matches |
| HexDecode.StripNoAt | projectFall2025.v3/projectFall2025/scripts/conv.py:103 | stripping adds no `@` |
| HexDecode.LineWithoutAtSkipped | projectFall2025.v3/projectFall2025/scripts/conv.py:103-108 | a line with no `@` before any `//` (blank, comment-only or other text) is skipped |
| HexDecode.SkippedLineIgnored | projectFall2025.v3/projectFall2025/scripts/conv.py:104-108 | a skipped line changes neither the records nor the loaded buffer |
| HexDecode.ParseLines | projectFall2025.v3/projectFall2025/scripts/conv.py:102 | one outcome per line |
| HexDecode.ParseLinesAt | projectFall2025.v3/projectFall2025/scripts/conv.py:102 | outcome `i` is the parse of line `i` |
| HexDecode.FirstOdd | projectFall2025.v3/projectFall2025/scripts/conv.py:111-112 | the first line with an odd digit count, no such line before it |
| HexDecode.CollectOutcome | projectFall2025.v3/projectFall2025/scripts/conv.py:102-118 | the loop fails exactly when some line has an odd digit count, naming the first; otherwise it gives the records of the matching lines in order |
| HexDecode.ParseAllOutcome | projectFall2025.v3/projectFall2025/scripts/conv.py:102-118 | the failure names the raw text of the first odd line |
| HexDecode.ParseAllCons | projectFall2025.v3/projectFall2025/scripts/conv.py:115 | a record line in front of cleanly parsing lines puts its record first |
| HexDecode.MaxEnd | projectFall2025.v3/projectFall2025/scripts/conv.py:116-118 | the largest end over the records, reached by one of them, and 0 for none |
| HexDecode.Write | projectFall2025.v3/projectFall2025/scripts/conv.py:125 | writing a record keeps the buffer length |
| HexDecode.WriteAll | projectFall2025.v3/projectFall2025/scripts/conv.py:124-125 | writing all records keeps the buffer length |
| HexDecode.LoadOutcome | projectFall2025.v3/projectFall2025/scripts/conv.py:92-126 | loading fails on the first odd line, or with no record; otherwise the buffer is `max_end` long with every record written in order |
| HexDecode.Load | projectFall2025.v3/projectFall2025/scripts/conv.py:92-126 | a failure is an odd line of the file, named by its raw text, or the absence of any record (full outcome in LoadOutcome) |
| HexDecode.FileOfLines | projectFall2025.v3/projectFall2025/scripts/conv.py:97-98 | a file written one boundary-free line at a time loads as its lines |
| HexDecode.WriteAllUntouched | projectFall2025.v3/projectFall2025/scripts/conv.py:123-125 | a byte no record covers keeps its value |
| HexDecode.WriteAllLastWins | projectFall2025.v3/projectFall2025/scripts/conv.py:124-125 | a covered byte holds the value of the last record covering it |
| HexDecode.BuildUnwrittenIsZero | projectFall2025.v3/projectFall2025/scripts/conv.py:123-126 | in the loaded buffer a byte no record covers is 0 |
| HexDecode.BuildLastWriteWins | projectFall2025.v3/projectFall2025/scripts/conv.py:123-126 | in the loaded buffer later lines overwrite earlier ones |
| HexEncode.StylesWellSpaced | projectFall2025.v3/projectFall2025/scripts/conv.py:175 | both writers put only spaces before `@` and at least one space after the address |
| HexEncode.CommentTail | projectFall2025.v3/projectFall2025/scripts/conv.py:176-177 | the tail is empty or starts with `  //` |
| HexEncode.ChunkLines | projectFall2025.v3/projectFall2025/scripts/conv.py:160-179 | there are lines exactly when there is data |
| HexEncode.ChunkLineCount | projectFall2025.v3/projectFall2025/scripts/conv.py:162 | one line per started `w`-byte slice |
| HexEncode.WriteHexdumpFromLittle | projectFall2025.v3/projectFall2025/scripts/conv.py:146-179 | refuses a width that is not a multiple of 8 and a width of 0; a negative multiple of 8 writes nothing; otherwise the chunked lines from `start` |
| HexEncode.Addr8Lines | projectFall2025.v3/projectFall2025/scripts/conv.py:132-141 | one line per started 8-byte chunk |
| HexEncode.HexdumpLine | projectFall2025.v3/projectFall2025/scripts/conv.py:168-177 | one hexdump line: address, per-word reversed hex, comment on the first line only (read back in HexdumpLineReadsBack) |
| HexEncode.StylesUnbroken | projectFall2025.v3/projectFall2025/scripts/conv.py:140 | neither writer's fixed text holds a line boundary |
| HexEncode.HexdumpLineUnbroken | projectFall2025.v3/projectFall2025/scripts/conv.py:175-178 | a hexdump line is one physical line when the comment holds no line boundary |
| HexEncode.HexdumpLinesUnbroken | projectFall2025.v3/projectFall2025/scripts/conv.py:158-178 | every line of the hexdump writer is free of line boundaries when the comment is |
| HexEncode.Addr8LinesUnbroken | projectFall2025.v3/projectFall2025/scripts/conv.py:128-141 | every line of the 8-byte writers is free of line boundaries |
| HexEncode.FormatLineSplit | projectFall2025.v3/projectFall2025/scripts/conv.py:175 | a line is its prefix followed by the hex text |
| HexEncode.Addr8FirstLine | projectFall2025.v3/projectFall2025/scripts/conv.py:140 | the first line is its prefix and 16 digits |
| HexEncode.Addr8Tail | projectFall2025.v3/projectFall2025/scripts/conv.py:133-141 | line `k > 0` is a line of the data after the first chunk |
| HexEncode.Addr8LineAt | projectFall2025.v3/projectFall2025/scripts/conv.py:140-141 | line `k` carries address `addr + 8k` and exactly 16 hex digits |
| HexEncode.WriteMemAddr8FromU8 | projectFall2025.v3/projectFall2025/scripts/conv.py:128-141 | one line per started 8-byte chunk |
| HexEncode.WriteMemAddr8FromI8 | projectFall2025.v3/projectFall2025/scripts/conv.py:143-144 | one line per started 8 values |
| HexRoundTrip.FrontPadTail | projectFall2025.v3/projectFall2025/scripts/conv.py:163-166 | the padded data fills whole lines and adds fewer than `w` bytes |
| HexRoundTrip.FrontPadTailAligned | projectFall2025.v3/projectFall2025/scripts/conv.py:163-166 | the padded data is whole lines, and data already in whole lines is unchanged |
| HexRoundTrip.MaxEndTiling | projectFall2025.v3/projectFall2025/scripts/conv.py:116-118 | records tiling `p` from `base` end at `base + len(p)` |
| HexRoundTrip.WriteAllTiling | projectFall2025.v3/projectFall2025/scripts/conv.py:124-125 | writing records that tile `p` from `base` puts `p` there and keeps the rest |
| HexRoundTrip.BuildTiling | projectFall2025.v3/projectFall2025/scripts/conv.py:120-126 | records tiling `p` from `base` load as `base` zeros and `p` |
| HexRoundTrip.CutAndStrip | projectFall2025.v3/projectFall2025/scripts/conv.py:103 | a writer line, with or without its comment, is cut and stripped to `@`, address, separator and hex |
| HexRoundTrip.CutAndStripParts | projectFall2025.v3/projectFall2025/scripts/conv.py:103 | the cut-and-strip result for the parts of a writer line |
| HexRoundTrip.SpacesThenHex | projectFall2025.v3/projectFall2025/scripts/conv.py:13 | spaces then hex digits fit the group-2 class |
| HexRoundTrip.MatchWord | projectFall2025.v3/projectFall2025/scripts/conv.py:13 | the pattern splits `@digits spaces hex` after the digits |
| HexRoundTrip.MatchCore | projectFall2025.v3/projectFall2025/scripts/conv.py:13 | a writer line matches with its address digits as group 1 |
| HexRoundTrip.ParseFormatted | projectFall2025.v3/projectFall2025/scripts/conv.py:103-115 | any writer line, comment or not, parses to its address and the per-word reversal of the bytes it spells |
| HexRoundTrip.TilingCons | projectFall2025.v3/projectFall2025/scripts/conv.py:162-163 | a full line in front of the rest tiles as its record first |
| HexRoundTrip.FrontPadTailCons | projectFall2025.v3/projectFall2025/scripts/conv.py:163-166 | the padded data is the padded first line followed by the padded rest |
| HexRoundTrip.ParseFormattedLe | projectFall2025.v3/projectFall2025/scripts/conv.py:168-177 | a hexdump line spelling the word-reversed slice parses back to that slice |
| HexRoundTrip.DecodeChunkLines | projectFall2025.v3/projectFall2025/scripts/conv.py:160-179 | lines of a writer whose lines read back decode to the tiling of the front-padded data |
| HexRoundTrip.HexdumpLineReadsBack | projectFall2025.v3/projectFall2025/scripts/conv.py:168-177 | every hexdump line, with its comment or not, reads back as the slice it was written from |
| HexRoundTrip.TilingFront | projectFall2025.v3/projectFall2025/scripts/conv.py:162-166 | the tiling of front-padded data starts with its padded first line |
| HexRoundTrip.ReverseThenPad | projectFall2025.v3/projectFall2025/scripts/conv.py:135-138 | a chunk reversed and then zero-filled at its end reads back as zeros then the chunk |
| HexRoundTrip.ReversePer8Front | projectFall2025.v3/projectFall2025/scripts/conv.py:84-90 | the per-word reversal begins with the first word reversed and continues with the reversal of the rest |
| HexRoundTrip.DecodeAddr8Lines | projectFall2025.v3/projectFall2025/scripts/conv.py:132-141 | little-endian 8-byte lines decode to the tiling of the front-padded data |
| HexRoundTrip.Addr8BigIsLittle | projectFall2025.v3/projectFall2025/scripts/conv.py:133-138 | writing the chunks in order gives the same lines as writing the per-word reversal of the data with every chunk reversed |
| HexRoundTrip.LoadOfTiling | projectFall2025.v3/projectFall2025/scripts/conv.py:120-126 | lines decoding to a tiling load as `base` zeros and the tiled bytes |
| HexRoundTrip.HexdumpRoundTrip | projectFall2025.v3/projectFall2025/scripts/conv.py:146-179 | for a comment free of line boundaries, loading the file the hexdump writer writes gives `start` zero bytes and the data, a short last line's bytes at the high end of that line |
| HexRoundTrip.HexdumpRoundTripExact | projectFall2025.v3/projectFall2025/scripts/conv.py:146-179 | for a comment free of line boundaries and data that fills whole lines, the file round trip is exact and the comment is lost |
| HexRoundTrip.ShortLineAtHighEnd | projectFall2025.v3/projectFall2025/scripts/conv.py:164-166 | a short last line reads back with zeros below its bytes |
| HexRoundTrip.MemAddr8RoundTrip | projectFall2025.v3/projectFall2025/scripts/conv.py:128-141 | a little-endian 8-byte file, as lines and as text, loads back as the bytes, exactly for whole words, with a short last word's bytes at its high end |
| HexRoundTrip.MemAddr8BigEndian | projectFall2025.v3/projectFall2025/scripts/conv.py:135 | with any endian other than the exact word little, the file loads with each 8-byte word reversed |
| HexRoundTrip.Addr8Loads | projectFall2025.v3/projectFall2025/scripts/conv.py:132-141 | little-endian 8-byte lines from address 0 load as the front-padded data |
| HexRoundTrip.Addr8LoadsBig | projectFall2025.v3/projectFall2025/scripts/conv.py:132-141 | big-endian 8-byte lines from address 0 load as the front-padded per-word reversal |
| Packer.PlanAxis | projectFall2025.v3/projectFall2025/scripts/img2svmem.py:74-112 | kept range inside the axis and kept plus added zeros equal the target; growing keeps all, shrinking keeps `t` and adds none |
| Packer.Frame | projectFall2025.v3/projectFall2025/scripts/img2svmem.py:114-115 | zero padding adds the given rows and columns |
| Packer.CropCols | projectFall2025.v3/projectFall2025/scripts/img2svmem.py:89-93 | cropped cell `(i, j)` is original cell `(i, from + j)` |
| Packer.PadOrTruncate | projectFall2025.v3/projectFall2025/scripts/img2svmem.py:67-116 | the result is exactly `Ht` rows by `Wt` columns |
| Packer.Fit | projectFall2025.v3/projectFall2025/scripts/img2svmem.py:78-116 | the result has the planned size along both axes |
| Packer.PadOrTruncateCell | projectFall2025.v3/projectFall2025/scripts/img2svmem.py:67-116 | a cell inside the kept block, shifted by the zeros before and the crop, is the original pixel; any other cell is 0 |
| Packer.FitCell | projectFall2025.v3/projectFall2025/scripts/img2svmem.py:114-116 | each result cell is a kept pixel or 0 |
| Packer.KeptCells | projectFall2025.v3/projectFall2025/scripts/img2svmem.py:86-112 | after both crops cell `(i, j)` is the pixel at the crop start plus `(i, j)` |
| Packer.DefaultKeepsTopLeft | projectFall2025.v3/projectFall2025/scripts/img2svmem.py:76-116 | with the default right,bottom the image stays top-left: cropping keeps the first rows and columns and new cells are 0 |
| Packer.BothSidesCentre | projectFall2025.v3/projectFall2025/scripts/img2svmem.py:79-107 | with both sides, growing puts floor(d/2) zeros before and the rest after; shrinking crops floor(e/2) from the start and the rest from the end |
| Packer.FirstSideOnly | projectFall2025.v3/projectFall2025/scripts/img2svmem.py:82-110 | only left (or top): growing adds every zero before; shrinking keeps the last `t` |
| Packer.KernelPreset | projectFall2025.v3/projectFall2025/scripts/img2svmem.py:134-162 | every preset is 4x4 with entries in {-1, 0, 1}; an unknown name is refused under its lower-case spelling |
| Packer.PresetNames | projectFall2025.v3/projectFall2025/scripts/img2svmem.py:136-161 | the four names are accepted in any case, the empty name is box, box is all ones, nothing else is accepted |
| Packer.Quantize | projectFall2025.v3/projectFall2025/scripts/img2svmem.py:164-169 | the result is -1, 0 or 1 |
| Packer.QuantizeSpec | projectFall2025.v3/projectFall2025/scripts/img2svmem.py:166-168 | above 0.5 gives 1 and below -0.5 gives -1, both ways; plus and minus 0.5 give 0; -1, 0 and 1 are kept |
| Packer.QuantizeTrinary | projectFall2025.v3/projectFall2025/scripts/img2svmem.py:164-169 | keeps the shape and quantizes each cell |
| Packer.KernelToI8Bytes | projectFall2025.v3/projectFall2025/scripts/img2svmem.py:171-174 | one byte per kernel cell |
| Packer.QuantizedFlat | projectFall2025.v3/projectFall2025/scripts/img2svmem.py:173 | the flattened quantized kernel holds only -1, 0 and 1 |
| Packer.KernelBytesAt | projectFall2025.v3/projectFall2025/scripts/img2svmem.py:171-174 | a 4x4 kernel gives 16 bytes, cell `(r, c)` at `4r + c`, with -1 as 0xFF, 0 as 0x00 and 1 as 0x01 |
| Packer.PackStream | projectFall2025.v3/projectFall2025/scripts/img2svmem.py:188-189 | the stream is the kernel bytes followed by every pixel plus 128 in uint8 |
| Packer.SaveAddr8WithKernel | projectFall2025.v3/projectFall2025/scripts/img2svmem.py:180-204 | one line per started 8-byte chunk of the stream |
| Packer.SaveLineAt | projectFall2025.v3/projectFall2025/scripts/img2svmem.py:194-203 | line `k` is `@`, the 8-digit address `8k`, two spaces and 16 hex digits |
| Packer.PackerLineAt | projectFall2025.v3/projectFall2025/scripts/img2svmem.py:202-203 | line `k` of the packer's style has the address `8k` prefix and 16 digits |
| Packer.ShiftedPixel | projectFall2025.v3/projectFall2025/scripts/img2svmem.py:188 | a shifted pixel is `(p + 128) mod 256` and reads back as int8 `p - 128` |
| Packer.AlignedLoads | projectFall2025.v3/projectFall2025/scripts/img2svmem.py:194-203 | whole little-endian words load back exactly |
| Packer.PackerLoads | projectFall2025.v3/projectFall2025/scripts/img2svmem.py:188-203 | with little endian and a whole number of words, conv.py loads the packer's lines and its file text as exactly the stream |
| Packer.PackerBigEndian | projectFall2025.v3/projectFall2025/scripts/img2svmem.py:197 | with an endian whose lower case is not little, conv.py loads each 8-byte word of the stream reversed |
| Packer.ImageReadsBack | projectFall2025.v3/projectFall2025/scripts/img2svmem.py:188-189 | the image read at offset 16 holds every pixel minus 128 |
| Packer.KernelReadsBack | projectFall2025.v3/projectFall2025/scripts/img2svmem.py:171-174 | the kernel read at offset 0 of a buffer that starts with the kernel bytes is the quantized kernel |
| Packer.PackerToConv | projectFall2025.v3/projectFall2025/scripts/img2svmem.py:180-204 | across the scripts, conv.py loads the packer's file exactly, reads the quantized kernel at 0 and each pixel minus 128 at 0x10 |
| Pipeline.PostConv | projectFall2025.v3/projectFall2025/scripts/conv.py:433-451 | a success is rectangular |
| Pipeline.Activated | projectFall2025.v3/projectFall2025/scripts/conv.py:437-447 | fails exactly for an unknown activation; otherwise the activated convolution in the top-left corner of a `max(0, padding)`-grown array of zeros |
| Pipeline.ConvOf | projectFall2025.v3/projectFall2025/scripts/conv.py:410-427 | a success needs H, W >= 4 and is `(H-3)` by `(W-3)` |
| Pipeline.Run | projectFall2025.v3/projectFall2025/scripts/conv.py:403-458 | `main` loads the file text and runs the steps on the loaded bytes; a success is rectangular with a width that is a multiple of 8 |
| Pipeline.RunImage | projectFall2025.v3/projectFall2025/scripts/conv.py:409-458 | the steps after the load; a success is rectangular with a width that is a multiple of 8 (values in NoActivationKeepsConv and RunActivatedCell) |
| Pipeline.FlattenI8 | projectFall2025.v3/projectFall2025/scripts/conv.py:465-466 | flattening int8 values gives int8 values |
| Pipeline.PoolIgnored | projectFall2025.v3/projectFall2025/scripts/conv.py:450-451 | the `--pool` value does not change the result |
| Pipeline.ConvOfOutcome | projectFall2025.v3/projectFall2025/scripts/conv.py:410-427 | for offsets >= 0 the steps fail in `main`'s order: image past the end, then kernel past the end, then an image below 4x4 |
| Pipeline.ActivatedNeedsEvenSquare | projectFall2025.v3/projectFall2025/scripts/conv.py:433-451 | with any activation but the exact word none, the pool refuses a non-square array and then an odd padded side |
| Pipeline.NoneIsCaseSensitive | projectFall2025.v3/projectFall2025/scripts/conv.py:433 | `none` skips the pool but `NONE` runs it and refuses a non-square array |
| Pipeline.NoActivationKeepsConv | projectFall2025.v3/projectFall2025/scripts/conv.py:427-458 | with `--act none` the final array computed from the loaded bytes is the convolution output widened with zero columns to a multiple of 8 |
| Pipeline.ConvOfBounded | projectFall2025.v3/projectFall2025/scripts/conv.py:426-427 | every cell of the convolution `main` computes lies within 16 * 128 * 128 in magnitude |
| Pipeline.ActivatedBounded | projectFall2025.v3/projectFall2025/scripts/conv.py:437-447 | activation and padding keep every cell within the convolution's bound |
| Pipeline.PoolNoWrap | projectFall2025.v3/projectFall2025/scripts/conv.py:451 | with cells within 262144, each 2x2 sum lies within 4 * 262144, so the pool's int32 cast changes nothing and a cell is the truncated quarter of its block sum |
| Pipeline.RunActivatedCell | projectFall2025.v3/projectFall2025/scripts/conv.py:433-458 | on the activated path, from the loaded bytes, a final cell is the truncated quarter of its block sum of the padded activated convolution, which never wraps, left of the pooled width, and 0 in the added columns; too few rows or columns give an empty result |
| Pipeline.I8LinesReadBack | projectFall2025.v3/projectFall2025/scripts/conv.py:143-144 | int8 values written in whole 8-byte lines to a file load back to bytes whose int8 view is the values |
| Pipeline.OutMemLines | projectFall2025.v3/projectFall2025/scripts/conv.py:463-466 | the `--out-mem` lines exist exactly when `main` succeeds, one per started 8 clipped values (read back in OutMemReadsBack) |
| Pipeline.OutMemOf | projectFall2025.v3/projectFall2025/scripts/conv.py:463-466 | one `--out-mem` line per started 8 clipped values of the final array (read back in OutMemOfReadsBack) |
| Pipeline.OutMemOfReadsBack | projectFall2025.v3/projectFall2025/scripts/conv.py:463-466 | for a final array whose width is a multiple of 8, the `--out-mem` file text loads back, viewed as int8, to exactly the clipped values in row-major order |
| Pipeline.OutMemReadsBack | projectFall2025.v3/projectFall2025/scripts/conv.py:463-466 | the `--out-mem` file text loads back, viewed as int8, to exactly the clipped final values in row-major order |

## Left out

- File, directory and console I/O are not modelled: `open`, `os.makedirs`, the summary prints, `dump_int8_array`, `step_paths`. The writers yield the text lines they would write, without the newline; `Text.WriteLines` gives the text of the file, each line followed by `\n`, and `HexDecode.LoadFile` reads such text.
- PNG loading, grayscale conversion and resizing (PIL), and the PNG writers with their `np.rint` display scaling, are foreign-library and floating-point display code.
- The `--emit` branch of `main` is not modelled. It only writes PNGs and an optional input dump, whose line builder is `HexEncode.WriteHexdumpFromLittle`.
- Argument parsing is not modelled: `argparse`, `parse_dims`, `parse_hex_or_int`, `parse_target`, glob expansion, `process_one` and the CSV kernel branch. `parse_kernel_values` is left out too. Kernels enter the model as `real` matrices.
- UTF-8 encoding and decoding with `errors="ignore"` are not modelled: the file is its text. For the text the writers produce this is the identity. Newline translation of text-mode files on platforms other than POSIX is left out too.
- Packer.PadWhere: the comma-list parsing of `pad_where` into a set is not modelled. The four flags stand for the words it contains, and `DefaultPads` stands for the empty string.
- Negative image dimensions and negative pad targets are not modelled: sizes are `nat`. `parse_dims` and `parse_target` would accept a minus sign, and numpy would then fail.
- Text.Lower: only A-Z and the Kelvin sign are mapped. That decides every comparison with the ASCII option names exactly. But the lower-case spelling of a non-ASCII name carried by `UnknownPreset` may differ from Python's.
- Float division followed by an int cast (conv.py:254, 271-272, 326) is modelled as integer division truncating toward zero. This is exact for integers of int32 size divided by 4, which are all that occur. It is not exact for larger integers, which a double cannot represent.
- Pooling.Pool2x2Stride2TtzAvg: the `np.trunc` on a float input is not modelled. The model's inputs are integers, for which it is the identity. The `max` branch likewise takes integer input.
- A matrix with no rows counts as 0 columns wide, whereas numpy keeps the width of a `(0, W)` array. No path of `main` produces such an array.
- `alpha` of `apply_activation` is not modelled because the code never reads it.
- `clamp_final_to_int8`, `viz_to_u8` and `save_png_u8` are display helpers and are not modelled. The int8 clip `main` applies before `--out-mem` is `Stages.ClipMat`.
- Text.IsSpace: the whitespace of Python's `\s` and `str.isspace()` is listed code point by code point. The line grammar uses it; it is not derived from the Unicode database.
