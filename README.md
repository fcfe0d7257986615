# Sky chart helpers and the Yale Bright Star Catalogue loader

This project models two parts of a small Python program that plots satellite passes
and stars on a polar chart of the local sky.

- **The sky chart's coordinate helpers** (`SkyPlot.py`).
  - `_mapr` turns an altitude into the chart's radius `90 - altitude`, so the zenith is
    at the centre and the horizon on the rim.
  - `_d2r` turns azimuth degrees into radians.
  - `_mag2size` turns a star's visual magnitude into a marker size. It uses `numpy.interp`
    over the table of magnitudes `[-1, 0, 1, 2, 3, 4]` and sizes `[20, 15, 10, 7, 4, 1.5]`,
    and clamps outside it.
  - `add_points` applies the two conversions before it draws.
- **The binary catalogue loader** (`Star.load_bsc`).
  - A file is a 28-byte header unpacked with `'>iiii4?ii'`, followed by 32-byte records
    unpacked with `'>fdd2chff'`.
  - `_num_datagrams` asserts that the body is a whole number of records and counts them.
  - A loop unpacks record `index` from `offset = index * 32`.

The modules are:

- `BigEndian`: unsigned and two's-complement big-endian integers.
- `StructCodec`: Python `struct` under the `>` prefix, for the six format characters the
  catalogue uses (`i h ? c f d`). It covers field widths, offsets, `calcsize`, unpacking
  and packing, which is its inverse for the model's raw-bit float fields.
- `Star`: the catalogue framing, the record loop as a method (`LoadBsc`) proved against
  the decoding function `DecodeCatalog`, and round trips between the file and the
  catalogue it decodes to.
- `Interpolation`: `numpy.interp` for a scalar, over exact reals.
- `SkyPlot`: `_mapr`, `_d2r`, `_mag2size` and the conversions of `add_points`.
- `Results`: `Option` and `Result`, for the exceptions the program raises.

Both helpers that accept "a number or an iterable" are modelled twice: once on a single
value and once on a sequence, element by element. Floating-point fields of the
catalogue (`f`, `d`) are kept as their raw bit patterns. Chart arithmetic is done over
exact reals, with `numpy.pi` an unspecified positive constant `Pi`.

The field at offset 22 of a record is the `h` of `'>fdd2chff'`, a signed 16-bit
integer. The field widths 4 + 8 + 8 + 1 + 1 + 2 + 4 + 4 add up to 32, so records are
32 bytes apart with no padding.

Some arithmetic facts used only inside proofs carry no row of their own. `ShareInUnit`
and `NegativeTimesPositive` serve `LerpBetween`, `ProductSign` serves `D2RStrictlyIncreasing`, `WholeRecords`
serves `CatalogRoundTrip`, and `RecordInBody` serves `RecordSliceUnpacks`.

## Model

| member | source | states |
|---|---|---|
| BigEndian.BeUint | Star.py:42 | a big-endian unsigned value of k bytes is below 256^k |
| BigEndian.BeBytes | Star.py:42 | writing n in k big-endian bytes gives exactly k bytes |
| BigEndian.BeUintOfBeBytes | Star.py:42 | reading back k written bytes gives n again, for every n < 256^k |
| BigEndian.BeBytesOfBeUint | Star.py:42 | writing back the value of any byte string gives the same bytes |
| BigEndian.Half | Star.py:42 | half of 256^k, the bound of k-byte two's complement |
| BigEndian.Signed | Star.py:42 | a k-byte two's-complement value lies in [-256^k/2, 256^k/2) |
| BigEndian.SignedBytes | Star.py:42 | encoding a value in range as k two's-complement bytes gives k bytes |
| BigEndian.SignedOfSignedBytes | Star.py:42 | decoding the encoded two's-complement bytes gives the value back |
| BigEndian.SignedBytesOfSigned | Star.py:42 | encoding a decoded two's-complement value gives the same bytes back |
| StructCodec.OffsetMono | Star.py:42 | field offsets never decrease along a format (no field overlaps a later one) |
| StructCodec.DecodeField | Star.py:55 | decoding a field of the right width yields a value of that field's kind and range (int32, int16, bool, 1-byte char, float bits) |
| StructCodec.EncodeField | Star.py:55 | packing a field yields exactly its standard width |
| StructCodec.DecodeEncodeField | Star.py:55 | unpacking a packed field gives the value back, for every value that fits its code |
| StructCodec.EncodeDecodeField | Star.py:55 | packing an unpacked field gives the bytes back, for every canonical field (a bool byte of 0 or 1) |
| StructCodec.FieldBytes | Star.py:55 | field k's bytes lie inside the buffer and are as wide as its code |
| StructCodec.UnpackFirst | Star.py:55 | decoding the first n fields yields n values |
| StructCodec.UnpackAll | Star.py:55 | unpacking yields one value per format code |
| StructCodec.UnpackFirstAt | Star.py:55 | value k of the first n decoded fields is field k decoded from its own bytes |
| StructCodec.UnpackAllAt | Star.py:55 | element k of the tuple is decoded from the bytes [Offset(k), Offset(k+1)), and those bytes are the field's width |
| StructCodec.UnpackAllFits | Star.py:55 | every element of the tuple fits its format code |
| StructCodec.Unpack | Star.py:42 | `struct.unpack` succeeds exactly when the buffer has `calcsize` bytes; otherwise it fails, as `struct.error` does, and the model's `SizeMismatch` records the required size and also the given length; its tuple fits the format |
| StructCodec.ConcatFirstLength | Star.py:55 | concatenating pieces of the fields' widths gives Offset(n) bytes |
| StructCodec.ConcatFirstField | Star.py:55 | in a concatenation of field-width pieces, piece k sits at [Offset(k), Offset(k+1)) |
| StructCodec.FieldsFirst | Star.py:55 | cutting a buffer into its first n fields gives n pieces |
| StructCodec.FieldsFirstAt | Star.py:55 | piece k of the cut is field k's bytes |
| StructCodec.ConcatOfFields | Star.py:55 | the first n fields concatenated are the buffer's first Offset(n) bytes: the fields cover the buffer without gaps |
| StructCodec.EncodeFirst | Star.py:55 | packing the first n values gives n pieces |
| StructCodec.EncodeFirstAt | Star.py:55 | piece k is value k packed with code k |
| StructCodec.EncodeAllSized | Star.py:55 | every packed piece has its field's width |
| StructCodec.PackAll | Star.py:55 | `struct.pack` output is `calcsize` bytes long |
| StructCodec.PackAllField | Star.py:55 | field k of a packed buffer is value k packed alone |
| StructCodec.UnpackOfPack | Star.py:55 | unpack(pack(vs)) == vs for every tuple that fits the format |
| StructCodec.PackOfUnpack | Star.py:55 | pack(unpack(bs)) == bs for every buffer whose bool bytes are 0 or 1 |
| StructCodec.BoolUnpackIsLossy | Star.py:42 | a `?` byte of 2 unpacks like a byte of 1, so the round trip needs canonical bool bytes |
| Star.SplitFile | Star.py:38-40 | `read(28)` then `read()` split the file into at most 28 header bytes and the rest, whose concatenation is the file |
| Star.NumDatagrams | Star.py:32-36 | the count exists exactly when the body length is a multiple of 32; count * 32 is the length; otherwise the assertion fails |
| Star.RecordAt | Star.py:54-55 | the slice `offset:offset+32` is 32 bytes long |
| Star.UnpackHeader | Star.py:42 | the unpacked header fits `'>iiii4?ii'` |
| Star.UnpackRecord | Star.py:55 | an unpacked record fits `'>fdd2chff'` |
| Star.DecodeRecords | Star.py:53-55 | a body of n records decodes to n tuples, each fitting the record format |
| Star.DecodeCatalog | Star.py:38-55 | the file decodes exactly when it has at least 28 bytes and a whole number of records after them; a short file fails in the header unpack (`struct.error`; the model records the required 28 and the given length); a partial record fails the assertion; the header fits its format and the number of records is (length - 28) / 32 |
| Star.DecodeCatalogOk | Star.py:38-55 | a well-formed file decodes to its first 28 bytes unpacked as the header and the rest as records |
| Star.RecordAtShift | Star.py:54-55 | record i + 1 of a body is record i of the body without its first record |
| Star.DecodeRecordsShift | Star.py:53-55 | decoded record i of a body is decoded record i - 1 of the body without its first record |
| Star.DecodeRecordsAt | Star.py:53-55 | decoded record i is the unpacked slice at offset i * 32 |
| Star.DecodeRecordsAppend | Star.py:53-55 | decoding two whole-record bodies one after the other decodes their concatenation |
| Star.DecodeRecordsExtend | Star.py:53-55 | the records before index + 1 are the records before index followed by record index |
| Star.RecordSliceUnpacks | Star.py:53-55 | each slice the loop hands to `struct.unpack` has the 32 bytes it needs and unpacks to record index |
| Star.LoadBsc | Star.py:29-55 | the loop-based loader returns exactly `DecodeCatalog(file)`: the header tuple and every record, in file order, or the error the source raises |
| Star.AsWrittenAlwaysRaises | Star.py:62-65 | the loader as written raises on every file: on a file with records at `ra.append()`, on a header-only file at `print(dat)` |
| Star.OneRecordFile | Star.py:53-65 | a 60-byte zero file decodes to one record, yet the loader as written raises on it |
| Star.HeaderOnlyFile | Star.py:32-36 | a 28-byte file has zero records and decodes to its header and no records |
| Star.ByteInOneRecord | Star.py:53-55 | each body byte lies in exactly one record slice, number p / 32 at position p % 32 |
| Star.RecordOffsets | Star.py:55 | the fields of `'>fdd2chff'` start at 0, 4, 12, 20, 21, 22, 24, 28 and end at 32 |
| Star.HeaderOffsets | Star.py:42 | the fields of `'>iiii4?ii'` start at 0, 4, 8, 12, 16..19, 20, 24 and end at 28 |
| Star.FormatSizes | Star.py:32-42 | `calcsize` is 28 for the header format and 32 for the record format |
| Star.RecordField | Star.py:55 | record field k is decoded from the bytes between its offset and the next one |
| Star.HeaderField | Star.py:42 | header field k is decoded from the bytes between its offset and the next one |
| Star.MagnitudeIsInt16At22 | Star.py:55 | record field 5 is the signed 16-bit big-endian value of bytes 22..23 |
| Star.HeaderFlags | Star.py:42 | header flag j is true exactly when byte 16 + j is nonzero |
| Star.HeaderCanonical | Star.py:42 | a header whose flag bytes are 0 or 1 is canonical |
| Star.PackRecords | Star.py:55 | packing n records gives n * 32 bytes |
| Star.DecodeOfPackRecords | Star.py:53-55 | decoding packed records gives them back |
| Star.CanonicalWithoutBool | Star.py:55 | in the model's raw-bit codec, every buffer of a format without `?` is canonical, in particular every record |
| Star.PackOfDecodeRecords | Star.py:53-55 | re-packing a decoded body gives it back byte for byte, in order |
| Star.CatalogRoundTrip | Star.py:38-55 | a file written as a packed header plus packed records decodes to exactly that header and those records |
| Star.HeaderRoundTrip | Star.py:42 | a header packs to 28 bytes that unpack to it again |
| Star.DecodeHeaderAndBody | Star.py:38-55 | a 28-byte header followed by whole records decodes to the unpacked header and the decoded body |
| Star.CatalogReencode | Star.py:38-55 | a well-formed file with 0/1 flag bytes is exactly its re-packed header and records |
| Interpolation.LerpShare | SkyPlot.py:45 | numpy's line `slope * (x - x0) + y0` is `y0 + (y1 - y0) * share` |
| Interpolation.LerpEnds | SkyPlot.py:45 | the line meets both samples |
| Interpolation.LerpBetween | SkyPlot.py:45 | between the samples, the line stays between any bounds of the two values |
| Interpolation.LerpAntitone | SkyPlot.py:45 | a falling line is non-increasing in x |
| Interpolation.InterpBelow | SkyPlot.py:44-45 | left of the first sample point the result is the first value |
| Interpolation.InterpAbove | SkyPlot.py:44-45 | right of the last sample point the result is the last value |
| Interpolation.SampleOrder | SkyPlot.py:41 | strictly increasing sample points are ordered pairwise |
| Interpolation.InterpAtKnot | SkyPlot.py:41-45 | at each sample point the result is its sample value |
| Interpolation.InterpOnSegment | SkyPlot.py:41-45 | between sample points i and i + 1 the result is the line through those two samples |
| Interpolation.InterpWithin | SkyPlot.py:44-45 | the result stays within any bounds of the sample values |
| Interpolation.NonIncreasingWithin | SkyPlot.py:42 | non-increasing values lie between the last and the first |
| Interpolation.InterpAntitone | SkyPlot.py:41-45 | with non-increasing sample values, interpolation is non-increasing in x |
| SkyPlot.MapRSeq | SkyPlot.py:24-25 | `[90-x for x in r]`: same length, and element i is 90 - r[i] |
| SkyPlot.MapRExamples | SkyPlot.py:22-27 | the zenith maps to 0, the horizon to 90, and -5 to 95 (no clamping) |
| SkyPlot.MapRInvolution | SkyPlot.py:26-27 | mapping twice gives the altitude back |
| SkyPlot.MapRReversesOrder | SkyPlot.py:26-27 | a higher altitude has a smaller radius, in both directions |
| SkyPlot.MapRSeqInvolution | SkyPlot.py:24-25 | mapping a sequence twice gives it back |
| SkyPlot.D2RSeq | SkyPlot.py:32-33 | `[t*np.pi/180 for t in theta]`: same length, element i converted |
| SkyPlot.D2RExamples | SkyPlot.py:34-35 | 0, 90, 180 and 360 degrees are 0, pi/2, pi and 2 pi |
| SkyPlot.D2RInverse | SkyPlot.py:34-35 | multiplying by 180 / pi gives the degrees back |
| SkyPlot.D2RStrictlyIncreasing | SkyPlot.py:34-35 | the conversion keeps strict order, in both directions |
| SkyPlot.D2RAdditive | SkyPlot.py:34-35 | the conversion of a sum is the sum of the conversions |
| SkyPlot.TableShape | SkyPlot.py:41-42 | six magnitudes, strictly increasing; six sizes, non-increasing, within [1.5, 20] |
| SkyPlot.Mag2Size | SkyPlot.py:38-45 | every marker size lies in [1.5, 20] |
| SkyPlot.Mag2SizeSeq | SkyPlot.py:45 | on an array of magnitudes: same length, element i is the size of magnitude i, within [1.5, 20] |
| SkyPlot.Mag2SizeAtTable | SkyPlot.py:41-45 | each magnitude of the table gets its size in the table |
| SkyPlot.Mag2SizeControlPoints | SkyPlot.py:41-42 | -1, 0, 1, 2, 3, 4 give 20, 15, 10, 7, 4, 1.5 |
| SkyPlot.Mag2SizeClamped | SkyPlot.py:44-45 | at most -1 gives 20; at least 4 gives 1.5 |
| SkyPlot.Mag2SizeOnSegment | SkyPlot.py:41-45 | between neighbouring table magnitudes, the size is on the line between their sizes |
| SkyPlot.Mag2SizeHalfway | SkyPlot.py:41-45 | magnitude 0.5 gets size 12.5 |
| SkyPlot.Mag2SizeNonIncreasing | SkyPlot.py:38-45 | a fainter star never gets a larger marker |
| SkyPlot.AddPoints | SkyPlot.py:75-78 | a trace exists exactly when az and alt have equal lengths; its angles are the converted azimuths and its radii the mapped altitudes, element by element |
| SkyPlot.AddPointsRecovers | SkyPlot.py:75-76 | the trace determines the observations: radii map back to the altitudes and angles times 180 / pi give the azimuths |
| SkyPlot.AddPointsExamples | SkyPlot.py:75-78 | (90, 90) and (0, 0) go to (pi/2, 0) and (0, 90); lengths 1 and 2 give no trace |

## Left out

- SkyPlot.MapR and SkyPlot.D2R are the scalar branches themselves (`90-r`, `theta*np.pi/180`, `SkyPlot.py:26-27`, `SkyPlot.py:34-35`). They carry no contract of their own; the lemmas about them do.
- Interpolation.Interp (`numpy.interp` at `SkyPlot.py:44-45`) and Interpolation.Lerp (numpy's segment formula `slope*(x-xp[j])+fp[j]`) carry no contract of their own. `InterpBelow`, `InterpAbove`, `InterpAtKnot`, `InterpOnSegment`, `InterpWithin`, `InterpAntitone`, `LerpShare`, `LerpEnds`, `LerpBetween` and `LerpAntitone` state what they compute.
- StructCodec.Width, StructCodec.Offset and StructCodec.CalcSize (the standard sizes under `>`, the field offsets, and `struct.calcsize` for the formats at `Star.py:42` and `Star.py:55`) carry no contract of their own. `OffsetMono`, `Star.RecordOffsets`, `Star.HeaderOffsets` and `Star.FormatSizes` state their values.
- Star.LoadBscAsWritten (`load_bsc` as written, `Star.py:29-65`) carries no contract of its own. `AsWrittenAlwaysRaises` and `OneRecordFile` state what it does.
- Plotting: `_init_plot`, `show`, the figure, the axis limits and ticks (`SkyPlot.py:47-67`), and the styling arguments of `add_points`. All of these are matplotlib calls. Only the two conversions `add_points` applies before plotting are modelled.
- `add_sat` and `add_stars` only choose colours, styles and marker sizes for `add_points`. Handing a list of sizes to matplotlib's `markersize` is matplotlib behaviour, which is not part of this model.
- SkyPlot.AddPoints: `None` stands for matplotlib's refusal of x and y sequences of different lengths. Matplotlib is not part of this model. `add_points` has no check of its own.
- SkyPlot.AddPoints: a scalar `az` and `alt` are covered as one-element sequences. The scalar branches of `_mapr` and `_d2r` are `MapR` and `D2R`.
- SkyPlot.D2R: `numpy.pi` is an unspecified positive constant. No property depends on its value.
- Floating point: the chart arithmetic is over exact reals, so rounding of `t*np.pi/180` and of `numpy.interp` is not modelled.
- Floating point: the `f` and `d` fields of the catalogue are kept as raw IEEE 754 bit patterns. They are not converted to numbers.
- StructCodec.PackOfUnpack, StructCodec.EncodeDecodeField, StructCodec.BoolUnpackIsLossy, Star.CanonicalWithoutBool, Star.PackOfDecodeRecords, Star.CatalogReencode: these round trips hold for the model's codec, which keeps `f` and `d` fields as raw bit patterns. Python's `struct` turns an `f` field into a double on unpack. That conversion quiets a signalling NaN, so Python's unpack-then-pack of an `f` field holding one sets bit 22 (`7f800001` comes back as `7fc00001`). In Python, `?` is therefore not the only code whose bytes a round trip can change.
- `numpy.interp` is modelled for scalar magnitudes with strictly increasing sample points. Array input is covered element by element (`Mag2SizeSeq`). NaN inputs and the `left`/`right`/`period` arguments are not part of this model.
- File I/O: the loader takes the file's bytes as its input. Opening and reading the file is not modelled.
- The `print` calls are not modelled.
- Skyfield: the `Angle` and `Star` objects built in the record loop and then discarded (`Star.py:58-60`) are not part of this model.
- Star.AsWrittenAlwaysRaises: assumes the skyfield calls at `Star.py:58-60` succeed. They pass `.hms` and `.dms` without calling them, and whether `skyfield.api.Star` then raises earlier is skyfield's behaviour, which is not part of this model. Either way a record file raises by `ra.append()`.
- SkyPlot.MapRSeq, SkyPlot.D2RSeq, SkyPlot.AddPoints: `_mapr` and `_d2r` are modelled for Python before 3.10, where `collections.Iterable` exists (`SkyPlot.py:24`, `SkyPlot.py:32`). From 3.10 on, that name is gone, so `_mapr`, `_d2r` and hence `add_points` raise `AttributeError`.
- Star.NumDatagrams, Star.DecodeCatalog: the assertion in `_num_datagrams` (`Star.py:34`) is modelled as enabled. Under `python -O` it is removed, `int(len(data) / 32)` rounds down, and a trailing partial record is silently ignored instead of failing.
- `Star.__init__` stores the observation and nothing in the model reads it.
- The seven column lists the loop starts to fill (`catid`, `ra`, ...) are not modelled. `LoadBsc` returns the records as decoded tuples instead.
- `_num_datagrams` divides in floating point (`int(len(data) / 32)`). The model divides exactly, which agrees for every length below 2^53 bytes.
- Python `struct` format characters other than `i h ? c f d`, and byte orders other than `>`, are not used by the catalogue and are not modelled.

## Findings

| source | as written | input that shows it | evidently intended | confidence | as-written member | corrected member |
|---|---|---|---|---|---|---|
| Star.py:62-65 | `ra.append()` is called without an argument, so the first record raises, at `ra.append()` (a `TypeError`) at the latest. With no records, `dat` is never bound, so `print(dat)` raises `UnboundLocalError`. `load_bsc` therefore never finishes. | a 60-byte file of zero bytes (28 header bytes and one record) | every record is unpacked and collected in file order | high; not executed | Star.AsWrittenAlwaysRaises | Star.LoadBsc |
