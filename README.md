# OpenJPEG Java wrapping: a Dafny model of its integer core

This project models the self-contained integer, bit and byte logic of the
OpenJPEG Java (JNI) wrapping. It covers the two C files
`JavaOpenJPEGDecoder.c` and `JavaOpenJPEGEncoder.c`, and proves properties of
that model.

The decoder side (`JavaOpenJPEGDecoder.c`):

- **Format detection** (`format_detect.dfy`, module `FormatDetect`):
  - magic-byte classification of a memory buffer, by
    - the JPEG 2000 signature box of ISO/IEC 15444-1 Annex I.5.1, or its last four bytes alone;
    - the SOC+SIZ marker pair of ISO/IEC 15444-1 sections A.4.1 and A.5.1;
  - extension classification through the two fixed tables of
    `ext_file_format` and `get_file_format`: last `.`, at most three letters,
    case-insensitive, first match wins;
  - the precedence rule of `infile_format`.
- **Memory stream** (`buffer_stream.dfy`, module `BufferStream`):
  - the `opj_buffer_info_t` cursor `{buf, cur, len}` as a class;
  - its read, write, skip and seek callbacks.
- **Colour space** (`images.dfy`, module `Images`):
  - the `opj_image_t` the wrappers exchange with the codec, as a class holding its planes;
  - the rule that fixes the colour space of a decoded image;
  - `clr_space`.
- **Pixel hand-over** (`pixel_pack.dfy`, module `PixelPack`):
  - the choice between the Java `image24`, `image8` and `image16` arrays;
  - the ARGB loop: bias of signed planes, round-half-up downscale with clamp;
  - the 8-bit gray loop, which truncates;
  - the 16-bit gray loop, which left-justifies.

The encoder side (`JavaOpenJPEGEncoder.c`):

- **Image import** (`pixel_unpack.dfy`, module `PixelUnpack`):
  - `loadImage`: the choice of plane count, colour space and precision from the depth;
  - the component-parameter loop;
  - the reference grid;
  - the copy loops (sign-extended bytes and shorts, packed ints split into three 8-bit channels);
  - round trips back through the decoder's hand-over.
- **Parameter rules** (`encoder_params.dfy`, module `EncoderParams`):
  - `give_progression`;
  - `initialise_4K_poc`;
  - `cinema_parameters`;
  - the integer part of `cinema_setup_encoder`;
  - the checks of `parse_cmdline_encoder`: the code-block size of ISO/IEC 15444-1 section A.6.1, the mode switch, exclusive allocation options, the lossless default and the tile origin.
  - `opj_cparameters_t` is a class, `Parameters`, whose methods update its
    fields in place. Each method is proved against a pure function on a
    value snapshot (`CParams`), and the properties are proved about those
    functions.

Shared definitions:

- `numeric.dfy` (module `Numeric`):
  - powers of two, standing in for the shifts;
  - the Java `byte`/`short`/`int` views (`int8`, `int16`, `int32`) of a C value, i.e. two's-complement truncation;
  - bits of a natural number;
  - the division lemmas the proofs use.
- `options.dfy` holds `Option`.

How the model represents the source:

- C `-1` results are `None`.
- The cursor `cur` is an offset from `buf`.
- Java host arrays are arrays of `int8`/`int16`/`int32`. A C value stored into one of them is truncated to that width.
- The image's reference grid `x0`, `y0`, `x1`, `y1` and a plane's subsampling `dx`, `dy` are OPJ_UINT32 fields. `loadImage` stores signed `int`s into them, so the model stores them reduced modulo 2^32. The `int` product `(width - 1) * sub_dx` is taken to wrap like the unsigned sum it joins.
- File names and extensions are strings without a NUL character, the only names a C string can hold. For a string with an embedded NUL, `strrchr` and `strncasecmp` would stop at the NUL; the model does not.
- Sample planes are `array<int>`.
- Every biased sample that is shifted is required to be non-negative. C's `>>` on a negative `int` is implementation-defined.

Quirks kept as written:

- `x1 = x0 + (w - 1) * dx + 1 + x0` counts the offset twice.
- In the two-plane ARGB path only red gets bias and downscale; green and blue take the raw sample.
- `has_rgb` is true only for exactly three planes, so four planes would read alpha through a null pointer. That case is excluded by a precondition.
- Five or more qualifying planes show only the first plane, opaque.
- All three allocation options together pass the conflict check.
- An unsigned 8-bit sample from 128 to 255 does not survive packing to a Java byte and loading back: the packer stores it as a signed byte and the loader sign-extends, so it returns as the sample minus 256.
- `get_file_format` has no `jpc` entry.
- A 4-byte JP2 signature file is JP2 for `infile_format` (its header is zero padded) but unrecognised for `buffer_format`.
- When a downscale's rounding bit is set, it rounds up. For example, the 9-bit value `0x1FF` with shift 1 gives `0x100`, which is then clamped to 255, and a 16-bit `0xFFFF` gives 255.

## Model

| member | source | states |
|---|---|---|
| FormatDetect.MagicFormat | wrapping/java/openjp2/JavaOpenJPEGDecoder.c:83-91 | JP2 exactly when the header starts with the 12-byte signature box or its 4-byte tail; J2K exactly when not JP2 and it starts with FF 4F FF 51; nothing else |
| FormatDetect.BufferFormat | wrapping/java/openjp2/JavaOpenJPEGDecoder.c:79-93 | fewer than 12 bytes is -1, otherwise the magic decision; never JPT |
| FormatDetect.SignatureBoxIsJp2 | wrapping/java/openjp2/JavaOpenJPEGDecoder.c:83-85 | a buffer beginning with the signature box is JP2 |
| FormatDetect.CodestreamIsJ2k | wrapping/java/openjp2/JavaOpenJPEGDecoder.c:87-88 | a buffer of 12 or more bytes beginning with SOC+SIZ is J2K |
| FormatDetect.LastDot | wrapping/java/openjp2/JavaOpenJPEGDecoder.c:105-108 | strrchr: no result iff there is no '.', else a '.' with none after it |
| FormatDetect.Extension | wrapping/java/openjp2/JavaOpenJPEGDecoder.c:105-110 | the text after the last '.', free of '.', or none iff the name has no '.' |
| FormatDetect.Lookup | wrapping/java/openjp2/JavaOpenJPEGDecoder.c:111-114 | the scan finds nothing iff no entry matches, else the format of a matching entry preceded by no match |
| FormatDetect.ToLower | wrapping/java/openjp2/JavaOpenJPEGDecoder.c:112 | an upper-case ASCII letter becomes its lower-case letter, every other character is unchanged |
| FormatDetect.ExtMatches | wrapping/java/openjp2/JavaOpenJPEGDecoder.c:112 | no contract of its own; ExtMatchesLower3 states that it is equality of the lower-cased first three characters with the entry, and false for an extension shorter than three |
| FormatDetect.ExtMatchesLower3 | wrapping/java/openjp2/JavaOpenJPEGDecoder.c:112 | strnicmp over 3 on a lower-case entry is equality of the lower-cased first three letters |
| FormatDetect.LookupFirst | wrapping/java/openjp2/JavaOpenJPEGDecoder.c:111-114 | the first matching entry decides the answer |
| FormatDetect.LookupByLower3 | wrapping/java/openjp2/JavaOpenJPEGDecoder.c:111-114 | over a table of distinct extensions the scan answers f iff the lower-cased three letters with f form an entry |
| FormatDetect.CodecTableEntries | wrapping/java/openjp2/JavaOpenJPEGDecoder.c:99-101 | the ext_file_format table maps j2k, j2c, jpc to J2K, jp2 to JP2, jpt to JPT and nothing else |
| FormatDetect.FileTableEntries | wrapping/java/openjp2/JavaOpenJPEGDecoder.c:288-289 | the get_file_format table, entry by entry: PGX, three PXM names, BMP, TIF, RAW, TGA, j2k/j2c, jp2, jpt |
| FormatDetect.CodecTableDistinct | wrapping/java/openjp2/JavaOpenJPEGDecoder.c:99 | no extension appears twice in the codec table |
| FormatDetect.FileTableDistinct | wrapping/java/openjp2/JavaOpenJPEGDecoder.c:288 | no extension appears twice in the file table |
| FormatDetect.ExtFileFormat | wrapping/java/openjp2/JavaOpenJPEGDecoder.c:95-116 | no '.' is -1, and the only answers are J2K, JP2 and JPT |
| FormatDetect.ExtFileFormatCases | wrapping/java/openjp2/JavaOpenJPEGDecoder.c:95-116 | ext_file_format answers f iff the extension has three letters whose lower case is a codec extension of f |
| FormatDetect.GetFileFormat | wrapping/java/openjp2/JavaOpenJPEGDecoder.c:286-303 | no '.' is -1 |
| FormatDetect.GetFileFormatCases | wrapping/java/openjp2/JavaOpenJPEGDecoder.c:286-303 | get_file_format answers f iff the extension has three letters whose lower case is a file extension of f |
| FormatDetect.TablesAgreeOnCodecs | wrapping/java/openjp2/JavaOpenJPEGDecoder.c:288-289 | apart from jpc both functions give the same codec answers, both ways |
| FormatDetect.JpcOnlyInCodecTable | wrapping/java/openjp2/JavaOpenJPEGDecoder.c:288-289 | a .jpc name is J2K for ext_file_format and -1 for get_file_format |
| FormatDetect.JpcNotInFileTable | wrapping/java/openjp2/JavaOpenJPEGDecoder.c:288-289 | get_file_format does not know a .jpc name |
| FormatDetect.FileTableHasNoJpc | wrapping/java/openjp2/JavaOpenJPEGDecoder.c:288 | no entry of the file table matches jpc |
| FormatDetect.PadHeader | wrapping/java/openjp2/JavaOpenJPEGDecoder.c:139-140 | the zeroed 12-byte header holds the bytes read, then zeros |
| FormatDetect.InfileFormat | wrapping/java/openjp2/JavaOpenJPEGDecoder.c:142-166 | a jpt extension answers JPT unwarned; otherwise the magic decision; the warning is printed iff a recognised magic differs from the extension's format |
| FormatDetect.InfileFormatRange | wrapping/java/openjp2/JavaOpenJPEGDecoder.c:142-166 | the answer is -1, J2K, JP2 or JPT |
| FormatDetect.InfileAgreesWithBuffer | wrapping/java/openjp2/JavaOpenJPEGDecoder.c:146-154 | on a full 12-byte header and no jpt extension it answers what buffer_format answers |
| FormatDetect.ShortJp2FileDiffers | wrapping/java/openjp2/JavaOpenJPEGDecoder.c:139-148 | a file of only the 4 signature bytes is JP2 here but -1 for buffer_format |
| BufferStream.ReadCount | wrapping/java/openjp2/JavaOpenJPEGDecoder.c:1292-1298 | the bytes read are the smaller of the request and the remaining bytes |
| BufferStream.ReadResult | wrapping/java/openjp2/JavaOpenJPEGDecoder.c:1302 | the count, or (OPJ_UINT32)-1 exactly when nothing was read |
| BufferStream.Advance | wrapping/java/openjp2/JavaOpenJPEGDecoder.c:1316-1323 | success iff cur + n < len (strict); success moves by n, failure clamps to the end |
| BufferStream.ReadsCompose | wrapping/java/openjp2/JavaOpenJPEGDecoder.c:1292-1300 | two reads deliver as many bytes as one read of the summed size |
| BufferStream.FailedAdvanceExhausts | wrapping/java/openjp2/JavaOpenJPEGDecoder.c:1321-1323 | after a failed skip every read returns the end sentinel |
| BufferStream.AdvanceToEndFails | wrapping/java/openjp2/JavaOpenJPEGDecoder.c:1316-1317 | moving exactly to the end fails and leaves the cursor at the end |
| BufferStream.BufferInfo.constructor | wrapping/java/openjp2/JavaOpenJPEGDecoder.c:739-750 | the cursor starts at the beginning of the host array with len its length |
| BufferStream.BufferInfo.Read | wrapping/java/openjp2/JavaOpenJPEGDecoder.c:1288-1303 | copies exactly ReadCount bytes, equal to the buffer slice at the cursor, leaves the rest of dest, advances by that count, returns ReadResult |
| BufferStream.BufferInfo.Write | wrapping/java/openjp2/JavaOpenJPEGDecoder.c:1305-1312 | the n bytes land at the cursor, nothing else in buf changes, cur and len grow by n, returns n |
| BufferStream.BufferInfo.Skip | wrapping/java/openjp2/JavaOpenJPEGDecoder.c:1314-1324 | the cursor moves as Advance says; returns n or (OPJ_SIZE_T)-1 |
| BufferStream.BufferInfo.Seek | wrapping/java/openjp2/JavaOpenJPEGDecoder.c:1326-1336 | the cursor and the boolean result are Advance's |
| Images.Image.constructor | wrapping/java/openjp2/JavaOpenJPEGEncoder.c:1342 | one plane per parameter entry described by it, with its own fresh w*h sample array, the given colour space |
| Images.Image.ResolveColorSpace | wrapping/java/openjp2/JavaOpenJPEGDecoder.c:838-843 | the colour space becomes ResolvedColorSpace of the old one and the planes |
| Images.ResolvedColorSpace | wrapping/java/openjp2/JavaOpenJPEGDecoder.c:838-843 | SYCC iff (already SYCC with more than two planes) or (not SYCC and three planes, square first, second dx not 1); GRAY iff at most two planes or (GRAY and not YCC-looking); any change is to SYCC or GRAY; over three planes nothing changes |
| Images.LooksLikeSycc | wrapping/java/openjp2/JavaOpenJPEGDecoder.c:838-840 | no contract of its own; ResolvedColorSpace states that a non-SYCC image becomes SYCC iff it holds |
| Images.ResolveIdempotent | wrapping/java/openjp2/JavaOpenJPEGDecoder.c:838-843 | applying the rule again changes nothing |
| Images.ClrSpaceName | wrapping/java/openjp2/JavaOpenJPEGDecoder.c:593-605 | "CLRSPC_UNDEFINED" iff the space is not SRGB, GRAY, SYCC or UNKNOWN |
| Images.ClrSpaceNamesDistinct | wrapping/java/openjp2/JavaOpenJPEGDecoder.c:593-605 | the four named spaces have pairwise different names |
| PixelPack.Bias | wrapping/java/openjp2/JavaOpenJPEGDecoder.c:993-1000 | 0 for an unsigned plane; for a signed one, half of 2^prec, which moves the signed range onto 0..2^prec - 1 |
| PixelPack.Shift | wrapping/java/openjp2/JavaOpenJPEGDecoder.c:984-991 | a plane of more than 8 bits is shifted down to exactly 8 bits; a narrower plane is not shifted |
| PixelPack.Clamp | wrapping/java/openjp2/JavaOpenJPEGDecoder.c:1063-1067 | a byte; in-range values are kept, values above 255 become 255 and negative values 0 |
| PixelPack.ArgbSelected | wrapping/java/openjp2/JavaOpenJPEGDecoder.c:962-970 | no contract of its own; LayoutOf states that the ARGB image is chosen iff it holds, and PlanArgb which planes then feed the channels |
| PixelPack.RoundHalfUp | wrapping/java/openjp2/JavaOpenJPEGDecoder.c:1062 | reference rounding: n * 2^s <= p + 2^(s-1) < (n+1) * 2^s |
| PixelPack.HalfUpBit | wrapping/java/openjp2/JavaOpenJPEGDecoder.c:1062 | the quotient by 2h plus the parity of the quotient by h is (p + h) / 2h |
| PixelPack.Rounded | wrapping/java/openjp2/JavaOpenJPEGDecoder.c:1062 | `(p >> s) + ((p >> (s-1)) % 2)` equals the reference half-up rounding |
| PixelPack.Channel | wrapping/java/openjp2/JavaOpenJPEGDecoder.c:1059-1068 | a byte; unshifted it is the biased sample modulo 256; shifted it is the half-up rounding clamped to 255 |
| PixelPack.ChannelMonotone | wrapping/java/openjp2/JavaOpenJPEGDecoder.c:1061-1067 | a larger sample never gives a smaller downscaled channel |
| PixelPack.ChannelEnds | wrapping/java/openjp2/JavaOpenJPEGDecoder.c:1061-1067 | the downscale maps 0 to 0 and 2^(8+s) - 1 to 255 |
| PixelPack.PixelWord | wrapping/java/openjp2/JavaOpenJPEGDecoder.c:1106 | the four bytes of the stored int are alpha, red, green, blue |
| PixelPack.PlanArgb | wrapping/java/openjp2/JavaOpenJPEGDecoder.c:972-1037 | every plane named exists; an alpha source iff exactly two planes |
| PixelPack.SourcesOf | wrapping/java/openjp2/JavaOpenJPEGDecoder.c:1002-1027 | an alpha array iff the plan has an alpha source |
| PixelPack.ArgbPixel | wrapping/java/openjp2/JavaOpenJPEGDecoder.c:1058-1106 | no contract of its own; ThreePlanePixel, TwoPlanePixel and ManyPlanePixel state its four bytes for each plane count, and PixelWord that the bytes are the channels |
| PixelPack.ThreePlanePixel | wrapping/java/openjp2/JavaOpenJPEGDecoder.c:983-1106 | three planes: alpha 0xFF and each colour byte is its own plane's converted sample |
| PixelPack.TwoPlanePixel | wrapping/java/openjp2/JavaOpenJPEGDecoder.c:1017-1106 | two planes: alpha from plane 1, red converted, green and blue the raw gray sample modulo 256 |
| PixelPack.ManyPlanePixel | wrapping/java/openjp2/JavaOpenJPEGDecoder.c:1017-1106 | five or more planes: opaque, red converted, green and blue raw |
| PixelPack.FillArgb | wrapping/java/openjp2/JavaOpenJPEGDecoder.c:1058-1108 | word i is the ARGB pixel of sample i; words from n on unchanged |
| PixelPack.PackArgb | wrapping/java/openjp2/JavaOpenJPEGDecoder.c:962-1112 | the first width*height words are the ARGB pixels for the planes' plan; the rest unchanged |
| PixelPack.GrayByte | wrapping/java/openjp2/JavaOpenJPEGDecoder.c:1133-1135 | the byte is congruent to the biased sample modulo 256: truncation |
| PixelPack.GrayByteWraps | wrapping/java/openjp2/JavaOpenJPEGDecoder.c:1134 | no clamp: 256 becomes 0 and 255 the Java byte -1 |
| PixelPack.JustifyCore | wrapping/java/openjp2/JavaOpenJPEGDecoder.c:1169 | with U*D = P and P*U = 2^16: positive stays positive, 0 stays 0, below P fits 16 bits and divides back by U |
| PixelPack.JustifyPowers | wrapping/java/openjp2/JavaOpenJPEGDecoder.c:1149-1150 | for 9..15 bits, 2^prec = 2^dshift * 2^ushift and 2^prec * 2^ushift = 2^16 |
| PixelPack.LeftJustify | wrapping/java/openjp2/JavaOpenJPEGDecoder.c:1149-1169 | no contract of its own; LeftJustifyRange, JustifyTop, LeftJustifyFullScale and LeftJustifyStrictlyMonotone state its range, top bits, full scale and order |
| PixelPack.LeftJustifyIs | wrapping/java/openjp2/JavaOpenJPEGDecoder.c:1169 | the justified value in terms of 2^ushift and 2^dshift |
| PixelPack.LeftJustifyRange | wrapping/java/openjp2/JavaOpenJPEGDecoder.c:1165-1172 | a sample of the precision lands in 0..0xFFFF, keeps itself as top bits, and is 0 only for 0 |
| PixelPack.JustifyTop | wrapping/java/openjp2/JavaOpenJPEGDecoder.c:1169 | the top value P - 1 justifies to 0xFFFF |
| PixelPack.LeftJustifyFullScale | wrapping/java/openjp2/JavaOpenJPEGDecoder.c:1169 | 2^prec - 1 becomes 0xFFFF (12-bit 0xFFF to 0xFFFF) |
| PixelPack.LeftJustifyStrictlyMonotone | wrapping/java/openjp2/JavaOpenJPEGDecoder.c:1169 | left-justification keeps the order of samples strictly |
| PixelPack.ShortValue | wrapping/java/openjp2/JavaOpenJPEGDecoder.c:1165-1170 | no contract of its own; GrayShortNarrow and GrayShortWide (on GrayShort) state its value below and from 16 bits, LeftJustifyRange its range below 16 bits |
| PixelPack.GrayShort | wrapping/java/openjp2/JavaOpenJPEGDecoder.c:1138-1175 | no contract of its own; GrayShortWide states it is the biased sample modulo 2^16 from 16 bits up, GrayShortNarrow that it is the left-justified sample below 16 bits |
| PixelPack.GrayShortWide | wrapping/java/openjp2/JavaOpenJPEGDecoder.c:1165-1172 | from 16 bits up the short is the biased sample modulo 2^16 |
| PixelPack.GrayShortNarrow | wrapping/java/openjp2/JavaOpenJPEGDecoder.c:1165-1172 | below 16 bits the short's bit pattern is the justified value, whose top bits are the sample |
| PixelPack.MaskNoOp | wrapping/java/openjp2/JavaOpenJPEGDecoder.c:1172 | the & 0xffff changes nothing below 16 bits |
| PixelPack.PackGray8 | wrapping/java/openjp2/JavaOpenJPEGDecoder.c:1113-1136 | byte i is the gray byte of sample i; the rest unchanged |
| PixelPack.PackGray16 | wrapping/java/openjp2/JavaOpenJPEGDecoder.c:1138-1175 | short i is the gray short of sample i; the rest unchanged |
| PixelPack.LayoutOf | wrapping/java/openjp2/JavaOpenJPEGDecoder.c:962-1242 | ARGB iff the planes qualify (never for one plane); 8-bit gray iff not and the first plane has at most 8 bits; else 16-bit gray |
| PixelPack.ImageToHost | wrapping/java/openjp2/JavaOpenJPEGDecoder.c:962-1242 | the branch LayoutOf picks fills the first width*height entries of its array per pixel and leaves the rest of that array; the other two arrays are unchanged |
| PixelUnpack.ShapeOf | wrapping/java/openjp2/JavaOpenJPEGEncoder.c:1309-1325 | NULL iff width, height or depth is not positive; one GRAY plane iff depth <= 16, else three SRGB planes |
| PixelUnpack.ComponentParameters | wrapping/java/openjp2/JavaOpenJPEGEncoder.c:1331-1340 | numcomps entries, each unsigned with prec = bpp = depth / numcomps, the size, and the subsampling stored as OPJ_UINT32 (modulo 2^32) |
| PixelUnpack.PlanePrecision | wrapping/java/openjp2/JavaOpenJPEGEncoder.c:1333-1334 | gray planes keep the depth; colour planes get a third of it, rounded down |
| PixelUnpack.GridEnd | wrapping/java/openjp2/JavaOpenJPEGEncoder.c:1355-1356 | no contract of its own; GridEndCountsOffsetTwice states that the end exceeds offset plus span by the offset |
| PixelUnpack.GridEndCountsOffsetTwice | wrapping/java/openjp2/JavaOpenJPEGEncoder.c:1355-1356 | the grid end is twice the offset plus the span, and equals offset plus span only for offset 0 |
| PixelUnpack.GridEndWraps | wrapping/java/openjp2/JavaOpenJPEGEncoder.c:1353-1356 | the edge computed from the stored unsigned offset equals, modulo 2^32, the edge computed from the signed offset |
| PixelUnpack.NegativeOffsetWraps | wrapping/java/openjp2/JavaOpenJPEGEncoder.c:1353-1356 | an offset of -5 is stored as 0xFFFFFFFB and the edge becomes (w-1)*dx - 9 modulo 2^32 |
| PixelUnpack.CopyBytes | wrapping/java/openjp2/JavaOpenJPEGEncoder.c:1370-1371 | each host byte, sign-extended, is copied; later samples unchanged |
| PixelUnpack.CopyShorts | wrapping/java/openjp2/JavaOpenJPEGEncoder.c:1384-1385 | each host short, sign-extended, is copied; later samples unchanged |
| PixelUnpack.RedOf | wrapping/java/openjp2/JavaOpenJPEGEncoder.c:1409 | `(v >> 16) & 0xff` is a byte |
| PixelUnpack.GreenOf | wrapping/java/openjp2/JavaOpenJPEGEncoder.c:1410 | `(v >> 8) & 0xff` is a byte |
| PixelUnpack.BlueOf | wrapping/java/openjp2/JavaOpenJPEGEncoder.c:1411 | `v & 0xff` is a byte |
| PixelUnpack.LowBytes | wrapping/java/openjp2/JavaOpenJPEGEncoder.c:1409-1411 | the three channels recombine to the low 24 bits of v |
| PixelUnpack.Split24 | wrapping/java/openjp2/JavaOpenJPEGEncoder.c:1405-1413 | sample i of the three planes are the red, green and blue bytes of host int i; later samples unchanged |
| PixelUnpack.LoadImage | wrapping/java/openjp2/JavaOpenJPEGEncoder.c:1309-1416 | NULL iff the shape is undefined; else a fresh image with the shape's space and planes, distinct fresh plane arrays, each plane described by the component parameters, x0/y0 the offsets modulo 2^32 and x1/y1 the grid end as written modulo 2^32, and the host pixels copied per depth |
| PixelUnpack.Split24RoundTrip | wrapping/java/openjp2/JavaOpenJPEGDecoder.c:1058-1106 | three unsigned 8-bit planes loaded from v pack back to v | 0xFF000000 |
| PixelUnpack.ChannelOfByte | wrapping/java/openjp2/JavaOpenJPEGDecoder.c:1059-1068 | an unshifted channel of a byte is the byte |
| PixelUnpack.FromBytes | wrapping/java/openjp2/JavaOpenJPEGDecoder.c:1106 | a 32-bit word is the sum of its four bytes at their places |
| PixelUnpack.ByteRoundTrip | wrapping/java/openjp2/JavaOpenJPEGDecoder.c:1133-1135 | a host byte loaded into an unsigned plane comes back unchanged |
| PixelUnpack.PlaneByteRoundTrip | wrapping/java/openjp2/JavaOpenJPEGDecoder.c:1133-1135 | a sample of an unsigned 8-bit plane packed to a Java byte and sign-extended back is the sample below 128 and the sample minus 256 from 128 on; it comes back unchanged iff it is below 128 |
| PixelUnpack.ShortRoundTrip | wrapping/java/openjp2/JavaOpenJPEGDecoder.c:1165-1172 | a host short loaded into an unsigned 16-bit plane comes back unchanged |
| PixelUnpack.NarrowShortRoundTrip | wrapping/java/openjp2/JavaOpenJPEGDecoder.c:1165-1172 | below 16 bits a sample comes back left-justified, its top bits being the sample |
| EncoderParams.ProgName | wrapping/java/openjp2/JavaOpenJPEGEncoder.c:318-331 | every order's name has four letters |
| EncoderParams.GiveProgression | wrapping/java/openjp2/JavaOpenJPEGEncoder.c:316-335 | PROG_UNKNOWN iff fewer than four characters or the first four are none of the five names; a known order's name is the first four characters |
| EncoderParams.ProgressionRoundTrip | wrapping/java/openjp2/JavaOpenJPEGEncoder.c:316-335 | each order is recognised from its name followed by anything |
| EncoderParams.ProgNamesDistinct | wrapping/java/openjp2/JavaOpenJPEGEncoder.c:318-331 | the five names are pairwise different |
| EncoderParams.FourKPocs | wrapping/java/openjp2/JavaOpenJPEGEncoder.c:337-354 | entries 0 and 1 get tile 1, compno 0..3, layno1 1, CPRL, chained resolutions 0, numres-1, numres; their other fields and all later entries unchanged |
| EncoderParams.FourKPocsIdempotent | wrapping/java/openjp2/JavaOpenJPEGEncoder.c:337-354 | writing the two changes twice is writing them once |
| EncoderParams.Initialise4KPoc | wrapping/java/openjp2/JavaOpenJPEGEncoder.c:337-354 | returns 2 and the table becomes FourKPocs of the old one |
| EncoderParams.CinemaDefaults | wrapping/java/openjp2/JavaOpenJPEGEncoder.c:356-388 | the result is cinema compliant (bit 0 of csty set) and agrees with the input elsewhere, including csty's other bits |
| EncoderParams.CinemaDefaultsFixpoint | wrapping/java/openjp2/JavaOpenJPEGEncoder.c:356-388 | compliant parameters are not changed, so the defaults are idempotent |
| EncoderParams.CinemaDefaultsUnique | wrapping/java/openjp2/JavaOpenJPEGEncoder.c:356-388 | the defaults are the only compliant parameters agreeing with the input elsewhere |
| EncoderParams.SetupCinema | wrapping/java/openjp2/JavaOpenJPEGEncoder.c:396-470 | no contract of its own; SetupCinemaEffect states its whole effect per profile, SetupCinemaIdempotent and FourKCoversResolutions its idempotence and the 4K resolution ranges |
| EncoderParams.SetupCinemaEffect | wrapping/java/openjp2/JavaOpenJPEGEncoder.c:396-470 | no profile: unchanged; 2K: numresolution clamped to at most 6; 4K: clamped to 1..7, numpocs 2 and the 4K changes; rsiz falls back to STD iff neither coordinate matches; size limit by frame rate; distortion allocation on; nothing else changes |
| EncoderParams.SetupCinemaIdempotent | wrapping/java/openjp2/JavaOpenJPEGEncoder.c:396-470 | a second set-up for the same frame changes nothing |
| EncoderParams.FourKCoversResolutions | wrapping/java/openjp2/JavaOpenJPEGEncoder.c:410-422 | the two 4K changes cover resolutions 0..numresolution in two adjacent ranges within 7 |
| EncoderParams.CodeBlockSizeValid | wrapping/java/openjp2/JavaOpenJPEGEncoder.c:680-681 | no contract of its own; CodeBlockExponents states which power-of-two sizes it accepts and CodeBlockWrapHarmless that the wrapped C product decides alike |
| EncoderParams.CodeBlockExponents | wrapping/java/openjp2/JavaOpenJPEGEncoder.c:680-681 | for sizes 2^x by 2^y the check accepts iff 2 <= x, y <= 10 and x + y <= 12 |
| EncoderParams.CodeBlockWrapHarmless | wrapping/java/openjp2/JavaOpenJPEGEncoder.c:680-681 | testing the 32-bit wrapped product decides the same as the exact product |
| EncoderParams.ModeSwitch | wrapping/java/openjp2/JavaOpenJPEGEncoder.c:797-803 | bit j of the result is set iff it was set in mode or j < 6 and it is set in the value |
| EncoderParams.AllocationConflict | wrapping/java/openjp2/JavaOpenJPEGEncoder.c:1242-1246 | the error fires iff exactly two of the three options are given |
| EncoderParams.CheckOutcome | wrapping/java/openjp2/JavaOpenJPEGEncoder.c:1235-1260 | success iff no two of the three allocation options are given together and the tile origin is not past the image offset; cinema with several layers gives STD rsiz and otherwise the profile is unchanged; on a conflict or a non-zero layer count the layers are unchanged; otherwise zero layers becomes one layer with rate 0 and distortion allocation, the other rates and the fixed allocation and quality flags unchanged; tiling, placement, coding and the POC table unchanged |
| EncoderParams.CheckAllocationCount | wrapping/java/openjp2/JavaOpenJPEGEncoder.c:1242-1260 | with the tile origin in range the checks pass iff the number of allocation options given is not two: none, one or all three pass |
| EncoderParams.CheckLeavesALayer | wrapping/java/openjp2/JavaOpenJPEGEncoder.c:1249-1253 | after a successful check there is at least one layer |
| EncoderParams.Parameters.CinemaParameters | wrapping/java/openjp2/JavaOpenJPEGEncoder.c:356-388 | the fields become CinemaDefaults of the old ones |
| EncoderParams.Parameters.CinemaSetupEncoder | wrapping/java/openjp2/JavaOpenJPEGEncoder.c:390-471 | the fields become SetupCinema of the old ones for the first plane's size |
| EncoderParams.Parameters.SetCodeBlock | wrapping/java/openjp2/JavaOpenJPEGEncoder.c:679-688 | succeeds iff the size is valid; on success only the code-block size changes, on failure nothing |
| EncoderParams.Parameters.SetMode | wrapping/java/openjp2/JavaOpenJPEGEncoder.c:796-803 | only mode changes, to the old mode with the value's bits 0..5 added |
| EncoderParams.Parameters.CheckParameters | wrapping/java/openjp2/JavaOpenJPEGEncoder.c:1234-1260 | the new fields and the result are CheckOutcome of the old fields |

## Left out

- JNI plumbing is not modelled: field lookups, array pinning and release, the `alloc8`/`alloc16`/`alloc24` calls, argv construction and the message callbacks. These are calls into the JVM, so host arrays appear as method parameters.
- Calls into the codec are not modelled: creating the codec, reading the header, decoding, encoding, stream creation, colour conversion, ICC profiles and the teardown. These are foreign code. `opj_image_create` is stood in for by the `Image` constructor, with its initial samples left unspecified and no allocation failure.
- File I/O is not modelled: the `fopen`/`fread` half of `infile_format` (the model takes the bytes read), `dump_file`, the raster writers and directory scanning.
- The `getopt`/`sscanf` parsing is not modelled, including a failed `-M` parse, which leaves mode alone. Only the checks applied to parsed values are modelled.
- The per-POC `prg` warning loop after the tile-origin check is not modelled.
- The floating-point rate computation in `cinema_setup_encoder` is not modelled: it is floating-point work. The source writes `tcp_rates[0]` where `tcp_rates[i]` is evidently meant, at `JavaOpenJPEGEncoder.c` lines 433, 453 and 459.
- EncoderParams.Parameters.CinemaSetupEncoder: leaves `tcp_rates` as it was, because the rate formulas are floating point.
- EncoderParams.Parameters: groups the fields of `opj_cparameters_t` the rules touch into records, and leaves the other fields out. The order in which the source writes individual fields is not modelled; each method's final state is.
- EncoderParams.Rsiz: has only the three values the wrapper uses.
- EncoderParams.Coding: `csty` and `mode` are unbounded naturals, with their bits given by `Bit`/`SetBit`, not 32-bit ints. Only bits 0..5 are ever added, so no wrap-around arises.
- PixelPack.PackArgb: four planes are excluded by precondition. The source never sets the alpha pointer in that case and dereferences NULL.
- PixelPack.Channel: requires a non-negative biased sample wherever a shift applies. C's `>>` on a negative int is implementation-defined. The same holds for PixelPack.GrayShort below 16 bits.
- BufferStream.BufferInfo.Write: requires `len + n <= buf.Length`, which is stronger than the memcpy needs (`cur + n <= buf.Length`). The model asks for it so that `len` never passes the region, because the source adds n to `len` as well as to `cur`. The wrapper only builds reading streams, whose `len` is the whole array, so on such a stream Write can only be called with n == 0.
- BufferStream.BufferInfo.Read: takes the count as an unbounded natural, so the truncation of the count to `OPJ_UINT32` is not modelled. `SkipFailed` is the 64-bit `(OPJ_SIZE_T)-1`.
- BufferStream.BufferInfo.Seek: moves relative to the cursor, adding n to it, as the source does. The model does not describe seeking to an absolute position.
- PixelUnpack.LoadImage: requires each host array to be no longer than a plane. The source copies `len` entries with no check.
- `outfile_format`, declared in `java_helpers.h`, is defined in a file that is not part of this model.
- The Java viewer (`OpenJPEGImageViewer.java`) is not modelled: it is Swing UI and threads.
