# Verified model of the DDS chunk engine and its conversion pipeline

This project models the core of a Rust library that converts images for a game. The library:

- turns pictures into block-compressed DDS textures;
- packs up to four effect images into one 512x512 texture;
- unpacks the DDS textures embedded in an `.afb` container;
- builds a stage container by splicing freshly converted textures into a fixed template.

It is called through a C interface that passes NUL-terminated UTF-16 strings and a caller-owned error buffer.

The Dafny modules follow the source files:

- `Locate` (`locate.dfy`) is the chunk engine of `src/img/locate.rs`:
  - a lowest-match byte search;
  - chunking a buffer between `"DDS "` headers, cut short by a `"POF0"` stop sign;
  - writing each chunk to `<base>_<i+1 in at least four digits, zero-padded><ext>`;
  - splicing replacements into the chunk slots.
- `Convert` (`convert.dfy`) is the orchestration of `src/img/convert.rs`. The image and texture libraries are one `Codec` value of uninterpreted, fallible functions. `Codec.Valid` states the only facts relied on: decoded and resized images hold exactly `width * height * 4` bytes, and resizing yields the requested size.
- `Api` (`api.dfy`) is the marshalling of `src/api.rs`. A C pointer is an `array?`, where `null` is the null pointer.
- Four support modules:
  - `Files` (`files.dfy`) is the operating system's file system as a class with a `files` map. Its fixed `refused` set stands for every path the OS would refuse to create.
  - `Paths` (`paths.dfy`) is `Path::file_name` and `Path::file_stem`.
  - `Decimal` (`decimal.dfy`) is the `{}` and `{:04}` formatting of numbers.
  - `Utf16` (`utf16.dfy`) is `encode_utf16` and `from_utf16`.
- `Common` (`common.dfy`) holds the machine types and the `Option`/`Result` wrappers.

The loops of the source are imperative methods proved against specification functions:

- `LocateChunks` against `ChunksFrom`;
- `ExtractChunks` against `Written`;
- `ReplaceChunks` against `Splice`;
- `ConvertFx` against `FxResult` and the packed canvas `CompositePixel`;
- `WcharToString` against `UnitsToString`;
- `SetErrorMsg` against `ErrorBuffer`.

The properties the source promises are then proved about those functions.

`set_error_msg` (src/api.rs:37-57) NUL-terminates the buffer only when the pointer is non-null and the size is positive; with a size of 0 or below it writes nothing and returns FAILURE.

## Model

| member | source | states |
|---|---|---|
| Locate.FindChunks | src/img/locate.rs:94-102 | no match when `start` is at or past the end of the haystack or the needle is empty; a reported position is at or after `start` and the needle occurs there in full |
| Locate.WindowPosition | src/img/locate.rs:98-101 | a window found at or after `i` is an occurrence of the needle (the lowest one by `WindowPositionFirst`) |
| Locate.FindChunksFirst | src/img/locate.rs:98-101 | the reported position is the lowest occurrence at or after `start`, and `None` means the needle occurs nowhere from `start` on |
| Locate.WindowPositionFirst | src/img/locate.rs:98-101 | the `windows(..).position(..)` scan stops at the first matching window and finds nothing only when no window matches |
| Locate.ChunkEndFirstMarker | src/img/locate.rs:18-39 | no stop sign or header occurs between a chunk's header and its end; the end is the input's end or an occurrence of one of the markers |
| Locate.ChunkEnd | src/img/locate.rs:18-37 | where a chunk ends: never before the end of its own header and never past the input; its markers are characterised by `ChunkEndFirstMarker` |
| Locate.ChunksFrom | src/img/locate.rs:13-43 | the specification of the chunk list from a cursor: the header found there, the chunk to its `ChunkEnd`, then the chunks from that end; its shape is proved by `ChunksShape`, `ChunkEnds` and `HeadersCovered` |
| Locate.ScanStep | src/img/locate.rs:17-34 | one pass of the scan loop keeps "collected chunks + chunks still to be found" equal to the whole result |
| Locate.LocateChunks | src/img/locate.rs:13-43 | the scan loop terminates, its cursor strictly increasing, and returns exactly the chunk list `ChunksFrom(input, header, stopSign, 0)` |
| Locate.LocateDdsChunks | src/img/locate.rs:6-11 | the chunks for the `"DDS "` header and `"POF0"` stop sign, ascending, disjoint and inside the input |
| Locate.ChunksShape | src/img/locate.rs:17-40 | every chunk starts at a header occurrence, holds at least the header, stays inside the input; chunks ascend and never overlap |
| Locate.ChunksAtHeaders | src/img/locate.rs:17-37 | every chunk `(s, e)` has the header at `s`, and `e` lies between the end of that header and the end of the input |
| Locate.ChunksOrdered | src/img/locate.rs:21-39 | consecutive chunks satisfy `e_i <= s_j` for `i < j`, and all lie inside the input |
| Locate.ChunkEnds | src/img/locate.rs:18-37 | each chunk ends at the nearer of the first stop sign and first header after its header, else at the input's end, and only the last chunk can reach the input's end |
| Locate.HeadersCovered | src/img/locate.rs:14-42 | no header occurrence is skipped: none starts before the first chunk, in a gap, inside a payload or after the last chunk |
| Locate.NoChunksIffNoHeader | src/img/locate.rs:17 | the chunk list is empty exactly when the header does not occur |
| Locate.OccurrencesApart | src/img/locate.rs:17-19 | occurrences of a marker that cannot overlap itself are at least its length apart |
| Locate.DdsHeaderNoSelfOverlap | src/img/locate.rs:7 | `"DDS "` has no proper suffix that is also its prefix |
| Locate.ChunkPerHeader | src/img/locate.rs:17-40 | for a header that cannot overlap itself, the chunk starts are exactly the header occurrences |
| Locate.DdsChunkPerHeader | src/img/locate.rs:6-11 | `locate_dds_chunks` reports one chunk for each `"DDS "` in the input, starting there |
| Locate.ChunkFileNamesDistinct | src/img/locate.rs:53 | different chunk indices give different file names, so no chunk file overwrites another |
| Locate.ChunkFileNameShape | src/img/locate.rs:53 | the name starts with the base and `_`, ends with the extension, and has at least four characters (the zero-padded number) in between |
| Locate.FirstRefused | src/img/locate.rs:52-57 | the index of the first chunk whose file cannot be created: all earlier ones can, that one cannot |
| Locate.Written | src/img/locate.rs:52-57 | the specification of the directory after the first `k` chunk files are written; characterised by `WrittenChunk` and `WrittenKeeps` |
| Locate.WrittenChunk | src/img/locate.rs:52-57 | after `k` chunks are written, the file of each chunk `i < k` holds exactly `input[s_i..e_i]` |
| Locate.WrittenKeeps | src/img/locate.rs:52-57 | writing the chunks leaves every other file as it was |
| Locate.WrittenFiles | src/img/locate.rs:52-57 | both of the above for all chunks and all other names at once |
| Locate.ExtractChunks | src/img/locate.rs:45-59 | files are written in order up to the first one that cannot be created; the result is Ok exactly when none is refused, else that file's creation error; earlier files stay; an empty list writes nothing and is Ok |
| Locate.FitsSliceable | src/img/locate.rs:78-89 | for ascending chunks inside the input and enough replacement slots, every slice `replace_chunks` takes is valid |
| Locate.Piece | src/img/locate.rs:81-84 | what is written for one chunk: its replacement, or its own bytes |
| Locate.Splice | src/img/locate.rs:76-89 | the specification of the spliced output: each gap verbatim, each chunk or its replacement, then the tail; its length and identity are proved by `SpliceLength` and `SpliceKeepsAll` |
| Locate.LocatedChunksSliceable | src/img/locate.rs:13-43 | the locator's own chunks can always be spliced back |
| Locate.SpliceStep | src/img/locate.rs:78-87 | one iteration of the splice loop writes the gap and the chunk or its replacement, keeping "written + still to write" equal to the whole output |
| Locate.SpliceKeepsAll | src/img/locate.rs:78-89 | with every slot `None` the output is the input unchanged |
| Locate.SpliceLength | src/img/locate.rs:78-89 | the output length is the input length less the replaced chunks' lengths plus the replacement data's lengths |
| Locate.LengthMismatch | src/img/locate.rs:67-73 | the error text naming both lengths in decimal |
| Locate.ReplaceChunks | src/img/locate.rs:61-92 | too few replacement slots is an error before the output is created; a refused output is a creation error; otherwise the output file is the gaps verbatim, each chunk or its replacement, then the tail |
| Convert.Fit | src/img/utils.rs:60-70 | an image already at the requested size is kept, any other is resized, and the result has the requested size |
| Convert.ConvertDds | src/img/convert.rs:10-32 | a zero width or height is refused before the input is opened; an open error is passed on; otherwise compression receives the fitted pixels at exactly the requested size |
| Convert.ConvertBg | src/img/convert.rs:34-37 | the background is a 1920x1080 BC1 conversion |
| Convert.ConvertJk | src/img/convert.rs:39-42 | the jacket is a 300x300 BC1 conversion |
| Convert.SaveDdsBlob | src/img/utils.rs:55-58 | serialisation succeeds exactly when the library's does, with its bytes; a failure carries the "Failed to save DDS blob: " context |
| Convert.TilePlacement | src/img/convert.rs:63-80 | the `k`-th tile's pixel `(x, y)` appears at canvas pixel `((k % 2) * 256 + x, (k / 2) * 256 + y)` |
| Convert.QuadrantRegion | src/img/convert.rs:63-70 | quadrant `k` is exactly the 256x256 square at offset `((k % 2) * 256, (k / 2) * 256)` |
| Convert.UnfilledTransparent | src/img/convert.rs:48 | every raw byte of a pixel in a quadrant without a tile is 0, as in the new buffer |
| Convert.CompositeExtend | src/img/convert.rs:67-80 | placing one more tile changes only the next free quadrant |
| Convert.RowMajor | src/img/convert.rs:88 | `into_raw` lays the canvas out row by row, pixel `(x, y)` channel `ch` at `(y * 512 + x) * 4 + ch` |
| Convert.CompositeRaw | src/img/convert.rs:88 | the raw bytes of the packed canvas: exactly 512 * 512 * 4 of them, laid out as `RowMajor` states |
| Convert.RawBytes | src/img/convert.rs:88 | `into_raw` of a 512x512 buffer: exactly 512 * 512 * 4 bytes; equal to `CompositeRaw` when the buffer shows the packed canvas (`RawOfComposite`) |
| Convert.RawOfComposite | src/img/convert.rs:88 | a buffer showing the packed canvas pixel for pixel has the packed canvas's raw bytes |
| Convert.Present | src/img/convert.rs:51-55 | the given paths in order: never more than there are entries; `None` entries contribute nothing (`PresentStep`, `PresentEmpty`) |
| Convert.PresentEmpty | src/img/convert.rs:52-55 | no input becomes a tile exactly when every entry is `None` |
| Convert.LoadTilesSpec | src/img/convert.rs:57-61 | loading the tiles succeeds exactly when every present path opens; tile `i` is path `i` fitted to 256x256; a failure is the first failing path's error |
| Convert.LoadTiles | src/img/convert.rs:57-61 | a successful load has one 256x256 tile per path; characterised in full by `LoadTilesSpec` |
| Convert.LoadTilesKeepsError | src/img/convert.rs:57 | once an input fails to open, no later input changes the outcome |
| Convert.FirstFour | src/img/convert.rs:51 | `take(4)`: the first four entries, or all of them when there are fewer |
| Convert.FxUsesAtMostFour | src/img/convert.rs:51-85 | at most four inputs become tiles, and entries after the fourth never matter |
| Convert.FxTilePlacement | src/img/convert.rs:51-80 | the `k`-th present input (skipping `None` entries) is fitted to 256x256 and occupies the square at `((k % 2) * 256, (k / 2) * 256)` |
| Convert.FxResult | src/img/convert.rs:44-95 | the specification of `convert_fx`: the first open error among the present inputs of the first four, or the BC3 compression of their packed canvas |
| Convert.ConvertFx | src/img/convert.rs:44-95 | the loop's result is `FxResult`: the first open error, or the BC3 compression of the packed 512x512 canvas of the present inputs among the first four |
| Convert.NewCanvas | src/img/convert.rs:48 | a fresh 512x512 buffer whose every pixel is zero, the packed canvas of no tiles |
| Convert.CompressCanvas | src/img/convert.rs:88-94 | compressing the finished buffer's raw bytes as BC3 at 512x512 gives `FxResult` |
| Convert.PlaceTiles | src/img/convert.rs:51-86 | the loop over the first four entries: it stops with `FxResult`'s error at the first open failure, otherwise it ends with the canvas showing the opened tiles packed in order |
| Convert.PlaceEntry | src/img/convert.rs:51-85 | one round of the loop: a `None` entry is skipped, an open error ends the conversion, else the tile is copied into the next quadrant |
| Convert.CopyTile | src/img/convert.rs:63-82 | the nested loops copy the tile into quadrant `count` and leave every other pixel as it was |
| Convert.CopyRow | src/img/convert.rs:67-80 | one row of the tile: the in-tile index `(y * 256 + x) * 4` and canvas writes stay in bounds, and only that row of the quadrant changes |
| Convert.BaseName | src/img/convert.rs:103-106 | the file stem of the input path, or "chunk" when it has no file name; never empty |
| Convert.ExtractAfb | src/img/convert.rs:97-108 | an unreadable input is a read error; a container without DDS chunks is "No .dds chunks found in the file" and nothing is written; otherwise the chunks go to `<stem>_0001.dds`, ... as `extract_chunks` writes them |
| Convert.ChunkNamesOfContainer | src/img/tests.rs:115-123 | a container `<dir>/<stem>.<ext>` unpacks to `<stem>_0001.dds` and `<stem>_0002.dds` |
| Convert.StageReplacements | src/img/convert.rs:116-126 | with the background converted and serialised, the list is `[Some(background), Some(FX_DUMMY)]` when no entry is given and `[Some(background), Some(effects)]` when the effects convert and serialise; otherwise the first error among background conversion, background serialisation, effects conversion and effects serialisation is returned as is |
| Convert.AnyPresent | src/img/convert.rs:117 | `iter().any(Option::is_some)`: some entry is given |
| Convert.SplicedStage | src/img/convert.rs:126-127 | the template spliced with the replacement list; its layout is stated by `StageLayout` |
| Convert.ConvertStage | src/img/convert.rs:110-130 | a conversion error writes nothing; otherwise the spliced template goes to the stage output, and only after that succeeds is `NF_DUMMY` written to the second output |
| Convert.AnyPresentIffSomePath | src/img/convert.rs:117 | `any(Option::is_some)` holds exactly when some entry anywhere in the list is given; among the first four entries a given one is exactly one that becomes a tile, so any tile implies `any`, but an entry given only past the fourth sets `any` without becoming a tile |
| Convert.AnyPresentWithoutTile | src/img/convert.rs:117-118 | for four `None` entries followed by a given one, `any(Option::is_some)` holds while `take(4)` (line 51) yields no input |
| Convert.StageLayout | src/img/convert.rs:126-127 | the stage container is the template with its first chunk replaced by the background and its second by the effects payload |
| Convert.EffectsBeyondFourGiveBlankCanvas | src/img/convert.rs:117-118 | effects given only after the fourth entry still select conversion over `FX_DUMMY`, and the effects slot is then a fully transparent canvas |
| Paths.FileStem | src/img/convert.rs:103-105 | a stem exists exactly when a file name does, and it is the name before its last dot (a leading dot does not count) |
| Paths.FileName | src/img/convert.rs:103-104 | `file_name` yields only a plain component: not empty, not `.` or `..`, without separators |
| Paths.FileNameOfJoin | src/img/convert.rs:103-104 | joining a plain name onto a directory gives back that name as the file name |
| Paths.StemOfExtension | src/img/convert.rs:103-104 | the stem of `base.ext` is `base` when `ext` has no dot |
| Decimal.ValueOfDigits | src/img/locate.rs:68-72 | `{}` of a length prints only digits, and they read back as the number, so `Digits` is the exact decimal rendering used in the length-mismatch message |
| Decimal.ValueOfZeroPadded | src/img/locate.rs:53 | `{:04}` prints only digits and they read back as the number |
| Decimal.ZeroPaddedInjective | src/img/locate.rs:53 | different numbers print differently under `{:04}` |
| Decimal.ZeroPadded | src/img/locate.rs:53 | `{:04}` output is at least four characters long, and exactly as long as the number's digits when they are more |
| Decimal.FourDigitsBelowTenThousand | src/img/locate.rs:53 | numbers below 10000, that is chunk numbers up to 9999, print as exactly four digits |
| Decimal.IntString | src/api.rs:77 | `{}` of a signed integer: a `-` before the digits of its magnitude when negative |
| Utf16.DecodeEncode | src/api.rs:47 | `from_utf16(encode_utf16(s))` gives back `s` |
| Utf16.EncodeDecode | src/api.rs:70 | units that decode to `s` are exactly the encoding of `s` |
| Utf16.Encode | src/api.rs:47 | `encode_utf16`: one or two units per character |
| Utf16.Decode | src/api.rs:70 | `from_utf16`: a decoded string is never longer than its units; round trips by `DecodeEncode` and `EncodeDecode` |
| Api.NulIndex | src/api.rs:63-66 | the index of the first 0 unit: none of the units before it is 0 |
| Api.UnitsToString | src/api.rs:68-71 | the decoded string's encoding is exactly the units before the first 0; ill-formed units are "Invalid UTF-16 sequence in wchar_t*" |
| Api.StringRoundTrip | src/api.rs:59-73 | a string without NUL, encoded and terminated, reads back as itself, with its length in units at the 0 |
| Api.WcharToString | src/api.rs:59-73 | a null pointer is "NULL received for w_char_p"; otherwise exactly the units before the first 0 are decoded |
| Api.Entry | src/api.rs:90-96 | one element of the array: `Ok(None)` exactly for a null element, a decoding error only for a non-null one |
| Api.WcharArrToVec | src/api.rs:75-101 | a negative length is "Invalid length: <len>"; a null array or zero length gives no entries; otherwise exactly `len` entries, `None` for null elements, each string decoded, and the first element that fails decides the error |
| Api.CopyLen | src/api.rs:48-51 | the copied length is the whole message or `size - 1` units, always below `size` |
| Api.ErrorBuffer | src/api.rs:48-53 | the buffer holds the first `copy_len` units of the message, then a 0, and is unchanged beyond |
| Api.ErrorBufferStaysInside | src/api.rs:48-53 | no unit at or beyond `size` is written, and a 0 lies below `size` |
| Api.ErrorBufferReadsPrefix | src/api.rs:51-53 | read back as a C string, the buffer holds exactly `copy_len` units |
| Api.ErrorBufferRoundTrip | src/api.rs:46-53 | a message that fits reads back whole through the `wchar_to_string` rule |
| Api.TruncationCanSplitPair | src/api.rs:48-51 | truncation counts UTF-16 units, so it can cut a surrogate pair and leave a lone high surrogate that no longer decodes |
| Api.SetErrorMsg | src/api.rs:37-57 | always FAILURE; a null buffer or a size `<= 0` is left untouched; otherwise the buffer becomes `ErrorBuffer` |
| Api.ReturnCode | src/api.rs:16-35 | `api!` returns SUCCESS (0) exactly for Ok and leaves the buffer alone; an Err goes through `set_error_msg` and returns FAILURE (1) |
| Files.FileSystem.ReadFile | src/img/convert.rs:98 | `fs::read`: the contents of an existing file, else the read error |
| Files.FileSystem.Create | src/img/locate.rs:75 | `File::create`: refused paths fail and change nothing; otherwise the file exists and is empty |
| Files.FileSystem.Append | src/img/locate.rs:79-89 | `write_all` on an open file: its contents are extended by the data, nothing else changes |
| Files.FileSystem.Write | src/img/convert.rs:128 | `fs::write`: refused paths fail and change nothing; otherwise the file holds exactly the data |

## Left out

- The image and texture libraries are not modelled. Decoding, Lanczos3 resizing (floating-point filtering), BC1/BC3 compression and DDS serialisation are uninterpreted fields of `Codec`. Their results are opaque, and only the size facts in `Codec.Valid` are assumed of them.
- Convert.LoadTiles: `convert_fx` resizes the decoded image in its own colour type and converts to RGBA8 afterwards (src/img/convert.rs:57-60), while `convert_dds` converts first and resizes the RGBA8 buffer (src/img/convert.rs:20-24); the model uses one pipeline, decode to RGBA8 then `Fit`, for both, so it does not capture byte differences between the two orders (for 16-bit or floating-point inputs), and `LoadTilesSpec` and `FxTilePlacement` state tiles in that single pipeline's terms.
- `compress_image` (src/img/utils.rs:23-47) is the codec's `compress`. Nothing of its RGBA pass-through branch is modelled.
- `src/img/assets.rs` is not part of this model. `ST_DUMMY`, `ST_CHUNKS`, `FX_DUMMY` and `NF_DUMMY` are an `Assets` parameter, whose `Valid` requires ascending, disjoint chunks inside the template, at most two of them.
- The file system is a map with a fixed set of refused paths. Partial `write_all` failures, directories and concurrent access are not modelled.
- `extract_chunks` joins the file name onto `out_folder`. The model names files inside an output-directory `FileSystem` instead of building the joined path.
- `Paths.FileName` treats only `/` and `\` as separators. Windows drive and UNC prefixes are not modelled.
- Slicing that would panic in Rust is a precondition:
  - `input[s..e]` with `s > e` or out of range in `extract_chunks` (`InBounds`);
  - `replace_chunks` slices (`Sliceable`).
- Error messages are single strings:
  - `anyhow` context chains and the `{:#}` formatting are not modelled;
  - the message passed to `set_error_msg` is already the formatted text;
  - the pointer address that `wchar_to_string` adds to its decoding error is dropped;
  - an OS error is `cannot read <path>` or `cannot create <path>`.
- The `usize::try_from(len)` failure in `wchar_arr_to_vec` cannot happen after the `len < 0` check, so it has no branch.
- Memory safety of the C side is a precondition:
  - strings are NUL-terminated (`HasNul`);
  - the error buffer holds at least `size` units;
  - a `wchar_t**` array holds at least `len` elements.
- `src/lib.rs` is not part of this model: its FFI entry points only null-check their arguments and delegate.
- These are not part of this model:
  - `src/img/utils.rs` apart from `resize_if_needed` and `save_dds_blob`;
  - `build.rs`;
  - the tests, apart from the facts they state about file names.
- Api.SetErrorMsg: the message's `{:#}` formatting is not modelled; the method starts from the formatted string.
