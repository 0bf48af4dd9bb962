# yt_idefix readers, modelled in Dafny

yt_idefix is the yt front end for the outputs of the Idefix and PLUTO
astrophysics codes. This project models the parts of it that decode files
and derive a dataset's parameters from them. It proves what each decoder
yields, when it fails, and how it relates to an independent description of
the same data.

- **Idefix dump files** (`_io/dmp_io.py`). A dump is a 128-byte text
  header followed by records. Each record has a 16-byte NUL-padded name, an
  int32 type code, an int32 rank, `rank` int32 extents and a payload.
  - The model decodes headers, payloads (serial, distributed, skipped,
    scalar) and the two walks over the file:
    - the full read, up to the `eof` record;
    - the offset index of the physical fields (`Vc-`/`Vs-` names).
  - It proves that the two walks agree.
  - It proves that reading one field through its offset gives what the
    full read decodes.
  - It proves that `skip_data` only drops the payloads of physical fields.
  - It proves that arrays are laid out column-major.
- **The dump dataset** (`data_structures.py`). This covers the detected
  fields, the domain dimensions, the dimensionality, the edges and the
  time that `IdefixDmpDataset._parse_parameter_file` takes from the two
  dicts of the full read.
- **The VTK and XDMF/HDF5 readers** (`_io/h5_io.py`, `data_structures.py`):
  - the walk recording where each VTK field starts;
  - the geometry check and the edge slicing of `read_grid_coordinates`;
  - the `grid.out` reader of the PLUTO XDMF front end;
  - the snapshot line of a PLUTO `.h5.out` log (time and tracer count);
  - cell widths, cell centres and domain edges.
- **Definitions headers and units**:
  - `remove_comments` (`misc.py`), the C comment stripper;
  - the `#define GEOMETRY` scans of the Idefix and PLUTO readers;
  - `_setup_geometry`;
  - PLUTO's check of `units_override`.

Files are byte sequences (`seq<byte>`) or lists of lines. Bytes become
text through UTF-8 (`Utf8`), whose well-formed sequences are those of
table 3-7 in section 3.9 of the Unicode Standard: record names use the
`backslashreplace` decoder, VTK declaration lines the strict one. A file handle
is a cursor into the sequence. Errors Python raises are `Err` values of a
`Result`. Python dicts are insertion-ordered association lists (`Dicts`).
Floating-point numbers are `real`s, and payload values stay the byte words
stored on disk.
The `grid.out` block reader takes the reading of one cell line as a
parameter, so that its layout lemmas hold for any line reader; the file
reader passes the one the source uses.

## Model

| member | source | states |
|---|---|---|
| ByteReader.ReadExact | yt_idefix/_io/dmp_io.py:33-38 | an unpack of `n` bytes succeeds exactly when `n` bytes remain, and yields those bytes |
| ByteReader.DecodeEncodeInt32 | yt_idefix/_io/dmp_io.py:32-38 | every 32-bit integer written as four little-endian two's-complement bytes reads back unchanged |
| ByteReader.ReadNullTerminatedStringText | yt_idefix/_io/dmp_io.py:20-25 | the name read holds no NUL and is the UTF-8 decoding, with `\xhh` for every byte outside a well-formed sequence, of the bytes up to the first NUL, or of all bytes read |
| ByteReader.DecodeBeforeNul | yt_idefix/_io/dmp_io.py:23-24 | decoding everything and cutting the text at its first NUL is the same as decoding only the bytes before the first NUL byte |
| ByteReader.ReadPaddedName | yt_idefix/_io/dmp_io.py:20-25 | a NUL-free name whose UTF-8 encoding is NUL-padded to its slot reads back as itself, and the whole slot is consumed whatever follows |
| Utf8.DecodeEncode | yt_idefix/_io/dmp_io.py:23 | text written as UTF-8 reads back as itself under the strict decoder and under the `backslashreplace` one |
| Utf8.DecodeExactlyEncodings | yt_idefix/_io/h5_io.py:116 | `decode()` succeeds with a text exactly when the bytes are that text's UTF-8 encoding; any other bytes raise |
| Utf8.ReplacingAgrees | yt_idefix/_io/dmp_io.py:23 | on bytes that decode without error, `backslashreplace` changes nothing |
| Utf8.DecodeAcute | yt_idefix/_io/dmp_io.py:23 | the two bytes `C3 A9` decode to the one character `é` |
| Utf8.DecodeInvalidByte | yt_idefix/_io/dmp_io.py:23 | a lone `FF` byte makes `decode()` raise; `backslashreplace` writes it as the four characters `\xff`, the same name the ASCII bytes `\xff` give |
| DumpRecords.ParseEncodedHeader | yt_idefix/_io/dmp_io.py:28-39 | a header written as its NUL-padded UTF-8 name, type code, rank and int32 extents parses back as itself and ends where it was written, whatever follows |
| DumpRecords.Int32sEncoded | yt_idefix/_io/dmp_io.py:37-38 | `rank` int32 extents written in a row are unpacked by `={ndim}i` as themselves |
| DumpRecords.DTypeOfCode | yt_idefix/_io/dmp_io.py:33 | the type codes 0..2 name double, single and integer; -3..-1 index from the end as Python lists do; any other code fails |
| DumpRecords.ParseHeaderFields | yt_idefix/_io/dmp_io.py:28-39 | a parsed header is the padded name, the type of the first int32, the rank of the second, and that many extents; a rank above 3 is refused |
| DumpRecords.ElementCount | yt_idefix/_io/dmp_io.py:56-57 | the count is the int64 product of the extents wrapped on overflow; an empty or negative count is refused |
| DumpRecords.ReadChunkSpec | yt_idefix/_io/dmp_io.py:42-68 | skipping fails only on a bad format; a read needs the payload inside the file; a scalar is the first value; an array is the payload cut into values with reshapable extents |
| DumpRecords.ReadSerialSpec | yt_idefix/_io/dmp_io.py:71-76 | a serial record must have rank 1 and decodes to its declared type, as an array or as a scalar |
| DumpRecords.ReadDistributedSpec | yt_idefix/_io/dmp_io.py:79-87 | a distributed payload is read as doubles whatever its declared type: skipped when well-formed, otherwise `Product(extents)` eight-byte values |
| DumpRecords.ArrayIsColumnMajor | yt_idefix/_io/dmp_io.py:67 | the element at a multi-index of a decoded array is the value stored at its column-major position |
| ColumnMajor.LinearIndexInRange | yt_idefix/_io/dmp_io.py:67 | every in-bounds multi-index has a position inside the flat run |
| ColumnMajor.LinearIndexInjective | yt_idefix/_io/dmp_io.py:67 | distinct in-bounds multi-indices have distinct positions, so the layout is a bijection |
| ColumnMajor.Stride | yt_idefix/_io/dmp_io.py:67 | stepping axis `k` moves by the product of the earlier extents; the first axis varies fastest |
| DumpWalk.FieldNameSpellings | yt_idefix/_io/dmp_io.py:118 | the regular expression `^V[cs]-` and the two `startswith` tests accept the same names |
| DumpWalk.ReadGrid | yt_idefix/_io/dmp_io.py:154-160 | each of the nine grid records is a rank-1 array whose header sits at its logged offset; the records lie inside the file in strictly increasing order |
| DumpWalk.FieldsInOrder | yt_idefix/_io/dmp_io.py:162-175 | the records after the grid are logged in strictly increasing file order |
| DumpWalk.FieldHeaders | yt_idefix/_io/dmp_io.py:162-175 | each logged record is the one whose header sits at its offset, and none of them is the `eof` sentinel |
| DumpWalk.DumpRecordAt | yt_idefix/_io/dmp_io.py:145-177 | in the full read, the first nine records are the rank-1 coordinate arrays and every record is the one at its offset |
| DumpWalk.DumpDictsHoldLastRecord | yt_idefix/_io/dmp_io.py:154-177 | each name of `fprops` and `fdata` maps to the properties and payload of the last record carrying it |
| DumpWalk.SkipKeepsProps | yt_idefix/_io/dmp_io.py:167-169 | `skip_data` leaves the properties dict unchanged |
| DumpWalk.SkipOnlyAffectsFields | yt_idefix/_io/dmp_io.py:162-175 | a file accepted by the full read is accepted when skipping, with the same records; only the payloads of physical fields are dropped |
| DumpWalk.IndexVisitsSpec | yt_idefix/_io/dmp_io.py:115-121 | every offset of the index walk re-parses to a physical-field header with the recorded name; the payload lies inside the file; offsets increase |
| DumpWalk.IndexAgreesWithFullRead | yt_idefix/_io/dmp_io.py:99-123 | the offset index maps each leading physical field to the offset at which the full read found its record |
| DumpWalk.IndexLeadsToField | yt_idefix/_io/dmp_io.py:126-135 | every indexed offset leads to a header with that name, from which the field reads as the column-major doubles after it |
| DumpWalk.SingleFieldMatchesFullRead | yt_idefix/_io/dmp_io.py:126-135 | reading a field lazily through its offset gives the array the full read decodes for it |
| DumpDataset.Lookup | yt_idefix/data_structures.py:609 | a dict lookup fails with a KeyError exactly when the key is absent, and otherwise yields its value |
| DumpDataset.FieldNamesMembers | yt_idefix/data_structures.py:605 | a name is detected exactly when it is a key of `fprops` spelled as a physical field |
| DumpDataset.FieldNamesAppend | yt_idefix/data_structures.py:605 | detection keeps the order of the keys |
| DumpDataset.DomainDimensionsSpec | yt_idefix/data_structures.py:608-609 | the dimensions are the concatenated extents of x1, x2, x3; the first missing axis is the KeyError |
| DumpDataset.EndValuesSpec | yt_idefix/data_structures.py:615-620 | the left edge of an axis is the first value of its `xl` array and the right edge the last value of its `xr` array; other payloads are not indexable |
| DumpDataset.ParametersSpec | yt_idefix/data_structures.py:601-620 | the parameters exist exactly when every part does; the dimensionality counts the non-unit axes; the fields are the detected ones |
| DumpDataset.EdgesSpec | yt_idefix/data_structures.py:615-620 | the left and right edges fail on the first axis whose entry is missing or not indexable |
| DumpDataset.DumpDimensions | yt_idefix/data_structures.py:608-610 | the dimensions read from an accepted dump are three extents, and the dimensionality is at most 3 |
| DumpDataset.SkipKeepsParameters | yt_idefix/data_structures.py:601-620 | the parameters derived with `skip_data` equal those derived from the full payloads |
| Domain.DimensionalityCountsAxes | yt_idefix/data_structures.py:564 | the dimensionality is the number of axes whose extent is not 1 |
| Domain.DimensionalityExtremes | yt_idefix/data_structures.py:564 | a domain is 0-dimensional exactly when every extent is 1, and full-dimensional exactly when none is |
| Domain.DiffsTelescope | yt_idefix/data_structures.py:192 | the cell widths add up to the distance from the first edge to the last |
| Domain.AxisWidthsSpec | yt_idefix/data_structures.py:176-195 | an axis has `max(dim, 2)` widths; they are the edge differences where the edges fit, the one difference repeated when there are two edges, the domain width along a flat axis; a mismatched edge count fails |
| Domain.AxisCentersSpec | yt_idefix/data_structures.py:198-217 | an axis has `max(dim, 2)` centres; they are edge midpoints where the edges fit, the one midpoint repeated when there are two edges, the first edge along a flat axis; a flat axis without edges fails |
| Domain.CentersMatchWidths | yt_idefix/data_structures.py:190-216 | each cell centre lies half a width past its left edge |
| Domain.CellWidthsAxes | yt_idefix/data_structures.py:190-194 | the three width arrays are the per-axis ones, failing where an axis fails |
| Domain.CellCentersAxes | yt_idefix/data_structures.py:212-216 | the three centre arrays are the per-axis ones, failing where an axis fails |
| Domain.DomainEdgesSpec | yt_idefix/data_structures.py:566-572 | on every axis the right edge is strictly past the left; the left edge is the smallest coordinate; the right edge is the largest, or one past the left when all coincide |
| VtkOffsets.LineEndSpec | yt_idefix/_io/h5_io.py:113 | a line holds no newline before its end, and ends with one unless it runs to the end of the file |
| VtkOffsets.WalkStopsAtShortLine | yt_idefix/_io/h5_io.py:113-115 | the walk records nothing exactly when it stops at a line shorter than two bytes |
| VtkOffsets.DeclarationSpec | yt_idefix/_io/h5_io.py:116-134 | a line that is not well-formed UTF-8 raises the decode error; otherwise a declaration needs exactly three words with a leading `SCALARS` or `VECTORS`; it yields the kind and the upper-cased name |
| VtkOffsets.BlockSpec | yt_idefix/_io/h5_io.py:124-135 | a scalar block records one offset past its lookup-table line; a vector block records `_X`, `_Y`, `_Z` at successive field boundaries; one trailing line follows |
| VtkOffsets.WalkNamesUpper | yt_idefix/_io/h5_io.py:122 | every recorded name is upper case |
| VtkOffsets.WalkIncreasing | yt_idefix/_io/h5_io.py:108-136 | recorded offsets lie after the start and strictly increase when a field takes at least one byte |
| VtkOffsets.WalkEncoded | yt_idefix/_io/h5_io.py:108-136 | a section written block by block and ended by a short line or the end of the file walks back to exactly the entries of its blocks, in order |
| VtkOffsets.WalkAsWrittenRaises | yt_idefix/_io/h5_io.py:108-136 | as written, the loop succeeds only on a section empty from the start, where it agrees with the corrected walk; wherever the corrected walk records an offset, it raises NameError |
| VtkOffsets.EncodedSectionRaises | yt_idefix/_io/h5_io.py:124-132 | a written section of at least one block walks to that block's entries under the corrected walk and raises NameError as written |
| VtkOffsets.SingleBlockRaises | yt_idefix/_io/h5_io.py:124-132 | a file of one block such as `SCALARS rho float` walks to that block's entries under the corrected walk and raises NameError as written |
| VtkOffsets.OffsetIndexOfEncoded | yt_idefix/_io/h5_io.py:108-136 | the offset index of such a section is the dict built from those entries |
| GridCoords.KnownGeometriesTable | yt_idefix/_io/h5_io.py:14-19 | the code table maps 0..3 to cartesian, polar, spherical and cylindrical |
| GridCoords.GeometryOfSpec | yt_idefix/_io/h5_io.py:29-32 | the check accepts exactly the names of the table and reads each one back as the geometry it names |
| GridCoords.BranchOfSpec | yt_idefix/_io/h5_io.py:43-45 | arrays with at least one axis take exactly one branch: `mapFromCart` for polar or spherical with more than one axis, slicing otherwise |
| GridCoords.UnknownGeometryRejected | yt_idefix/_io/h5_io.py:22-32 | a geometry outside the table is rejected whatever the node arrays; an accepted one is returned |
| GridCoords.HandedShapes | yt_idefix/_io/h5_io.py:62-96 | the shape handed on is `(n, 1, 1)` for one axis and the stored shape reversed for three, on either branch |
| GridCoords.DefaultEdges | yt_idefix/_io/h5_io.py:46-70 | Y and Z default to `[0, 1]` for one axis; for two axes Z is `[0, 1]` in cartesian geometry and `[0, 2π]` otherwise |
| GridCoords.SlicedEdges2 | yt_idefix/_io/h5_io.py:63-70 | with two axes the X edges are the nodes `X[0, j]` and the Y edges the nodes `Y[i, 0]` |
| GridCoords.SlicedEdges3 | yt_idefix/_io/h5_io.py:71-75 | with three axes the edges are the nodes along the three lines through the first node |
| GridOut.HeaderEndSpec | yt_idefix/data_structures.py:264-269 | the header loop stops at the second marker line, and runs off the end exactly when there are fewer than two |
| GridOut.MissingHeaderRejected | yt_idefix/data_structures.py:264-286 | a file with fewer than two marker lines yields no grid data |
| GridOut.TokensValueSpec | yt_idefix/data_structures.py:293-295 | a row reads as its last number minus the one before; it fails on a missing or non-numeric token, checking the last token first |
| GridOut.RowLinesRead | yt_idefix/data_structures.py:291-311 | printed cell lines read back as the cells' widths |
| GridOut.BlockOfRows | yt_idefix/data_structures.py:291-311 | a count line followed by printed cell lines is a block whose widths are the cells' widths |
| GridOut.BlocksRead | yt_idefix/data_structures.py:291-313 | consecutive blocks read back block by block as their widths, for any way of reading a single line |
| GridOut.HeaderEndsAtSecondMarker | yt_idefix/data_structures.py:264-270 | the grid data starts right after the second marker line, whatever the header says |
| GridOut.GridFileRoundTrip | yt_idefix/data_structures.py:258-313 | a file with any header followed by three axis blocks of cell lines reads back as each block's widths |
| PlutoOut.CountFrom | yt_idefix/data_structures.py:919-922 | the tracer loop ends with every tracer name up to the count present and the next one absent |
| PlutoOut.TracerCountIsLargest | yt_idefix/data_structures.py:919-922 | the tracer count is the largest `m` for which `tr1` .. `trm` all occur among the tokens |
| PlutoOut.OutEntryOfTokens | yt_idefix/data_structures.py:918-922 | a snapshot line yields the time its second token spells and the tracer count of its tokens; fewer than two tokens or a bad number fail |
| PlutoOut.ExampleLineTracers | yt_idefix/data_structures.py:905-906 | the example snapshot line counts three tracers |
| Comments.RemoveCommentsLoop | yt_idefix/misc.py:1-55 | the stripper's output is a subsequence of its input, and is what the state machine produces |
| Comments.CharLitUnreachable | yt_idefix/misc.py:34-47 | the character-literal state is never entered, because the quoted branch takes every `'` first |
| Comments.PlainTextUnchanged | yt_idefix/misc.py:50-51 | input without `/`, `"` or `'` is returned unchanged |
| Comments.LoneSlashCopied | yt_idefix/misc.py:19-51 | a `/` followed by neither `/` nor `*` is copied literally |
| Comments.LineCommentRemoved | yt_idefix/misc.py:19-23 | a `//` comment is removed together with its terminating newline; without a newline the rest is dropped |
| Comments.BlockCommentRemoved | yt_idefix/misc.py:26-31 | a block comment is removed with both delimiters; an unterminated one drops the rest |
| Comments.QuotedRun | yt_idefix/misc.py:34-39 | a quote opens a run that closes only at the same unescaped quote; both quotes are copied, the characters between them are not |
| GeometrySetup.SplitLinesJoin | yt_idefix/data_structures.py:479 | splitting at newlines loses nothing: the pieces join back to the body and hold no newline |
| GeometrySetup.DefineLineMatches | yt_idefix/data_structures.py:52 | every line of the form indent, `#define`, gap, `GEOMETRY`, gap, upper-case name matches and captures the name |
| GeometrySetup.GeometryDefineShape | yt_idefix/data_structures.py:52 | only lines of that form match |
| GeometrySetup.DiskPlanetHeaderLine | yt_idefix/data_structures.py:52 | the geometry line of the disk-planet test header names the spherical geometry |
| GeometrySetup.FirstGeometrySpec | yt_idefix/data_structures.py:481-484 | the Idefix scan finds a geometry exactly when some line matches, and it is the lower-cased name of the first match |
| GeometrySetup.LastGeometrySpec | yt_idefix/data_structures.py:682-684 | the PLUTO scan finds a geometry exactly when some line matches, and it is the lower-cased name of the last match |
| GeometrySetup.ScansAgreeOnSingleDefine | yt_idefix/data_structures.py:481-484 | with at most one geometry line the two scans agree |
| GeometrySetup.SetupGeometryErrors | yt_idefix/data_structures.py:429-446 | a binary file and header naming different geometries is an error; with nothing from disk or user the geometry is undetermined |
| GeometrySetup.SetupGeometryResolves | yt_idefix/data_structures.py:429-463 | a user geometry wins, then the binary file's, then the header's; the warning fires exactly when the user overrides a different geometry on disk |
| UnitsOverride.ValidateSpec | yt_idefix/data_structures.py:788-820 | each error arises exactly when its check is the first to fail: temperature, then more than three units, then an invalid combination |
| UnitsOverride.FewUnitsAccepted | yt_idefix/data_structures.py:788-820 | fewer than three units without the temperature are always accepted |
| UnitsOverride.AcceptedIffDetermined | yt_idefix/data_structures.py:760-773 | three distinct units are accepted exactly when length, time and mass can be solved from them |
| Text.SplitJoin | yt_idefix/data_structures.py:293 | splitting space-joined tokens gives the tokens back |
| Text.ParseDecimalOfNat | yt_idefix/data_structures.py:293 | a printed natural number reads back as a float of the same value |
| Text.ParseIntOfNat | yt_idefix/data_structures.py:285 | a printed natural number reads back with `int()` |
| Dicts.FromPairsGet | yt_idefix/_io/dmp_io.py:159-174 | after a run of assignments a key holds the value of its last assignment |
| Dicts.FromDistinctPairs | yt_idefix/_io/dmp_io.py:159-174 | assignments to distinct keys are stored as given, in order |

## Left out

- The file system, HDF5 access, `open`, `os.path` and the yt plumbing. Every reader takes the file's bytes or lines as a parameter.
- IEEE-754 decoding of payload values. Values stay the byte words on disk, so float conversion and rounding are not modelled.
- Text.ParseDecimal: accepts only finite decimal numerals. Python's `float()` also takes `inf`, `nan`, underscores and non-ASCII digits.
- Text.ParseInt: accepts only an optional sign and ASCII digits. Underscores and non-ASCII digits are not modelled.
- Text.Split: uses ASCII whitespace only.
- Text.Upper: changes the 26 ASCII letters only. The same holds for `Lower`.
- GridCoords.ReadGridCoordinates: leaves out the 1-D spherical and polar correction (`h5_io.py:52-61`), because it reads `/cell_coords` and divides by `sin(0.5)` or `cos(0.5)` in floating point.
- GridCoords.ReadGridCoordinates: represents the `mapFromCart` branch and `to_cell_centered` by their arguments. Both live in a module that is not part of this model.
- GridCoords.HandedShapes: the two-axis branches pass one tuple argument, whose effect inside `to_cell_centered` is not modelled.
- GridCoords.ReadGridCoordinates: does not model node arrays with more than three axes.
- `_parse_geometry` (the string-to-enum conversion in yt) is not modelled.
- PLUTO's unit definitions (`#define UNIT_...`, evaluated with `eval`) are not modelled.
- The `super()` call at the end of `_validate_units_override_keys` is yt's own code and is left out.
- The code-unit selection loop of `_set_code_unit_attributes` is left out.
- The filename-to-entry parsing of the PLUTO XDMF reader is left out. The entry number is a parameter of `PlutoOut.ParseOutEntry`.
- Domain.CellWidths: requires three extents, three edge arrays and three widths, as a dataset always has. The source builds its three arrays without checking this. The same holds for `Domain.CellCenters`.
- GeometrySetup.DiskPlanetHeaderLine: states the test header's geometry line through `DefineLine`. The whole header file is not read.
- GridOut.GridFileRoundTrip: states the layout of a well-formed file as a predicate over lines. It is not stated as a printing function for whole files.
- DumpDataset.ParametersSpec: keeps the domain edges and the time as raw byte words, and leaves out `float64` conversion and periodicity.
- `current_time` conversion is left out of the dump dataset, and so is periodicity.
- Concurrency and MPI: a distributed dump is read as one file.
- VtkOffsets.Block: skips `size` bytes per field where h5_io.py:127 and :132 call `read_single_field(fh, shape=shape, skip_data=True)`. That name is neither defined in h5_io.py nor imported (line 12 imports only `Coordinates`, `Shape` and `mapFromCart`), so the source as written raises NameError at the first block. `WalkAsWritten` models that; `Walk` and the lemmas about it model the evident intent (see Findings).
- `read_header` and `read_idefix_dmpfile` (`dmp_io.py:93-143`) open files and decode the 128-byte text header. They are left out as I/O.

## Findings

| source | as written | input that shows it | evidently intended | confidence | as-written member | corrected member |
|---|---|---|---|---|---|---|
| yt_idefix/_io/h5_io.py:124-132 | after recording a block's first offset, `read_field_offset_index` calls `read_single_field(fh, shape=shape, skip_data=True)`, a name h5_io.py neither defines nor imports (the function of that name in `dmp_io.py` takes `(fh, field_offset)`), so it raises NameError | any section opening with a `SCALARS` or `VECTORS` block, such as `SCALARS rho float`, `LOOKUP_TABLE default`, the data and a newline | skip the data of one field (one component of a vector) and go on to the next block | not executed; high that the name is unbound in this file | VtkOffsets.EncodedSectionRaises | VtkOffsets.WalkEncoded |
