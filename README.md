# gnome-semilab: in-place transpose and CSV spectrum reader

This project models two parts of gnome-semilab, a GNOME application for
semiconductor efficiency-limit calculations, and proves properties of them.

* **`matrix_transpose`** (`src/utils.c`). It turns a row-major matrix of
  `h` rows and `w` columns into its `w`-by-`h` transpose, in place. It
  follows the cycles of the index map `P(k) = (k % h) * w + k / h` and
  rotates each cycle once, starting from the cycle's least index. Module
  `Cycles` (`cycles.dfy`) holds the orbit theory of any permutation table:
  - every orbit comes back to its start;
  - every cycle has a least index;
  - rotating a cycle moves exactly its members.

  Module `Transpose` (`transpose.dfy`) builds the index map. It proves the
  map is a permutation of `[0, w*h)` and gives the two do-while loops and
  the outer `for` loop as methods. Those methods are proved against the
  specification function `Transposed`.
* **The CSV reader** (`src/csv_reader.c`), in module `CsvReader`
  (`csv_reader.dfy`). libcsv calls `cb1` for each field and `cb2` for each
  record end. Here libcsv is the sequence of those calls, a stream of
  `Event`s. `strtod` and `strtoul` are function parameters that return the
  value and whether all of the text was consumed.
  - The header state `struct csv_head` is the class `Header`.
  - The two body accumulators are the classes `Body` (`double`/`double`)
    and `PairBody` (`unsigned int`/`double`). Their callbacks update the
    fields and the `realloc`-grown arrays in place.
  - Each class's abstract state is tied to a pure replay of the event
    stream (`FirstRecord`, `Replay`, `ReplayPairs`). The lemmas about the
    buffers and the error flag are proved on that replay.
  - `ReadCsv` runs both libcsv passes. It then lays out the buffer:
    - 1-D: it transposes the buffer and takes columns 0 and 1 as
      wavelengths and intensities.
    - 2-D: it takes row 0 as the wavelengths and each later row as one
      intensity row.

The body buffer of `read_csv` is first allocated with `calloc`, so its
slots past the stored cells read as zeros up to the end of that first
block; later `realloc`s leave their new slots indeterminate. The class
`Body` records the first block's length in the field `zeroed` (the C
struct has no such field), and the layouts read the buffer as the stored
cells followed by those zeros (`Memory`). Results whose C behaviour is
undefined or indeterminate are the value `Undefined`:
- a division by zero when no column was seen;
- a `memcpy` that reads past both the stored cells and the zero-filled
  first block, which reads indeterminate slots of a later `realloc` or
  runs past the buffer.

The two axis/dimension combinations the code never fills in are
`Unsupported`.

The layouts cut the flat sequence of data cells into rows of `num_cols`
cells; nothing in the code checks the width of a record (the row check of
`cb2_double_double` can never fire, `RowCheckHolds`). For a stream whose
records all have the first record's width (`Rectangular`), `Records2D`
and `Records1D` prove that these rows are the records of the file. A
record of another width shifts every later row, in C and in the model.

## Model

| member | source | states |
|---|---|---|
| Transpose.RotateFrom | src/utils.c:128-144 | one round of the outer loop extends the invariant from `start` to `start + 1`: every cycle whose least index is at most `start` is rotated, and the contents stay a permutation |
| Transpose.TransposeDone | src/utils.c:126-145 | once every start is processed, the contents are `Transposed`, the first `w*h` cells are a permutation of the old ones and the tail is unchanged |
| Transpose.MatrixTranspose | src/utils.c:118-146 | the array becomes `Transposed(old, w, h)`: position `k < w*h` holds the old cell at `(k % h) * w + k / h`; the first `w*h` cells are a permutation of the old ones; every cell from `w*h` on is unchanged |
| Transpose.TransposedAt | src/utils.c:138-144 | for `r < h` and `c < w`, both `c*h + r` and `r*w + c` lie below `w*h`, and the transpose holds the old `m[r*w + c]` at `c*h + r` |
| Transpose.Next | src/utils.c:133 | one step of either loop maps a position below `w*h` to a position below `w*h` |
| Transpose.NextInverse | src/utils.c:133 | the step for `(h, w)` undoes the step for `(w, h)`, so the index map is a bijection on `[0, w*h)` |
| Transpose.NextInjective | src/utils.c:133 | two positions below `w*h` with the same successor are equal |
| Transpose.IndexMap | src/utils.c:130-134 | the index map, as a table of `w*h` entries, is a permutation of `[0, w*h)` |
| Transpose.TransposeRoundTrip | src/utils.c:118-146 | transposing with `(w, h)` and then with `(h, w)` gives back the original contents |
| Transpose.TransposeVector | src/utils.c:133-136 | when `w == 1` or `h == 1`, every position is its own successor (all cycles have length 1) and the transpose changes nothing |
| Transpose.NextIndex | src/utils.c:133 | the computed `(k % h) * w + k / h` is entry `k` of the index-map table |
| Transpose.ScanCycle | src/utils.c:128-136 | the first do-while loop stops after `1 <= i <= w*h` steps at an index `<= start`, and every earlier step was above `start`; it comes back to `start` after more than one step exactly when `start` is the least index of a cycle that moves something |
| Transpose.RotateCycle | src/utils.c:138-144 | the second do-while loop gives each member `x` of the cycle led by `start` the old cell at `P(x)`; every other cell is unchanged and the contents are a permutation of the old ones |
| Transpose.AllRotated | src/utils.c:126-145 | once every start has been processed, every position below `w*h` holds the cell of its image, which is `Transposed` |
| Transpose.SkipStart | src/utils.c:135-136 | a start skipped by the `continue` leads no cycle that still needs rotating |
| Transpose.RotatedStart | src/utils.c:138-144 | after rotating the cycle led by `start`, every cycle whose least index is at most `start` is rotated |
| Cycles.Periodic | src/utils.c:130-134 | every orbit of a permutation comes back to its start within `n` steps, so the do-while loops end |
| Cycles.LeaderIsCycleMin | src/utils.c:134-136 | a start whose walk comes back to it and stays above it on the way is the least index of its cycle |
| Cycles.NotLeader | src/utils.c:135 | a start whose walk drops below it is not the least index of any cycle |
| Cycles.FixedLeader | src/utils.c:135 | a fixed point (`i == 1`) is the least index only of its own one-element cycle |
| Cycles.CycleMembers | src/utils.c:139-144 | the indices whose cycle has least index `s` are exactly the `len` positions the walk from `s` visits |
| Cycles.RotationDone | src/utils.c:138-144 | a full turn of the rotation gives exactly the cycle's members the cell of their image and keeps the multiset of contents |
| Cycles.RotatedInvariant | src/utils.c:139-144 | the contents after each write of the rotation satisfy the loop invariant `Rotating` |
| CsvReader.ToUint | src/csv_reader.c:229 | the conversion to `unsigned int` is the value modulo 2^32: a value below 2^32 is kept, and adding 2^32 changes nothing |
| CsvReader.Header.constructor | src/csv_reader.c:164 | `struct csv_head head = {0}`: no buffer, no field stored, no record counted |
| CsvReader.Realloc | src/csv_reader.c:152 | the grown buffer has the new length and keeps the old elements |
| CsvReader.EndsZero | src/csv_reader.c:121-127 | no record has ended (`num_rows == 0`) exactly when the stream holds no record end |
| CsvReader.FirstRecordSnoc | src/csv_reader.c:143-154 | a new event extends the first record only when it is a field and no record has ended yet; a NULL field adds `""` |
| CsvReader.Header.AddField | src/csv_reader.c:137-155 | once a record has ended, nothing changes; otherwise the field's text (`""` for NULL) is appended, `size` grows by one, and the capacity becomes 512 and then doubles whenever `size + 1` reaches it |
| CsvReader.Header.GrowFields | src/csv_reader.c:149-153 | the capacity becomes 512, then doubles; the stored fields are kept and there is room for one more |
| CsvReader.Header.CountRow | src/csv_reader.c:121-127 | `num_rows` grows by one and nothing else changes |
| CsvReader.Header.Dispatch | src/csv_reader.c:182 | after one more event, the header state is that of the longer stream: `num_rows` is its record-end count and the stored fields are its first record |
| CsvReader.ReadCsvFields | src/csv_reader.c:157-194 | the result is NULL and `*length` untouched exactly when a read failed before the first record end or no record ended; otherwise `*length` is the first record's field count minus 1, and the result is that record's fields, or NULL when the record has no field |
| CsvReader.BodyCapacity | src/csv_reader.c:274-275 | the body capacity always grows: `num_cols * 1024` at first (1024 when that is 0), double after that |
| CsvReader.Store | src/csv_reader.c:272-297 | the counters are unchanged; the capacity grows when `size + 1` reaches it; the first allocation fixes the zero-filled block at its capacity; room for one more cell is kept; a cell starting with EF BB BF only sets the error flag; any other cell is stored, and the error flag is set exactly when `strtod` stops short |
| CsvReader.OnCell | src/csv_reader.c:253-298 | with the error flag set, nothing changes; during the first record both column counters grow and, with a header, nothing is stored; a cell is stored exactly when the flag is clear, it is not a header cell and it has no BOM; the flag is then set exactly for a BOM or a partial conversion |
| CsvReader.OnRecord | src/csv_reader.c:314-325 | `num_rows` grows by one; the flag is set when it was set or the counters differ; nothing else changes |
| CsvReader.Replay | src/csv_reader.c:253-325 | after any stream the two column counters are equal, there is room for one more cell (or none is stored), the zero-filled block lies inside the buffer, and `num_rows` is the record-end count |
| CsvReader.ReplayZeroed | src/csv_reader.c:262-278 | there is a zero-filled block exactly when a buffer was allocated; with a header it is `num_cols * 1024` slots (1024 for an empty header) and was allocated after the header row; without one it is 1024 slots |
| CsvReader.RowCheckHolds | src/csv_reader.c:318-324 | a record end never changes the error flag: the row check of `cb2_double_double` never fires |
| CsvReader.ReplayStores | src/csv_reader.c:263-292 | without an error, the buffer holds the `strtod` values of the data cells in order, and `num_cols` is the width of the first record |
| CsvReader.Records | src/csv_reader.c:263-325 | the stream cut at its record ends has one more record than record ends: the fields `cb1` reports between two `cb2` calls form one record |
| CsvReader.WidthIsFirstRecord | src/csv_reader.c:263-271 | the column count taken while `num_rows == 0` is the number of fields of the first record |
| CsvReader.DataCellsRecords | src/csv_reader.c:263-292 | the data cells are the records one after another, without the first one when `with_header` skips it |
| CsvReader.DataRecord | src/csv_reader.c:263-292 | when every ended record is as wide as the first, run `i` of `num_cols` data cells is data record `i` |
| CsvReader.ErrorStep | src/csv_reader.c:260-297 | one event adds at most one data cell, and sets the error flag exactly when the flag was set or the added cell is bad |
| CsvReader.ReplayError | src/csv_reader.c:260-297 | the error flag is set exactly when some data cell starts with a BOM or does not convert completely |
| CsvReader.Body.constructor | src/csv_reader.c:340-341 | `struct csv_body_double_double body = {0}` with `with_header` set: the state is the empty accumulator |
| CsvReader.Body.OnField | src/csv_reader.c:253-298 | the new state is `OnCell` of the old state |
| CsvReader.Body.StoreField | src/csv_reader.c:272-297 | the new state is `Store` of the old state |
| CsvReader.Body.GrowData | src/csv_reader.c:272-278 | the capacity becomes `BodyCapacity` of the old one and the stored cells are kept; the first allocation is `calloc`ed, so the zero-filled block is its whole capacity |
| CsvReader.Body.OnRecordEnd | src/csv_reader.c:314-325 | the new state is `OnRecord` of the old state |
| CsvReader.Body.Dispatch | src/csv_reader.c:377 | after one more event, the body state is the replay of the longer stream |
| CsvReader.StorePair | src/csv_reader.c:215-250 | an even `size` appends a wavelength (`strtoul`, truncated to 32 bits), growing the capacity when `size + 1` reaches it; an odd `size` appends an intensity (`strtod`) and clears `buf_reallocated`; `size` grows by one, the buffer shape is kept, and the flag is set exactly when the conversion stops short |
| CsvReader.OnPairCell | src/csv_reader.c:197-251 | with the error flag set, nothing changes; the first record only counts columns; later cells add one value |
| CsvReader.OnPairRecord | src/csv_reader.c:301-312 | `num_rows` grows by one; the flag is set when it was set or the counters differ; nothing else changes |
| CsvReader.ReplayPairs | src/csv_reader.c:197-312 | after any stream the column counters are equal, the pair buffers keep their shape, and `num_rows` is the record-end count |
| CsvReader.ReplayPairsPlacement | src/csv_reader.c:209-249 | without an error, the first record is skipped; data cell k is `wavelengths[k/2]` (`strtoul` modulo 2^32) when k is even and `intensities[k/2]` (`strtod`) when k is odd; there are `ceil(n/2)` wavelengths and `floor(n/2)` intensities |
| CsvReader.PairErrorStep | src/csv_reader.c:205-249 | one event adds at most one data cell, and sets the error flag exactly when the flag was set or the added cell does not convert in its column |
| CsvReader.ReplayPairsError | src/csv_reader.c:205-249 | the error flag is set exactly when some data cell does not convert completely in its column |
| CsvReader.Halves | src/csv_reader.c:216 | `size` is even exactly when both buffers hold the same number of values, and `size / 2` is the intensity count |
| CsvReader.PairBody.constructor | src/csv_reader.c:42-53 | a zeroed `struct csv_body_uint_double`: the state is the empty pair accumulator |
| CsvReader.PairBody.OnField | src/csv_reader.c:197-251 | the new state is `OnPairCell` of the old state |
| CsvReader.PairBody.StoreWavelength | src/csv_reader.c:215-234 | the new state is `StorePair` of the old state |
| CsvReader.PairBody.GrowWavelengths | src/csv_reader.c:217-224 | the capacity becomes `BodyCapacity` of the old one, `buf_reallocated` is set, and the wavelengths are kept |
| CsvReader.PairBody.PutWavelength | src/csv_reader.c:229 | the value is appended to the wavelengths and nothing else changes |
| CsvReader.PairBody.StoreIntensity | src/csv_reader.c:235-250 | the new state is `StorePair` of the old state |
| CsvReader.PairBody.GrowIntensities | src/csv_reader.c:238-243 | the intensity buffer gets the current capacity, keeps its values, and `buf_reallocated` is cleared |
| CsvReader.PairBody.PutIntensity | src/csv_reader.c:244 | the value is appended to the intensities and nothing else changes |
| CsvReader.PairBody.OnRecordEnd | src/csv_reader.c:301-312 | the new state is `OnPairRecord` of the old state |
| CsvReader.PairBody.Dispatch | src/csv_reader.c:93-104 | after one more event, the state is the replay of the longer stream |
| CsvReader.DataRows2D | src/csv_reader.c:434 | `num_rows - 1` in `unsigned int`: `2^32 - 1` for no record, `num_rows - 1` otherwise |
| CsvReader.ParseBody | src/csv_reader.c:369-384 | the body after the whole stream is the replay of that stream |
| CsvReader.Memory | src/csv_reader.c:276-277 | the buffer read from its start: the stored cells, then zeros up to the end of the `calloc`ed first block |
| CsvReader.CopyColumns | src/csv_reader.c:424-427 | two zeroed arrays as long as the buffer, holding the first `nd` cells and the `nd` cells after them |
| CsvReader.TransposedColumns | src/csv_reader.c:421-427 | after the transpose of `nd` rows of `nf >= 2` cells, positions `i` and `nd + i` hold cells 0 and 1 of row `i` |
| CsvReader.TransposedColumn | src/csv_reader.c:421-427 | with a single column the transpose changes nothing: position `i` holds stored cell `i` and position `nd + i` a zero of the first block |
| CsvReader.Vertical1D | src/csv_reader.c:419-428 | the wavelengths are column 0 and the intensities column 1 of the `nd` data rows, zero-padded to the buffer capacity; a single column has all-zero intensities; the buffer is left transposed |
| CsvReader.Layout1D | src/csv_reader.c:410-429 | `num_fields = num_cols` and `num_datarows = size / num_cols` (undefined when `num_cols` is 0); horizontal is unsupported; vertical gives the columns above, and is undefined only when the `2 * num_datarows` slots it copies reach past both the stored cells and the zero-filled block |
| CsvReader.SingleColumn1D | src/csv_reader.c:418-427 | a vertical single column of `n` cells with `2 * n` inside the zero-filled block has the cells as wavelengths and all-zero intensities |
| CsvReader.CopyRows | src/csv_reader.c:437-444 | the wavelengths are row 0 of the buffer and intensity row `i` is row `i + 1`, for every `i < nd` |
| CsvReader.Layout2D | src/csv_reader.c:430-445 | `num_fields = num_cols` and `num_datarows = num_rows - 1` in `unsigned int`; vertical is unsupported; horizontal makes the wavelengths row 0 and intensity row `i` row `i + 1` of the buffer, a row past the stored cells reading as zeros inside the first block, and is undefined only when the rows reach past both |
| CsvReader.HeaderZeroRow | src/csv_reader.c:434-443 | with a header, `num_rows - 1` rows are stored and `num_datarows` is `num_rows - 1`: the wavelengths are the first data row and the last intensity row is all zeros |
| CsvReader.StoredDataRows2D | src/csv_reader.c:434 | the intensity-row count the stored cells hold: every complete row after the wavelength row, so no row is read past the cells |
| CsvReader.StoredDataRowsAgree | src/csv_reader.c:434 | without a header the stored-row count is `num_rows - 1`; with one it is one less |
| CsvReader.ReadCsv | src/csv_reader.c:327-448 | the result is NULL exactly when a 1-D header is wanted and its read fails or finds no field, `csv_init` fails, a chunk is not fully read or parsed, a data cell is bad (BOM or partial conversion), or `dim` is not 1 or 2; otherwise it is the 1-D or 2-D layout of the `strtod` values of the data cells and the zero-filled first block, with `num_fields` the first record's width |
| CsvReader.RowIsRecord | src/csv_reader.c:292 | when every ended record is as wide as the first, row `i` of the stored `strtod` values is data record `i` converted |
| CsvReader.CellIsField | src/csv_reader.c:292 | when every ended record is as wide as the first, cell `c` of stored row `j` is field `c` of data record `j` converted |
| CsvReader.BufferRowIsRecord | src/csv_reader.c:437-444 | when every ended record is as wide as the first, row `i` of the buffer that the 2-D copy reads is data record `i` |
| CsvReader.Records2D | src/csv_reader.c:430-445 | for a rectangular stream read horizontally in 2-D, the wavelengths are the first data record and intensity row `i` is the data record after it; without a header every intensity row is a record, with one every row but the last |
| CsvReader.Records1D | src/csv_reader.c:410-429 | for a rectangular stream read vertically in 1-D, wavelength `j` is field 0 and intensity `j` field 1 of data record `j` |

## Left out

- File I/O: the chunked `fread` loops (src/csv_reader.c:169-183, 369-382) are not modelled; the file's bytes appear only as libcsv's event streams. A failed read or a partial parse of the body is the single flag `parsed` of `ReadCsv`; a failed read in `read_csv_fields` is the flag `readOk` of `ReadCsvFields` (`headerRead` of `ReadCsv`).
- libcsv itself: `csv_init`, `csv_parse`, `csv_fini` and `csv_free` are foreign code. They are modelled by the events they report and by the flag `initOk`. `read_csv_fields` never calls `csv_fini`, so its `header` stream is the events `csv_parse` reports. `ReadCsvFields` models the header pass only, without its early stop after the first record end, which gives the same result.
- `strtod` and `strtoul` are foreign code. Each is a function parameter returning the value and whether `*endptr` reached the end; floating point is the mathematical `real`.
- Widths of the C integers: `size`, `buffer_size`, the row and column counters and the products `size + 1`, `w * h` and `(i + 1) * num_fields` are unbounded naturals. Their wrap-around is not modelled, except for the two truncations the code relies on: `ToUint` and `DataRows2D`.
- Allocation failure: `malloc`, `calloc` and `realloc` never fail here. A C null buffer is an array of length 0, and `Realloc` stands for all three.
- The inverted `malloc`/`realloc` for `intensities` at src/csv_reader.c:240-241 is not reproduced. `GrowIntensities` keeps the stored intensities, as the code evidently means to; the C loses them.
- NULL cells in the body: `read_csv` does not ask libcsv for NULL cells, so body cells are always bytes. The `s ? ... : 0` branches and the `*endptr` dereference on a NULL cell (src/csv_reader.c:228-230, 244-245, 292-293) are not modelled. No memory-safety property is claimed for them.
- Result shapes: `struct csv_data_2d` is not part of this model; its members are taken from their uses at src/csv_reader.c:433-443. `Spectrum2D` carries no `fields` at all. `None` stands for the `fields` that 1-D data without a header leaves unset, and for the `fields` of `Unsupported(2, None, ...)`.
- Indeterminate memory: the slots a later `realloc` adds are indeterminate in C. A layout that would read one gives `Undefined` rather than some value. `Realloc` fills new slots with a placeholder that the results never expose; only the zeros of the first `calloc` are read.
- Text is bytes. Embedded NUL bytes, which C string functions would stop at, are not modelled. The `strdup` copies of header fields are values.
- Out of scope: `count_rows` and the row counter of `src/sqlimit.c`, `src/spe_reader.c`, `src/utils/spe2csv.c`, the physical constants of `src/consts.c`, the GTK user interface, the OS wrappers in `src/utils.c` and the test programs.
- src/csv_reader.h:64 declares `read_csv` with one parameter. The definition at src/csv_reader.c:327-331, which takes four, is followed.
- Layout1D: a vertical copy that reaches a `realloc`ed slot or a slot past the capacity gives `Undefined`, because C leaves those bytes indeterminate or out of bounds; the model does not say what such a run returns.
- Layout2D: a row that reaches a `realloc`ed slot or a slot past the capacity gives `Undefined`, for the same reason.
- ReadCsv: inherits those two `Undefined` cases; every read inside the stored cells or the zero-filled first block is modelled with its value.
- Diagnostics printed to `stderr`/`stdout` are not modelled.

## Findings

| source | as written | input that shows it | evidently intended | confidence | as-written member | corrected member |
|---|---|---|---|---|---|---|
| src/csv_reader.c:434 | `num_datarows = num_rows - 1` counts the header row that `cb1_double_double` skipped when `with_header` is set for 2-D data | `read_csv(fp, true, HORIZONTAL, 2)` on `h1,h2`, `1,2`, `3,4`: three records, two stored rows; `num_datarows` is 2, the wavelengths are `1,2`, and intensity row 1 is copied from past the stored cells, all zeros | the intensity rows are the stored rows after the wavelength row, `size / num_cols - 1` | medium; not executed | CsvReader.HeaderZeroRow | CsvReader.StoredDataRows2D |

`ReadCsv` and `Layout2D` keep the count as written, since they model what
`read_csv` returns. `StoredDataRowsAgree` shows that the corrected count
is the written one without a header and one less with a header.
