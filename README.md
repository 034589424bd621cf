# flutter_7zip archive core in Dafny

This project models the `Archive` class of the flutter_7zip plugin. The class
is a read-only view of a 7z archive that the 7-Zip C SDK has opened and parsed.
It has four parts:

- **Entry count.** `numFiles` gives the number of entries.
- **Entry descriptors.** `getFileByIndex` builds a descriptor for one entry:
  - the UTF-16 name, copied into a new zero-terminated array;
  - the size and the directory flag;
  - the CRC-32, or 0 when none is recorded;
  - the creation and modification times, each joined from two 32-bit halves,
    or 0 when none is recorded.
- **Reading into memory.** `readFile` copies an entry's bytes into a new
  buffer of exactly the entry's size. It calls the SDK extractor until the
  buffer is full.
- **Writing to a file.** `extractFileToPath` writes an entry to an output
  file chunk by chunk and returns an `ArchiveStatus`.

The modules follow these parts:

- `Types`: fixed-width integers, `ArchiveStatus` and `Option`.
- `BitVector`: the packed defined-flag vectors of the SDK's entry table.
- `EntryTable`: the parsed table `Db`, and the decoding of names, checksums
  and timestamps.
- `Extraction`: the extractor oracle and `Run`, the function that specifies
  both chunk loops. This module also holds `OutputFile`, the output stream.
- `SevenZipArchive`: the class `Archive` with the imperative methods.

The extractor is an oracle of type `Extractor`. `ex(index, k)` is the answer to
the `k`-th `SzArEx_Extract` call of one request for entry `index`. An answer is
either `Failed` or a chunk `(outBuffer, offset, outSizeProcessed)`. Every
request starts from fresh locals, so its answers depend on the entry alone.
The code keeps no decoded block from one request to the next, and neither does
the model.

The copy loops are specified by `Run`, which gives three things:

- the bytes the loop produces;
- the number of extractor calls;
- whether a call failed.

`ReadFile`, `FillBuffer`, `ExtractFileToPath` and `AppendChunks` are each
proved against `Run`. Lemmas about `Run` then state the size and failure
properties.

Each loop's precondition says what it needs from the extractor:

- `readFile` writes `buffer[read]` without a bounds check. Its model therefore
  requires `Fits`: every chunk lies in its buffer, holds at least one byte, and
  fits in the bytes still missing.
- `extractFileToPath` needs only `Progresses`: every chunk lies in its buffer
  and holds at least one byte, so the loop ends. A chunk that overshoots the
  size is still written in full.

Where the code and the intended design differ, the model follows the code.
This list covers those differences only; the three places where the code
departs from what the 7-Zip SDK or C++ require of it are under "## Findings",
and there the model uses the corrected definitions.

- A directory makes `readFile` return null and `extractFileToPath` return
  `kArchiveReadError`. There is no separate directory error.
- An absent checksum or timestamp reads as 0, so absence cannot be told apart
  from a recorded zero. `CrcAbsentLooksLikeZero` and `TimeAbsentLooksLikeZero`
  state this.
- There is no out-of-range error. `index < numFiles` is a precondition, because
  the code does no bounds check.
- `kArchiveWriteError` is never returned.
- The header calls the second timestamp field `ntfsTime`, but
  `src/flutter_7zip.cpp` assigns `mTime`. The model follows the `.cpp` and
  calls the field `mTime`.

## Model

| member | source | states |
|---|---|---|
| Types.StatusCode | src/flutter_7zip.h:27-34 | Each status has its enumeration value, from 0 to 5; only `kArchiveOK` has code 0 |
| Types.StatusOfCode | src/flutter_7zip.h:27-34 | An integer names a status exactly when it lies in 0..5 |
| EntryTable.EmptyDb | src/flutter_7zip.cpp:41 | The table `SzArEx_Init` produces is well formed and has no entries |
| SevenZipArchive.OpenedTable | src/flutter_7zip.cpp:30-46 | With the table initialized before the early return: the parsed table when the file opens and parses, otherwise a well-formed table with no entries |
| SevenZipArchive.UninitializedTableAsWritten | src/flutter_7zip.cpp:31-33 | After a failed file open the code as written reports the count left in uninitialized memory (5 here, for a table that is not well formed) where the corrected table reports 0 |
| SevenZipArchive.Archive.constructor | src/flutter_7zip.cpp:30-46 | The status is `kArchiveOK` exactly when both the file open and the parse succeed, and then the table is the parsed one; otherwise it is `kArchiveOpenError`. The table is `OpenedTable`'s, so after either failure it has no entries |
| SevenZipArchive.Archive.CheckArchiveStatus | src/flutter_7zip.cpp:172-175 | The integer handed to C callers reads back as the archive's status, and it is 0 exactly when the status is `kArchiveOK` |
| SevenZipArchive.Archive.NumFiles | src/flutter_7zip.cpp:54-56 | The count is the length of every per-entry column of the table, so the indices below it are exactly the describable entries |
| SevenZipArchive.Archive.GetFileByIndex | src/flutter_7zip.cpp:58-103 | New name array equal to the decoded name plus terminator; size and directory flag from the table; checksum and both timestamps as `Crc32Of` and `TimeOf` select them |
| EntryTable.StoredUnit | src/flutter_7zip.cpp:67 | `lo + (hi << 8)` stored in a `uint16_t` is never truncated: it equals `lo + 256 * hi` |
| EntryTable.NameUnitsShape | src/flutter_7zip.cpp:63-70 | The name has `len + 1` units, where `len` is the difference of adjacent offsets; unit `i` is the little-endian pair at byte `2 * (offs + i)`; the last unit is 0. |
| EntryTable.DecodeEncode | src/flutter_7zip.cpp:66-68 | Decoding the little-endian encoding of any code units gives them back |
| EntryTable.EncodeDecode | src/flutter_7zip.cpp:66-68 | Re-encoding decoded units gives back the original bytes, so no byte is lost |
| EntryTable.NameRoundTrip | src/flutter_7zip.cpp:63-69 | The `len` units copied from the table (the name's own stored 0 among them) re-encode to exactly that entry's bytes in the name table |
| EntryTable.NameOfEncoded | src/flutter_7zip.cpp:63-70 | A name stored as the encoding of `units` is read back as `units` followed by 0 |
| EntryTable.NameKeepsStoredTerminator | src/flutter_7zip.cpp:63-69 | A name stored, as the SDK stores names, with its own 0 is read back with two zero units at the end: the stored one, which `len` counts, and the one line 69 adds |
| BitVector.DefinedReadsFlag | src/flutter_7zip.cpp:74 | Reading bit `index` of a packed defined vector gives exactly the flag packed for that entry |
| BitVector.DefinedAsWrittenMisreads | src/flutter_7zip.cpp:74 | Reading byte `index` of a packed vector gives the wrong flag for a flagged entry |
| EntryTable.CrcOfFlags | src/flutter_7zip.cpp:74-78 | The checksum is the recorded value when the entry's flag is set, and 0 otherwise |
| EntryTable.CrcAbsentLooksLikeZero | src/flutter_7zip.cpp:74-78 | A missing checksum and a recorded zero checksum give the same output, 0 |
| EntryTable.Crc32AsWrittenMisreads | src/flutter_7zip.cpp:74-78 | With byte-per-entry flags, a recorded checksum of 0x1234 comes out as 0 |
| EntryTable.Combine64 | src/flutter_7zip.cpp:82-83 | `Low + (uint64(High) << 32)` does not wrap: it equals `Low + High * 2^32` |
| EntryTable.CombineSplit | src/flutter_7zip.cpp:82-83 | The low and high 32-bit halves of a joined time are the `Low` and `High` it was made from |
| EntryTable.SplitCombine | src/flutter_7zip.cpp:82-83 | Every 64-bit value is the join of its own halves |
| EntryTable.TimeOfFlags | src/flutter_7zip.cpp:80-100 | A time is `Low + High * 2^32` when its table exists and the entry's flag is set, and then its halves give back `Low` and `High`; it is 0 otherwise |
| EntryTable.TimeAbsentLooksLikeZero | src/flutter_7zip.cpp:80-100 | An absent table, an unrecorded time and a recorded zero time all give 0 |
| EntryTable.TimeAsWrittenMisreads | src/flutter_7zip.cpp:80-100 | With byte-per-entry flags, a recorded time of 1 comes out as 0 |
| Extraction.RunFits | src/flutter_7zip.cpp:117-127 | With fitting chunks the loop never produces more than `size - read` bytes, and it produces exactly that many if and only if no call fails |
| Extraction.RunCovers | src/flutter_7zip.cpp:150-158 | When no call fails, the chunks add up to at least the entry's size |
| Extraction.RunCalls | src/flutter_7zip.cpp:117-118 | The extractor is called exactly when bytes are missing, and every call except a failing last one delivers at least one byte |
| SevenZipArchive.Archive.ReadFile | src/flutter_7zip.cpp:105-129 | For a directory: null and no extractor call. Otherwise null exactly when a call fails, and on success a new buffer of exactly `size` bytes holding the chunks in order |
| SevenZipArchive.Archive.FillBuffer | src/flutter_7zip.cpp:117-127 | Succeeds exactly when no call fails; the front of the buffer holds every byte copied, in call order, including on failure, and the rest of the buffer is untouched |
| SevenZipArchive.Archive.CopyChunk | src/flutter_7zip.cpp:122-125 | `read` advances by `outSizeProcessed`, the chunk lands right after the bytes already copied, those bytes are kept, and nothing past the chunk is written |
| SevenZipArchive.Archive.ExtractFileToPath | src/flutter_7zip.cpp:131-161 | The result is one of OK, ReadError and OpenError. A directory gives ReadError and the file is untouched; an output that cannot be opened gives OpenError with no extractor call. Otherwise the file holds the chunks in order, and the result is ReadError exactly when a call failed |
| SevenZipArchive.Archive.AppendChunks | src/flutter_7zip.cpp:150-158 | The file gains exactly the bytes produced, in call order, and keeps them when a call fails; the loop succeeds exactly when no call fails |
| Extraction.OutputFile.Open | src/flutter_7zip.cpp:142-149 | The stream is open exactly when the path can be opened for writing, and opening truncates the file |
| Extraction.OutputFile.Write | src/flutter_7zip.cpp:155 | A write appends its bytes to the file |
| Extraction.OutputFile.Close | src/flutter_7zip.cpp:159 | Closing keeps the bytes written |
| SevenZipArchive.Archive.RereadIsIdentical | src/flutter_7zip.cpp:112-116 | Two reads of one entry both succeed or both fail, and they give equal bytes in distinct buffers |

## Findings

| source | as written | input that shows it | evidently intended | confidence | as-written member | corrected member |
|---|---|---|---|---|---|---|
| src/flutter_7zip.cpp:74 | `db.CRCs.Defs[index]` tests byte `index` of the defined vector. The SDK packs that vector eight entries to a byte, most significant bit first. | A table of 16 entries where only entries 0-7 have checksums. The vector is the two bytes 0xFF 0x00. Entry 1's checksum 0x1234 is reported as 0, and entries 2-15 are read past the end of the vector. | Test bit `index`, as the SDK's `SzBitArray_Check` does | medium (SDK layout taken from the 7-Zip C SDK, which is not part of this model); not executed | EntryTable.Crc32AsWritten, EntryTable.Crc32AsWrittenMisreads | EntryTable.Crc32Of, EntryTable.CrcOfFlags |
| src/flutter_7zip.cpp:80-100 | `db.CTime.Defs[index]` and `db.MTime.Defs[index]` test byte `index` of packed defined vectors. | The same 16-entry table with times recorded for entries 0-7. Entry 1's time of 1 is reported as 0. | Test bit `index` | medium (same reason); not executed | EntryTable.TimeAsWritten, EntryTable.TimeAsWrittenMisreads | EntryTable.TimeOf, EntryTable.TimeOfFlags |
| src/flutter_7zip.cpp:31-33 | When `InFile_Open` fails, the constructor returns before `SzArEx_Init` (line 41), so the member `db` (line 23) is never initialized. `numFiles` (line 55) then returns an indeterminate count, and the destructor runs `SzArEx_Free` (line 49) and `delete [] lookStream.buf` (line 51) on indeterminate values. | A path that does not exist: the status is `kArchiveOpenError`, and the count is whatever the memory held. | Initialize the table (and the look-ahead buffer pointer) before the early return, so a failed open has an empty table | high; not executed | SevenZipArchive.OpenedTableAsWritten, SevenZipArchive.UninitializedTableAsWritten | SevenZipArchive.OpenedTable, SevenZipArchive.Archive.constructor |

`GetFileByIndex` uses the corrected selectors `Crc32Of` and `TimeOf`, and
the constructor the corrected `OpenedTable`.
`BitVector.DefinedReadsFlag` and `BitVector.DefinedAsWrittenMisreads` state
the bit-level fact behind both rows.

## Left out

- The 7-Zip SDK calls are not modelled: `InFile_Open`, `SzArEx_Open`,
  `SzArEx_Extract`, `SzArEx_IsDir`, `SzArEx_GetFileSize`, `CrcGenerateTable`,
  the stream vtables and `SzArEx_Free`. They are foreign code. The open and
  parse results are constructor parameters. The directory flags and sizes are
  columns of the table. Extraction is the `Extractor` oracle.
- The extractor's answers when the loop runs more than once are not modelled.
  In that case the SDK is handed back the `outBuffer` that was already freed
  at lines 126 and 157. The oracle takes whatever the SDK returns then as
  given.
- Memory management is not modelled: the `delete[]` of the buffer on failure,
  the `_FreeImp` of every chunk, and the allocator shims (lines 8-18). Dafny
  has no explicit deallocation. Also not modelled: the name array that
  `readFile` and `extractFileToPath` get from `getFileByIndex` and never free.
- The destructor and the stream set-up in the constructor are not modelled.
  They are resource plumbing. Only the resulting status and table are kept.
- The `std::ofstream` is an `OutputFile` object: an "openable" flag, an
  "is open" flag and the bytes written. `is_open()` and `good()` are one
  flag. Write failures are not modelled. The code never checks them, so they
  could only make the file shorter, never change the status.
- The FFI exports (lines 164-202) other than `checkArchiveStatus` are not
  modelled. They are `void*` casts that forward to the methods.
  `checkArchiveStatus` is `CheckArchiveStatus`, which gives the status as
  its C enumeration value.
- GetFileByIndex: keeps the entry size as the full 64-bit value of
  `SzArEx_GetFileSize`, which assumes a 64-bit `size_t`. On a target with a
  32-bit `size_t` (such as armv7) line 72 truncates it modulo 2^32: an entry
  of exactly 2^32 bytes gets size 0, `readFile` then returns an empty buffer
  without calling the extractor, and `extractFileToPath` returns `kArchiveOK`
  with an empty file. ReadFile and ExtractFileToPath share this assumption.
- Integer overflow in the name loop is not modelled. Its counter is
  `auto i = 0`, an `int`, so `i * 2` is signed `int` arithmetic; it would
  overflow only for a name of more than 2^30 code units. The model's indices
  are unbounded.
- Overflow of `read` is not modelled. In `readFile`, `read` stays within the
  entry size, because the model requires every chunk to fit. In
  `extractFileToPath` a chunk may overshoot, so `read` can pass the size by up
  to one chunk; `size_t` wraps only if the size lies within one chunk of
  2^64. The model's `read` is unbounded.
- `is_dir` is an `int` set to 0 or 1 in the source. The model uses a `bool`.
- Surrogate pairs are not decoded. The code copies raw UTF-16 code units, and
  so does the model.
- The `ArchiveStatus` values `kArchiveError` and `kArchiveSeekError` are never
  produced. The code does not use them.
- The indeterminate table left after a failed file open is not carried into
  the class. `OpenedTableAsWritten` and `UninitializedTableAsWritten` show what
  the code does there (see "## Findings"). The class uses the corrected
  `OpenedTable`, whose table after a failed open or parse has no entries, so no
  index is valid.
