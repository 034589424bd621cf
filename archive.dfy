/**
 * The plugin's `Archive` object: the parsed entry table of an open archive,
 * the extractor over its stream, and the open status. Apart from the
 * constructor every operation is `const` in the source, so none of them
 * changes the archive.
 */
module SevenZipArchive {
  import opened Types
  import opened BitVector
  import opened EntryTable
  import opened Extraction

  /**
   * The table the constructor leaves, with `SzArEx_Init` run before the
   * early return on a failed file open: the parsed table when the file opens
   * and parses, the empty table otherwise. (A failed `SzArEx_Open` frees the
   * table, which re-initializes it.)
   */
  function OpenedTable(fileOpens: bool, parsed: Option<Db>): (db: Db)
    requires parsed.Some? ==> WellFormed(parsed.value)
    ensures WellFormed(db)
    ensures fileOpens && parsed.Some? ==> db == parsed.value
    ensures !(fileOpens && parsed.Some?) ==> db.numFiles == 0
  {
    if fileOpens && parsed.Some? then parsed.value else EmptyDb()
  }

  /**
   * The table as the constructor leaves it: when `InFile_Open` fails it
   * returns before `SzArEx_Init`, so `db` keeps the indeterminate contents
   * that `uninitialized` stands for.
   */
  function OpenedTableAsWritten(fileOpens: bool, parsed: Option<Db>, uninitialized: Db): Db {
    if !fileOpens then uninitialized
    else if parsed.Some? then parsed.value
    else EmptyDb()
  }

  /**
   * After a failed file open, `numFiles` reports whatever the memory held:
   * here 5, for a table with no columns at all, where the corrected
   * initialization reports 0.
   */
  lemma UninitializedTableAsWritten()
    ensures var garbage := Db(5, [], [], [], [], BitUi32s([], []), None, None);
      var db := OpenedTableAsWritten(false, None, garbage);
      && db.numFiles == 5
      && !WellFormed(db)
      && OpenedTable(false, None).numFiles == 0
  {
  }

  class Archive {
    const db: Db
    const extract: Extractor
    var status: ArchiveStatus

    ghost predicate Valid() {
      WellFormed(db)
    }

    /**
     * Opening: `fileOpens` is whether the path could be opened for reading,
     * `parsed` what the SDK's parser made of the stream (`None` when it
     * failed). Either failure leaves the status `ArchiveOpenError`. The table
     * is `OpenedTable`'s: initialized before either failure can return.
     */
    constructor (fileOpens: bool, parsed: Option<Db>, extract: Extractor)
      requires parsed.Some? ==> WellFormed(parsed.value)
      ensures Valid()
      ensures status == if fileOpens && parsed.Some? then ArchiveOK else ArchiveOpenError
      ensures db == OpenedTable(fileOpens, parsed)
      ensures status == ArchiveOK ==> db == parsed.value
      ensures status != ArchiveOK ==> db.numFiles == 0
      ensures this.extract == extract
    {
      this.extract := extract;
      if !fileOpens || parsed.None? {
        db := EmptyDb();
        status := ArchiveOpenError;
      } else {
        db := parsed.value;
        status := ArchiveOK;
      }
    }

    /** The status across the C interface (`checkArchiveStatus`): the enumeration value, which reads back as the status. */
    function CheckArchiveStatus(): (c: nat)
      reads this
      ensures StatusOfCode(c) == Some(status)
      ensures c == 0 <==> status == ArchiveOK
    {
      StatusCodeRoundTrip(status);
      StatusCode(status)
    }

    /** The number of entries, which is the length of every per-entry column of the table. */
    function NumFiles(): (n: UInt32)
      requires Valid()
      ensures n == |db.isDirs| == |db.sizes| == |db.crcs.vals|
      ensures n + 1 == |db.fileNameOffsets|
    {
      db.numFiles
    }

    /**
     * The descriptor of entry `index`: its name copied unit by unit into a
     * new zero-terminated array, its size and directory flag, and its
     * checksum and timestamps (0 where none is recorded).
     */
    method GetFileByIndex(index: nat) returns (f: ArchiveFile)
      requires Valid() && index < db.numFiles
      ensures fresh(f.name)
      ensures f.name[..] == NameUnits(db, index)
      ensures f.isDir == db.isDirs[index] && f.size == db.sizes[index]
      ensures f.crc32 == Crc32Of(db.crcs, index)
      ensures f.cTime == TimeOf(db.cTime, index) && f.mTime == TimeOf(db.mTime, index)
    {
      var isDir := db.isDirs[index];
      var offs := db.fileNameOffsets[index];
      var len := db.fileNameOffsets[index + 1] - offs;
      assert 2 * (offs + len) <= |db.fileNames| by {
        assert db.fileNameOffsets[index + 1] <= db.fileNameOffsets[db.numFiles];
      }
      var fileName := new UInt16[len + 1];
      for i := 0 to len
        invariant forall j :: 0 <= j < i ==>
          fileName[j] == StoredUnit(db.fileNames[offs * 2 + j * 2], db.fileNames[offs * 2 + j * 2 + 1])
      {
        fileName[i] := StoredUnit(db.fileNames[offs * 2 + i * 2], db.fileNames[offs * 2 + i * 2 + 1]);
      }
      fileName[len] := 0;
      ghost var bytes := NameBytes(db, index);
      assert fileName[..] == DecodeUnits(bytes) + [0] by {
        forall j | 0 <= j < len
          ensures bytes[2 * j] == db.fileNames[offs * 2 + j * 2]
          ensures bytes[2 * j + 1] == db.fileNames[offs * 2 + j * 2 + 1]
        {
        }
      }
      EntryTablesInRange(db, index);
      f := ArchiveFile(fileName, db.sizes[index], isDir, Crc32Of(db.crcs, index),
                       TimeOf(db.mTime, index), TimeOf(db.cTime, index));
    }

    /**
     * The bytes of entry `index` in a new buffer of exactly its size, or
     * null: for a directory (before any extractor call and without
     * allocating) and as soon as an extractor call fails, however many bytes
     * were copied by then.
     */
    method ReadFile(index: nat) returns (buffer: array?<Byte>, ghost calls: nat)
      requires Valid() && index < db.numFiles
      requires !db.isDirs[index] ==> Fits(extract, index, 0, 0, db.sizes[index])
      ensures db.isDirs[index] ==> buffer == null && calls == 0
      ensures !db.isDirs[index] ==>
        && Progresses(extract, index, 0, 0, db.sizes[index])
        && var o := Run(extract, index, 0, 0, db.sizes[index]);
        && calls == o.calls
        && (buffer == null <==> o.failed)
        && (buffer != null ==> fresh(buffer) && buffer.Length == db.sizes[index] && buffer[..] == o.data)
    {
      var archiveFile := GetFileByIndex(index);
      if archiveFile.isDir {
        return null, 0;
      }
      var buf := new Byte[archiveFile.size];
      var ok;
      ok, calls := FillBuffer(index, buf);
      if !ok {
        return null, calls;
      }
      RunFits(extract, index, 0, 0, buf.Length);
      assert buf[..] == buf[..buf.Length];
      return buf, calls;
    }

    /**
     * The copy loop of `readFile`: calls the extractor until `buf` is full,
     * copying each chunk byte by byte behind the previous ones. Whether or not
     * a call fails, the front of `buf` holds what the loop has copied.
     */
    method FillBuffer(index: nat, buf: array<Byte>) returns (ok: bool, ghost calls: nat)
      requires Fits(extract, index, 0, 0, buf.Length)
      modifies buf
      ensures Progresses(extract, index, 0, 0, buf.Length)
      ensures var o := Run(extract, index, 0, 0, buf.Length);
        && ok == !o.failed
        && calls == o.calls
        && |o.data| <= buf.Length
        && buf[..|o.data|] == o.data
        && buf[|o.data|..] == old(buf[|o.data|..])
    {
      var size := buf.Length;
      RunFits(extract, index, 0, 0, size);
      ghost var total := Run(extract, index, 0, 0, size);
      ResumesStart(extract, index, size);
      var read: nat := 0;
      var k: nat := 0;
      while read < size
        invariant read <= size && Fits(extract, index, k, read, size)
        invariant Resumes(extract, index, k, read, size, buf[..read], total)
        invariant buf[read..] == old(buf[read..])
        decreases size - read
      {
        var step := extract(index, k);
        if step.Failed? {
          ResumesFailed(extract, index, k, read, size, buf[..read], total);
          return false, k + 1;
        }
        FitsChunk(extract, index, k, read, size);
        ResumesChunk(extract, index, k, read, size, buf[..read], total);
        read := CopyChunk(buf, read, step);
        k := k + 1;
      }
      ResumesDone(extract, index, k, read, size, buf[..read], total);
      return true, k;
    }

    /**
     * The inner loop of `readFile`: copies `outBuffer[offset .. offset +
     * outSizeProcessed)` to `buf` from position `read` on and advances `read`.
     */
    static method CopyChunk(buf: array<Byte>, read: nat, step: Step) returns (read': nat)
      requires step.Chunk? && step.offset + step.processed <= |step.outBuffer|
      requires read + step.processed <= buf.Length
      modifies buf
      ensures read' == read + step.processed
      ensures buf[..read'] == old(buf[..read]) + ChunkBytes(step)
      ensures buf[read'..] == old(buf[read'..])
    {
      read' := read;
      for i := step.offset to step.offset + step.processed
        invariant read' == read + (i - step.offset)
        invariant forall j :: 0 <= j < read ==> buf[j] == old(buf[j])
        invariant forall j :: read <= j < read' ==> buf[j] == step.outBuffer[step.offset + (j - read)]
        invariant forall j :: read' <= j < buf.Length ==> buf[j] == old(buf[j])
      {
        buf[read'] := step.outBuffer[i];
        read' := read' + 1;
      }
    }

    /**
     * Writes entry `index` to `outFile`. A directory is refused with
     * `ArchiveReadError` before the file is opened; a file that cannot be
     * opened gives `ArchiveOpenError` before any extractor call. Otherwise
     * every chunk is appended as it arrives and the result is `ArchiveOK`, or
     * `ArchiveReadError` at the first failing call, the bytes appended so far
     * staying in the file. Write results are not checked, so
     * `ArchiveWriteError` never comes back.
     */
    method ExtractFileToPath(index: nat, outFile: OutputFile) returns (result: ArchiveStatus, ghost calls: nat)
      requires Valid() && index < db.numFiles
      requires !outFile.isOpen
      requires !db.isDirs[index] ==> Progresses(extract, index, 0, 0, db.sizes[index])
      modifies outFile
      ensures result in {ArchiveOK, ArchiveReadError, ArchiveOpenError}
      ensures !outFile.isOpen
      ensures db.isDirs[index] ==>
        result == ArchiveReadError && calls == 0 && outFile.contents == old(outFile.contents)
      ensures !db.isDirs[index] && !outFile.openable ==>
        result == ArchiveOpenError && calls == 0 && outFile.contents == old(outFile.contents)
      ensures !db.isDirs[index] && outFile.openable ==>
        var o := Run(extract, index, 0, 0, db.sizes[index]);
        && outFile.contents == o.data
        && calls == o.calls
        && result == if o.failed then ArchiveReadError else ArchiveOK
    {
      var archiveFile := GetFileByIndex(index);
      if archiveFile.isDir {
        return ArchiveReadError, 0;
      }
      outFile.Open();
      if !outFile.isOpen {
        return ArchiveOpenError, 0;
      }
      var ok;
      ok, calls := AppendChunks(index, archiveFile.size, outFile);
      outFile.Close();
      result := if ok then ArchiveOK else ArchiveReadError;
    }

    /**
     * The write loop of `extractFileToPath`: calls the extractor until `size`
     * bytes have been written, appending each chunk to the open file. The
     * loop stops at the first failing call; what was appended stays.
     */
    method AppendChunks(index: nat, size: nat, outFile: OutputFile) returns (ok: bool, ghost calls: nat)
      requires outFile.isOpen
      requires Progresses(extract, index, 0, 0, size)
      modifies outFile
      ensures outFile.isOpen
      ensures var o := Run(extract, index, 0, 0, size);
        && ok == !o.failed
        && calls == o.calls
        && outFile.contents == old(outFile.contents) + o.data
    {
      ghost var total := Run(extract, index, 0, 0, size);
      ghost var start, done := outFile.contents, [];
      ResumesStart(extract, index, size);
      var read: nat := 0;
      var k: nat := 0;
      while read < size
        invariant outFile.isOpen && outFile.contents == start + done
        invariant Resumes(extract, index, k, read, size, done, total)
        decreases size - read
      {
        var step := extract(index, k);
        if step.Failed? {
          ResumesFailed(extract, index, k, read, size, done, total);
          return false, k + 1;
        }
        ResumesChunk(extract, index, k, read, size, done, total);
        outFile.Write(ChunkBytes(step));
        done := done + ChunkBytes(step);
        read := read + step.processed;
        k := k + 1;
      }
      ResumesDone(extract, index, k, read, size, done, total);
      return true, k;
    }

    /**
     * Reading an entry twice gives the same bytes in two distinct buffers:
     * no state survives from one request to the next.
     */
    method RereadIsIdentical(index: nat) returns (first: array?<Byte>, second: array?<Byte>)
      requires Valid() && index < db.numFiles
      requires !db.isDirs[index] ==> Fits(extract, index, 0, 0, db.sizes[index])
      ensures (first == null) == (second == null)
      ensures first != null ==> first != second && first[..] == second[..]
    {
      ghost var calls1, calls2;
      first, calls1 := ReadFile(index);
      second, calls2 := ReadFile(index);
    }
  }
}
