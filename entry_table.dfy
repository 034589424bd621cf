/**
 * The parsed entry table of an open 7z archive (the fields of the SDK's
 * `CSzArEx` that `Archive::getFileByIndex` reads) and the decoding of one
 * entry's name, checksum and timestamps from it.
 */
module EntryTable {
  import opened Types
  import opened BitVector

  /** A 64-bit Windows file time stored as two 32-bit halves. */
  datatype NtfsFileTime = NtfsFileTime(low: UInt32, high: UInt32)

  /** An optional 32-bit value per entry: packed defined flags and the values. */
  datatype BitUi32s = BitUi32s(defs: seq<Byte>, vals: seq<UInt32>)

  /** An optional file time per entry: packed defined flags and the values. */
  datatype BitUi64s = BitUi64s(defs: seq<Byte>, vals: seq<NtfsFileTime>)

  /**
   * The entry table. `fileNameOffsets` counts UTF-16 code units into
   * `fileNames`, which holds the names as little-endian byte pairs. `isDirs`
   * and `sizes` are what the SDK's `SzArEx_IsDir` and `SzArEx_GetFileSize`
   * answer per entry. A timestamp table is `None` when its defined-flag
   * pointer is null.
   */
  datatype Db = Db(
    numFiles: UInt32,
    fileNameOffsets: seq<nat>,
    fileNames: seq<Byte>,
    isDirs: seq<bool>,
    sizes: seq<UInt64>,
    crcs: BitUi32s,
    cTime: Option<BitUi64s>,
    mTime: Option<BitUi64s>)

  /** The table of an archive with no entries. */
  function EmptyDb(): (db: Db)
    ensures WellFormed(db) && db.numFiles == 0
  {
    Db(0, [0], [], [], [], BitUi32s([], []), None, None)
  }

  predicate CrcTableFor(t: BitUi32s, n: nat) {
    |t.defs| == BitBytes(n) && |t.vals| == n
  }

  predicate TimeTableFor(t: Option<BitUi64s>, n: nat) {
    t.Some? ==> |t.value.defs| == BitBytes(n) && |t.value.vals| == n
  }

  /** What the SDK's parser guarantees of a table it has built. */
  ghost predicate WellFormed(db: Db) {
    var n := db.numFiles;
    && |db.fileNameOffsets| == n + 1
    && (forall i, j :: 0 <= i <= j <= n ==> db.fileNameOffsets[i] <= db.fileNameOffsets[j])
    && 2 * db.fileNameOffsets[n] <= |db.fileNames|
    && |db.isDirs| == n
    && |db.sizes| == n
    && CrcTableFor(db.crcs, n)
    && TimeTableFor(db.cTime, n)
    && TimeTableFor(db.mTime, n)
  }

  // ---------------------------------------------------------------- names

  /** Offset, in code units, of entry `index`'s name. */
  function NameOffset(db: Db, index: nat): nat
    requires WellFormed(db) && index < db.numFiles
  {
    db.fileNameOffsets[index]
  }

  /**
   * Number of code units stored for entry `index`'s name. The SDK's table
   * stores every name with its own terminating 0, and that unit is counted.
   */
  function NameLength(db: Db, index: nat): nat
    requires WellFormed(db) && index < db.numFiles
  {
    db.fileNameOffsets[index + 1] - db.fileNameOffsets[index]
  }

  /** The bytes of entry `index`'s name in the flat name buffer. */
  function NameBytes(db: Db, index: nat): (b: seq<Byte>)
    requires WellFormed(db) && index < db.numFiles
    ensures |b| == 2 * NameLength(db, index)
  {
    var offs, len := NameOffset(db, index), NameLength(db, index);
    assert db.fileNameOffsets[index + 1] <= db.fileNameOffsets[db.numFiles];
    db.fileNames[2 * offs .. 2 * (offs + len)]
  }

  /**
   * The value `lo + (hi << 8)` leaves in a `uint16_t`: the sum is computed
   * in `int` and converted modulo 2^16, and it never needs truncating.
   */
  function StoredUnit(lo: Byte, hi: Byte): (u: UInt16)
    ensures u == lo + 256 * hi
  {
    (lo + hi * 256) % 0x1_0000
  }

  /** Code units of a little-endian UTF-16 byte string. */
  function DecodeUnits(bytes: seq<Byte>): (units: seq<UInt16>)
    requires |bytes| % 2 == 0
    ensures |units| == |bytes| / 2
  {
    seq(|bytes| / 2, i requires 0 <= i < |bytes| / 2 => StoredUnit(bytes[2 * i], bytes[2 * i + 1]))
  }

  /** Little-endian UTF-16 bytes of a sequence of code units, as the 7z name table stores them. */
  function EncodeUnits(units: seq<UInt16>): (bytes: seq<Byte>)
    ensures |bytes| == 2 * |units|
  {
    if units == [] then [] else [units[0] % 256, units[0] / 256] + EncodeUnits(units[1..])
  }

  lemma DecodeUnitsCons(a: Byte, b: Byte, rest: seq<Byte>)
    requires |rest| % 2 == 0
    ensures DecodeUnits([a, b] + rest) == [StoredUnit(a, b)] + DecodeUnits(rest)
  {
  }

  /** Decoding undoes encoding. */
  lemma {:induction false} DecodeEncode(units: seq<UInt16>)
    ensures DecodeUnits(EncodeUnits(units)) == units
  {
    if units != [] {
      var u := units[0];
      DecodeUnitsCons(u % 256, u / 256, EncodeUnits(units[1..]));
      DecodeEncode(units[1..]);
    }
  }

  /** Encoding undoes decoding: every byte pair is a code unit, no information is dropped. */
  lemma {:induction false} EncodeDecode(bytes: seq<Byte>)
    requires |bytes| % 2 == 0
    ensures EncodeUnits(DecodeUnits(bytes)) == bytes
  {
    if bytes != [] {
      var rest := bytes[2..];
      assert bytes == [bytes[0], bytes[1]] + rest;
      DecodeUnitsCons(bytes[0], bytes[1], rest);
      EncodeDecode(rest);
    }
  }

  /** The zero-terminated code units `getFileByIndex` builds for entry `index`. */
  ghost function NameUnits(db: Db, index: nat): seq<UInt16>
    requires WellFormed(db) && index < db.numFiles
  {
    DecodeUnits(NameBytes(db, index)) + [0]
  }

  /**
   * The name has `len + 1` units: unit `i` is the little-endian pair at byte
   * `2 * (offs + i)` of the name buffer, and the last unit is the terminator 0.
   */
  lemma NameUnitsShape(db: Db, index: nat)
    requires WellFormed(db) && index < db.numFiles
    ensures var offs, len := NameOffset(db, index), NameLength(db, index);
      var name := NameUnits(db, index);
      && |name| == len + 1
      && name[len] == 0
      && forall i :: 0 <= i < len ==>
           2 * (offs + i) + 1 < |db.fileNames| &&
           name[i] == db.fileNames[2 * (offs + i)] as int + 256 * db.fileNames[2 * (offs + i) + 1] as int
  {
    var offs, len := NameOffset(db, index), NameLength(db, index);
    var bytes := NameBytes(db, index);
    forall i | 0 <= i < len
      ensures bytes[2 * i] == db.fileNames[2 * (offs + i)]
      ensures bytes[2 * i + 1] == db.fileNames[2 * (offs + i) + 1]
    {
    }
  }

  /** The units before the terminator re-encode to exactly the name's bytes in the table. */
  lemma NameRoundTrip(db: Db, index: nat)
    requires WellFormed(db) && index < db.numFiles
    ensures EncodeUnits(NameUnits(db, index)[..NameLength(db, index)]) == NameBytes(db, index)
  {
    var bytes := NameBytes(db, index);
    assert NameUnits(db, index)[..NameLength(db, index)] == DecodeUnits(bytes);
    EncodeDecode(bytes);
  }

  /** A name stored as the encoding of `units` is read back as `units` plus the terminator. */
  lemma NameOfEncoded(db: Db, index: nat, units: seq<UInt16>)
    requires WellFormed(db) && index < db.numFiles
    requires NameBytes(db, index) == EncodeUnits(units)
    ensures NameUnits(db, index) == units + [0]
  {
    DecodeEncode(units);
  }

  /**
   * The SDK stores every name with its own terminating 0, so the array
   * `getFileByIndex` builds ends in two zero units.
   */
  lemma NameKeepsStoredTerminator(db: Db, index: nat, units: seq<UInt16>)
    requires WellFormed(db) && index < db.numFiles
    requires NameBytes(db, index) == EncodeUnits(units + [0])
    ensures NameUnits(db, index) == units + [0, 0]
  {
    NameOfEncoded(db, index, units + [0]);
    assert (units + [0]) + [0] == units + [0, 0];
  }

  // ---------------------------------------------------------------- checksum

  /** Which entries a checksum table can be asked about without reading outside it. */
  predicate CrcIndexOk(t: BitUi32s, index: nat) {
    index / 8 < |t.defs| && index < |t.vals|
  }

  /** The checksum of entry `index`, the defined flag read as the SDK stores it; 0 when undefined. */
  function Crc32Of(t: BitUi32s, index: nat): UInt32
    requires CrcIndexOk(t, index)
  {
    if Defined(t.defs, index) then t.vals[index] else 0
  }

  /** The checksum as lines 74-78 compute it, reading byte `index` of the flag vector. */
  function Crc32AsWritten(t: BitUi32s, index: nat): UInt32
    requires index < |t.defs| && index < |t.vals|
  {
    if DefinedAsWritten(t.defs, index) then t.vals[index] else 0
  }

  /** For a table whose flags were packed from `flags`: the recorded value when flagged, else 0. */
  lemma CrcOfFlags(flags: seq<bool>, vals: seq<UInt32>, index: nat)
    requires |vals| == |flags| && index < |flags|
    ensures CrcIndexOk(BitUi32s(PackBits(flags), vals), index)
    ensures Crc32Of(BitUi32s(PackBits(flags), vals), index) == if flags[index] then vals[index] else 0
  {
    DefinedReadsFlag(flags, index);
  }

  /** A missing checksum and a recorded checksum of zero give the same descriptor value. */
  lemma CrcAbsentLooksLikeZero(flags: seq<bool>, vals: seq<UInt32>, index: nat)
    requires |vals| == |flags| && index < |flags| && !flags[index]
    ensures var absent := BitUi32s(PackBits(flags), vals);
      var zero := BitUi32s(PackBits(flags[index := true]), vals[index := 0]);
      && CrcIndexOk(absent, index) && CrcIndexOk(zero, index)
      && Crc32Of(absent, index) == Crc32Of(zero, index) == 0
  {
    CrcOfFlags(flags, vals, index);
    CrcOfFlags(flags[index := true], vals[index := 0], index);
  }

  /**
   * Lines 74-78 lose a recorded checksum: in a table of 16 entries whose
   * first eight have checksums, entry 1's checksum 0x1234 is reported as 0.
   */
  lemma Crc32AsWrittenMisreads()
    ensures var flags := seq(16, m => m < 8);
      var t := BitUi32s(PackBits(flags), seq(16, m => 0x1234));
      && CrcIndexOk(t, 1)
      && Crc32Of(t, 1) == 0x1234
      && Crc32AsWritten(t, 1) == 0
  {
    DefinedAsWrittenMisreads();
  }

  // ---------------------------------------------------------------- timestamps

  /** `x << 32` on a `uint64_t`. */
  function Shl32(x: UInt64): UInt64 {
    (x * 0x1_0000_0000) % 0x1_0000_0000_0000_0000
  }

  /** `a + b` on `uint64_t` operands. */
  function Add64(a: UInt64, b: UInt64): UInt64 {
    (a + b) % 0x1_0000_0000_0000_0000
  }

  /** `Low + (static_cast<uint64_t>(High) << 32)`: neither the shift nor the sum wraps. */
  function Combine64(t: NtfsFileTime): (r: UInt64)
    ensures r == t.low + t.high * 0x1_0000_0000
  {
    Add64(t.low, Shl32(t.high))
  }

  /** The low 32-bit half of a 64-bit value. */
  function Low32(x: UInt64): UInt32 {
    x % 0x1_0000_0000
  }

  /** The high 32-bit half of a 64-bit value. */
  function High32(x: UInt64): UInt32 {
    x / 0x1_0000_0000
  }

  /** The halves of a combined time are the halves it was made from. */
  lemma CombineSplit(t: NtfsFileTime)
    ensures Low32(Combine64(t)) == t.low && High32(Combine64(t)) == t.high
  {
  }

  /** Every 64-bit value is the combination of its halves. */
  lemma SplitCombine(x: UInt64)
    ensures Combine64(NtfsFileTime(Low32(x), High32(x))) == x
  {
  }

  /** Which entries a timestamp table can be asked about without reading outside it. */
  predicate TimeIndexOk(table: Option<BitUi64s>, index: nat) {
    table.Some? ==> index / 8 < |table.value.defs| && index < |table.value.vals|
  }

  /** Entry `index`'s timestamp: 0 when the table is absent or the entry has none. */
  function TimeOf(table: Option<BitUi64s>, index: nat): UInt64
    requires TimeIndexOk(table, index)
  {
    match table
    case None => 0
    case Some(t) => if Defined(t.defs, index) then Combine64(t.vals[index]) else 0
  }

  /** The timestamp as lines 80-100 compute it, reading byte `index` of the flag vector. */
  function TimeAsWritten(table: Option<BitUi64s>, index: nat): UInt64
    requires table.Some? ==> index < |table.value.defs| && index < |table.value.vals|
  {
    match table
    case None => 0
    case Some(t) => if DefinedAsWritten(t.defs, index) then Combine64(t.vals[index]) else 0
  }

  /**
   * For a table whose flags were packed from `flags`: `Low + High * 2^32`
   * when flagged, and that value's halves give back `Low` and `High`; 0
   * otherwise.
   */
  lemma TimeOfFlags(flags: seq<bool>, vals: seq<NtfsFileTime>, index: nat)
    requires |vals| == |flags| && index < |flags|
    ensures TimeIndexOk(Some(BitUi64s(PackBits(flags), vals)), index)
    ensures var r := TimeOf(Some(BitUi64s(PackBits(flags), vals)), index);
      && (flags[index] ==> r == vals[index].low + vals[index].high * 0x1_0000_0000
                           && Low32(r) == vals[index].low && High32(r) == vals[index].high)
      && (!flags[index] ==> r == 0)
  {
    DefinedReadsFlag(flags, index);
    CombineSplit(vals[index]);
  }

  /** An absent table, an unrecorded time and a recorded time of zero all give 0. */
  lemma TimeAbsentLooksLikeZero(flags: seq<bool>, vals: seq<NtfsFileTime>, index: nat)
    requires |vals| == |flags| && index < |flags| && !flags[index]
    ensures var unset := Some(BitUi64s(PackBits(flags), vals));
      var zero := Some(BitUi64s(PackBits(flags[index := true]), vals[index := NtfsFileTime(0, 0)]));
      && TimeIndexOk(unset, index) && TimeIndexOk(zero, index)
      && TimeOf(None, index) == TimeOf(unset, index) == TimeOf(zero, index) == 0
  {
    TimeOfFlags(flags, vals, index);
    TimeOfFlags(flags[index := true], vals[index := NtfsFileTime(0, 0)], index);
  }

  /**
   * Lines 80-100 lose a recorded time: in a table of 16 entries whose first
   * eight have times, entry 1's time of 1 is reported as 0.
   */
  lemma TimeAsWrittenMisreads()
    ensures var flags := seq(16, m => m < 8);
      var t := Some(BitUi64s(PackBits(flags), seq(16, m => NtfsFileTime(1, 0))));
      && TimeIndexOk(t, 1)
      && TimeOf(t, 1) == 1
      && TimeAsWritten(t, 1) == 0
  {
    DefinedAsWrittenMisreads();
  }

  // ---------------------------------------------------------------- descriptor

  /**
   * The `ArchiveFile` record handed to callers. `name` is a freshly allocated
   * zero-terminated array of UTF-16 code units that the caller owns.
   */
  datatype ArchiveFile = ArchiveFile(
    name: array<UInt16>,
    size: UInt64,
    isDir: bool,
    crc32: UInt32,
    mTime: UInt64,
    cTime: UInt64)

  /** Every entry of a well-formed table can be asked for its checksum and timestamps. */
  lemma EntryTablesInRange(db: Db, index: nat)
    requires WellFormed(db) && index < db.numFiles
    ensures CrcIndexOk(db.crcs, index)
    ensures TimeIndexOk(db.cTime, index) && TimeIndexOk(db.mTime, index)
  {
  }
}
