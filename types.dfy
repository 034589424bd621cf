/**
 * Fixed-width integers, the status codes of the plugin's C interface and an
 * Option type, shared by the rest of the model.
 */
module Types {

  /** An unsigned 8-bit value (`Byte`, `unsigned char`). */
  type Byte = b: int | 0 <= b < 0x100

  /** An unsigned 16-bit value (`uint16_t`), one UTF-16 code unit. */
  type UInt16 = u: int | 0 <= u < 0x1_0000

  /** An unsigned 32-bit value (`uint32_t`, `UInt32`). */
  type UInt32 = u: int | 0 <= u < 0x1_0000_0000

  /** An unsigned 64-bit value (`uint64_t`, `UInt64`). */
  type UInt64 = u: int | 0 <= u < 0x1_0000_0000_0000_0000

  datatype Option<T> = None | Some(value: T)

  /** The `ArchiveStatus` enumeration of the plugin's header. */
  datatype ArchiveStatus =
    | ArchiveOK
    | ArchiveError
    | ArchiveOpenError
    | ArchiveReadError
    | ArchiveWriteError
    | ArchiveSeekError

  /** The integer each status has across the C interface. */
  function StatusCode(s: ArchiveStatus): (c: nat)
    ensures c <= 5
    ensures (c == 0) == (s == ArchiveOK)
  {
    match s
    case ArchiveOK => 0
    case ArchiveError => 1
    case ArchiveOpenError => 2
    case ArchiveReadError => 3
    case ArchiveWriteError => 4
    case ArchiveSeekError => 5
  }

  /** The status a C caller reads back from an integer, if it is one. */
  function StatusOfCode(c: int): (s: Option<ArchiveStatus>)
    ensures s.Some? <==> 0 <= c <= 5
  {
    if c == 0 then Some(ArchiveOK)
    else if c == 1 then Some(ArchiveError)
    else if c == 2 then Some(ArchiveOpenError)
    else if c == 3 then Some(ArchiveReadError)
    else if c == 4 then Some(ArchiveWriteError)
    else if c == 5 then Some(ArchiveSeekError)
    else None
  }

  /** Every status survives the trip through its integer code, so the codes are distinct. */
  lemma StatusCodeRoundTrip(s: ArchiveStatus)
    ensures StatusOfCode(StatusCode(s)) == Some(s)
  {
  }
}
