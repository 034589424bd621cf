/**
 * Defined-flag vectors of the parsed 7z entry table.
 *
 * The 7z format stores "is this value recorded" flags as a bit field, and the
 * 7-Zip C SDK keeps them packed in memory the same way: eight entries to a
 * byte, the first entry in the most significant bit (`SzBitArray_Check` reads
 * bit `0x80 >> (i & 7)` of byte `i >> 3`). `PackBits` is that layout, and
 * `Defined` is the reading the SDK itself uses. `DefinedAsWritten` is the
 * reading `Archive::getFileByIndex` performs, one byte per entry.
 */
module BitVector {
  import opened Types

  function Pow2(e: nat): (p: nat)
    ensures p >= 1
  {
    if e == 0 then 1 else 2 * Pow2(e - 1)
  }

  /** Number of bytes a vector of `n` flags occupies. */
  function BitBytes(n: nat): nat {
    (n + 7) / 8
  }

  /** Packs flags most significant bit first: the first flag ends up in the top bit. */
  function PackByte(bits: seq<bool>): (b: nat)
    ensures b < Pow2(|bits|)
  {
    if bits == [] then 0
    else 2 * PackByte(bits[..|bits| - 1]) + (if bits[|bits| - 1] then 1 else 0)
  }

  /** A byte packed from eight flags. */
  function Pack8(bits: seq<bool>): (b: Byte)
    requires |bits| == 8
  {
    assert Pow2(8) == 256;
    PackByte(bits)
  }

  /** The eight flags stored in byte `g`, the missing tail padded with clear bits. */
  function Group(flags: seq<bool>, g: nat): (r: seq<bool>)
    ensures |r| == 8
  {
    seq(8, m requires 0 <= m < 8 => 8 * g + m < |flags| && flags[8 * g + m])
  }

  /** The packed in-memory form of a flag vector. */
  function PackBits(flags: seq<bool>): (defs: seq<Byte>)
    ensures |defs| == BitBytes(|flags|)
  {
    seq(BitBytes(|flags|), g requires 0 <= g => Pack8(Group(flags, g)))
  }

  /** Bit `e` of `b`, counting from the least significant bit. */
  function Bit(b: nat, e: nat): bool {
    if e == 0 then b % 2 == 1 else Bit(b / 2, e - 1)
  }

  /** Flag `i` of a packed vector, as `SzBitArray_Check` reads it: bit `0x80 >> (i & 7)` of byte `i >> 3`. */
  function Defined(defs: seq<Byte>, i: nat): bool
    requires i / 8 < |defs|
  {
    Bit(defs[i / 8], 7 - i % 8)
  }

  /** Flag `i` as `Archive::getFileByIndex` reads it: byte `i` of the vector, nonzero or not. */
  function DefinedAsWritten(defs: seq<Byte>, i: nat): bool
    requires i < |defs|
  {
    defs[i] != 0
  }

  /** Bit `j` from the top of a packed byte is flag `j`. */
  lemma {:induction false} PackByteBit(bits: seq<bool>, j: nat)
    requires j < |bits|
    ensures Bit(PackByte(bits), |bits| - 1 - j) == bits[j]
  {
    var n := |bits|;
    var init := bits[..n - 1];
    var p := PackByte(init);
    var l := if bits[n - 1] then 1 else 0;
    assert PackByte(bits) == 2 * p + l;
    if j < n - 1 {
      assert (2 * p + l) / 2 == p;
      assert Bit(2 * p + l, n - 1 - j) == Bit(p, |init| - 1 - j);
      PackByteBit(init, j);
      assert init[j] == bits[j];
    } else {
      assert Bit(2 * p + l, 0) == (l == 1);
    }
  }

  /** A byte packed from clear flags is zero. */
  lemma {:induction false} PackByteClear(bits: seq<bool>)
    requires forall m :: 0 <= m < |bits| ==> !bits[m]
    ensures PackByte(bits) == 0
  {
    if bits != [] {
      PackByteClear(bits[..|bits| - 1]);
    }
  }

  /** The SDK's reading of a packed vector gives back exactly the flag stored for each entry. */
  lemma DefinedReadsFlag(flags: seq<bool>, i: nat)
    requires i < |flags|
    ensures i / 8 < |PackBits(flags)|
    ensures Defined(PackBits(flags), i) == flags[i]
  {
    var g, j := i / 8, i % 8;
    assert 8 * g + j == i;
    PackByteBit(Group(flags, g), j);
  }

  /**
   * The byte-per-entry reading disagrees with the packed layout: with entries
   * 0 to 7 flagged and entries 8 to 15 not, the vector is the two bytes
   * 0xFF 0x00, entry 1 is flagged, and byte 1 is zero. Entries 2 to 15 would
   * be read past the end of the vector.
   */
  lemma DefinedAsWrittenMisreads()
    ensures var flags := seq(16, m => m < 8);
      var defs := PackBits(flags);
      && flags[1]
      && Defined(defs, 1)
      && |defs| == 2
      && !DefinedAsWritten(defs, 1)
  {
    var flags := seq(16, m => m < 8);
    DefinedReadsFlag(flags, 1);
    PackByteClear(Group(flags, 1));
    assert PackBits(flags)[1] == Pack8(Group(flags, 1));
  }
}
