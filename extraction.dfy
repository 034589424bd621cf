/**
 * The chunk loop shared by `Archive::readFile` and `Archive::extractFileToPath`.
 *
 * Both call the SDK's `SzArEx_Extract` until `read` reaches the entry's size;
 * each successful call hands back a decoded buffer, an offset into it and the
 * number of bytes of the entry found there. The extractor is an oracle: its
 * answer to the `k`-th call of one top-level request for entry `index` is
 * `ex(index, k)`. The ordinal stands for the in/out locals (`blockIndex`,
 * `outBuffer`, ...) that one request passes from call to call; every request
 * starts from fresh locals, so the answers depend on the entry alone, and no
 * decoded block is carried from one request to the next.
 */
module Extraction {
  import opened Types

  /** One extractor answer: an error result, or `outBuffer` with `offset` and `outSizeProcessed`. */
  datatype Step =
    | Failed
    | Chunk(outBuffer: seq<Byte>, offset: nat, processed: nat)

  type Extractor = (nat, nat) -> Step

  /** The bytes of the entry a chunk carries. */
  function ChunkBytes(s: Step): (b: seq<Byte>)
    requires s.Chunk? && s.offset + s.processed <= |s.outBuffer|
    ensures |b| == s.processed
  {
    s.outBuffer[s.offset .. s.offset + s.processed]
  }

  /**
   * From call `k` on, with `read` bytes done out of `size`: every chunk lies
   * inside its buffer and carries at least one byte, so the loop ends.
   */
  ghost predicate Progresses(ex: Extractor, index: nat, k: nat, read: nat, size: nat)
    decreases size - read
  {
    read < size ==>
      match ex(index, k)
      case Failed => true
      case Chunk(buf, off, n) =>
        off + n <= |buf| && 0 < n && Progresses(ex, index, k + 1, read + n, size)
  }

  /** As `Progresses`, and every chunk also fits in the `size - read` bytes still missing. */
  ghost predicate Fits(ex: Extractor, index: nat, k: nat, read: nat, size: nat)
    decreases size - read
  {
    read < size ==>
      match ex(index, k)
      case Failed => true
      case Chunk(buf, off, n) =>
        off + n <= |buf| && 0 < n <= size - read && Fits(ex, index, k + 1, read + n, size)
  }

  /** What the loop produces: the bytes copied out, the extractor calls made, and whether a call failed. */
  datatype Outcome = Outcome(data: seq<Byte>, calls: nat, failed: bool)

  /** The loop from call `k` on, `read` bytes done out of `size`. */
  ghost function Run(ex: Extractor, index: nat, k: nat, read: nat, size: nat): Outcome
    requires Progresses(ex, index, k, read, size)
    decreases size - read
  {
    if read >= size then Outcome([], 0, false)
    else
      match ex(index, k)
      case Failed => Outcome([], 1, true)
      case Chunk(buf, off, n) =>
        var rest := Run(ex, index, k + 1, read + n, size);
        Outcome(ChunkBytes(ex(index, k)) + rest.data, rest.calls + 1, rest.failed)
  }

  /** One successful call: its bytes come first, then whatever the remaining calls produce. */
  lemma RunChunk(ex: Extractor, index: nat, k: nat, read: nat, size: nat)
    requires read < size && Progresses(ex, index, k, read, size) && ex(index, k).Chunk?
    ensures Progresses(ex, index, k + 1, read + ex(index, k).processed, size)
    ensures var rest := Run(ex, index, k + 1, read + ex(index, k).processed, size);
      Run(ex, index, k, read, size) == Outcome(ChunkBytes(ex(index, k)) + rest.data, rest.calls + 1, rest.failed)
  {
  }

  /** One fitting call leaves fitting calls behind it. */
  lemma FitsChunk(ex: Extractor, index: nat, k: nat, read: nat, size: nat)
    requires read < size && Fits(ex, index, k, read, size) && ex(index, k).Chunk?
    ensures read + ex(index, k).processed <= size
    ensures Fits(ex, index, k + 1, read + ex(index, k).processed, size)
  {
  }

  /**
   * The loop state after `k` calls and `read` bytes, having produced `done`,
   * on its way to `total`: what is still to come completes `done` to `total`.
   */
  ghost predicate Resumes(ex: Extractor, index: nat, k: nat, read: nat, size: nat, done: seq<Byte>, total: Outcome) {
    && Progresses(ex, index, k, read, size)
    && var rest := Run(ex, index, k, read, size);
    && done + rest.data == total.data
    && k + rest.calls == total.calls
    && rest.failed == total.failed
  }

  /** The loop starts at the outcome it is heading for. */
  lemma ResumesStart(ex: Extractor, index: nat, size: nat)
    requires Progresses(ex, index, 0, 0, size)
    ensures Resumes(ex, index, 0, 0, size, [], Run(ex, index, 0, 0, size))
  {
  }

  /** A successful call appends its chunk to what is done. */
  lemma ResumesChunk(ex: Extractor, index: nat, k: nat, read: nat, size: nat, done: seq<Byte>, total: Outcome)
    requires read < size && Resumes(ex, index, k, read, size, done, total) && ex(index, k).Chunk?
    ensures Resumes(ex, index, k + 1, read + ex(index, k).processed, size, done + ChunkBytes(ex(index, k)), total)
  {
  }

  /** A failing call ends the loop: the outcome is failed, after `k + 1` calls, with `done` produced. */
  lemma ResumesFailed(ex: Extractor, index: nat, k: nat, read: nat, size: nat, done: seq<Byte>, total: Outcome)
    requires read < size && Resumes(ex, index, k, read, size, done, total) && ex(index, k).Failed?
    ensures total == Outcome(done, k + 1, true)
  {
  }

  /** Reaching `size` ends the loop: the outcome succeeded, after `k` calls, with `done` produced. */
  lemma ResumesDone(ex: Extractor, index: nat, k: nat, read: nat, size: nat, done: seq<Byte>, total: Outcome)
    requires read >= size && Resumes(ex, index, k, read, size, done, total)
    ensures total == Outcome(done, k, false)
  {
  }

  /** Chunks that fit also make progress. */
  lemma {:induction false} FitsProgresses(ex: Extractor, index: nat, k: nat, read: nat, size: nat)
    requires Fits(ex, index, k, read, size)
    ensures Progresses(ex, index, k, read, size)
    decreases size - read
  {
    if read < size && ex(index, k).Chunk? {
      FitsProgresses(ex, index, k + 1, read + ex(index, k).processed, size);
    }
  }

  /**
   * With fitting chunks the loop never copies past `size`, and it has copied
   * exactly `size` bytes if and only if no call failed.
   */
  lemma {:induction false} RunFits(ex: Extractor, index: nat, k: nat, read: nat, size: nat)
    requires read <= size && Fits(ex, index, k, read, size)
    ensures Progresses(ex, index, k, read, size)
    ensures read + |Run(ex, index, k, read, size).data| <= size
    ensures !Run(ex, index, k, read, size).failed <==> read + |Run(ex, index, k, read, size).data| == size
    decreases size - read
  {
    FitsProgresses(ex, index, k, read, size);
    if read < size && ex(index, k).Chunk? {
      RunFits(ex, index, k + 1, read + ex(index, k).processed, size);
    }
  }

  /** When no call fails, the loop has produced at least `size` bytes. */
  lemma {:induction false} RunCovers(ex: Extractor, index: nat, k: nat, read: nat, size: nat)
    requires Progresses(ex, index, k, read, size)
    ensures !Run(ex, index, k, read, size).failed ==> read + |Run(ex, index, k, read, size).data| >= size
    decreases size - read
  {
    if read < size && ex(index, k).Chunk? {
      RunCovers(ex, index, k + 1, read + ex(index, k).processed, size);
    }
  }

  /**
   * The extractor is called only while bytes are missing, at least once
   * then, and every call but a failing last one delivers a byte.
   */
  lemma {:induction false} RunCalls(ex: Extractor, index: nat, k: nat, read: nat, size: nat)
    requires Progresses(ex, index, k, read, size)
    ensures var o := Run(ex, index, k, read, size);
      && (o.calls == 0 <==> read >= size)
      && o.calls <= |o.data| + (if o.failed then 1 else 0)
    decreases size - read
  {
    if read < size && ex(index, k).Chunk? {
      RunCalls(ex, index, k + 1, read + ex(index, k).processed, size);
    }
  }

  /**
   * The destination of `extractFileToPath` (a `std::ofstream`): whether its
   * path can be opened for binary writing, whether it is open, and the bytes
   * it holds. Opening truncates; writes append.
   */
  class OutputFile {
    const openable: bool
    var isOpen: bool
    var contents: seq<Byte>

    constructor (openable: bool, contents: seq<Byte>)
      ensures this.openable == openable && !isOpen && this.contents == contents
    {
      this.openable := openable;
      this.isOpen := false;
      this.contents := contents;
    }

    /** `open(path, std::ios::binary | std::ios::out)`, with `is_open()` and `good()` folded into `isOpen`. */
    method Open()
      modifies this
      ensures isOpen == openable
      ensures contents == if openable then [] else old(contents)
    {
      isOpen := openable;
      if openable {
        contents := [];
      }
    }

    /** `write(bytes, n)` on an open stream. */
    method Write(bytes: seq<Byte>)
      requires isOpen
      modifies this
      ensures isOpen && contents == old(contents) + bytes
    {
      contents := contents + bytes;
    }

    method Close()
      modifies this
      ensures !isOpen && contents == old(contents)
    {
      isOpen := false;
    }
  }
}
