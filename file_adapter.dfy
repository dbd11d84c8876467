/** The in-memory file object the `/upload` handler builds around the decoded
    request bytes: a `size` and a `slice(start, end)` whose `arrayBuffer()`
    yields a copy of a clamped byte range, shaped like a web-platform `File`.
    The handler builds this object but does not yet pass it anywhere: the
    upload step that would consume it is still a placeholder. */
module FileAdapter {
  import opened Int32
  import opened TypedArray

  /** The adapter object: `size` is fixed when the object is built; `buffer`
      is the decoded Buffer its `slice` closures capture. */
  datatype File = File(size: nat, buffer: Buffer)

  /** What `file.slice(start, end)` returns: an object whose `arrayBuffer`
      closure has captured the buffer and both raw arguments. */
  datatype SliceHandle = SliceHandle(buffer: Buffer, start: int, end: int)

  function Max(a: int, b: int): int { if a >= b then a else b }
  function Min(a: int, b: int): int { if a <= b then a else b }

  /** Builds the adapter around the decoded buffer. */
  function MakeFile(buffer: Buffer): (f: File)
    ensures f.buffer == buffer
    ensures f.size == |Contents(buffer)|
  {
    File(buffer.byteLength, buffer)
  }

  /** `file.slice(start, end)`: a handle whose `arrayBuffer()` reads the
      reference range of the file's own buffer. */
  function Slice(f: File, start: int, end: int): (h: SliceHandle)
    ensures ArrayBuffer(h) == ReadRange(Contents(f.buffer), start, end)
  {
    SliceHandle(f.buffer, start, end)
  }

  /* Reference definitions of the range the adapter reads, stated directly in
     terms of the buffer's length rather than through subarray. */

  /** First byte read: the 32-bit start, floored at 0 and capped at `len`. */
  function BeginIndex(len: nat, start: int): nat {
    Min(Max(0, ToInt32(start)), len)
  }

  /** One past the last byte read: the 32-bit end capped at `len`; a value
      that is then still negative counts back from the end, floored at 0. */
  function EndIndex(len: nat, end: int): nat {
    var e := Min(len, ToInt32(end));
    if e < 0 then Max(len + e, 0) else e
  }

  /** The bytes of `c` between the two reference indices, empty when they cross. */
  function ReadRange(c: seq<byte>, start: int, end: int): seq<byte> {
    var b, e := BeginIndex(|c|, start), EndIndex(|c|, end);
    if b <= e then c[b..e] else []
  }

  /** `slice(start, end).arrayBuffer()` as the handler computes it: both
      bounds through `| 0`, start floored at 0, end capped at the length,
      a subarray view, then a copy of exactly that view's window of the
      backing store. The result is the reference range of the buffer's own
      contents, whatever else the backing store holds. */
  function ArrayBuffer(h: SliceHandle): (bytes: seq<byte>)
    ensures bytes == ReadRange(Contents(h.buffer), h.start, h.end)
  {
    var s := Max(0, ToInt32(h.start));
    var e := Min(h.buffer.byteLength, ToInt32(h.end));
    var view := Subarray(h.buffer, s, e);
    CopyOfWindowIsContents(view);
    ArrayBufferSlice(view.store, view.byteOffset, view.byteOffset + view.byteLength)
  }

  /** `file.slice(start, end).arrayBuffer()`: never fails, never returns more
      than the file holds, and every byte it returns is a byte of the buffer
      at a position inside the reference range. */
  function Read(f: File, start: int, end: int): (bytes: seq<byte>)
    ensures |bytes| <= |Contents(f.buffer)|
    ensures var b := BeginIndex(|Contents(f.buffer)|, start);
      forall i :: 0 <= i < |bytes| ==> b + i < |Contents(f.buffer)| && bytes[i] == Contents(f.buffer)[b + i]
  {
    ArrayBuffer(Slice(f, start, end))
  }

  /** The adapter's size is the decoded buffer's length. */
  predicate Adapts(f: File) {
    f.size == |Contents(f.buffer)|
  }

  /** The start index is never negative and never past the end; a start that
      is negative as a 32-bit value, including one in [2^31, 2^32) that wraps
      negative, reads from byte 0. */
  lemma StartIndexBounds(len: nat, start: int)
    ensures 0 <= BeginIndex(len, start) <= len
    ensures ToInt32(start) < 0 ==> BeginIndex(len, start) == 0
    ensures TwoTo31 <= start < TwoTo32 ==> BeginIndex(len, start) == 0
    ensures 0 <= start <= len && IsInt32(start) ==> BeginIndex(len, start) == start
  {
  }

  /** The end index is the 32-bit end capped at the length; a negative one is
      read relative to the end, so it never clamps to an empty range by itself. */
  lemma EndIndexBounds(len: nat, end: int)
    ensures EndIndex(len, end) <= len
    ensures IsInt32(end) && 0 <= end ==> EndIndex(len, end) == Min(end, len)
    ensures IsInt32(end) && end < 0 && len + end >= 0 ==> EndIndex(len, end) == len + end
    ensures IsInt32(end) && len + end < 0 ==> EndIndex(len, end) == 0
  {
  }

  /** The range read is `max(0, end - begin)` bytes long and never longer
      than the file; reading never fails, whatever the arguments. */
  lemma ReadLength(f: File, start: int, end: int)
    requires Adapts(f)
    ensures var b, e := BeginIndex(f.size, start), EndIndex(f.size, end);
      |Read(f, start, end)| == Max(0, e - b) <= f.size
  {
  }

  /** `slice(0, -1)` yields every byte but the last one (nothing, when the
      file is empty). */
  lemma AllButLast(f: File)
    requires Adapts(f)
    ensures f.size > 0 ==> Read(f, 0, -1) == Contents(f.buffer)[..f.size - 1]
    ensures f.size == 0 ==> Read(f, 0, -1) == []
  {
  }

  /** With both bounds in the 32-bit range and `0 <= end <= start`, the read
      is empty, and no error is raised. */
  lemma EmptyWhenEndNotAfterStart(f: File, start: int, end: int)
    requires IsInt32(start) && 0 <= end <= start
    ensures Read(f, start, end) == []
  {
  }

  /** For a 32-bit start and a non-negative 32-bit end, the length is the
      familiar `max(0, min(end, size) - max(0, start))`. */
  lemma LengthForNonNegativeEnd(f: File, start: int, end: int)
    requires Adapts(f)
    requires IsInt32(start) && IsInt32(end) && 0 <= end
    ensures |Read(f, start, end)| == Max(0, Min(end, f.size) - Max(0, start))
  {
    ReadLength(f, start, end);
  }

  /** A negative end is not clamped to an empty range: for `start == 0` it
      drops exactly `-end` bytes from the end. */
  lemma NegativeEndDropsSuffix(f: File, end: int)
    requires Adapts(f)
    requires IsInt32(end) && end < 0 && f.size + end >= 0
    ensures Read(f, 0, end) == Contents(f.buffer)[..f.size + end]
  {
  }

  /** Reading the full range returns the whole buffer, for every size below
      2^31 (the 50 MB body limit keeps the decoded payload far below it). */
  lemma FullRangeRoundTrip(f: File)
    requires Adapts(f)
    requires f.size < TwoTo31
    ensures Read(f, 0, f.size) == Contents(f.buffer)
  {
  }

  /** The size bound above is needed: from 2^31 up, `size | 0` wraps negative
      and the "full" read returns only a prefix (empty at exactly 2^31). */
  lemma FullRangeBeyondInt32(f: File)
    requires Adapts(f)
    requires TwoTo31 <= f.size < TwoTo32
    ensures Read(f, 0, f.size) == Contents(f.buffer)[..2 * f.size - TwoTo32]
    ensures f.size == TwoTo31 ==> Read(f, 0, f.size) == []
  {
  }

  /** Two adjacent reads concatenate to the read of their union. */
  lemma {:induction false} AdjacentReadsConcatenate(f: File, a: int, b: int, c: int)
    requires Adapts(f)
    requires 0 <= a <= b <= c && IsInt32(c)
    ensures Read(f, a, b) + Read(f, b, c) == Read(f, a, c)
  {
    var s := Contents(f.buffer);
    var ia, ib, ic := BeginIndex(f.size, a), Min(b, f.size), Min(c, f.size);
    assert BeginIndex(f.size, b) == ib && EndIndex(f.size, b) == ib;
    assert EndIndex(f.size, c) == ic;
    assert s[ia..ib] + s[ib..ic] == s[ia..ic];
  }

  /** A consumer that reads the adapter in consecutive `chunk`-sized ranges
      from `from` until the size is reached. */
  function ReadChunks(f: File, from: nat, chunk: nat): seq<byte>
    requires chunk > 0
    decreases f.size - from
  {
    if from >= f.size then [] else Read(f, from, from + chunk) + ReadChunks(f, from + chunk, chunk)
  }

  /** Reading in chunks of a positive size with `size + chunk <= 2^31`
      reassembles the buffer from `from` onwards: no byte is lost, repeated
      or reordered. */
  lemma {:induction false} ChunkedReadReassembles(f: File, from: nat, chunk: nat)
    requires Adapts(f)
    requires chunk > 0 && f.size + chunk <= TwoTo31
    requires from <= f.size
    ensures ReadChunks(f, from, chunk) == Contents(f.buffer)[from..]
    decreases f.size - from
  {
    if from < f.size {
      var s, next := Contents(f.buffer), from + chunk;
      ChunkStep(f, from, chunk);
      if next <= f.size {
        calc {
          ReadChunks(f, from, chunk);
          s[from..next] + ReadChunks(f, next, chunk);
          { ChunkedReadReassembles(f, next, chunk); }
          s[from..next] + s[next..];
          { SplitSuffix(s, from, next); }
          s[from..];
        }
      }
    }
  }

  /** Splitting a suffix at `b` and joining the halves gives it back. */
  lemma SplitSuffix(s: seq<byte>, a: nat, b: nat)
    requires a <= b <= |s|
    ensures s[a..b] + s[b..] == s[a..]
  {
  }

  /** One step of the chunked read: the chunk at `from` is the buffer's bytes
      up to `from + chunk`, or the rest of the buffer when that is the last one. */
  lemma ChunkStep(f: File, from: nat, chunk: nat)
    requires Adapts(f)
    requires chunk > 0 && f.size + chunk <= TwoTo31
    requires from < f.size
    ensures from + chunk <= f.size ==>
      ReadChunks(f, from, chunk) == Contents(f.buffer)[from..from + chunk] + ReadChunks(f, from + chunk, chunk)
    ensures from + chunk > f.size ==> ReadChunks(f, from, chunk) == Contents(f.buffer)[from..]
  {
    ReadForward(f, from, from + chunk);
    assert Contents(f.buffer)[from..f.size] == Contents(f.buffer)[from..];
  }

  /** A read with `0 <= start <= end` inside the 32-bit range is the plain
      range of the buffer, with the end capped at the size. */
  lemma ReadForward(f: File, start: int, end: int)
    requires Adapts(f)
    requires 0 <= start <= end && IsInt32(end)
    ensures start <= f.size ==> Read(f, start, end) == Contents(f.buffer)[start..Min(end, f.size)]
  {
  }

  /** The bound `size + chunk <= 2^31` above is needed: with a chunk of 2^31,
      `(from + chunk) | 0` wraps negative and a non-empty buffer of at most
      2^31 bytes reads back as nothing. */
  lemma ChunkedReadNeedsInt32Bound(f: File)
    requires Adapts(f)
    requires 0 < f.size <= TwoTo31
    ensures Contents(f.buffer) != []
    ensures ReadChunks(f, 0, TwoTo31) == []
  {
    assert ReadChunks(f, TwoTo31, TwoTo31) == [];
    assert Read(f, 0, TwoTo31) == [];
  }

  /** A negative start is floored at 0, not counted back from the end: on a
      5-byte buffer, `slice(-2, 2)` returns the first two bytes. */
  lemma NegativeStartReadsFromZero(f: File)
    requires Adapts(f) && f.size == 5
    ensures Read(f, -2, 2) == Contents(f.buffer)[..2]
  {
  }
}
