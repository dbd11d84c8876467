# MetaLayer-Server upload adapter, modelled in Dafny

MetaLayer-Server receives a file as base64 text in the JSON body of
`POST /upload`. It decodes the text into a Node `Buffer` and wraps that buffer
in a small object shaped like a web-platform `File`. The object has a `size` and
a `slice(start, end)` whose `arrayBuffer()` returns a copy of a clamped byte
range. The handler builds this object but does not yet pass it anywhere: the
upload step that would consume it is a TODO (src/server.ts:76), and the
storage client created at startup is never used by the handler. The
chunked-read lemmas therefore speak of "a consumer" that reads the adapter in
consecutive ranges. The handler then answers with a JSON reply: "File received" with the
decoded size, or "Upload failed" with the thrown error's message.

This project models those two pieces as pure values and functions:

- `int32.dfy` (module `Int32`): ECMAScript `ToInt32`, the conversion that
  `x | 0` applies, for integer operands.
- `typed_array.dfy` (module `TypedArray`): a `Buffer` as a view onto a window
  of a larger backing store. Node carves small buffers out of a shared pool, so
  the window need not start at 0. The module also gives the relative-index
  rule that `subarray` and `ArrayBuffer.prototype.slice` share (negative means
  "from the end", then clamp), and those two operations.
- `file_adapter.dfy` (module `FileAdapter`): the adapter object, its
  `slice(...).arrayBuffer()` computed step by step as the handler does it, a
  reference definition of the byte range read (`BeginIndex`, `EndIndex`,
  `ReadRange`), and lemmas about that range.
- `upload_handler.dfy` (module `UploadHandler`): the handler's outcome as a
  function of the decoder's outcome and the context detector's outcome, and
  the JSON object it sends.

Bytes are `bv8`. The adapter and the buffer are immutable values. So no call
to `slice` or `arrayBuffer` can change `buffer` or `size`.

Three points where the code differs from what one might expect of such an
adapter; the model follows the code:

- A contract that clamps `end` to `[start, size]` would make a negative `end`
  read nothing. In the code, an `end` that is negative after `| 0` counts back
  from the end of the buffer, as in the web-platform `Blob.slice`. So
  `slice(0, -1)` returns every byte but the last (`AllButLast`,
  `NegativeEndDropsSuffix`).
- The adapter still differs from `Blob.slice` in three ways:
  - a negative `start` is floored at 0 rather than counted back from the end,
    so on 5 bytes `slice(-2, 2)` returns the first two bytes where `Blob.slice`
    returns none (`StartIndexBounds`, `NegativeStartReadsFromZero`);
  - both arguments pass through `| 0`, so values at or above 2^31 wrap
    (`StartIndexBounds`, `FullRangeBeyondInt32`), where `Blob.slice` clamps
    them without wrapping;
  - an omitted `end` becomes 0 and reads nothing, where `Blob.slice` reads to
    the end (this case is outside the model; see "Left out").
- A read view could hand out the underlying bytes without copying. The code
  copies them with `ArrayBuffer.prototype.slice`.
- The success reply carries no storage result (no root hash, chunk count or
  transaction hash), because no upload happens: the upload step is a TODO
  (src/server.ts:76). The reply carries `success`, `message`, `fileName` and
  `fileSize` only.

## Model

| member | source | states |
|---|---|---|
| Int32.ToInt32 | src/server.ts:68-69 | `x` OR 0 (bitwise) lies in [-2^31, 2^31), is congruent to `x` modulo 2^32, is `x` itself for 32-bit values, and is `x - 2^32` (negative) for `x` in [2^31, 2^32) |
| Int32.ToInt32Unique | src/server.ts:68-69 | no other signed 32-bit value is congruent to `x` modulo 2^32, so the result of OR-ing with 0 is fully determined |
| Int32.ToInt32Periodic | src/server.ts:68-69 | adding any multiple of 2^32 to a bound does not change what OR-ing with 0 makes of it |
| TypedArray.RelativeIndex | src/server.ts:70-71 | an index argument resolves into [0, len]: as is when in range, `len` when above it, counted back from the end when negative, and 0 when it reaches before the start |
| TypedArray.Subarray | src/server.ts:70 | `subarray` returns a view onto the same backing store, offset by the resolved begin, whose contents are the original view's bytes between the resolved begin and end, or nothing when those cross |
| TypedArray.ArrayBufferSlice | src/server.ts:71 | `ArrayBuffer.prototype.slice` copies `max(final - first, 0)` bytes, byte `i` of the copy being byte `first + i` of the store |
| TypedArray.CopyOfWindowIsContents | src/server.ts:71 | copying `[byteOffset, byteOffset + byteLength)` out of the backing store yields exactly the view's own bytes, none of the surrounding pool |
| FileAdapter.MakeFile | src/server.ts:64-65 | the adapter's `size` is the decoded buffer's length, and its slices read that buffer |
| FileAdapter.Slice | src/server.ts:66-67 | `slice(start, end)` captures the buffer and both raw arguments, so its `arrayBuffer()` reads the reference range of that file's buffer |
| FileAdapter.Read | src/server.ts:66-73 | `file.slice(start, end).arrayBuffer()` never fails, returns at most as many bytes as the buffer holds, and byte `i` of the result is byte `begin + i` of the buffer |
| FileAdapter.ArrayBuffer | src/server.ts:66-73 | the step-by-step computation (OR with 0, `Math.max`, `Math.min`, `subarray`, copy of the view's window) equals the reference range of the buffer's contents, whatever the rest of the backing store holds |
| FileAdapter.StartIndexBounds | src/server.ts:68-70 | the start index lies in [0, size]; a start that is negative as a 32-bit value, including every start in [2^31, 2^32), becomes 0; an in-range start is kept |
| FileAdapter.NegativeStartReadsFromZero | src/server.ts:68-70 | a negative start is floored at 0 rather than read from the end: on 5 bytes, `slice(-2, 2)` returns the first two bytes |
| FileAdapter.EndIndexBounds | src/server.ts:69-70 | the end index is at most `size`; a non-negative 32-bit end is `min(end, size)`, a negative one is `size + end`, floored at 0 |
| FileAdapter.ReadLength | src/server.ts:68-71 | every read succeeds and returns `max(0, endIndex - beginIndex)` bytes, never more than `size` |
| FileAdapter.ReadForward | src/server.ts:68-71 | with `0 <= start <= end` in the 32-bit range and `start <= size`, the read is the buffer's bytes from `start` to `min(end, size)` |
| FileAdapter.AllButLast | src/server.ts:66-73 | `slice(0, -1)` returns every byte except the last, and nothing for an empty buffer |
| FileAdapter.EmptyWhenEndNotAfterStart | src/server.ts:68-71 | with a 32-bit start and `0 <= end <= start`, the read is empty, and no error is raised |
| FileAdapter.LengthForNonNegativeEnd | src/server.ts:68-71 | for a 32-bit start and a non-negative 32-bit end, the length is `max(0, min(end, size) - max(0, start))` |
| FileAdapter.NegativeEndDropsSuffix | src/server.ts:69-71 | a negative end is not clamped to an empty range: `slice(0, end)` returns the buffer without its last `-end` bytes |
| FileAdapter.FullRangeRoundTrip | src/server.ts:64-73 | `slice(0, size)` returns the whole buffer for every size below 2^31 |
| FileAdapter.FullRangeBeyondInt32 | src/server.ts:65-69 | for sizes in [2^31, 2^32), `slice(0, size)` returns only the first `2 * size - 2^32` bytes (none at exactly 2^31), so the bound in `FullRangeRoundTrip` is needed |
| FileAdapter.AdjacentReadsConcatenate | src/server.ts:66-73 | for `0 <= a <= b <= c` in the 32-bit range, `read(a, b) + read(b, c) == read(a, c)` |
| FileAdapter.ChunkedReadReassembles | src/server.ts:64-74 | a consumer reading consecutive chunks of a positive size, with `size + chunk <= 2^31`, from `from` until `size` reassembles the buffer from `from` on: no byte is lost, repeated or reordered |
| FileAdapter.ChunkedReadNeedsInt32Bound | src/server.ts:66-73 | the bound in `ChunkedReadReassembles` is needed: with a chunk of 2^31, `(from + chunk) OR 0` wraps negative and a non-empty buffer of at most 2^31 bytes reads back as nothing |
| FileAdapter.ChunkStep | src/server.ts:66-73 | one chunk of such a read is the buffer's bytes up to `from + chunk`, or the rest of the buffer when it is the last chunk |
| UploadHandler.HandleUpload | src/server.ts:59-93 | the reply is "received" exactly when decoding and context detection both return; it then echoes the request's `fileName` and reports the decoded length as `fileSize`; otherwise its message is the first thrown error's message, or "Unknown error" for a thrown non-`Error` |
| UploadHandler.ErrorMessage | src/server.ts:90 | the failure message is the thrown `Error`'s own message, and "Unknown error" for any other thrown value |
| UploadHandler.Status | src/server.ts:78-87 | the reply is sent with status 200 exactly when it is a success and 500 exactly when it is a failure |
| UploadHandler.ToJson | src/server.ts:78-91 | the object sent starts with `success`, true exactly for a success; its full key order and values are characterised by `ReplyJsonShape` |
| UploadHandler.ReplyJsonShape | src/server.ts:78-91 | the JSON's `success` is true exactly when the status is 200; a success has the keys `success, message, [fileName,] fileSize` with "File received" and the size; a failure has `success, error, message` with "Upload failed" and the message |
| UploadHandler.ReceivedJsonShape | src/server.ts:78-83 | the success object's keys in order and the values of `success`, `message`, `fileName` (when present) and `fileSize` |
| UploadHandler.FailedJsonShape | src/server.ts:87-91 | the failure object's keys in order and the values of `success`, `error` and `message` |
| UploadHandler.DeclaredSizeIgnored | src/server.ts:61-82 | a caller-declared `fileSize` never affects the reply, and a reported `fileSize` equals the adapter's `size` |

## Left out

- Express routing, CORS, the JSON body limit, `app.listen`, the `/health` and `/` handlers and the cron self-ping (src/server.ts:36-56, 95-125): HTTP plumbing, timers and network I/O. The 50 MB body limit is used only as the reason a decoded payload stays below 2^31 bytes.
- Loading and constructing `MetaLayerClient`, `Indexer` and `ethers`, the `require` fallback, and the `PRIVATE_KEY` startup check (src/server.ts:10-34, 50-54): foreign library calls and environment configuration.
- `detectFileCtxFromName` (src/server.ts:62): an external library call whose result is never used. Only whether it throws is modelled, as the `detectCtx` parameter of `HandleUpload`.
- Node's base64 decoder `Buffer.from(..., 'base64')` (src/server.ts:61): a lenient library decoder. Its outcome (a buffer, or a thrown value) is the `decode` parameter of `HandleUpload`.
- The Promise around `arrayBuffer()`: it is modelled as a plain function.
- Non-integer and non-numeric `start`/`end` arguments: the model takes integers only, so the truncation step of `ToInt32` and the `undefined | 0` case are not modelled.
- A `fileData`, `fileName` or `creator` field of a JSON type other than string or absent; an absent `req.body`.
- The `console.error("Upload error:", error)` on the failure path (src/server.ts:86): logging, which has no effect on the reply.
- The exact error a request without `fileData` produces: `Buffer.from(undefined, 'base64')` throws Node's own `TypeError`, so the reply is a 500 "Upload failed" carrying that message. The model leaves the decoder unconstrained and does not fix that message.
- How `res.json` serialises the reply to text, and a failure of `res.json` itself.
- Aliasing of the copy: the result of `arrayBuffer()` is a fresh `ArrayBuffer`, but the model only shows that it holds the right bytes. As values, later writes to it cannot be expressed.
- src/client.js: it reads a file, encodes it and posts it. That is I/O with no logic to verify.
