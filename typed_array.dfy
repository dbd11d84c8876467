/** The parts of ECMAScript's byte containers that the upload adapter relies on:
    a Node `Buffer` is a `Uint8Array` view onto a window of a larger
    `ArrayBuffer` backing store (small buffers are carved out of a shared pool,
    so the window need not start at 0 nor reach the end of the store). */
module TypedArray {

  type byte = bv8

  /** A view: the whole backing store and the window the view exposes. */
  datatype ByteView = ByteView(store: seq<byte>, byteOffset: nat, byteLength: nat)

  /** Every view a runtime hands out lies inside its backing store. */
  type Buffer = v: ByteView | v.byteOffset + v.byteLength <= |v.store|
    witness ByteView([], 0, 0)

  /** The bytes a view exposes: `buffer[0] .. buffer[length - 1]`. */
  function Contents(v: Buffer): (c: seq<byte>)
    ensures |c| == v.byteLength
    ensures forall i :: 0 <= i < |c| ==> c[i] == v.store[v.byteOffset + i]
  {
    v.store[v.byteOffset..v.byteOffset + v.byteLength]
  }

  /** How `subarray` and `ArrayBuffer.prototype.slice` resolve an integer
      argument against a length `len`: a negative argument counts back from
      the end, and the position is clamped into [0, len]. */
  function RelativeIndex(rel: int, len: nat): (r: nat)
    ensures r <= len
    ensures 0 <= rel <= len ==> r == rel
    ensures rel > len ==> r == len
    ensures rel < 0 && len + rel >= 0 ==> r + (-rel) == len
    ensures len + rel < 0 ==> r == 0
  {
    if rel < 0 then
      (if len + rel < 0 then 0 else len + rel)
    else if rel > len then len
    else rel
  }

  /** `v.subarray(begin, end)`: a new view onto the SAME backing store, whose
      window starts `RelativeIndex(begin)` bytes into `v`'s window and is
      `max(RelativeIndex(end) - RelativeIndex(begin), 0)` bytes long. */
  function Subarray(v: Buffer, begin: int, end: int): (w: Buffer)
    ensures w.store == v.store
    ensures var b, e := RelativeIndex(begin, v.byteLength), RelativeIndex(end, v.byteLength);
      && w.byteOffset == v.byteOffset + b
      && Contents(w) == if b <= e then Contents(v)[b..e] else []
  {
    var len := v.byteLength;
    var b := RelativeIndex(begin, len);
    var e := RelativeIndex(end, len);
    var newLength := if e - b > 0 then e - b else 0;
    ByteView(v.store, v.byteOffset + b, newLength)
  }

  /** `store.slice(start, end)` on an ArrayBuffer: a fresh copy of the bytes
      between the two resolved positions (empty when they cross). */
  function ArrayBufferSlice(store: seq<byte>, start: int, end: int): (copy: seq<byte>)
    ensures var first, final := RelativeIndex(start, |store|), RelativeIndex(end, |store|);
      && |copy| == (if final > first then final - first else 0)
      && forall i :: 0 <= i < |copy| ==> copy[i] == store[first + i]
  {
    var first := RelativeIndex(start, |store|);
    var final := RelativeIndex(end, |store|);
    if first <= final then store[first..final] else []
  }

  /** Copying a view's own window out of its backing store, as
      `view.buffer.slice(view.byteOffset, view.byteOffset + view.byteLength)`
      does, yields exactly the view's contents and nothing around them. */
  lemma CopyOfWindowIsContents(v: Buffer)
    ensures ArrayBufferSlice(v.store, v.byteOffset, v.byteOffset + v.byteLength) == Contents(v)
  {
  }
}
