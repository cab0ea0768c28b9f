/** The two java.nio objects the range writer drives: a heap `ByteBuffer` and a read-only
    `FileChannel` over a file whose bytes are given as a sequence. */
module Nio {

  function Min(a: int, b: int): int { if a <= b then a else b }

  /** A heap byte buffer: backing array `hb` of length `capacity`, with
      0 <= position <= limit <= capacity. The mark is never used by the writer. */
  class ByteBuffer {
    const capacity: nat
    const hb: array<bv8>
    var position: nat
    var limit: nat

    ghost predicate Valid()
      reads this
    {
      hb.Length == capacity && position <= limit <= capacity
    }

    /** `ByteBuffer.allocate(capacity)`. */
    constructor Allocate(cap: nat)
      ensures Valid() && fresh(hb)
      ensures capacity == cap && position == 0 && limit == cap
    {
      capacity := cap;
      hb := new bv8[cap];
      position := 0;
      limit := cap;
    }

    /** `flip()`: the limit moves to the position, the position to 0. */
    method Flip()
      requires Valid()
      modifies this
      ensures Valid()
      ensures limit == old(position) && position == 0
    {
      limit := position;
      position := 0;
    }

    /** `clear()`: the position moves to 0, the limit to the capacity. */
    method Clear()
      requires Valid()
      modifies this
      ensures Valid()
      ensures position == 0 && limit == capacity
    {
      position := 0;
      limit := capacity;
    }

    /** `get(dst, offset, length)`: copies `length` bytes from the position into
        `dst[offset..]` and advances the position. `ok` is false where Java throws:
        IndexOutOfBoundsException for a range outside `dst` (a negative length
        included), BufferUnderflowException for more bytes than remain. */
    method Get(dst: array<bv8>, offset: int, length: int) returns (ok: bool)
      requires Valid()
      modifies this, dst
      ensures Valid() && limit == old(limit)
      ensures ok <==> 0 <= offset && 0 <= length && offset + length <= dst.Length
                      && length <= old(limit) - old(position)
      ensures ok ==> position == old(position) + length
      ensures ok ==> forall k :: 0 <= k < dst.Length ==>
                dst[k] == if offset <= k < offset + length then old(hb[position + k - offset]) else old(dst[k])
      ensures !ok ==> position == old(position) && dst[..] == old(dst[..])
    {
      if offset < 0 || length < 0 || offset + length > dst.Length {
        return false;
      }
      if length > limit - position {
        return false;
      }
      forall k | offset <= k < offset + length {
        dst[k] := hb[position + k - offset];
      }
      position := position + length;
      ok := true;
    }
  }

  /** A channel opened for reading on a file with contents `data`, reading at `pos`. */
  class FileChannel {
    const data: seq<bv8>
    var pos: nat

    /** `FileChannel.open(path, READ)`. */
    constructor Open(file: seq<bv8>)
      ensures data == file && pos == 0
    {
      data := file;
      pos := 0;
    }

    /** `position(p)`; a position past the end of the file is allowed. */
    method Position(p: nat)
      modifies this
      ensures pos == p
    {
      pos := p;
    }

    /** `read(dst)`: 0 when `dst` has no room left, -1 at or past the end of the file,
        otherwise as many bytes as fit and remain, copied into `dst` at its position. */
    method Read(dst: ByteBuffer) returns (n: int)
      requires dst.Valid()
      modifies this, dst, dst.hb
      ensures dst.Valid() && dst.limit == old(dst.limit)
      ensures n == if old(dst.limit) == old(dst.position) then 0
                   else if old(pos) >= |data| then -1
                   else Min(old(dst.limit) - old(dst.position), |data| - old(pos))
      ensures n >= 0 ==> pos == old(pos) + n && dst.position == old(dst.position) + n
      ensures n >= 0 ==> forall k :: 0 <= k < dst.hb.Length ==>
                dst.hb[k] == if old(dst.position) <= k < old(dst.position) + n
                             then data[old(pos) + k - old(dst.position)] else old(dst.hb[k])
      ensures n > 0 ==> dst.hb[old(dst.position)..dst.position] == data[old(pos)..pos]
      ensures n < 0 ==> pos == old(pos) && dst.position == old(dst.position)
                        && dst.hb[..] == old(dst.hb[..])
    {
      var room := dst.limit - dst.position;
      if room == 0 {
        return 0;
      }
      if pos >= |data| {
        return -1;
      }
      n := Min(room, |data| - pos);
      var at := dst.position;
      forall k | at <= k < at + n {
        dst.hb[k] := data[pos + k - at];
      }
      dst.position := at + n;
      pos := pos + n;
    }
  }
}
