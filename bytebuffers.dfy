/**
 * `java.nio.ByteBuffer` as `convertRgbToYuv420` uses it: fixed-size contents,
 * a cursor (`position`) that `put` advances, and a `limit` past which `put`
 * throws `BufferOverflowException`.
 */
module ByteBuffers {
  import opened Argb

  class ByteBuffer {
    /** The backing store; its length is the capacity and never changes. */
    var data: seq<Byte>
    var position: nat
    var limit: nat

    ghost predicate Valid()
      reads this
    {
      position <= limit <= |data|
    }

    /** The bytes from `position` up to `limit`: what `remaining()` counts and a read-only view returns. */
    function Remaining(): (s: seq<Byte>)
      reads this
      requires Valid()
      ensures |s| == limit - position
    {
      data[position..limit]
    }

    /** The bytes put since the last `clear()`: everything before the cursor. */
    function Written(): (s: seq<Byte>)
      reads this
      requires Valid()
      ensures |s| == position
    {
      data[..position]
    }

    /** `ByteBuffer.allocateDirect(capacity)`: zero-filled, position 0, limit at capacity. */
    constructor AllocateDirect(capacity: nat)
      ensures Valid()
      ensures data == seq(capacity, _ => 0) && position == 0 && limit == capacity
    {
      data := seq(capacity, _ => 0);
      position := 0;
      limit := capacity;
    }

    /** `clear()`: the cursor goes back to 0 and the limit to the capacity; no byte changes. */
    method Clear()
      requires Valid()
      modifies this
      ensures Valid() && data == old(data) && position == 0 && limit == |data| && Written() == []
    {
      position := 0;
      limit := |data|;
    }

    /**
     * `put(b)`: stores `b` at the cursor and advances it, or reports the
     * `BufferOverflowException` thrown when the cursor has reached the limit.
     */
    method Put(b: Byte) returns (overflow: bool)
      requires Valid()
      modifies this
      ensures Valid() && limit == old(limit) && |data| == old(|data|)
      ensures overflow <==> old(position) == old(limit)
      ensures overflow ==> position == old(position) && data == old(data)
      ensures !overflow ==> position == old(position) + 1 && data == old(data)[old(position) := b]
    {
      overflow := position == limit;
      if !overflow {
        data := data[position := b];
        position := position + 1;
      }
    }

    /** `flip()`: what was written becomes what remains to be read. */
    method Flip()
      requires Valid()
      modifies this
      ensures Valid() && data == old(data) && position == 0 && limit == old(position)
      ensures Remaining() == old(Written())
    {
      limit := position;
      position := 0;
    }
  }
}
