/** The pos/limit/capacity buffers of lib/sec_buffer.h. */
module Buffers {

  type byte = x: int | 0 <= x < 256

  function Min(a: int, b: int): int {
    if a < b then a else b
  }

  /** Bytes in [0, pos) are used up, bytes in [pos, limit) are there to be read (or free to be
      written), and the array's length is the capacity. */
  class Buffer {
    const data: array<byte>
    var pos: nat
    var limit: nat

    ghost predicate Valid()
      reads this
    {
      pos <= limit <= data.Length
    }

    function Remaining(): (n: nat)
      requires Valid()
      reads this
    {
      limit - pos
    }

    /** The bytes between pos and limit. */
    function Unread(): (s: seq<byte>)
      requires Valid()
      reads this, data
    {
      data[pos..limit]
    }

    constructor (capacity: nat)
      ensures Valid() && fresh(data) && data.Length == capacity && pos == 0 && limit == capacity
    {
      data := new byte[capacity](_ => 0);
      pos, limit := 0, capacity;
    }

    /** A buffer over storage that is already there. */
    constructor Over(data: array<byte>, pos: nat, limit: nat)
      requires pos <= limit <= data.Length
      ensures Valid() && this.data == data && this.pos == pos && this.limit == limit
    {
      this.data, this.pos, this.limit := data, pos, limit;
    }

    method Put(b: byte)
      requires Valid() && pos < limit
      modifies this`pos, data
      ensures Valid() && pos == old(pos) + 1
      ensures data[..] == old(data[..])[old(pos) := b]
    {
      data[pos] := b;
      pos := pos + 1;
    }

    /** Copies a block behind pos: the my_memcpy(buffer_start(target), ...) calls. */
    method PutBlock(src: seq<byte>)
      requires Valid() && |src| <= limit - pos
      modifies this`pos, data
      ensures Valid() && pos == old(pos) + |src|
      ensures data[..] == old(data[..])[..old(pos)] + src + old(data[..])[old(pos) + |src|..]
    {
      ghost var before := data[..];
      var start := pos;
      var i := 0;
      while i < |src|
        invariant 0 <= i <= |src|
        invariant data[..] == before[..start] + src[..i] + before[start + i..]
      {
        data[start + i] := src[i];
        i := i + 1;
      }
      assert src[..i] == src;
      pos := start + |src|;
    }

    /** buffer_flip: what was written becomes what can be read. */
    method Flip()
      requires Valid()
      modifies this
      ensures Valid() && pos == 0 && limit == old(pos)
    {
      limit := pos;
      pos := 0;
    }

    /** buffer_compact: moves the unread bytes to the front and opens the rest for writing. */
    method Compact()
      requires Valid()
      modifies this, data
      ensures Valid() && pos == |old(Unread())| && limit == data.Length
      ensures data[..pos] == old(Unread())
    {
      ghost var unread := Unread();
      var n := limit - pos;
      var i := 0;
      while i < n
        invariant 0 <= i <= n && pos == old(pos) && limit == old(limit)
        invariant data[..i] == unread[..i]
        invariant data[pos + i..limit] == unread[i..]
      {
        assert data[pos + i] == unread[i..][0] == unread[i];
        data[i] := data[pos + i];
        i := i + 1;
      }
      pos, limit := n, data.Length;
    }
  }
}
