/** `NativeByteBuffer`: a fixed array with a position and a limit. */
module ByteBuffers {
  import opened Bytes

  class NativeByteBuffer {
    const bytes: array<Byte>
    var position: nat
    var limit: nat

    ghost predicate Valid()
      reads this
    {
      position <= limit <= bytes.Length
    }

    /** The bytes between position and limit: what is still to be read. */
    ghost function Remaining(): seq<Byte>
      reads this, bytes
      requires Valid()
    {
      bytes[position..limit]
    }

    /** The bytes before the position: what has been written. */
    ghost function Written(): seq<Byte>
      reads this, bytes
      requires Valid()
    {
      bytes[..position]
    }

    constructor (size: nat)
      ensures Valid() && fresh(bytes)
      ensures position == 0 && limit == size == bytes.Length
    {
      bytes := new Byte[size];
      position, limit := 0, size;
    }

    /** A position beyond the limit is ignored. */
    method SetPosition(p: nat)
      requires Valid()
      modifies this`position
      ensures Valid()
      ensures position == if p > limit then old(position) else p
    {
      if p > limit {
        return;
      }
      position := p;
    }

    /** A limit beyond the capacity is ignored; a lower limit drags the position down. */
    method SetLimit(l: nat)
      requires Valid()
      modifies this
      ensures Valid()
      ensures l > bytes.Length ==> limit == old(limit) && position == old(position)
      ensures l <= bytes.Length ==> limit == l && position == if old(position) > l then l else old(position)
    {
      if l > bytes.Length {
        return;
      }
      if position > l {
        position := l;
      }
      limit := l;
    }

    method Flip()
      requires Valid()
      modifies this
      ensures Valid() && position == 0 && limit == old(position)
      ensures Remaining() == old(Written())
    {
      limit := position;
      position := 0;
    }

    method Clear()
      modifies this
      ensures Valid() && position == 0 && limit == bytes.Length
    {
      position := 0;
      limit := bytes.Length;
    }

    method Rewind()
      requires limit <= bytes.Length
      modifies this`position
      ensures Valid() && position == 0
    {
      position := 0;
    }

    /** Moves the remaining bytes to the front; nothing happens when none remain. */
    method Compact()
      requires Valid()
      modifies this, bytes
      ensures Valid()
      ensures old(position) == old(limit) ==>
        position == old(position) && limit == old(limit) && bytes[..] == old(bytes[..])
      ensures old(position) < old(limit) ==>
        limit == bytes.Length && Written() == old(Remaining())
    {
      if position == limit {
        return;
      }
      var n, start := limit - position, position;
      forall k | 0 <= k < n {
        bytes[k] := bytes[start + k];
      }
      position := n;
      limit := bytes.Length;
      assert Written() == old(Remaining());
    }

    /** Writing past the limit is dropped without a trace, as in the source when no error flag is passed. */
    method WriteByte(b: Byte)
      requires Valid()
      modifies this`position, bytes
      ensures Valid()
      ensures Written() == old(Written()) + if old(position) + 1 > limit then [] else [b]
    {
      if position + 1 > limit {
        return;
      }
      bytes[position] := b;
      position := position + 1;
    }

    /** The common part of the multi-byte writers: all of `s` or nothing. */
    method WriteAll(s: seq<Byte>)
      requires Valid()
      modifies this`position, bytes
      ensures Valid()
      ensures Written() == old(Written()) + if old(position) + |s| > limit then [] else s
    {
      if position + |s| > limit {
        return;
      }
      var start := position;
      forall k | 0 <= k < |s| {
        bytes[start + k] := s[k];
      }
      position := position + |s|;
      assert Written() == old(Written()) + s;
    }

    /** Copies all that remains in `src`, or nothing when it does not fit. */
    method WriteBytes(src: NativeByteBuffer)
      requires Valid() && src.Valid() && src != this && src.bytes != bytes
      modifies this`position, bytes, src`position
      ensures Valid() && src.Valid()
      ensures old(position) + old(|src.Remaining()|) <= limit ==>
        Written() == old(Written() + src.Remaining()) && src.position == src.limit
      ensures old(position) + old(|src.Remaining()|) > limit ==>
        Written() == old(Written()) && src.position == old(src.position)
    {
      var length := src.limit - src.position;
      if length <= 0 {
        return;
      }
      if position + length > limit {
        return;
      }
      var start, from := position, src.position;
      forall k | 0 <= k < length {
        bytes[start + k] := src.bytes[from + k];
      }
      position := position + length;
      src.SetPosition(src.limit);
      assert Written() == old(Written() + src.Remaining());
    }

    /** Copies `length` bytes of `data` from `offset`, or nothing when they do not fit. */
    method WriteSlice(data: array<Byte>, offset: nat, length: nat)
      requires Valid() && offset + length <= data.Length && data != bytes
      modifies this`position, bytes
      ensures Valid()
      ensures Written() == old(Written()) + if old(position) + length > limit then [] else data[offset..offset + length]
    {
      if position + length > limit {
        return;
      }
      var start := position;
      forall k | 0 <= k < length {
        bytes[start + k] := data[offset + k];
      }
      position := position + length;
      assert Written() == old(Written()) + data[offset..offset + length];
    }
  }
}
