/**
 * A growable byte buffer: the `Vec<u8>` / `BytesMut` that the server writes
 * replies into and reads requests into.  It only ever grows at the end,
 * except for `Clear`.
 */
module Buffers {
  import opened ByteStrings

  class ByteBuffer {
    var data: Bytes

    constructor ()
      ensures data == []
    {
      data := [];
    }

    /** `Vec::push`. */
    method Push(b: byte)
      modifies this
      ensures data == old(data) + [b]
    {
      data := data + [b];
    }

    /** `Vec::extend_from_slice`. */
    method Extend(s: Bytes)
      modifies this
      ensures data == old(data) + s
    {
      data := data + s;
    }

    /** `clear`: the buffer becomes empty. */
    method Clear()
      modifies this
      ensures data == []
    {
      data := [];
    }
  }
}
