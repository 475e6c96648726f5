/** UI/buffer.c: a growable octet buffer whose unused tail stays zero. */
module Buffers {
  import opened Bytes

  class Buffer {
    var buf: array?<byte>
    var size: uint32
    var len: uint32

    /** The fields describe the allocation. */
    ghost predicate Shaped()
      reads this
    {
      && len <= size
      && (if buf == null then size == 0 else buf.Length == size)
    }

    /** Shaped, and every octet past the content is still zero. */
    ghost predicate Valid()
      reads this, buf
    {
      && Shaped()
      && (buf != null ==> forall i :: len <= i < buf.Length ==> buf[i] == 0)
    }

    ghost function Content(): seq<byte>
      reads this, buf
      requires Shaped()
    {
      if buf == null then [] else buf[..len]
    }

    constructor Init(size: uint32)
      ensures Valid() && Content() == [] && this.size == size && len == 0
      ensures buf == null <==> size == 0
      ensures buf != null ==> fresh(buf)
    {
      this.len, this.size := 0, size;
      if 0 < size {
        buf := new byte[size](_ => 0);
      } else {
        buf := null;
      }
    }

    /** Makes room for `extra` more octets; the content does not change. */
    method Append(extra: uint32)
      requires Shaped() && len + extra < 0x1_0000_0000
      modifies this`buf, this`size
      ensures Shaped() && len == old(len)
      ensures Content() == old(Content()) && len + extra <= size
      ensures old(len) + extra <= old(size) ==> buf == old(buf) && size == old(size)
      ensures old(len) + extra > old(size) ==> buf != null && fresh(buf) && size == old(len) + extra && Valid()
      ensures old(Valid()) ==> Valid()
    {
      if size < extra + len {
        var b := new byte[extra + len](_ => 0);
        if buf != null {
          forall i | 0 <= i < len {
            b[i] := buf[i];
          }
        }
        buf := b;
        size := extra + len;
      }
    }

    method Clear()
      modifies this
      ensures Valid() && Content() == [] && buf == null && size == 0 && len == 0
    {
      buf, size, len := null, 0, 0;
    }
  }
}
