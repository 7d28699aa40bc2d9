/**
 * The growable output stream the encoder appends to: a byte buffer, a
 * write position, and the capacity that is the buffer's length.
 */
module RfxStream {
  import opened RfxTypes

  class Stream {
    var data: array<Byte>
    var pos: int

    ghost predicate Valid()
      reads this
    {
      0 <= pos <= data.Length
    }

    /** `stream_get_left`: the bytes between the write position and the end of the buffer. */
    function Left(): (n: int)
      reads this
      requires Valid()
      ensures n >= 0
    {
      data.Length - pos
    }

    constructor (size: nat)
      ensures Valid() && fresh(data)
      ensures pos == 0 && data.Length == size
    {
      data := new Byte[size];
      pos := 0;
    }

    /**
     * `stream_check_size`: makes at least `n` bytes available past the write
     * position, growing the buffer when they are not; the bytes already in
     * the buffer and the write position are kept, and a buffer that already
     * has room is left alone.  How far it grows is not promised; this body
     * grows it to just what is needed.
     */
    method CheckSize(n: nat)
      requires Valid()
      modifies this
      ensures Valid() && pos == old(pos)
      ensures Left() >= n && Left() >= old(Left())
      ensures old(Left()) >= n ==> data == old(data)
      ensures data == old(data) || fresh(data)
      ensures old(data.Length) <= data.Length && data[..old(data.Length)] == old(data[..])
    {
      if data.Length - pos < n {
        var grown := new Byte[pos + n];
        forall i | 0 <= i < data.Length {
          grown[i] := data[i];
        }
        data := grown;
      }
    }

    /** `stream_seek`: moves the write position forward past `n` written bytes. */
    method Seek(n: int)
      requires Valid() && 0 <= n <= Left()
      modifies this`pos
      ensures Valid() && pos == old(pos) + n
    {
      pos := pos + n;
    }
  }
}
