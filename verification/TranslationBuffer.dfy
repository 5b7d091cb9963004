/** The growing output buffer that the escaping routines of c14n.c and entities.c both work with. */
module TranslationBuffer {
  import opened Octets

  /** The locals buffer, buffer_size and out of the escaping loops: a growing allocation and the position
      written next. */
  class Translation {
    var buffer: array<byte>
    var out: nat

    ghost predicate Valid()
      reads this
    {
      out < buffer.Length && 1000 <= buffer.Length
    }

    ghost function Written(): seq<byte>
      reads this, buffer
      requires Valid()
    {
      buffer[..out]
    }

    constructor ()
      ensures Valid() && fresh(buffer) && Written() == [] && buffer.Length == 1000
    {
      buffer := new byte[1000];
      out := 0;
    }

    /** growBufferReentrant: the size is doubled and the contents are kept. */
    method Grow()
      requires Valid()
      modifies this`buffer
      ensures Valid() && fresh(buffer) && buffer.Length == 2 * old(buffer.Length)
      ensures Written() == old(Written())
    {
      var larger := new byte[2 * buffer.Length];
      forall i | 0 <= i < buffer.Length {
        larger[i] := buffer[i];
      }
      buffer := larger;
    }

    /** A run of *out++ = ...; the room for it is what the caller has to guarantee. */
    method Put(s: seq<byte>)
      requires Valid() && out + |s| < buffer.Length
      modifies this`out, buffer
      ensures Valid() && Written() == old(Written()) + s && out == old(out) + |s|
    {
      forall i | 0 <= i < |s| {
        buffer[out + i] := s[i];
      }
      out := out + |s|;
    }

    method Terminate()
      requires Valid()
      modifies buffer
      ensures Valid() && Written() == old(Written()) && buffer[out] == 0
    {
      buffer[out] := 0;
    }
  }
}
