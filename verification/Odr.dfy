/** The ODR encoding stream as the BER encoders use it: octets are written at a position that can be
    moved back to patch a length. The stream grows without limit. */
module Odr {
  import opened Bytes

  /** `octets` written over `buf` at `pos`. */
  function Overwrite(buf: seq<byte>, pos: nat, octets: seq<byte>): seq<byte>
    requires pos <= |buf|
  {
    buf[..pos] + octets + (if pos + |octets| <= |buf| then buf[pos + |octets|..] else [])
  }

  class Stream {
    var buf: seq<byte>
    var pos: nat

    ghost predicate Valid()
      reads this
    {
      pos <= |buf|
    }

    constructor ()
      ensures Valid() && buf == [] && pos == 0
    {
      buf, pos := [], 0;
    }

    /** odr_putc. */
    method Putc(b: byte)
      requires Valid()
      modifies this
      ensures Valid() && pos == old(pos) + 1
      ensures buf == Overwrite(old(buf), old(pos), [b])
    {
      if pos < |buf| {
        buf := buf[pos := b];
      } else {
        buf := buf + [b];
      }
      pos := pos + 1;
    }

    /** odr_write at the end of the stream. */
    method Write(octets: seq<byte>)
      requires Valid() && pos == |buf|
      modifies this
      ensures Valid() && pos == |buf| && buf == old(buf) + octets
    {
      buf := buf + octets;
      pos := |buf|;
    }

    /** odr_seek to an absolute position, or to the end for |buf|. */
    method Seek(to: nat)
      requires to <= |buf|
      modifies this`pos
      ensures Valid() && pos == to
    {
      pos := to;
    }
  }
}
