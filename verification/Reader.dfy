/** The cursor of `bytes.rs`, whose reads split what is left into their result and what is left then. */
module Cursor {
  import opened Bytes

  /** A Rust slice holds at most `isize::MAX` bytes. */
  const MAX_SLICE: nat := 0x7FFF_FFFF_FFFF_FFFF

  class Reader {
    const buf: seq<Byte>
    var pos: nat

    /** What is left to read; past the end, nothing is, and every read fails. */
    ghost predicate Valid()
      reads this
    {
      pos <= |buf|
    }

    ghost function Left(): seq<Byte>
      requires Valid()
      reads this
    {
      buf[pos..]
    }

    constructor (buf: seq<Byte>)
      ensures this.buf == buf && Valid() && Left() == buf
    {
      this.buf := buf;
      pos := 0;
    }

    constructor At(buf: seq<Byte>, pos: nat)
      ensures this.buf == buf && this.pos == pos
    {
      this.buf := buf;
      this.pos := pos;
    }

    method Bytes(n: nat) returns (read: Option<seq<Byte>>)
      modifies this`pos
      ensures read.Some? <==> old(pos) + n <= |buf|
      ensures read.Some? ==> read.value == buf[old(pos)..old(pos) + n] && pos == old(pos) + n
      ensures read.Some? ==> old(Valid()) && Valid() && old(Left()) == read.value + Left()
      ensures read.None? ==> pos == old(pos)
    {
      if pos > |buf| || n > |buf[pos..]| { return None; }
      read := Some(buf[pos..][..n]);
      pos := pos + n;
    }

    method U32() returns (read: Option<nat>)
      modifies this`pos
      ensures read == U32Le(buf, old(pos))
      ensures pos == if read.Some? then old(pos) + 4 else old(pos)
      ensures read.Some? ==> read.value < 0x1_0000_0000
      ensures read.Some? ==> old(Valid()) && Valid() && old(Left()) == ToLe32(read.value) + Left()
    {
      hide U32Le, ToLe32;
      read := U32Le(buf, pos);
      if read.Some? {
        ReadsWhatIsWritten(buf, pos, read.value);
        pos := pos + 4;
      }
    }
  }
}
