/** The seekable data source of one binding context. Its bytes do not change
    for the life of the session; only the shared cursor does. */
module Streams {
  import opened Bytes

  class Stream {
    const bytes: seq<byte>
    var pos: nat

    constructor (data: seq<byte>)
      ensures bytes == data && pos == 0
    {
      bytes := data;
      pos := 0;
    }

    /** `seek(p)`: an absolute seek; seeking past the end is allowed. */
    method Seek(p: nat)
      modifies this
      ensures pos == p
    {
      pos := p;
    }

    /** `seek(0, 2)`: moves the cursor to the end and returns the new position,
        which is the length of the data. */
    method SeekEnd() returns (total: nat)
      modifies this
      ensures total == |bytes| && pos == total
    {
      pos := |bytes|;
      total := pos;
    }

    /** `read(n)`: up to `n` bytes from the cursor, fewer only at the end of the
        data; the cursor moves past the bytes returned and no further. */
    method Read(n: nat) returns (r: seq<byte>)
      modifies this
      ensures r == Window(bytes, old(pos), n)
      ensures pos == old(pos) + |r|
      ensures pos == ReadEnd(bytes, old(pos), n)
    {
      r := Window(bytes, pos, n);
      pos := ReadEnd(bytes, pos, n);
    }
  }
}
