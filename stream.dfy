/** Binary file streams as the archiver uses them: an input stream that `read`s
    and `seekg`s through the archive, and an output stream that `write`s it.

    An input stream fails when a read finds fewer bytes than asked for, or a seek
    would go before the start; once failed, it stays failed and every further
    read or seek does nothing. A seek past the end succeeds (a file stream may be
    positioned beyond its end), and a read there finds nothing; it fails the
    stream unless it asked for no bytes at all. */
module Stream {
  import opened Bytes

  /** Where an input stream is, and whether it has failed. */
  datatype Cursor = Cursor(pos: nat, fail: bool)

  /** A stream opened on `data`, positioned at its start. */
  const Start: Cursor := Cursor(0, false)

  /** `read(buffer, n)` at `c`: the bytes copied into the buffer, and where the
      stream is afterwards. */
  function ReadAt(data: seq<byte>, c: Cursor, n: nat): (r: (seq<byte>, Cursor))
    ensures |r.0| <= n && r.1.pos >= c.pos
    ensures !c.fail && c.pos + n <= |data| ==> r.0 == data[c.pos..c.pos + n] && r.1 == Cursor(c.pos + n, false)
    ensures (c.fail || c.pos + n > |data|) ==> |r.0| < n || n == 0
    ensures (c.fail || (n > 0 && c.pos + n > |data|)) ==> r.1.fail
    ensures !c.fail && n == 0 ==> r == ([], c)
  {
    if c.fail then ([], c)
    else if c.pos + n <= |data| then (data[c.pos..c.pos + n], Cursor(c.pos + n, false))
    else if n == 0 then ([], c)
    else if c.pos <= |data| then (data[c.pos..], Cursor(|data|, true))
    else ([], Cursor(c.pos, true))
  }

  /** What a read that cannot be satisfied delivers: a short read on a good
      stream copies the bytes that are left, if any; a failed stream copies
      nothing and stays where it is. */
  lemma ReadAtShort(data: seq<byte>, c: Cursor, n: nat)
    ensures var r := ReadAt(data, c, n);
            !c.fail && n > 0 && c.pos + n > |data| ==> r.0 == (if c.pos <= |data| then data[c.pos..] else [])
    ensures c.fail ==> ReadAt(data, c, n) == ([], c)
  {
  }

  /** `seekg(off, ios::cur)` at `c`. */
  function SeekAt(c: Cursor, off: int): (r: Cursor)
    ensures !c.fail && c.pos + off >= 0 ==> r == Cursor(c.pos + off, false)
    ensures c.fail || c.pos + off < 0 ==> r.fail && r.pos == c.pos
  {
    if c.fail then c
    else if c.pos + off < 0 then Cursor(c.pos, true)
    else Cursor(c.pos + off, false)
  }

  /** An `fstream` opened for binary input on the bytes of a file. */
  class InStream {
    const data: seq<byte>
    var at: Cursor

    constructor(data0: seq<byte>)
      ensures data == data0 && at == Start
    {
      data := data0;
      at := Start;
    }

    method Read(n: nat) returns (got: seq<byte>)
      modifies this
      ensures (got, at) == ReadAt(data, old(at), n)
    {
      got := ReadAt(data, at, n).0;
      at := ReadAt(data, at, n).1;
    }

    method SeekCur(off: int)
      modifies this
      ensures at == SeekAt(old(at), off)
    {
      at := SeekAt(at, off);
    }
  }

  /** An `fstream` opened for binary output: everything written so far. */
  class OutStream {
    var bytes: seq<byte>

    constructor()
      ensures bytes == []
    {
      bytes := [];
    }

    method Write(b: seq<byte>)
      modifies this
      ensures bytes == old(bytes) + b
    {
      bytes := bytes + b;
    }
  }
}
