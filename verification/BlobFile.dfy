/** A seekable binary file, as Python's file objects behave. */
module BlobFile {
  import opened Bytes

  /** data with s written at pos: a gap behind the end is filled with zeros. */
  function Overwritten(data: seq<byte>, pos: nat, s: seq<byte>): (r: seq<byte>)
    ensures s == [] ==> r == data
    ensures pos == |data| ==> r == data + s
    ensures pos + |s| <= |data| ==> r == data[..pos] + s + data[pos + |s|..]
  {
    if s == [] then data
    else if pos > |data| then data + Zeroed(pos - |data|) + s
    else data[..pos] + s + (if pos + |s| <= |data| then data[pos + |s|..] else [])
  }

  /** Up to n bytes from pos. */
  function ReadAt(data: seq<byte>, pos: nat, n: nat): (r: seq<byte>)
    ensures |r| <= n
    ensures pos + n <= |data| ==> r == data[pos..pos + n]
  {
    if pos >= |data| then [] else if pos + n <= |data| then data[pos..pos + n] else data[pos..]
  }

  class File {
    var data: seq<byte>
    var pos: nat

    constructor (contents: seq<byte>)
      ensures data == contents && pos == 0
    {
      data, pos := contents, 0;
    }

    method Seek(offset: nat)
      modifies `pos
      ensures pos == offset
    {
      pos := offset;
    }

    method Write(s: seq<byte>)
      modifies this
      ensures data == Overwritten(old(data), old(pos), s) && pos == old(pos) + |s|
    {
      data, pos := Overwritten(data, pos, s), pos + |s|;
    }

    method Read(n: nat) returns (s: seq<byte>)
      modifies `pos
      ensures s == ReadAt(data, old(pos), n) && pos == old(pos) + |s|
    {
      s := ReadAt(data, pos, n);
      pos := pos + |s|;
    }
  }
}
