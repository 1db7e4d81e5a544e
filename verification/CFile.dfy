/** The part of C's stdio that the dictionary reader uses, over a file of fewer than 2^32 bytes. */
module CFiles {
  import opened Bytes

  type FileBytes = s: seq<byte> | |s| < U32

  class CFile {
    const data: FileBytes
    var pos: nat
    var eof: bool

    constructor (bytes: FileBytes)
      ensures data == bytes && pos == 0 && !eof
    {
      data := bytes;
      pos := 0;
      eof := false;
    }

    /** `fgetc`: the next byte, or -1 (setting the end-of-file indicator). */
    method Fgetc() returns (ch: int)
      modifies this
      ensures old(pos) < |data| ==> ch == data[old(pos)] && pos == old(pos) + 1 && eof == old(eof)
      ensures old(pos) >= |data| ==> ch == -1 && pos == old(pos) && eof
    {
      if pos < |data| {
        ch := data[pos];
        pos := pos + 1;
      } else {
        ch := -1;
        eof := true;
      }
    }

    /** `fread`: at most `n` bytes. */
    method Fread(n: nat) returns (bytes: seq<byte>)
      modifies this
      ensures bytes == Slice(data, old(pos), n)
      ensures pos == old(pos) + |bytes|
    {
      bytes := Slice(data, pos, n);
      pos := pos + |bytes|;
      if |bytes| < n {
        eof := true;
      }
    }

    /** `fseek` to an absolute position, which clears the end-of-file indicator. */
    method Seek(p: nat)
      modifies this
      ensures pos == p && !eof
    {
      pos := p;
      eof := false;
    }
  }

  /** At most `n` bytes of `data` from position `pos` on. */
  function Slice(data: seq<byte>, pos: nat, n: nat): (s: seq<byte>)
    ensures |s| <= n
    ensures pos + n <= |data| ==> |s| == n
    ensures |s| < n ==> pos + |s| >= |data|
    ensures forall i :: 0 <= i < |s| ==> pos + i < |data| && s[i] == data[pos + i]
  {
    if pos >= |data| then []
    else if pos + n <= |data| then data[pos..pos + n]
    else data[pos..]
  }
}
