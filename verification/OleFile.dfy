/** The file under an OLE document: a byte string and a position moved by fseek and fread. */
module OleFiles {
  import opened Basics

  /** Little-endian 32-bit value at an offset; on a 64-bit long it is never negative. */
  function GetLong(buf: seq<Byte>, offset: nat): (r: nat)
    requires offset + 4 <= |buf|
    ensures r < 0x1_0000_0000
  {
    var b0: int, b1: int, b2: int, b3: int := buf[offset], buf[offset + 1], buf[offset + 2], buf[offset + 3];
    b0 + 0x100 * b1 + 0x1_0000 * b2 + 0x100_0000 * b3
  }

  /** A sector table: its bytes read as 32-bit values. */
  function Entries(bytes: seq<Byte>): (s: seq<int>)
    ensures |s| == |bytes| / 4
  {
    seq(|bytes| / 4, i requires 0 <= i < |bytes| / 4 => GetLong(bytes, 4 * i))
  }

  /** Four bytes, the lowest first. */
  function LongBytes(v: nat): (s: seq<Byte>)
    requires v < 0x1_0000_0000
  {
    [v % 0x100, v / 0x100 % 0x100, v / 0x1_0000 % 0x100, v / 0x100_0000]
  }

  /** getlong reads back every 32-bit value, wherever it stands in the buffer. */
  lemma LongRoundTrip(before: seq<Byte>, v: nat, rest: seq<Byte>)
    requires v < 0x1_0000_0000
    ensures GetLong(before + LongBytes(v) + rest, |before|) == v
  {
    var buf := before + LongBytes(v) + rest;
    forall i | 0 <= i < 4 ensures buf[|before| + i] == LongBytes(v)[i] {}
    assert v / 0x1_0000 == v / 0x100 / 0x100 && v / 0x100_0000 == v / 0x1_0000 / 0x100;
  }

  /** For one value, byte by byte. */
  lemma LongExample()
    ensures GetLong([0, 0x78, 0x56, 0x34, 0x12, 0], 1) == 0x12345678
  {
  }

  class FileHandle {
    const data: seq<Byte>
    var pos: nat

    constructor (bytes: seq<Byte>)
      ensures data == bytes && pos == 0
    {
      data, pos := bytes, 0;
    }

    method Seek(offset: nat)
      modifies this
      ensures pos == offset
    {
      pos := offset;
    }

    /** fread(buf + at, 1, n): copies what is left of the file, at most n bytes. */
    method Read(buf: array<Byte>, at: nat, n: nat) returns (r: nat)
      requires at + n <= buf.Length
      modifies this, buf
      ensures r == if old(pos) >= |data| then 0 else Min(n, |data| - old(pos))
      ensures pos == old(pos) + r
      ensures r > 0 ==> buf[..] == old(buf[..at]) + data[old(pos)..pos] + old(buf[at + r..])
      ensures r == 0 ==> buf[..] == old(buf[..])
    {
      r := 0;
      while r < n && pos < |data|
        invariant 0 <= r <= n && pos == old(pos) + r && (r > 0 ==> pos <= |data|)
        invariant buf[at + r..] == old(buf[at + r..])
        invariant if r > 0 then buf[..at + r] == old(buf[..at]) + data[old(pos)..pos] else buf[..at] == old(buf[..at])
      {
        buf[at + r] := data[pos];
        pos := pos + 1;
        r := r + 1;
      }
    }
  }
}
