/** Bytes and the little-endian numbers they stand for. */
module LittleEndian {

  type byte = x: int | 0 <= x < 256

  /** struct.unpack "<H", "<I" and "<Q" at o. */
  function U16(b: seq<byte>, o: nat): nat
    requires o + 2 <= |b|
  {
    var lo: nat := b[o];
    var hi: nat := b[o + 1];
    lo + 0x100 * hi
  }

  function U32(b: seq<byte>, o: nat): nat
    requires o + 4 <= |b|
  {
    U16(b, o) + 0x1_0000 * U16(b, o + 2)
  }

  function U64(b: seq<byte>, o: nat): nat
    requires o + 8 <= |b|
  {
    U32(b, o) + 0x1_0000_0000 * U32(b, o + 4)
  }

  /** The bytes the three read back. */
  function Le16(v: nat): (s: seq<byte>)
    ensures |s| == 2
  {
    [v % 0x100, v / 0x100 % 0x100]
  }

  function Le32(v: nat): (s: seq<byte>)
    ensures |s| == 4
  {
    Le16(v % 0x1_0000) + Le16(v / 0x1_0000)
  }

  function Le64(v: nat): (s: seq<byte>)
    ensures |s| == 8
  {
    Le32(v % 0x1_0000_0000) + Le32(v / 0x1_0000_0000)
  }

  lemma Reads16(b: seq<byte>, o: nat, v: nat)
    requires v < 0x1_0000 && o + 2 <= |b| && b[o..o + 2] == Le16(v)
    ensures U16(b, o) == v
  {
    assert b[o] == b[o..o + 2][0] && b[o + 1] == b[o..o + 2][1];
  }

  lemma Reads32(b: seq<byte>, o: nat, v: nat)
    requires v < 0x1_0000_0000 && o + 4 <= |b| && b[o..o + 4] == Le32(v)
    ensures U32(b, o) == v
  {
    assert b[o..o + 2] == b[o..o + 4][..2] && b[o + 2..o + 4] == b[o..o + 4][2..];
    Reads16(b, o, v % 0x1_0000);
    Reads16(b, o + 2, v / 0x1_0000);
  }

  lemma Reads64(b: seq<byte>, o: nat, v: Word)
    requires o + 8 <= |b| && b[o..o + 8] == Le64(v)
    ensures U64(b, o) == v
  {
    assert b[o..o + 4] == b[o..o + 8][..4] && b[o + 4..o + 8] == b[o..o + 8][4..];
    Reads32(b, o, v % 0x1_0000_0000);
    Reads32(b, o + 4, v / 0x1_0000_0000);
  }

  /** And the other way round: the bytes of what was read. */
  lemma Writes16(b: seq<byte>, o: nat)
    requires o + 2 <= |b|
    ensures U16(b, o) < 0x1_0000 && Le16(U16(b, o)) == b[o..o + 2]
  {
    var lo: nat, hi: nat := b[o], b[o + 1];
    assert (lo + 0x100 * hi) % 0x100 == lo && (lo + 0x100 * hi) / 0x100 == hi;
  }

  lemma Writes32(b: seq<byte>, o: nat)
    requires o + 4 <= |b|
    ensures U32(b, o) < 0x1_0000_0000 && Le32(U32(b, o)) == b[o..o + 4]
  {
    Writes16(b, o);
    Writes16(b, o + 2);
    Halves16(U16(b, o), U16(b, o + 2));
    assert b[o..o + 4] == b[o..o + 2] + b[o + 2..o + 4];
  }

  lemma Writes64(b: seq<byte>, o: nat)
    requires o + 8 <= |b|
    ensures U64(b, o) < 0x1_0000_0000_0000_0000 && Le64(U64(b, o)) == b[o..o + 8]
  {
    Writes32(b, o);
    Writes32(b, o + 4);
    Halves32(U32(b, o), U32(b, o + 4));
    assert b[o..o + 8] == b[o..o + 4] + b[o + 4..o + 8];
  }

  lemma Halves16(lo: nat, hi: nat)
    requires lo < 0x1_0000
    ensures (lo + 0x1_0000 * hi) % 0x1_0000 == lo && (lo + 0x1_0000 * hi) / 0x1_0000 == hi
  {
  }

  lemma Halves32(lo: nat, hi: nat)
    requires lo < 0x1_0000_0000
    ensures (lo + 0x1_0000_0000 * hi) % 0x1_0000_0000 == lo && (lo + 0x1_0000_0000 * hi) / 0x1_0000_0000 == hi
  {
  }

  type Word = v: nat | v < 0x1_0000_0000_0000_0000
}
