/** Little-endian integers in a byte string, as the frame header, FlatBuffers and zip use them. */
module LittleEndian {
  import opened Basics

  function Low(x: nat): Byte {
    x % 0x100
  }

  /** The two bytes of a 16-bit field; a wider value is truncated as the cast truncates it. */
  function Put16(x: nat): (r: Bytes)
    ensures |r| == 2
  {
    [Low(x), Low(x / 0x100)]
  }

  function Put32(x: nat): (r: Bytes)
    ensures |r| == 4
  {
    Put16(x) + Put16(x / 0x1_0000)
  }

  function U16(b: Bytes, at: nat): (r: nat)
    requires at + 2 <= |b|
    ensures r < 0x1_0000
  {
    b[at] as int + b[at + 1] as int * 0x100
  }

  function U32(b: Bytes, at: nat): (r: nat)
    requires at + 4 <= |b|
    ensures r < 0x1_0000_0000
  {
    U16(b, at) + U16(b, at + 2) * 0x1_0000
  }

  /** Some bytes stand at a place. */
  predicate Stands(b: Bytes, at: nat, bytes: Bytes) {
    at + |bytes| <= |b| && b[at..at + |bytes|] == bytes
  }

  lemma Get16(b: Bytes, at: nat, x: nat)
    requires Stands(b, at, Put16(x))
    ensures U16(b, at) == x % 0x1_0000
  {
    var s := b[at..at + 2];
    assert s[0] == b[at] && s[1] == b[at + 1];
  }

  lemma Halves(x: nat)
    ensures x % 0x1_0000 + x / 0x1_0000 % 0x1_0000 * 0x1_0000 == x % 0x1_0000_0000
  {
  }

  lemma Get32(b: Bytes, at: nat, x: nat)
    requires Stands(b, at, Put32(x))
    ensures U32(b, at) == x % 0x1_0000_0000
  {
    var s := b[at..at + 4];
    assert b[at..at + 2] == s[..2] == Put16(x);
    assert b[at + 2..at + 4] == s[2..] == Put16(x / 0x1_0000);
    Get16(b, at, x);
    Get16(b, at + 2, x / 0x1_0000);
    Halves(x);
  }

  /** A number that fits reads back as it was put. */
  lemma Put16Reads(b: Bytes, at: nat, x: nat)
    requires Stands(b, at, Put16(x)) && x < 0x1_0000
    ensures at + 2 <= |b| && U16(b, at) == x
  {
    Get16(b, at, x);
  }

  lemma Put32Reads(b: Bytes, at: nat, x: nat)
    requires Stands(b, at, Put32(x)) && x < 0x1_0000_0000
    ensures at + 4 <= |b| && U32(b, at) == x
  {
    Get32(b, at, x);
  }
}
