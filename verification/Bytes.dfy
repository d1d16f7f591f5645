/** Fixed-width integers of the C code and the byte layout of its little-endian fields. */
module Bytes {
  type u8 = x: int | 0 <= x < 0x100
  type u16 = x: int | 0 <= x < 0x1_0000
  type u32 = x: int | 0 <= x < 0x1_0000_0000

  datatype Option<+T> = None | Some(value: T)

  /** A u16 as it lies in memory: low byte first. */
  function Le16(x: u16): (r: seq<u8>)
    ensures |r| == 2
  {
    [x % 0x100, x / 0x100]
  }

  function Le32(x: u32): (r: seq<u8>)
    ensures |r| == 4
  {
    Le16(x % 0x1_0000) + Le16(x / 0x1_0000)
  }

  function FromLe16(s: seq<u8>, at: nat): u16
    requires at + 2 <= |s|
  {
    s[at] as int + 0x100 * s[at + 1] as int
  }

  function FromLe32(s: seq<u8>, at: nat): u32
    requires at + 4 <= |s|
  {
    FromLe16(s, at) as int + 0x1_0000 * FromLe16(s, at + 2) as int
  }

  /** Reading a field back at the offset where it was stored. */
  lemma Le16At(x: u16, s: seq<u8>, at: nat)
    requires at + 2 <= |s| && s[at..at + 2] == Le16(x)
    ensures FromLe16(s, at) == x
  {
    assert s[at] == s[at..at + 2][0] && s[at + 1] == s[at..at + 2][1];
  }

  lemma Le32At(x: u32, s: seq<u8>, at: nat)
    requires at + 4 <= |s| && s[at..at + 4] == Le32(x)
    ensures FromLe32(s, at) == x
  {
    assert s[at..at + 2] == s[at..at + 4][..2] == Le16(x % 0x1_0000);
    assert s[at + 2..at + 4] == s[at..at + 4][2..] == Le16(x / 0x1_0000);
    Le16At(x % 0x1_0000, s, at);
    Le16At(x / 0x1_0000, s, at + 2);
  }
}
