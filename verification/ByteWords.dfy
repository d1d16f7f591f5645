/** Bytes as bit vectors, for the checksums. */
module ByteWords {
  import opened Bytes

  function Pick(bit: bool, w: bv8): bv8 {
    if bit then w else 0
  }

  predicate Odd(x: int) {
    x % 2 == 1
  }

  /** Four bits, the lowest first. */
  function Low4(a: bool, b: bool, c: bool, d: bool): bv8 {
    Pick(a, 1) | Pick(b, 2) | Pick(c, 4) | Pick(d, 8)
  }

  function Nibble(x: int): bv8 {
    Low4(Odd(x), Odd(x / 2), Odd(x / 4), Odd(x / 8))
  }

  function Halves(low: bv8, high: bv8): bv8 {
    low | (high << 4)
  }

  /** A byte, bit by bit. */
  function Word(x: u8): bv8 {
    Halves(Nibble(x % 16), Nibble(x / 16))
  }

  lemma SameLow4(a: bool, b: bool, c: bool, d: bool, e: bool, f: bool, g: bool, h: bool)
    requires Low4(a, b, c, d) == Low4(e, f, g, h)
    ensures a == e && b == f && c == g && d == h
  {
  }

  lemma SmallNibble(x: int)
    ensures Nibble(x) & 0xf0 == 0
  {
  }

  lemma SameHalves(v: bv8, w: bv8, x: bv8, y: bv8)
    requires v & 0xf0 == 0 && w & 0xf0 == 0 && x & 0xf0 == 0 && y & 0xf0 == 0 && Halves(v, w) == Halves(x, y)
    ensures v == x && w == y
  {
  }

  lemma SameNibble(x: int, y: int)
    requires 0 <= x < 16 && 0 <= y < 16 && Nibble(x) == Nibble(y)
    ensures x == y
  {
    hide Low4;
    SameLow4(Odd(x), Odd(x / 2), Odd(x / 4), Odd(x / 8), Odd(y), Odd(y / 2), Odd(y / 4), Odd(y / 8));
  }

  function Value(w: bv8): (r: int)
    ensures 0 <= r < 0x100
  {
    w as int
  }

  lemma SameValue(v: bv8, w: bv8)
    requires Value(v) == Value(w)
    ensures v == w
  {
  }

  lemma WordsDiffer(x: u8, y: u8)
    requires x != y
    ensures Word(x) != Word(y)
  {
    hide Nibble, Halves;
    if Word(x) == Word(y) {
      SmallNibble(x % 16);
      SmallNibble(x / 16);
      SmallNibble(y % 16);
      SmallNibble(y / 16);
      SameHalves(Nibble(x % 16), Nibble(x / 16), Nibble(y % 16), Nibble(y / 16));
      SameNibble(x % 16, y % 16);
      SameNibble(x / 16, y / 16);
    }
  }

  /** Two bytes, the low one first. */
  function Joined(low: bv8, high: bv8): u16 {
    Value(low) + 0x100 * Value(high)
  }

  lemma JoinedDiffer(a: bv8, b: bv8, c: bv8, d: bv8)
    requires Joined(a, b) == Joined(c, d)
    ensures a == c && b == d
  {
    hide Value;
    SameDigits(Value(a), Value(b), Value(c), Value(d));
    SameValue(a, c);
    SameValue(b, d);
  }

  lemma SameDigits(a: int, b: int, c: int, d: int)
    requires 0 <= a < 0x100 && 0 <= c < 0x100 && a + 0x100 * b == c + 0x100 * d
    ensures a == c && b == d
  {
  }

  function Words(s: seq<u8>): (r: seq<bv8>)
    ensures |r| == |s|
  {
    seq(|s|, i requires 0 <= i < |s| => Word(s[i]))
  }

  lemma WordsAround(s: seq<u8>, i: nat)
    requires i < |s|
    ensures Words(s) == Words(s[..i]) + [Word(s[i])] + Words(s[i + 1..])
  {
    hide Word;
  }
}
