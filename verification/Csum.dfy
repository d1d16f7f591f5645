/** The Internet checksum of lib/csum.c, which folds carries only once. */
module Csum {
  import opened Bytes

  /** The sum of the buffer's 16-bit words in memory order; an odd last byte counts by itself. */
  function WordSum(b: seq<u8>): nat {
    if b == [] then 0
    else if |b| == 1 then b[0]
    else FromLe16(b, 0) + WordSum(b[2..])
  }

  /** csum_continue: the running sum is a 32-bit number. */
  method CsumContinue(partial0: u32, data: seq<u8>) returns (partial: u32)
    ensures partial == (partial0 + WordSum(data)) % 0x1_0000_0000
  {
    hide WordSum, FromLe16;
    partial := partial0;
    var n := |data|;
    var at := 0;
    assert data[0..] == data;
    while n > 1
      invariant n == |data| - at && 0 <= at <= |data|
      invariant (partial + WordSum(data[at..])) % 0x1_0000_0000 == (partial0 + WordSum(data)) % 0x1_0000_0000
    {
      NextWord(data, at);
      WrapAdd(partial, FromLe16(data, at), WordSum(data[at + 2..]));
      partial := (partial + FromLe16(data, at)) % 0x1_0000_0000;
      at := at + 2;
      n := n - 2;
    }
    LastWord(data[at..]);
    if n != 0 {
      partial := (partial + data[at]) % 0x1_0000_0000;
    }
  }

  lemma LastWord(rest: seq<u8>)
    requires |rest| <= 1
    ensures WordSum(rest) == if rest == [] then 0 else rest[0]
  {
  }

  lemma WrapAdd(p: nat, x: nat, rest: nat)
    ensures ((p + x) % 0x1_0000_0000 + rest) % 0x1_0000_0000 == (p + (x + rest)) % 0x1_0000_0000
  {
  }

  /** The sum with its carries added in once. */
  function Fold(sum: u32): nat {
    sum % 0x1_0000 + sum / 0x1_0000
  }

  /** csum_finish: the complement, cut to 16 bits. */
  function Finish(sum: u32): u16 {
    0xffff - Fold(sum) % 0x1_0000
  }

  function Csum(b: seq<u8>): u16 {
    Finish(WordSum(b) % 0x1_0000_0000)
  }

  method ComputeCsum(data: seq<u8>) returns (r: u16)
    ensures r == Csum(data)
  {
    var partial := CsumContinue(0, data);
    r := Finish(partial);
  }

  // ----- when a buffer verifies -----

  lemma {:induction false} SumBound(b: seq<u8>)
    ensures WordSum(b) <= 0xffff * ((|b| + 1) / 2)
  {
    if |b| > 1 {
      SumBound(b[2..]);
    }
  }

  lemma SplitSum(sum: u32)
    ensures sum == 0xffff * (sum / 0x1_0000) + Fold(sum)
    ensures Fold(sum) <= 2 * 0xffff
    ensures Fold(sum) == 2 * 0xffff <==> sum == 0xffff_ffff
  {
  }

  lemma MultipleIff(q: nat, r: nat)
    ensures (0xffff * q + r) % 0xffff == 0 <==> r % 0xffff == 0
  {
    assert (0xffff * q + r) % 0xffff == r % 0xffff;
  }

  /** A sum is recognised as valid exactly if it is a positive multiple of 65535, with one exception: the
      largest 32-bit sum folds to 131070, which is not folded again. */
  lemma FinishZeroIff(sum: u32)
    ensures Finish(sum) == 0 <==> sum % 0xffff == 0 && sum > 0 && sum != 0xffff_ffff
  {
    SplitSum(sum);
    MultipleIff(sum / 0x1_0000, Fold(sum));
    var f := Fold(sum);
    assert f % 0xffff == 0 <==> f == 0 || f == 0xffff || f == 2 * 0xffff;
  }

  /** Verification is exact in spite of the single fold, for every buffer of up to 131074 bytes whose sum is not
      2^32 - 1 (section 1 of RFC 1071). */
  lemma CsumZeroIff(b: seq<u8>)
    requires |b| <= 131074
    ensures WordSum(b) <= 0xffff_ffff
    ensures Csum(b) == 0 <==> WordSum(b) % 0xffff == 0 && WordSum(b) > 0 && WordSum(b) != 0xffff_ffff
  {
    hide WordSum, Finish;
    SumBound(b);
    FinishZeroIff(WordSum(b));
  }

  lemma {:induction false} OnesSum(n: nat)
    ensures WordSum(seq(2 * n, _ => 0xff)) == 0xffff * n
  {
    if n > 0 {
      OnesSum(n - 1);
      var b: seq<u8> := seq(2 * n, _ => 0xff);
      assert b[2..] == seq(2 * (n - 1), _ => 0xff);
    }
  }

  /** The exception exists: 131074 bytes of 0xff are valid by their sum and are refused. */
  lemma LargestBufferRefused()
    ensures var b: seq<u8> := seq(131074, _ => 0xff);
            WordSum(b) % 0xffff == 0 && WordSum(b) > 0 && Csum(b) == 1
  {
    OnesSum(65537);
    assert 0xffff * 65537 == 0xffff_ffff;
  }

  // ----- headers stamped with their own checksum -----

  /** `b` with the word at `at` replaced. */
  function Stamped(b: seq<u8>, at: nat, word: u16): (r: seq<u8>)
    requires at + 2 <= |b|
    ensures |r| == |b|
  {
    b[..at] + Le16(word) + b[at + 2..]
  }

  lemma {:induction false} StampedSum(b: seq<u8>, at: nat, word: u16)
    requires at % 2 == 0 && at + 2 <= |b| && b[at] == 0 && b[at + 1] == 0
    ensures WordSum(Stamped(b, at, word)) == WordSum(b) + word
  {
    var s := Stamped(b, at, word);
    if at == 0 {
      assert s[2..] == b[2..] && s[..2] == Le16(word);
      Le16At(word, s, 0);
    } else {
      StampedSum(b[2..], at - 2, word);
      assert s[2..] == Stamped(b[2..], at - 2, word);
      assert FromLe16(s, 0) == FromLe16(b, 0);
    }
  }

  /** recv_tcp, recv_udp and recv_raw clear the checksum field, sum the header and store the result. The header
      verifies exactly if that sum's fold produced no further carry. */
  lemma StampVerifiesIff(b: seq<u8>, at: nat)
    requires |b| <= 131072 && at % 2 == 0 && at + 2 <= |b| && b[at] == 0 && b[at + 1] == 0
    ensures WordSum(b) <= 0xffff_ffff
    ensures Csum(Stamped(b, at, Csum(b))) == 0 <==> Fold(WordSum(b)) < 0x1_0000
  {
    hide WordSum, Stamped, Csum;
    SumBound(b);
    SumWithoutWord(b, at);
    StampedSum(b, at, Csum(b));
    CsumZeroIff(Stamped(b, at, Csum(b)));
    CsumIsFinish(b);
    StampedMultiple(WordSum(b));
  }

  lemma CsumIsFinish(b: seq<u8>)
    requires WordSum(b) <= 0xffff_ffff
    ensures Csum(b) == Finish(WordSum(b))
  {
    hide WordSum, Finish;
  }

  lemma StampedMultiple(sum: u32)
    ensures (sum + Finish(sum)) % 0xffff == 0 && sum + Finish(sum) > 0 <==> Fold(sum) < 0x1_0000
  {
    SplitSum(sum);
    MultipleIff(sum / 0x1_0000, Fold(sum) + Finish(sum));
    StampedFold(Fold(sum));
  }

  lemma StampedFold(f: nat)
    requires f <= 2 * 0xffff
    ensures (f + (0xffff - f % 0x1_0000)) % 0xffff == 0 <==> f < 0x1_0000
  {
  }

  /** A zero word leaves room: the stamped sum stays below the exception. */
  lemma {:induction false} SumWithoutWord(b: seq<u8>, at: nat)
    requires at % 2 == 0 && at + 2 <= |b| && b[at] == 0 && b[at + 1] == 0
    ensures WordSum(b) <= 0xffff * ((|b| + 1) / 2 - 1)
  {
    if at == 0 {
      SumBound(b[2..]);
    } else {
      SumWithoutWord(b[2..], at - 2);
    }
  }

  lemma NextWord(b: seq<u8>, at: nat)
    requires at + 2 <= |b|
    ensures WordSum(b[at..]) == FromLe16(b, at) + WordSum(b[at + 2..])
  {
    assert b[at..][2..] == b[at + 2..];
  }

  lemma NoWords(b: seq<u8>)
    requires b == []
    ensures WordSum(b) == 0
  {
  }
}
