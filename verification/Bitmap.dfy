/** The receiver's bitmap of 32-bit words, specified by the set of positions whose bit is one. */
module Bitmap {
  const WORD := 32

  function Mask(i: nat): bv32
    requires i < WORD
  {
    (1 as bv32) << (i as bv5)
  }

  predicate HasAt(w: bv32, i: bv5) {
    w & ((1 as bv32) << i) != 0
  }

  predicate Has(w: bv32, i: nat)
    requires i < WORD
  {
    HasAt(w, i as bv5)
  }

  ghost predicate Bit(words: seq<bv32>, i: nat) {
    i / WORD < |words| && Has(words[i / WORD], i % WORD)
  }

  ghost function Bits(words: seq<bv32>): set<nat> {
    set i: nat | i < WORD * |words| && Bit(words, i)
  }

  /** Shift amounts keep their order as 5-bit vectors. */
  lemma Shifts(i: nat, j: nat)
    requires i < WORD && j < WORD
    ensures (i as bv5) == (j as bv5) <==> i == j
    ensures (i as bv5) < (j as bv5) <==> i < j
  {
    assert ((i as bv5) as int) == i && ((j as bv5) as int) == j;
  }

  lemma HasAfterOr(w: bv32, i: nat, j: nat)
    requires i < WORD && j < WORD
    ensures Has(w | Mask(i), j) <==> i == j || Has(w, j)
  {
    Shifts(i, j);
    OrBit(w, i as bv5, j as bv5);
  }

  lemma OrBit(w: bv32, a: bv5, b: bv5)
    ensures HasAt(w | ((1 as bv32) << a), b) <==> a == b || HasAt(w, b)
  {
  }

  /** The word whose lower t bits are one, as test_all_bits_set builds it. */
  function LowMask(t: nat): bv32
    requires t < WORD
  {
    !((!(0 as bv32)) << (t as bv5))
  }

  lemma LowMaskHas(t: nat, j: nat)
    requires t < WORD && j < WORD
    ensures Has(LowMask(t), j) <==> j < t
  {
    Shifts(j, t);
    LowBit(t as bv5, j as bv5);
  }

  lemma LowBit(t: bv5, j: bv5)
    ensures HasAt(!((!(0 as bv32)) << t), j) <==> j < t
  {
  }

  ghost predicate AllBetween(w: bv32, lo: nat, hi: nat)
    requires hi <= WORD
  {
    forall j :: lo <= j < hi ==> Has(w, j)
  }

  lemma LowHalfOnes(w: bv32)
    requires AllBetween(w, 0, 16)
    ensures w & 0xffff == 0xffff
  {
    assert Has(w, 0) && Has(w, 1) && Has(w, 2) && Has(w, 3) && Has(w, 4) && Has(w, 5) && Has(w, 6) && Has(w, 7);
    assert Has(w, 8) && Has(w, 9) && Has(w, 10) && Has(w, 11) && Has(w, 12) && Has(w, 13) && Has(w, 14) && Has(w, 15);
  }

  lemma HighHalfOnes(w: bv32)
    requires AllBetween(w, 16, 32)
    ensures w & 0xffff_0000 == 0xffff_0000
  {
    assert Has(w, 16) && Has(w, 17) && Has(w, 18) && Has(w, 19) && Has(w, 20) && Has(w, 21) && Has(w, 22) && Has(w, 23);
    assert Has(w, 24) && Has(w, 25) && Has(w, 26) && Has(w, 27) && Has(w, 28) && Has(w, 29) && Has(w, 30) && Has(w, 31);
  }

  /** One where the two words agree. */
  function Agreement(w: bv32, v: bv32): bv32 {
    !(w ^ v)
  }

  lemma AgreeingBit(w: bv32, v: bv32, j: nat)
    requires j < WORD
    ensures Has(Agreement(w, v), j) <==> (Has(w, j) <==> Has(v, j))
  {
    Shifts(j, j);
    XorBit(w, v, j as bv5);
  }

  lemma XorBit(w: bv32, v: bv32, j: bv5)
    ensures HasAt(Agreement(w, v), j) <==> (HasAt(w, j) <==> HasAt(v, j))
  {
    OneHot(w, j);
    OneHot(v, j);
    MaskedAgreement(w, v, (1 as bv32) << j);
    assert (1 as bv32) << j != 0;
  }

  lemma OneHot(w: bv32, j: bv5)
    ensures var m := (1 as bv32) << j; w & m == 0 || w & m == m
  {
  }

  lemma MaskedAgreement(w: bv32, v: bv32, m: bv32)
    ensures Agreement(w, v) & m == !((w & m) ^ (v & m)) & m
  {
  }

  /** Words with the same bits are equal. */
  lemma WordExtensional(w: bv32, v: bv32)
    requires forall j :: 0 <= j < WORD ==> (Has(w, j) <==> Has(v, j))
    ensures w == v
  {
    forall j | 0 <= j < WORD ensures Has(Agreement(w, v), j) {
      AgreeingBit(w, v, j);
    }
    LowHalfOnes(Agreement(w, v));
    HighHalfOnes(Agreement(w, v));
    BothHalves(Agreement(w, v));
    OnesMeanEqual(w, v);
  }

  lemma OnesMeanEqual(w: bv32, v: bv32)
    requires !Agreement(w, v) == 0
    ensures w == v
  {
  }

  // ----- set_bit, clr_all_bits -----

  method SetBit(bm: array<bv32>, k: nat)
    requires k < WORD * bm.Length
    modifies bm
    ensures Bits(bm[..]) == Bits(old(bm[..])) + {k}
  {
    var offset := k / WORD;
    var i := k % WORD;
    ghost var was := bm[..];
    bm[offset] := bm[offset] | Mask(i);
    forall j: nat | j < WORD * bm.Length ensures Bit(bm[..], j) <==> j == k || Bit(was, j) {
      HasAfterOr(was[offset], i, j % WORD);
    }
  }

  method ClrAllBits(bm: array<bv32>)
    modifies bm
    ensures Bits(bm[..]) == {}
  {
    for i := 0 to bm.Length
      invariant forall j :: 0 <= j < i ==> bm[j] == 0
    {
      bm[i] := 0;
    }
    forall j: nat | j < WORD * bm.Length ensures !Bit(bm[..], j) {
      assert bm[..][j / WORD] == 0;
    }
  }

  // ----- find_first_zero and the list of missing slices -----

  /** The first zero position from k on below max, or -1. */
  method FindFirstZero(bm: array<bv32>, k: nat, max: nat) returns (pos: int)
    requires max < 0x100 && max <= WORD * bm.Length
    ensures pos == -1 ==> forall i :: k <= i < max ==> i in Bits(bm[..])
    ensures pos != -1 ==> k <= pos < max && pos !in Bits(bm[..]) && forall i :: k <= i < pos ==> i in Bits(bm[..])
  {
    var j := k;
    var end := max / WORD;
    var x := k / WORD;
    while x <= end && j < max
      invariant k <= j && x == j / WORD
      invariant j <= max || j == k
      invariant forall i :: k <= i < j ==> i in Bits(bm[..])
    {
      if !Has(bm[x], j % WORD) {
        return j;
      }
      assert Bit(bm[..], j);
      j := j + 1;
      if j % WORD == 0 {
        x := x + 1;
      }
    }
    return -1;
  }

  /** The positions from k on below n that are not in `bits`, in order. */
  function Missing(bits: set<nat>, k: nat, n: nat): seq<nat>
    decreases n - k
  {
    if k >= n then []
    else if k in bits then Missing(bits, k + 1, n)
    else [k] + Missing(bits, k + 1, n)
  }

  ghost predicate Increasing(s: seq<nat>) {
    forall i, j :: 0 <= i < j < |s| ==> s[i] < s[j]
  }

  /** The list a receiver asks for is strictly increasing and holds exactly the missing positions. */
  lemma {:induction false} MissingExact(bits: set<nat>, k: nat, n: nat)
    ensures Increasing(Missing(bits, k, n))
    ensures forall i :: i in Missing(bits, k, n) <==> k <= i < n && i !in bits
    ensures |Missing(bits, k, n)| <= if k <= n then n - k else 0
    decreases n - k
  {
    if k < n {
      MissingExact(bits, k + 1, n);
      if k !in bits {
        InFront(k, Missing(bits, k + 1, n));
      }
    }
  }

  lemma InFront(k: nat, rest: seq<nat>)
    requires Increasing(rest) && forall i :: i in rest ==> k < i
    ensures Increasing([k] + rest) && forall i :: i in [k] + rest <==> i == k || i in rest
  {
    forall i, j | 0 <= i < j < |[k] + rest| ensures ([k] + rest)[i] < ([k] + rest)[j] {
      assert ([k] + rest)[j] == rest[j - 1] && rest[j - 1] in rest;
      assert i > 0 ==> ([k] + rest)[i] == rest[i - 1];
    }
  }

  lemma {:induction false} AtLeast(s: seq<nat>, i: nat)
    requires Increasing(s) && i < |s|
    ensures s[i] >= i
  {
    if i > 0 {
      AtLeast(s, i - 1);
    }
  }

  lemma {:induction false} MissingSkip(bits: set<nat>, k: nat, m: nat, n: nat)
    requires k <= m && forall i :: k <= i < m && i < n ==> i in bits
    ensures Missing(bits, k, n) == Missing(bits, m, n)
    decreases m - k
  {
    if k < m {
      MissingSkip(bits, k + 1, m, n);
    }
  }

  /** The loop of send_ack that collects the requested slices with find_first_zero. */
  method CollectMissing(bm: array<bv32>, n: nat) returns (list: seq<nat>)
    requires n < 0x100 && n <= WORD * bm.Length
    ensures list == Missing(Bits(bm[..]), 0, n)
  {
    ghost var bits := Bits(bm[..]);
    var k: nat := 0;
    list := [];
    while true
      invariant k <= n
      invariant list + Missing(bits, k, n) == Missing(bits, 0, n)
      decreases n - k
    {
      var result := FindFirstZero(bm, k, n);
      assert bits == Bits(bm[..]);
      if result < 0 {
        MissingSkip(bits, k, n, n);
        return;
      }
      MissingSkip(bits, k, result, n);
      ghost var rest := Missing(bits, result + 1, n);
      assert list + ([result] + rest) == list + [result] + rest;
      list := list + [result];
      k := result + 1;
    }
  }

  // ----- test_all_bits_set -----

  /** What test_all_bits_set tests: the lower n bits are one and, in the last word it looks at,
      the bits from n on are zero. */
  ghost predicate AllSet(bits: set<nat>, n: nat) {
    && (forall i :: 0 <= i < n ==> i in bits)
    && (n % WORD != 0 ==> forall i :: n <= i < n + (WORD - n % WORD) ==> i !in bits)
  }

  method TestAllBitsSet(bm: array<bv32>, n: nat) returns (all: bool)
    requires n < 0x100 && n <= WORD * bm.Length
    ensures all <==> AllSet(Bits(bm[..]), n)
  {
    var k := n / WORD;
    var t := n % WORD;
    ghost var words := bm[..];
    for i := 0 to k
      invariant forall j :: 0 <= j < WORD * i ==> j in Bits(words)
    {
      if !bm[i] != 0 {
        NotFull(words, i);
        return false;
      }
      FullWord(words, i);
    }
    if t != 0 {
      LastWord(words, n);
      if bm[k] != LowMask(t) {
        return false;
      }
    }
    return true;
  }

  lemma FullWord(words: seq<bv32>, i: nat)
    requires i < |words| && !words[i] == 0
    ensures forall j :: WORD * i <= j < WORD * (i + 1) ==> j in Bits(words)
  {
    forall j | WORD * i <= j < WORD * (i + 1) ensures j in Bits(words) {
      LowMaskHas(0, j % WORD);
      AgreeingBit(words[i], LowMask(0), j % WORD);
      assert words[i] == !LowMask(0);
    }
  }

  lemma NotFull(words: seq<bv32>, i: nat)
    requires i < |words| && !words[i] != 0
    ensures exists j :: WORD * i <= j < WORD * (i + 1) && j !in Bits(words)
  {
    var w := words[i];
    if AllBetween(w, 0, WORD) {
      LowHalfOnes(w);
      HighHalfOnes(w);
      BothHalves(w);
    }
    var j :| 0 <= j < WORD && !Has(w, j);
    assert (WORD * i + j) / WORD == i && (WORD * i + j) % WORD == j;
    assert WORD * i + j !in Bits(words);
  }

  lemma BothHalves(w: bv32)
    requires w & 0xffff == 0xffff && w & 0xffff_0000 == 0xffff_0000
    ensures !w == 0
  {
  }

  lemma BitOfWord(words: seq<bv32>, k: nat, j: nat)
    requires k < |words| && j < WORD
    ensures Has(words[k], j) <==> WORD * k + j in Bits(words)
  {
    assert (WORD * k + j) / WORD == k && (WORD * k + j) % WORD == j;
  }

  /** A word equals the low mask exactly if its bits are one below t and zero from t on. */
  lemma LowMaskExact(w: bv32, t: nat)
    requires t < WORD
    ensures w == LowMask(t) <==> forall j :: 0 <= j < WORD ==> (Has(w, j) <==> j < t)
  {
    forall j | 0 <= j < WORD ensures Has(LowMask(t), j) <==> j < t {
      LowMaskHas(t, j);
    }
    if forall j :: 0 <= j < WORD ==> (Has(w, j) <==> j < t) {
      WordExtensional(w, LowMask(t));
    }
  }

  lemma LastWord(words: seq<bv32>, n: nat)
    requires n % WORD != 0 && n <= WORD * |words|
    ensures words[n / WORD] == LowMask(n % WORD)
       <==> forall i :: n - n % WORD <= i < n + (WORD - n % WORD) ==> (i in Bits(words) <==> i < n)
  {
    var k, t := n / WORD, n % WORD;
    LowMaskExact(words[k], t);
    forall j | 0 <= j < WORD ensures Has(words[k], j) <==> WORD * k + j in Bits(words) {
      BitOfWord(words, k, j);
    }
    if words[k] == LowMask(t) {
      forall i | n - t <= i < n + (WORD - t) ensures i in Bits(words) <==> i < n {
        BitOfWord(words, k, i - WORD * k);
      }
    }
  }

  lemma NothingMissing(bits: set<nat>, n: nat)
    ensures Missing(bits, 0, n) == [] <==> forall i :: 0 <= i < n ==> i in bits
  {
    MissingExact(bits, 0, n);
    var m := Missing(bits, 0, n);
    if m != [] {
      assert m[0] in m;
    }
  }

  /** While no bit from n on is set, "all set" and "nothing missing" are the same. */
  lemma AllSetIffNothingMissing(bits: set<nat>, n: nat)
    requires forall i :: i in bits ==> i < n
    ensures AllSet(bits, n) <==> Missing(bits, 0, n) == []
    ensures AllSet(bits, n) <==> forall i: nat :: i in bits <==> i < n
  {
    NothingMissing(bits, n);
  }

  /** The test fails although nothing is missing exactly if all n bits are set and one behind them in the last word. */
  lemma StrayBitIff(bits: set<nat>, n: nat)
    ensures !AllSet(bits, n) && Missing(bits, 0, n) == []
       <==> (forall i :: 0 <= i < n ==> i in bits)
            && n % WORD != 0 && exists i :: n <= i < n + (WORD - n % WORD) && i in bits
  {
    NothingMissing(bits, n);
  }
}
