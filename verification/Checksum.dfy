/** The Internet checksum of section 2 of RFC 1071, on a little-endian host. */
module Checksum {
  import opened Words

  type Byte = b: nat | b < 256

  /** One's-complement arithmetic on 16 bits is arithmetic modulo this number. */
  const MOD: nat := 0xffff

  /** The value in [0, 0xffff] that stands for `x` in one's-complement arithmetic; 0 stands for 0 only. */
  function Canon(x: nat): (r: nat)
    ensures r <= MOD && r % MOD == x % MOD && (r == 0 <==> x == 0)
  {
    if x == 0 then 0 else (x - 1) % MOD + 1
  }

  /** Canonical values are determined by the residue and by being zero. */
  lemma CanonUnique(x: nat, r: nat)
    requires r <= MOD && r % MOD == x % MOD && (r == 0 <==> x == 0)
    ensures r == Canon(x)
  {
  }

  lemma CanonCongruent(x: nat, y: nat)
    requires x % MOD == y % MOD && (x == 0 <==> y == 0)
    ensures Canon(x) == Canon(y)
  {
    CanonUnique(y, Canon(x));
  }

  function Fold32(val: nat): nat
    requires val < TWO32
  {
    var v := val % TWO16 + val / TWO16;
    (v + v / TWO16) % TWO32 % TWO16
  }

  lemma Fold32IsCanon(val: nat)
    requires val < TWO32
    ensures Fold32(val) == Canon(val)
  {
    var v := val % TWO16 + val / TWO16;
    assert val == v + MOD * (val / TWO16);
    assert val % MOD == v % MOD;
    if v < TWO16 {
      CanonUnique(val, v);
    } else {
      assert v + v / TWO16 == v + 1 && Fold32(val) == v - MOD;
      CanonUnique(val, v - MOD);
    }
  }

  /** The first step of folding 64 bits, cut to 32. */
  function Half64(val: nat): (r: nat)
    requires val < TWO64
    ensures r < TWO32
  {
    var v := val % TWO32 + val / TWO32;
    (v + v / TWO32) % TWO64 % TWO32
  }

  function Fold64(val: nat): nat
    requires val < TWO64
  {
    Fold32(Half64(val))
  }

  lemma Half64Congruent(val: nat)
    requires val < TWO64
    ensures Half64(val) % MOD == val % MOD && (Half64(val) == 0 <==> val == 0)
  {
    var q, v := val / TWO32, val % TWO32 + val / TWO32;
    Congruent(val, v, 65537 * q);
    Carry32(v);
    if v >= TWO32 {
      Congruent(v, Half64(val), 65537);
    }
  }

  /** Adding the carry back in. */
  lemma Carry32(sum: nat)
    requires sum < 2 * TWO32 - 1
    ensures (sum + sum / TWO32) % TWO64 % TWO32 == if sum < TWO32 then sum else sum + 1 - TWO32
  {
    if sum >= TWO32 {
      assert sum / TWO32 == 1;
    }
  }

  lemma Congruent(x: nat, y: nat, k: nat)
    requires x == y + MOD * k
    ensures x % MOD == y % MOD
  {
  }

  /** Folding any 64-bit accumulator gives its canonical value. */
  lemma Fold64IsCanon(val: nat)
    requires val < TWO64
    ensures Fold64(val) == Canon(val)
  {
    hide Half64;
    Half64Congruent(val);
    Fold32IsCanon(Half64(val));
    CanonCongruent(Half64(val), val);
  }

  function Add16(val1: nat, val2: nat): (r: nat)
    requires val1 < TWO64 && val2 < TWO16
    ensures r < TWO64
  {
    var sum := val1 % TWO16 + val2;
    (val1 - val1 % TWO16) + (sum + sum / TWO16) % TWO16
  }

  function Add32(val1: nat, val2: nat): (r: nat)
    requires val1 < TWO64 && val2 < TWO32
    ensures r < TWO64
  {
    var sum := val1 % TWO32 + val2;
    (val1 - val1 % TWO32) + (sum + sum / TWO32) % TWO64 % TWO32
  }

  function Add64(val1: nat, val2: nat): (r: nat)
    requires val1 < TWO64 && val2 < TWO64
    ensures r < TWO64
  {
    (val1 % TWO32 + val2 % TWO32 + (val1 / TWO32 + val2 / TWO32)) % TWO64
  }

  /** The three ways of adding to an accumulator, folded, are one's-complement addition. */
  lemma AddsAreOnesComplement(val1: nat, val2: nat)
    requires val1 < TWO64 && val2 < TWO64
    ensures val2 < TWO16 ==> Fold64(Add16(val1, val2)) == Canon(val1 + val2)
    ensures val2 < TWO32 ==> Fold64(Add32(val1, val2)) == Canon(val1 + val2)
    ensures Fold64(Add64(val1, val2)) == Canon(val1 + val2)
  {
    hide Fold64, Canon;
    if val2 < TWO16 {
      Add16Congruent(val1, val2);
      Fold64IsCanon(Add16(val1, val2));
      CanonCongruent(Add16(val1, val2), val1 + val2);
    }
    if val2 < TWO32 {
      Add32Congruent(val1, val2);
      Fold64IsCanon(Add32(val1, val2));
      CanonCongruent(Add32(val1, val2), val1 + val2);
    }
    Add64Congruent(val1, val2);
    Fold64IsCanon(Add64(val1, val2));
    CanonCongruent(Add64(val1, val2), val1 + val2);
  }

  lemma Add16Congruent(val1: nat, val2: nat)
    requires val1 < TWO64 && val2 < TWO16
    ensures Add16(val1, val2) % MOD == (val1 + val2) % MOD && (Add16(val1, val2) == 0 <==> val1 + val2 == 0)
  {
    var sum := val1 % TWO16 + val2;
    Carry16(sum);
    if sum >= TWO16 {
      Congruent(val1 + val2, Add16(val1, val2), 1);
    }
  }

  /** Adding the carry back in. */
  lemma Carry16(sum: nat)
    requires sum < 2 * TWO16 - 1
    ensures (sum + sum / TWO16) % TWO16 == if sum < TWO16 then sum else sum - MOD
  {
  }

  lemma Add32Congruent(val1: nat, val2: nat)
    requires val1 < TWO64 && val2 < TWO32
    ensures Add32(val1, val2) % MOD == (val1 + val2) % MOD && (Add32(val1, val2) == 0 <==> val1 + val2 == 0)
  {
    var sum := val1 % TWO32 + val2;
    Carry32(sum);
    if sum >= TWO32 {
      Congruent(val1 + val2, Add32(val1, val2), 65537);
    }
  }

  lemma Add64Congruent(val1: nat, val2: nat)
    requires val1 < TWO64 && val2 < TWO64
    ensures Add64(val1, val2) % MOD == (val1 + val2) % MOD && (Add64(val1, val2) == 0 <==> val1 + val2 == 0)
  {
    var k := val1 / TWO32 + val2 / TWO32;
    assert val1 + val2 == Add64(val1, val2) + 65535 * (65537 * k);
    Congruent(val1 + val2, Add64(val1, val2), 65537 * k);
  }

  /** The 16-bit words of a buffer, a last odd byte being padded with zero, added up. */
  function Sum16(s: seq<Byte>): nat {
    if |s| == 0 then 0
    else if |s| == 1 then s[0]
    else s[0] + 256 * s[1] + Sum16(s[2..])
  }

  function Load16(s: seq<Byte>, i: nat): nat
    requires i + 2 <= |s|
  {
    s[i] as nat + 256 * (s[i + 1] as nat)
  }

  function Load32(s: seq<Byte>, i: nat): nat
    requires i + 4 <= |s|
  {
    Load16(s, i) + TWO16 * Load16(s, i + 2)
  }

  lemma {:induction false} Sum16Append(a: seq<Byte>, b: seq<Byte>)
    requires |a| % 2 == 0
    ensures Sum16(a + b) == Sum16(a) + Sum16(b)
    decreases |a|
  {
    if a == [] {
      assert a + b == b;
    } else {
      assert (a + b)[2..] == a[2..] + b;
      Sum16Append(a[2..], b);
    }
  }

  /** One more 32-bit word. */
  lemma NextWord(s: seq<Byte>, i: nat)
    requires i + 4 <= |s| && i % 2 == 0
    ensures Sum16(s[..i + 4]) == Sum16(s[..i]) + Load16(s, i) + Load16(s, i + 2)
  {
    Sum16Append(s[..i], s[i..i + 4]);
    assert s[..i + 4] == s[..i] + s[i..i + 4];
    assert s[i..i + 4][2..][2..] == [];
    assert Sum16(s[i..i + 4]) == Load16(s, i) + Sum16(s[i..i + 4][2..]);
  }

  lemma NextPair(s: seq<Byte>, i: nat)
    requires i + 2 <= |s| && i % 2 == 0
    ensures Sum16(s[..i + 2]) == Sum16(s[..i]) + Load16(s, i)
  {
    Sum16Append(s[..i], s[i..i + 2]);
    assert s[..i + 2] == s[..i] + s[i..i + 2];
    assert s[i..i + 2][2..] == [];
  }

  lemma LastByte(s: seq<Byte>, i: nat)
    requires i + 1 == |s| && i % 2 == 0
    ensures Sum16(s) == Sum16(s[..i]) + s[i]
  {
    Sum16Append(s[..i], s[i..]);
    assert s == s[..i] + s[i..];
  }

  /** The accumulator is congruent to the sum so far and zero only with it. */
  predicate Tracks(sum: nat, s: seq<Byte>) {
    sum % MOD == Sum16(s) % MOD && (sum == 0 <==> Sum16(s) == 0)
  }

  lemma TrackWord(sum: nat, s: seq<Byte>, i: nat)
    requires i + 4 <= |s| && i % 2 == 0 && Tracks(sum, s[..i])
    ensures Tracks(sum + Load32(s, i), s[..i + 4])
  {
    NextWord(s, i);
    var x, y := Load16(s, i), Load16(s, i + 2);
    assert sum + Load32(s, i) == sum + x + y + MOD * y;
    Congruent(sum + Load32(s, i), sum + x + y, y);
    Shift(sum, Sum16(s[..i]), x + y);
  }

  lemma Shift(x: nat, y: nat, d: nat)
    requires x % MOD == y % MOD
    ensures (x + d) % MOD == (y + d) % MOD
  {
  }

  /** __xdp2_checksum_compute: the 64-bit accumulator never overflows, and the result is the canonical
      one's-complement sum of the zero-padded 16-bit words. */
  method Compute(src: seq<Byte>) returns (r: nat)
    requires |src| < TWO32
    ensures r == Canon(Sum16(src))
  {
    hide Canon, Sum16, Fold64, Tracks, Load16, Load32;
    var words := WordCount(|src|);
    var sum: nat, i: nat := 0, 0;
    TrackNothing(src);
    while i < words
      invariant i <= words && sum <= 0x1_0000_0000 * i && Tracks(sum, src[..4 * i])
    {
      Multiple(i);
      TrackWord(sum, src, 4 * i);
      LoadBound(src, 4 * i);
      sum := NoOverflow(sum + Load32(src, 4 * i));
      i := i + 1;
    }
    Multiple(words);
    r := Finish(src, sum, 4 * words);
  }

  /** The bytes behind the last 32-bit word. */
  method Finish(src: seq<Byte>, sum0: nat, p: nat) returns (r: nat)
    requires p <= |src| < p + 4 && p % 4 == 0 && sum0 < TWO64 - TWO32 && Tracks(sum0, src[..p])
    ensures r == Canon(Sum16(src))
  {
    hide Canon, Sum16, Fold64, Tracks, Load16;
    var sum: nat, at := sum0, p;
    Parts(|src|, p);
    if |src| / 2 % 2 == 1 {
      TrackPair(sum, src, at);
      PairBound(src, at);
      sum := NoOverflow(sum + Load16(src, at));
      at := at + 2;
    }
    if |src| % 2 == 1 {
      TrackByte(sum, src, at);
      sum := NoOverflow(sum + src[at]);
    } else {
      assert src[..at] == src;
    }
    TrackedFold(sum, src);
    r := Fold64(sum);
  }

  /** len / sizeof(__u32). */
  method WordCount(len: nat) returns (words: nat)
    ensures 4 * words <= len < 4 * words + 4
  {
    words := len / 4;
  }

  lemma Multiple(i: nat)
    ensures 4 * i % 2 == 0 && 4 * i % 4 == 0
  {
    QuotientUnique(4 * i, 2 * i, 0, 2);
    QuotientUnique(4 * i, i, 0, 4);
  }

  lemma Parts(len: nat, p: nat)
    requires p % 4 == 0 && p <= len < p + 4
    ensures len / 2 % 2 == 1 <==> len - p >= 2
    ensures len % 2 == 1 <==> len - p == 1 || len - p == 3
    ensures p % 2 == 0 && (p + 2) % 2 == 0
  {
    var w, r := p / 4, len - p;
    assert len == 2 * (2 * w) + r;
    if r >= 2 {
      assert len / 2 == 2 * w + 1;
    } else {
      assert len / 2 == 2 * w;
    }
  }

  /** A sum in `__u64` that stays below 2^64. */
  function NoOverflow(x: nat): (r: nat)
    requires x < TWO64
    ensures r == x
  {
    x % TWO64
  }

  lemma PairBound(s: seq<Byte>, i: nat)
    requires i + 2 <= |s|
    ensures Load16(s, i) < TWO16
  {
  }

  lemma TrackNothing(s: seq<Byte>)
    ensures Tracks(0, s[..0])
  {
  }

  lemma LoadBound(s: seq<Byte>, i: nat)
    requires i + 4 <= |s|
    ensures Load32(s, i) <= TWO32 - 1
  {
  }

  lemma TrackPair(sum: nat, s: seq<Byte>, i: nat)
    requires i + 2 <= |s| && i % 2 == 0 && Tracks(sum, s[..i])
    ensures Tracks(sum + Load16(s, i), s[..i + 2])
  {
    NextPair(s, i);
    Shift(sum, Sum16(s[..i]), Load16(s, i));
  }

  lemma TrackByte(sum: nat, s: seq<Byte>, i: nat)
    requires i + 1 == |s| && i % 2 == 0 && Tracks(sum, s[..i])
    ensures Tracks(sum + s[i], s)
  {
    LastByte(s, i);
    Shift(sum, Sum16(s[..i]), s[i]);
  }

  lemma TrackedFold(sum: nat, s: seq<Byte>)
    requires sum < TWO64 && Tracks(sum, s)
    ensures Fold64(sum) == Canon(Sum16(s))
  {
    Fold64IsCanon(sum);
    CanonCongruent(sum, Sum16(s));
  }

  /** The checksum of a buffer is 0 only if all its bytes are. */
  lemma ZeroOnlyForZeros(s: seq<Byte>)
    ensures Canon(Sum16(s)) == 0 <==> forall i :: 0 <= i < |s| ==> s[i] == 0
  {
    SumZero(s);
  }

  lemma {:induction false} SumZero(s: seq<Byte>)
    ensures Sum16(s) == 0 <==> forall i :: 0 <= i < |s| ==> s[i] == 0
    decreases |s|
  {
    if |s| >= 2 {
      SumZero(s[2..]);
      assert forall i :: 2 <= i < |s| ==> s[i] == s[2..][i - 2];
    }
  }

  /** The checksum of a buffer is the one's-complement sum of those of its parts, split at an even offset. */
  lemma SplitsAtEvenOffset(a: seq<Byte>, b: seq<Byte>)
    requires |a| % 2 == 0
    ensures Canon(Sum16(a + b)) == Fold64(Add16(Canon(Sum16(a)), Canon(Sum16(b))))
  {
    hide Canon, Fold64, Sum16;
    Sum16Append(a, b);
    var x, y := Sum16(a), Sum16(b);
    AddsAreOnesComplement(Canon(x), Canon(y));
    Shift(Canon(x), x, Canon(y));
    Shift(Canon(y), y, x);
    CanonCongruent(x + y, Canon(x) + Canon(y));
  }

  function Swap16(w: nat): nat
    requires w < TWO16
  {
    w / 256 + 256 * (w % 256)
  }

  /** Every 16-bit word, the padded last one included, with its bytes exchanged. */
  function SwapPairs(s: seq<Byte>): seq<Byte> {
    if |s| == 0 then []
    else if |s| == 1 then [0, s[0]]
    else [s[1], s[0]] + SwapPairs(s[2..])
  }

  lemma {:induction false} SumSwapped(s: seq<Byte>)
    ensures Sum16(SwapPairs(s)) % MOD == 256 * Sum16(s) % MOD
    ensures Sum16(SwapPairs(s)) == 0 <==> Sum16(s) == 0
    decreases |s|
  {
    if |s| == 1 {
      assert SwapPairs(s)[2..] == [];
    } else if |s| >= 2 {
      SumSwapped(s[2..]);
      assert SwapPairs(s)[2..] == SwapPairs(s[2..]);
      var t, u := Sum16(s[2..]), Sum16(SwapPairs(s[2..]));
      var lo: nat, hi: nat := s[0], s[1];
      Shift(u, 256 * t, hi + 256 * lo);
      Congruent(256 * Sum16(s), hi + 256 * lo + 256 * t, hi);
    }
  }

  lemma SwapCongruent(w: nat)
    requires w <= MOD
    ensures Swap16(w) <= MOD && Swap16(w) % MOD == 256 * w % MOD && (Swap16(w) == 0 <==> w == 0)
  {
    var hi, lo := w / 256, w % 256;
    assert 256 * w == Swap16(w) + MOD * hi;
    Congruent(256 * w, Swap16(w), hi);
  }

  /** The sum does not depend on the byte order: with all words swapped, the checksum is swapped. */
  lemma ByteOrderIndependent(s: seq<Byte>)
    ensures Canon(Sum16(SwapPairs(s))) == Swap16(Canon(Sum16(s)))
  {
    hide Canon, Sum16, Swap16;
    var x, y := Sum16(s), Sum16(SwapPairs(s));
    SumSwapped(s);
    SwapCongruent(Canon(x));
    Times256(Canon(x), x);
    CanonUnique(y, Swap16(Canon(x)));
  }

  lemma Times256(x: nat, y: nat)
    requires x % MOD == y % MOD
    ensures 256 * x % MOD == 256 * y % MOD
  {
    var a, b, r := x / MOD, y / MOD, x % MOD;
    Congruent(256 * x, 256 * r, 256 * a);
    Congruent(256 * y, 256 * r, 256 * b);
  }
}
