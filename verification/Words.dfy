/** Unsigned machine words of `W` bits, least significant bit first, with the C operators
    `&`, `|`, `^`, `~`, `<<` and `>>`. An operator only looks at the low `W` bits of its operands
    and always yields exactly `W` bits, as an assignment to an unsigned type of width `W` does. */
module Words {
  type Word = seq<bool>

  const TWO16: nat := 0x1_0000
  const TWO31: nat := 0x8000_0000
  const TWO32: nat := 0x1_0000_0000
  const TWO64: nat := 0x1_0000_0000_0000_0000

  /** Arithmetic in `unsigned int`. */
  function U32(x: int): (r: nat)
    ensures r < TWO32
  {
    x % TWO32
  }

  predicate Bit(w: Word, i: nat) {
    i < |w| && w[i]
  }

  function Ones(W: nat): (r: Word)
    ensures |r| == W && forall i: nat :: Bit(r, i) == (i < W)
  {
    seq(W, i => true)
  }

  function Zero(W: nat): (r: Word)
    ensures |r| == W && forall i: nat :: !Bit(r, i)
  {
    seq(W, i => false)
  }

  function Not(W: nat, x: Word): (r: Word)
    ensures |r| == W && forall i: nat :: Bit(r, i) == (i < W && !Bit(x, i))
  {
    seq(W, (i: nat) => !Bit(x, i))
  }

  function And(W: nat, x: Word, y: Word): (r: Word)
    ensures |r| == W && forall i: nat :: Bit(r, i) == (i < W && Bit(x, i) && Bit(y, i))
  {
    seq(W, (i: nat) => Bit(x, i) && Bit(y, i))
  }

  function Or(W: nat, x: Word, y: Word): (r: Word)
    ensures |r| == W && forall i: nat :: Bit(r, i) == (i < W && (Bit(x, i) || Bit(y, i)))
  {
    seq(W, (i: nat) => Bit(x, i) || Bit(y, i))
  }

  function Xor(W: nat, x: Word, y: Word): (r: Word)
    ensures |r| == W && forall i: nat :: Bit(r, i) == (i < W && Bit(x, i) != Bit(y, i))
  {
    seq(W, (i: nat) => Bit(x, i) != Bit(y, i))
  }

  function Shl(W: nat, x: Word, n: nat): (r: Word)
    ensures |r| == W && forall i: nat :: Bit(r, i) == (n <= i < W && Bit(x, i - n))
  {
    seq(W, (i: nat) => n <= i && Bit(x, i - n))
  }

  function Shr(W: nat, x: Word, n: nat): (r: Word)
    ensures |r| == W && forall i: nat :: Bit(r, i) == (i + n < W && Bit(x, i + n))
  {
    seq(W, (i: nat) => i + n < W && Bit(x, i + n))
  }

  /** All ones from bit `start` up. */
  function HighMask(W: nat, start: nat): Word {
    Shl(W, Ones(W), start)
  }

  /** All ones below bit `start`. */
  function LowMask(W: nat, start: nat): Word
    requires start <= W
  {
    Shr(W, Ones(W), W - start)
  }

  /** Ones exactly in [start, start + n). */
  function Mask(W: nat, start: nat, n: nat): Word
    requires start + n <= W
  {
    And(W, HighMask(W, start), LowMask(W, start + n))
  }

  /** Position of the least significant set bit, `W` when there is none: `ffs(v) - 1`. */
  function First(W: nat, w: Word): (r: nat)
    ensures r <= W && (r < W ==> Bit(w, r)) && forall i: nat :: i < r ==> !Bit(w, i)
  {
    FirstFrom(W, w, 0)
  }

  function FirstFrom(W: nat, w: Word, k: nat): (r: nat)
    requires k <= W
    ensures k <= r <= W && (r < W ==> Bit(w, r)) && forall i: nat :: k <= i < r ==> !Bit(w, i)
    decreases W - k
  {
    if k == W || Bit(w, k) then k else FirstFrom(W, w, k + 1)
  }

  /** Bit strings of one length are equal when all their bits are. */
  lemma SameBits(x: seq<bool>, y: seq<bool>)
    requires |x| == |y| && forall i: nat | i < |x| :: Bit(x, i) == Bit(y, i)
    ensures x == y
  {
    forall i | 0 <= i < |x| ensures x[i] == y[i] {
      assert Bit(x, i) == Bit(y, i);
    }
  }

  /** The number a bit string stands for, least significant bit first. */
  function Val(b: seq<bool>): nat {
    if |b| == 0 then 0 else (if b[0] then 1 else 0) + 2 * Val(b[1..])
  }

  function Pow2(n: nat): (r: nat)
    ensures r > 0
  {
    if n == 0 then 1 else 2 * Pow2(n - 1)
  }

  lemma {:induction false} Pow2Add(m: nat, n: nat)
    ensures Pow2(m + n) == Pow2(m) * Pow2(n)
  {
    if m > 0 {
      Pow2Add(m - 1, n);
      assert Pow2(m + n) == 2 * (Pow2(m - 1) * Pow2(n)) == (2 * Pow2(m - 1)) * Pow2(n);
    }
  }

  lemma {:induction false} ValAppend(x: seq<bool>, y: seq<bool>)
    ensures Val(x + y) == Val(x) + Pow2(|x|) * Val(y)
  {
    if |x| == 0 {
      assert x + y == y;
    } else {
      ValAppend(x[1..], y);
      assert (x + y)[1..] == x[1..] + y;
      assert 2 * (Pow2(|x| - 1) * Val(y)) == Pow2(|x|) * Val(y);
    }
  }

  lemma {:induction false} ValBound(x: seq<bool>)
    ensures Val(x) < Pow2(|x|)
  {
    if |x| > 0 { ValBound(x[1..]); }
  }

  lemma {:induction false} ValZero(n: nat)
    ensures Val(Zero(n)) == 0
  {
    if n > 0 {
      assert Zero(n)[1..] == Zero(n - 1);
      ValZero(n - 1);
    }
  }

  /** Shifting a bit string towards the high end; bits pushed past the end are lost. */
  function ShlBits(b: seq<bool>, s: nat): (r: seq<bool>)
    ensures |r| == |b| && forall i: nat :: Bit(r, i) == (s <= i < |b| && Bit(b, i - s))
  {
    seq(|b|, (i: nat) => s <= i && Bit(b, i - s))
  }

  /** Shifting a bit string towards the low end; zeros enter at the high end. */
  function ShrBits(b: seq<bool>, s: nat): (r: seq<bool>)
    ensures |r| == |b| && forall i: nat :: Bit(r, i) == Bit(b, i + s)
  {
    seq(|b|, (i: nat) => Bit(b, i + s))
  }

  lemma ShlSplits(b: seq<bool>, s: nat)
    requires s <= |b|
    ensures ShlBits(b, s) == Zero(s) + b[..|b| - s]
  {
    SameBits(ShlBits(b, s), Zero(s) + b[..|b| - s]);
  }

  lemma ShrSplits(b: seq<bool>, s: nat)
    requires s <= |b|
    ensures ShrBits(b, s) == b[s..] + Zero(s)
  {
    SameBits(ShrBits(b, s), b[s..] + Zero(s));
  }

  /** A left shift multiplies by 2^s modulo 2^n. */
  lemma ShlIsMultiplication(b: seq<bool>, s: nat)
    requires s <= |b|
    ensures Val(ShlBits(b, s)) == Val(b) * Pow2(s) % Pow2(|b|)
  {
    hide Val, Pow2, ShlBits, Zero;
    var n := |b|;
    var lo, hi := b[..n - s], b[n - s..];
    ShlSplits(b, s);
    ValAppend(Zero(s), lo);
    ValZero(s);
    assert b == lo + hi;
    ValAppend(lo, hi);
    ValBound(lo);
    Pow2Add(n - s, s);
    ProductBelow(Val(lo), Pow2(n - s), Pow2(s));
    assert Val(b) * Pow2(s) == Pow2(s) * Val(lo) + Pow2(n) * Val(hi) by {
      Distribute(Val(lo), Pow2(n - s), Val(hi), Pow2(s));
    }
    ModOfSum(Pow2(s) * Val(lo), Val(hi), Pow2(n));
  }

  /** A right shift divides by 2^s, rounding down. */
  lemma ShrIsDivision(b: seq<bool>, s: nat)
    requires s <= |b|
    ensures Val(ShrBits(b, s)) == Val(b) / Pow2(s)
  {
    hide Val, Pow2, ShrBits, Zero;
    var lo, hi := b[..s], b[s..];
    ShrSplits(b, s);
    ValAppend(hi, Zero(s));
    ValZero(s);
    assert b == lo + hi;
    ValAppend(lo, hi);
    ValBound(lo);
    DivOfSum(Val(lo), Val(hi), Pow2(s));
  }

  lemma ProductBelow(a: nat, b: nat, c: nat)
    requires a < b && c > 0
    ensures c * a < b * c
  {
  }

  lemma Distribute(a: nat, b: nat, c: nat, d: nat)
    ensures (a + b * c) * d == d * a + (b * d) * c
  {
    assert (b * c) * d == (b * d) * c;
  }

  lemma QuotientUnique(x: nat, q: nat, r: nat, m: nat)
    requires r < m && x == q * m + r
    ensures x / m == q && x % m == r
  {
    var q', r' := x / m, x % m;
    assert x == m * q' + r';
    assert (q - q') * m == r' - r;
    SmallMultiple(q - q', m);
  }

  lemma SmallMultiple(k: int, m: int)
    requires -m < k * m < m
    ensures k == 0
  {
  }

  lemma ModOfSum(a: nat, k: nat, m: nat)
    requires a < m
    ensures (a + m * k) % m == a
  {
    QuotientUnique(a + m * k, k, a, m);
  }

  lemma DivOfSum(a: nat, k: nat, m: nat)
    requires a < m
    ensures (a + m * k) / m == k
  {
    QuotientUnique(a + m * k, k, a, m);
  }

  /** The word operators `<<` and `>>` are those of C's unsigned arithmetic. */
  lemma WordShiftsAreArithmetic(W: nat, w: Word, n: nat)
    requires |w| == W && n <= W
    ensures Val(Shl(W, w, n)) == Val(w) * Pow2(n) % Pow2(W)
    ensures Val(Shr(W, w, n)) == Val(w) / Pow2(n)
  {
    SameBits(Shl(W, w, n), ShlBits(w, n));
    SameBits(Shr(W, w, n), ShrBits(w, n));
    ShlIsMultiplication(w, n);
    ShrIsDivision(w, n);
  }
}
