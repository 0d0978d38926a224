/** Spreading the low bits of a word over the positions of a pattern, and gathering them again. */
module Expand {
  import opened Words

  const W: nat := 64

  /** How many bits of the pattern lie below position `i`. */
  function Rank(p: Word, i: nat): (r: nat)
    ensures r <= i
  {
    if i == 0 then 0 else Rank(p, i - 1) + if Bit(p, i - 1) then 1 else 0
  }

  lemma {:induction false} RankSkip(p: Word, i: nat, j: nat)
    requires i <= j && forall q: nat | i <= q < j :: !Bit(p, q)
    ensures Rank(p, i) == Rank(p, j)
    decreases j
  {
    if i < j { RankSkip(p, i, j - 1); }
  }

  lemma {:induction false} RankGrows(p: Word, i: nat, j: nat)
    requires i < j && Bit(p, i)
    ensures Rank(p, i) < Rank(p, j)
    decreases j
  {
    if i + 1 < j { RankGrows(p, i, j - 1); }
  }

  /** Every rank below the number of bits is that of a bit. */
  lemma {:induction false} Select(p: Word, n: nat, k: nat) returns (i: nat)
    requires k < Rank(p, n)
    ensures i < n && Bit(p, i) && Rank(p, i) == k
    decreases n
  {
    if Bit(p, n - 1) && Rank(p, n - 1) == k {
      i := n - 1;
    } else {
      i := Select(p, n - 1, k);
    }
  }

  /** xdp2_bitmap_word64_find_next. */
  function FindNext(v: Word, pos: nat): (r: nat)
    requires pos < W
    ensures pos < r <= W && (r < W ==> Bit(v, r)) && forall i: nat :: pos < i < r ==> !Bit(v, i)
  {
    if pos >= W - 1 then W
    else
      var m := And(W, v, HighMask(W, pos + 1));
      assert forall i: nat :: Bit(m, i) == (pos < i < W && Bit(v, i));
      First(W, m)
  }

  /** A `bool` shifted left: an `int`, which has room for shifts below 31. */
  function Shifted(b: bool, n: nat): (r: Word)
    requires n < 31
    ensures |r| == W && forall i: nat :: Bit(r, i) == (b && i == n)
  {
    Shl(W, [b], n)
  }

  /** Bit `i` of `r` is, where the pattern has its bit number `k`, bit `k` of `v`. */
  ghost predicate IsExpansion(v: Word, p: Word, r: Word) {
    |r| == W && forall i: nat :: i < W ==> Bit(r, i) == (Bit(p, i) && Bit(v, Rank(p, i)))
  }

  /** Bit `k` of `r` is the bit of `v` where the pattern has its bit number `k`. */
  ghost predicate IsExtraction(v: Word, p: Word, r: Word) {
    && |r| == W
    && (forall i: nat :: i < W && Bit(p, i) ==> Bit(r, Rank(p, i)) == Bit(v, i))
    && forall k: nat :: Rank(p, W) <= k < W ==> !Bit(r, k)
  }

  lemma Fits(p: Word, pos: nat)
    requires pos < W && Bit(p, pos) && forall i: nat | i >= 31 :: !Bit(p, i)
    ensures pos < 31
  {
  }

  /** xdp2_bitmap_word_expand, for patterns below 2^31. */
  method ExpandWord(v: Word, p: Word) returns (ret: Word)
    requires forall i: nat | i >= 31 :: !Bit(p, i)
    ensures IsExpansion(v, p, ret)
  {
    hide Rank, FindNext, First, Shifted;
    ret := Zero(W);
    var pos, shift := First(W, p), 0;
    RankSkip(p, 0, pos);
    RankZero(p);
    while pos < W
      invariant pos <= W && shift == Rank(p, pos) && (pos < W ==> Bit(p, pos))
      invariant |ret| == W
      invariant forall i: nat :: i < W ==> Bit(ret, i) == (i < pos && Bit(p, i) && Bit(v, Rank(p, i)))
      decreases W - pos
    {
      Fits(p, pos);
      ret := Or(W, ret, Shifted(Bit(v, shift), pos));
      var next := FindNext(p, pos);
      RankSkip(p, pos + 1, next);
      RankNext(p, pos);
      pos, shift := next, shift + 1;
    }
  }

  lemma RankZero(p: Word)
    ensures Rank(p, 0) == 0
  {
  }

  lemma RankNext(p: Word, i: nat)
    requires Bit(p, i)
    ensures Rank(p, i + 1) == Rank(p, i) + 1
  {
  }

  /** xdp2_bitmap_word_extract, for patterns of at most 31 bits, wherever they lie. */
  method ExtractWord(v: Word, p: Word) returns (ret: Word)
    requires Rank(p, W) <= 31
    ensures IsExtraction(v, p, ret)
  {
    hide Rank, FindNext, First, Shifted;
    ret := Zero(W);
    var pos, shift := First(W, p), 0;
    RankSkip(p, 0, pos);
    RankZero(p);
    while pos < W
      invariant pos <= W && shift == Rank(p, pos) && (pos < W ==> Bit(p, pos))
      invariant |ret| == W
      invariant forall i: nat :: i < pos && Bit(p, i) ==> Bit(ret, Rank(p, i)) == Bit(v, i)
      invariant forall k: nat :: shift <= k ==> !Bit(ret, k)
      decreases W - pos
    {
      RankGrows(p, pos, W);
      var next := FindNext(p, pos);
      forall i: nat | i < pos && Bit(p, i) ensures Rank(p, i) < shift {
        RankGrows(p, i, pos);
      }
      ret := Or(W, ret, Shifted(Bit(v, pos), shift));
      RankSkip(p, pos + 1, next);
      RankNext(p, pos);
      pos, shift := next, shift + 1;
    }
  }

  /** Extracting what was expanded gives back as many low bits as the pattern has bits. */
  lemma ExtractOfExpand(v: Word, p: Word, e: Word, x: Word)
    requires IsExpansion(v, p, e) && IsExtraction(e, p, x)
    ensures x == And(W, v, LowMask(W, Rank(p, W)))
  {
    hide Rank;
    var n := Rank(p, W);
    var want := And(W, v, LowMask(W, n));
    forall k: nat | k < W ensures Bit(x, k) == Bit(want, k) {
      if k < n {
        var i := Select(p, W, k);
      }
    }
    SameBits(x, want);
  }

  /** Expanding what was extracted gives back the bits under the pattern. */
  lemma ExpandOfExtract(v: Word, p: Word, x: Word, e: Word)
    requires IsExtraction(v, p, x) && IsExpansion(x, p, e)
    ensures e == And(W, v, p)
  {
    hide Rank;
    SameBits(e, And(W, v, p));
  }
}
