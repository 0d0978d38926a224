/** Comparing two bitmaps at unrelated positions: the first position at which an operator yields a set bit. */
module Compare {
  import opened Words
  import opened Bitmap
  import opened GenOps
  import opened Reader
  import opened Gen
  import opened Find

  /** A bit of the value that is searched. */
  lemma ValueBit(f: Format, action: Action, a: seq<Word>, k: nat, val: Word, mask: Word, lo: nat, hi: nat,
                 want: seq<bool>, from: nat, to: nat, j: nat)
    requires f.Holds(|a|) && k < |a| && lo <= hi <= f.W && from <= Pos(f.W, k, 0) + lo && Pos(f.W, k, 0) + hi <= to
    requires j < f.W && Bit(mask, j) == (lo <= j < hi) && Supplies(f, val, k, lo, hi, want)
    ensures 0 <= f.Slot(k) < |a|
    ensures Bit(f.Conv(And(f.W, WordValue(f.W, action, val, a[f.Slot(k)]), f.Conv(mask))), j)
            == (lo <= j < hi && Bit(GenBits(action, f.Bits(a), want, from, to), Pos(f.W, k, 0) + j))
  {
    hide Pos, Format.Bits, Format.Conv, BitValue, GenBits, WordValue, And;
    MergeBits(f, action, mask, val, a[f.Slot(k)], j);
    BitsAt(f, a, k, j);
    OffsetPos(f.W, k, lo, hi);
    assert Pos(f.W, k, j) == j + Pos(f.W, k, 0);
  }

  /** The search in one word of the result. */
  lemma FirstOfValue(f: Format, action: Action, a: seq<Word>, k: nat, val: Word, mask: Word, lo: nat, hi: nat,
                     want: seq<bool>, from: nat, to: nat)
    requires f.Holds(|a|) && k < |a| && lo <= hi <= f.W && from <= Pos(f.W, k, 0) + lo && Pos(f.W, k, 0) + hi <= to
    requires forall j: nat | j < f.W :: Bit(mask, j) == (lo <= j < hi)
    requires Supplies(f, val, k, lo, hi, want)
    ensures 0 <= f.Slot(k) < |a| && Pos(f.W, k + 1, 0) == Pos(f.W, k, 0) + f.W
    ensures var res := And(f.W, WordValue(f.W, action, val, a[f.Slot(k)]), f.Conv(mask));
      var i, base := First(f.W, f.Conv(res)), Pos(f.W, k, 0);
      var t := GenBits(action, f.Bits(a), want, from, to);
      if i < f.W then Least(t, false, base + lo, base + hi, base + i) && i < hi
      else Least(t, false, base + lo, base + hi, base + hi)
  {
    hide Pos, Format.Bits, Format.Conv, Format.Valid, GenBits, WordValue, And, First, Least, Bit, Supplies;
    HoldsWidth(f, |a|);
    OffsetPos(f.W, k, lo, hi);
    var m := f.Conv(And(f.W, WordValue(f.W, action, val, a[f.Slot(k)]), f.Conv(mask)));
    var t := GenBits(action, f.Bits(a), want, from, to);
    var base := Pos(f.W, k, 0);
    forall j: nat | j < f.W ensures Bit(m, j) == (lo <= j < hi && Bit(t, base + j) != false) {
      ValueBit(f, action, a, k, val, mask, lo, hi, want, from, to, j);
    }
    FirstIsLeast(f.W, m, t, false, base, lo, hi);
  }

  /** A whole word is searched without a mask. */
  lemma FirstOfWhole(f: Format, action: Action, a: seq<Word>, k: nat, val: Word, want: seq<bool>, from: nat, to: nat)
    requires f.Holds(|a|) && k < |a| && from <= Pos(f.W, k, 0) && Pos(f.W, k, 0) + f.W <= to
    requires Supplies(f, val, k, 0, f.W, want)
    ensures 0 <= f.Slot(k) < |a| && Pos(f.W, k + 1, 0) == Pos(f.W, k, 0) + f.W
    ensures var i, base := First(f.W, f.Conv(WordValue(f.W, action, val, a[f.Slot(k)]))), Pos(f.W, k, 0);
      var t := GenBits(action, f.Bits(a), want, from, to);
      if i < f.W then Least(t, false, base, base + f.W, base + i)
      else Least(t, false, base, base + f.W, base + f.W)
  {
    hide Pos, Format.Bits, GenBits, WordValue, First, Least, Bit;
    FirstOfValue(f, action, a, k, val, Ones(f.W), 0, f.W, want, from, to) by { OnesBits(f.W); }
    MaskOnes(f, WordValue(f.W, action, val, a[f.Slot(k)]));
  }

  /** The search goes on through a whole word. */
  lemma SearchWhole(f: Format, action: Action, a: seq<Word>, k: nat, val: Word, want: seq<bool>, from: nat, lo: nat, hi: nat)
    requires f.Holds(|a|) && k < |a| && from <= lo <= Pos(f.W, k, 0) && Pos(f.W, k, 0) + f.W <= hi
    requires Supplies(f, val, k, 0, f.W, want)
    requires Least(GenBits(action, f.Bits(a), want, from, hi), false, lo, Pos(f.W, k, 0), Pos(f.W, k, 0))
    ensures 0 <= f.Slot(k) < |a| && Pos(f.W, k + 1, 0) == Pos(f.W, k, 0) + f.W
    ensures var i, base := First(f.W, f.Conv(WordValue(f.W, action, val, a[f.Slot(k)]))), Pos(f.W, k, 0);
      var t := GenBits(action, f.Bits(a), want, from, hi);
      if i < f.W then Least(t, false, lo, hi, base + i) else Least(t, false, lo, base + f.W, base + f.W)
  {
    hide *;
    HoldsWidth(f, |a|);
    FirstOfWhole(f, action, a, k, val, want, from, hi);
    var i, base := First(f.W, f.Conv(WordValue(f.W, action, val, a[f.Slot(k)]))), Pos(f.W, k, 0);
    var t := GenBits(action, f.Bits(a), want, from, hi);
    if i < f.W {
      LeastJoin(t, false, lo, base, base + f.W, base + i);
      LeastWithin(t, false, lo, base + f.W, hi, base + i);
    } else {
      LeastJoin(t, false, lo, base, base + f.W, base + f.W);
    }
  }

  lemma MaskOnes(f: Format, w: Word)
    requires f.Valid()
    ensures f.Conv(And(f.W, w, f.Conv(Ones(f.W)))) == f.Conv(w)
  {
    SameBits(f.Conv(And(f.W, w, f.Conv(Ones(f.W)))), f.Conv(w));
  }

  /** The comparison from the first word boundary of the first operand on. */
  method CompareBody(f: Format, action: Action, a: seq<Word>, d: nat, src: Source, q: nat, sm: nat, n: nat,
                     ghost want: seq<bool>, ghost from: nat)
    returns (w: nat)
    requires f.Holds(|a|) && src.Fits(f) && sm < f.W && Guarded(f, src, q, sm, n) && from <= Pos(f.W, d, 0)
    requires Pos(f.W, d, 0) + n <= |a| * f.W && Wants(f, src, d, q, sm, n, want)
    ensures var lo, hi := Pos(f.W, d, 0), Pos(f.W, d, 0) + n;
      Least(GenBits(action, f.Bits(a), want, from, hi), false, lo, hi, w)
  {
    hide *;
    HoldsWidth(f, |a|);
    GuardedHas(f, src, q, sm, n);
    ghost var lo, hi := Pos(f.W, d, 0), Pos(f.W, d, 0) + n;
    ghost var t := GenBits(action, f.Bits(a), want, from, hi);
    LeastEmpty(t, false, lo);
    var rd := Align(f, src, q, sm, n);
    AlignReady(f, src, q, sm, n);
    AlignShift(f, src, q, sm, n);
    var at: nat, i: nat, rest: nat := Pos(f.W, d, 0), 0, n;
    while rest >= f.W
      invariant at == Pos(f.W, d + i, 0) && at + rest == hi && lo <= at
      invariant Ready(f, src, rd, q + i, rest) && rd.shift == sm
      invariant Wants(f, src, d + i, q + i, sm, rest, want)
      invariant Least(t, false, lo, at, at)
      decreases rest
    {
      FetchSupplies(f, src, rd, d + i, q + i, rest, f.W, want);
      InMap(f.W, d + i, 0, rest, |a|);
      SearchWhole(f, action, a, d + i, Fetch(f, src, rd), want, from, lo, hi);
      var j := First(f.W, f.Conv(WordValue(f.W, action, Fetch(f, src, rd), a[f.Slot(d + i)])));
      if j < f.W {
        return at + j;
      }
      AdvanceReady(f, src, rd, q + i, rest);
      AdvanceShift(f, src, rd);
      WantsRest(f, src, d + i, q + i, sm, rest, want);
      rd := Advance(f, src, rd);
      at, rest, i := at + f.W, rest - f.W, i + 1;
    }
    w := at + rest;
    if rest > 0 {
      FetchSupplies(f, src, rd, d + i, q + i, rest, rest, want);
      InMap(f.W, d + i, 0, rest, |a|);
      w := CompareLast(f, action, a, d + i, Fetch(f, src, rd), rest, want, from);
      LeastJoin(t, false, lo, at, hi, w);
    }
  }

  /** The last, partial word. */
  method CompareLast(f: Format, action: Action, a: seq<Word>, k: nat, val: Word, rest: nat, ghost want: seq<bool>,
                     ghost from: nat)
    returns (w: nat)
    requires f.Holds(|a|) && k < |a| && rest < f.W && from <= Pos(f.W, k, 0) && Supplies(f, val, k, 0, rest, want)
    ensures var lo, hi := Pos(f.W, k, 0), Pos(f.W, k, 0) + rest;
      Least(GenBits(action, f.Bits(a), want, from, hi), false, lo, hi, w)
  {
    hide *;
    HoldsWidth(f, |a|);
    SlotInside(f, |a|, k);
    LowMaskBits(f.W, rest);
    FirstOfValue(f, action, a, k, val, LowMask(f.W, rest), 0, rest, want, from, Pos(f.W, k, 0) + rest);
    var res := And(f.W, WordValue(f.W, action, val, a[f.Slot(k)]), f.Conv(LowMask(f.W, rest)));
    var j := First(f.W, f.Conv(res));
    w := Pos(f.W, k, 0) + if j < f.W then j else rest;
  }

  /** The comparison with the positions split into word and bit. */
  method CompareAt(f: Format, action: Action, a: seq<Word>, d: nat, dm: nat, src: Source, q: nat, sm: nat, n: nat)
    returns (w: nat)
    requires f.Holds(|a|) && src.Fits(f) && dm < f.W && sm < f.W && Readable(f, src, q, sm, dm, n)
    requires Pos(f.W, d, dm) + n <= |a| * f.W
    ensures var lo, hi := Pos(f.W, d, dm), Pos(f.W, d, dm) + n;
      Least(GenBits(action, f.Bits(a), Aligned(f, src, Pos(f.W, q, sm), lo, hi), lo, hi), false, lo, hi, w)
  {
    hide *;
    HoldsWidth(f, |a|);
    ghost var lo, hi := Pos(f.W, d, dm), Pos(f.W, d, dm) + n;
    ghost var want := Aligned(f, src, Pos(f.W, q, sm), lo, hi);
    ghost var t := GenBits(action, f.Bits(a), want, lo, hi);
    OffsetPos(f.W, d, 0, 0);
    assert Pos(f.W, d, dm) == dm + Pos(f.W, d, 0);
    HeadHas(f, src, q, sm, dm, n);
    if dm == 0 {
      AlignedWants(f, src, Pos(f.W, q, sm), lo, hi, d, q, sm, n);
      w := CompareBody(f, action, a, d, src, q, sm, n, want, lo);
      return;
    }
    var need := if f.W - dm <= n then f.W - dm else n;
    InMap(f.W, d, 0, dm, |a|);
    HeadSupplies(f, src, q, sm, d, dm, need, hi);
    var h := DestMod(f, src, q, sm, dm, need);
    MaskBits(f.W, dm, need);
    FirstOfValue(f, action, a, d, h.val, Mask(f.W, dm, need), dm, dm + need, want, lo, hi);
    var res := And(f.W, WordValue(f.W, action, h.val, a[f.Slot(d)]), f.Conv(Mask(f.W, dm, need)));
    var j := First(f.W, f.Conv(res));
    if j < f.W {
      w := Pos(f.W, d, 0) + j;
      LeastWithin(t, false, lo, lo + need, hi, w);
      return;
    }
    if n == need {
      return Pos(f.W, d, dm) + n;
    }
    HeadNext(f, src, q, sm, dm, n);
    AlignedWants(f, src, Pos(f.W, q, sm), lo, hi, d + 1, h.q, h.sm, n - need);
    w := CompareBody(f, action, a, d + 1, src, h.q, h.sm, n - need, want, lo);
    LeastJoin(t, false, lo, lo + need, hi, w);
  }

  /** __XDP2_BITMAP_2ARG_GEN with DO_COMPARE: the least position in [pos, nbits) of the first operand at which the
      operator, applied to the second operand's bit and its own, yields a set bit; `nbits` if there is none. */
  method CompareGen(f: Format, op: Op, a: seq<Word>, pos: nat, src: Source, srcPos: nat, nbits: nat) returns (w: nat)
    requires f.Holds(|a|) && src.Fits(f) && pos <= nbits <= |a| * f.W
    requires ReadableAt(f, src, srcPos, pos, nbits)
    ensures Least(GenBits(Combine(op), f.Bits(a), Aligned(f, src, srcPos, pos, nbits), pos, nbits), false, pos, nbits, w)
  {
    hide *;
    HoldsWidth(f, |a|);
    var d, dm := Split(pos, f.W);
    var q, sm := Split(srcPos, f.W);
    ReadableSplit(f, src, srcPos, pos, nbits, q, sm, dm);
    w := CompareAt(f, Combine(op), a, d, dm, src, q, sm, nbits - pos);
  }
}
