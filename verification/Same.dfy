/** Logical operations between bitmaps at the same position. */
module Same {
  import opened Words
  import opened Bitmap
  import opened Tests
  import opened GenOps
  import opened Gen
  import opened Gen3

  /** Word `k` of the source supplies the destination word `k`. */
  lemma WordSupplies(f: Format, src: Source, k: nat, lo: nat, hi: nat, pos: nat, len: nat)
    requires src.Fits(f) && src.Has(k) && lo <= hi <= f.W && pos <= Pos(f.W, k, 0) + lo && Pos(f.W, k, 0) + hi <= len
    ensures Supplies(f, src.At(f, k), k, lo, hi, Aligned(f, src, pos, pos, len))
  {
    hide Pos, Format.Conv, Format.Valid, Source.HasBit, Source.At, Bit, Aligned;
    OffsetPos(f.W, k, lo, hi);
    forall j: nat | lo <= j < hi
      ensures Bit(f.Conv(src.At(f, k)), j) == Bit(Aligned(f, src, pos, pos, len), Pos(f.W, k, j))
    {
      SourceBit(f, src, k, j);
      assert Pos(f.W, k, j) == j + Pos(f.W, k, 0);
    }
  }

  /** The source has all bits below `n`. */
  predicate Covers(f: Format, src: Source, n: nat) {
    src.Map? ==> n <= |src.words| * f.W
  }

  lemma SourceHas(f: Format, src: Source, k: nat, n: nat)
    requires f.W > 0 && Covers(f, src, n) && Pos(f.W, k, 0) < n
    ensures src.Has(k)
  {
    if src.Map? { InMap(f.W, k, 0, n - Pos(f.W, k, 0), |src.words|); }
  }

  /** __XDP2_BITMAP_2ARG from a word boundary on. */
  method SameWords(f: Format, action: Action, dest: array<Word>, src: Source, k0: nat, n0: nat, test: Test, ret0: nat,
                   ghost pos: nat)
    returns (ret: nat)
    requires f.Holds(dest.Length) && src.Fits(f) && Covers(f, src, Pos(f.W, k0, 0) + n0)
    requires pos <= Pos(f.W, k0, 0) && Pos(f.W, k0, 0) + n0 <= dest.Length * f.W
    modifies dest
    ensures var lo, hi := Pos(f.W, k0, 0), Pos(f.W, k0, 0) + n0;
      && f.Bits(dest[..]) == GenBits(action, old(f.Bits(dest[..])), Aligned(f, src, pos, pos, hi), lo, hi)
      && ret == TestBits(test, ret0, f.Bits(dest[..]), lo, hi)
  {
    hide *;
    HoldsWidth(f, dest.Length);
    ghost var lo, hi, at, B := Pos(f.W, k0, 0), Pos(f.W, k0, 0) + n0, Pos(f.W, k0, 0), f.Bits(dest[..]);
    ghost var want := Aligned(f, src, pos, pos, hi);
    GenEmpty(action, B, want, lo);
    TestEmpty(test, ret0, B, lo);
    ret := ret0;
    var k: nat, n: nat := k0, n0;
    while n >= f.W
      invariant at == Pos(f.W, k, 0) && lo <= at && at + n == hi
      invariant f.Bits(dest[..]) == GenBits(action, B, want, lo, at)
      invariant ret == TestBits(test, ret0, f.Bits(dest[..]), lo, at)
      decreases n
    {
      InMap(f.W, k, 0, n, dest.Length);
      SourceHas(f, src, k, hi);
      WordSupplies(f, src, k, 0, f.W, pos, hi);
      ghost var before := f.Bits(dest[..]);
      ret := StoreWord(f, action, dest, k, src.At(f, k), test, ret, want);
      Extend(action, B, want, lo, at, at + f.W, test, ret0, before);
      at, n, k := at + f.W, n - f.W, k + 1;
    }
    if n > 0 {
      InMap(f.W, k, 0, n, dest.Length);
      SourceHas(f, src, k, hi);
      WordSupplies(f, src, k, 0, n, pos, hi);
      ghost var before := f.Bits(dest[..]);
      ret := LastWord(f, action, dest, k, n, src.At(f, k), test, ret, want);
      Extend(action, B, want, lo, at, hi, test, ret0, before);
    }
  }

  /** __XDP2_BITMAP_2ARG: positions [pos, nbits) of `dest` take the value the action gives them for the source bit at
      the same position; all others stay. */
  method Same2(f: Format, action: Action, dest: array<Word>, src: Source, pos: nat, nbits: nat, test: Test)
    returns (ret: nat)
    requires f.Holds(dest.Length) && src.Fits(f) && Covers(f, src, nbits)
    requires pos <= nbits <= dest.Length * f.W
    modifies dest
    ensures f.Bits(dest[..]) == GenBits(action, old(f.Bits(dest[..])), Aligned(f, src, pos, pos, nbits), pos, nbits)
    ensures ret == TestBits(test, 0, f.Bits(dest[..]), pos, nbits)
  {
    hide *;
    HoldsWidth(f, dest.Length);
    var k, mod := Split(pos, f.W);
    var n := nbits - pos;
    if mod == 0 {
      ret := SameWords(f, action, dest, src, k, n, test, 0, pos);
      return;
    }
    OffsetPos(f.W, k, 0, 0);
    assert Pos(f.W, k, mod) == mod + Pos(f.W, k, 0);
    InMap(f.W, k, 0, mod, dest.Length);
    SourceHas(f, src, k, nbits);
    var need := if f.W - mod <= n then f.W - mod else n;
    WordSupplies(f, src, k, mod, mod + need, pos, nbits);
    ghost var want, B := Aligned(f, src, pos, pos, nbits), f.Bits(dest[..]);
    ret := HeadWord(f, action, dest, k, mod, need, src.At(f, k), test, want);
    if n > need {
      ghost var mid := f.Bits(dest[..]);
      ret := SameWords(f, action, dest, src, k + 1, n - need, test, ret, pos);
      Extend(action, B, want, pos, pos + need, nbits, test, 0, mid);
    }
  }

  /** __XDP2_BITMAP_3ARG from a word boundary on. */
  method SameWords3(f: Format, op: Op, dest: array<Word>, src1: Source, src2: Source, k0: nat, n0: nat, test: Test,
                    ret0: nat, ghost pos: nat)
    returns (ret: nat)
    requires f.Holds(dest.Length) && src1.Fits(f) && Covers(f, src1, Pos(f.W, k0, 0) + n0)
    requires src2.Fits(f) && Covers(f, src2, Pos(f.W, k0, 0) + n0)
    requires pos <= Pos(f.W, k0, 0) && Pos(f.W, k0, 0) + n0 <= dest.Length * f.W
    modifies dest
    ensures var lo, hi := Pos(f.W, k0, 0), Pos(f.W, k0, 0) + n0;
      && f.Bits(dest[..])
         == GenBits(Move(false), old(f.Bits(dest[..])),
                    Both(op, Aligned(f, src1, pos, pos, hi), Aligned(f, src2, pos, pos, hi), hi), lo, hi)
      && ret == TestBits(test, ret0, f.Bits(dest[..]), lo, hi)
  {
    hide *;
    HoldsWidth(f, dest.Length);
    ghost var lo, hi, at, B := Pos(f.W, k0, 0), Pos(f.W, k0, 0) + n0, Pos(f.W, k0, 0), f.Bits(dest[..]);
    ghost var want1, want2 := Aligned(f, src1, pos, pos, hi), Aligned(f, src2, pos, pos, hi);
    ghost var want, action := Both(op, want1, want2, hi), Move(false);
    GenEmpty(action, B, want, lo);
    TestEmpty(test, ret0, B, lo);
    ret := ret0;
    var k: nat, n: nat := k0, n0;
    while n >= f.W
      invariant at == Pos(f.W, k, 0) && lo <= at && at + n == hi
      invariant f.Bits(dest[..]) == GenBits(action, B, want, lo, at)
      invariant ret == TestBits(test, ret0, f.Bits(dest[..]), lo, at)
      decreases n
    {
      InMap(f.W, k, 0, n, dest.Length);
      SourceHas(f, src1, k, hi);
      SourceHas(f, src2, k, hi);
      WordSupplies(f, src1, k, 0, f.W, pos, hi);
      WordSupplies(f, src2, k, 0, f.W, pos, hi);
      OpSupplies(f, op, src1.At(f, k), src2.At(f, k), k, 0, f.W, want1, want2, hi);
      ghost var before := f.Bits(dest[..]);
      ret := StoreWord(f, Move(false), dest, k, WordOp(f.W, op, src1.At(f, k), src2.At(f, k)), test, ret, want);
      Extend(action, B, want, lo, at, at + f.W, test, ret0, before);
      at, n, k := at + f.W, n - f.W, k + 1;
    }
    if n > 0 {
      InMap(f.W, k, 0, n, dest.Length);
      SourceHas(f, src1, k, hi);
      SourceHas(f, src2, k, hi);
      WordSupplies(f, src1, k, 0, n, pos, hi);
      WordSupplies(f, src2, k, 0, n, pos, hi);
      OpSupplies(f, op, src1.At(f, k), src2.At(f, k), k, 0, n, want1, want2, hi);
      ghost var before := f.Bits(dest[..]);
      ret := LastWord(f, Move(false), dest, k, n, WordOp(f.W, op, src1.At(f, k), src2.At(f, k)), test, ret, want);
      Extend(action, B, want, lo, at, hi, test, ret0, before);
    }
  }

  /** __XDP2_BITMAP_3ARG: positions [pos, nbits) of `dest` become the operator applied to the bits of the operands at
      the same position. */
  method Same3(f: Format, op: Op, dest: array<Word>, src1: Source, src2: Source, pos: nat, nbits: nat, test: Test)
    returns (ret: nat)
    requires f.Holds(dest.Length) && src1.Fits(f) && Covers(f, src1, nbits)
    requires src2.Fits(f) && Covers(f, src2, nbits)
    requires pos <= nbits <= dest.Length * f.W
    modifies dest
    ensures f.Bits(dest[..])
            == GenBits(Move(false), old(f.Bits(dest[..])),
                       Both(op, Aligned(f, src1, pos, pos, nbits), Aligned(f, src2, pos, pos, nbits), nbits), pos, nbits)
    ensures ret == TestBits(test, 0, f.Bits(dest[..]), pos, nbits)
  {
    hide *;
    HoldsWidth(f, dest.Length);
    var k, mod := Split(pos, f.W);
    var n := nbits - pos;
    if mod == 0 {
      ret := SameWords3(f, op, dest, src1, src2, k, n, test, 0, pos);
      return;
    }
    OffsetPos(f.W, k, 0, 0);
    assert Pos(f.W, k, mod) == mod + Pos(f.W, k, 0);
    InMap(f.W, k, 0, mod, dest.Length);
    SourceHas(f, src1, k, nbits);
    SourceHas(f, src2, k, nbits);
    var need := if f.W - mod <= n then f.W - mod else n;
    WordSupplies(f, src1, k, mod, mod + need, pos, nbits);
    WordSupplies(f, src2, k, mod, mod + need, pos, nbits);
    ghost var want1, want2 := Aligned(f, src1, pos, pos, nbits), Aligned(f, src2, pos, pos, nbits);
    ghost var want, B := Both(op, want1, want2, nbits), f.Bits(dest[..]);
    OpSupplies(f, op, src1.At(f, k), src2.At(f, k), k, mod, mod + need, want1, want2, nbits);
    ret := HeadWord(f, Move(false), dest, k, mod, need, WordOp(f.W, op, src1.At(f, k), src2.At(f, k)), test, want);
    if n > need {
      ghost var mid := f.Bits(dest[..]);
      ret := SameWords3(f, op, dest, src1, src2, k + 1, n - need, test, ret, pos);
      Extend(Move(false), B, want, pos, pos + need, nbits, test, 0, mid);
    }
  }
}
