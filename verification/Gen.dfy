/** The general operation between a destination and a source at unrelated bit positions. */
module Gen {
  import opened Words
  import opened Bitmap
  import opened Tests
  import opened GenOps
  import opened Reader

  /** Positions [Pos(d, 0), Pos(d, 0) + n) want the source bits from (q, sm) on. */
  ghost predicate Wants(f: Format, src: Source, d: nat, q: nat, sm: nat, n: nat, want: seq<bool>)
    requires src.Fits(f)
  {
    forall p: nat :: Pos(f.W, d, 0) <= p < Pos(f.W, d, 0) + n ==>
      Bit(want, p) == src.HasBit(f, p - Pos(f.W, d, 0) + Pos(f.W, q, sm))
  }

  /** One fetch supplies the next destination word, or the part of it that is left. */
  lemma FetchSupplies(f: Format, src: Source, rd: Reader, d: nat, k: nat, n: nat, hi: nat, want: seq<bool>)
    requires src.Fits(f) && Ready(f, src, rd, k, n) && 0 < hi <= n && hi <= f.W
    requires Wants(f, src, d, k, rd.shift, n, want)
    ensures src.Has(rd.q) && rd.shift < f.W && Supplies(f, Fetch(f, src, rd), d, 0, hi, want)
  {
    hide Pos, Format.Conv, Format.Valid, Source.HasBit, Fetch, Ready, Bit;
    ReadyHas(f, src, rd, k, n);
    OffsetPos(f.W, d, 0, 0);
    forall j: nat | 0 <= j < hi ensures Bit(f.Conv(Fetch(f, src, rd)), j) == Bit(want, Pos(f.W, d, j)) {
      FetchBit(f, src, rd, k, n, j);
      assert Pos(f.W, d, j) == j + Pos(f.W, d, 0);
    }
  }

  lemma WantsRest(f: Format, src: Source, d: nat, q: nat, sm: nat, n: nat, want: seq<bool>)
    requires src.Fits(f) && n >= f.W && Wants(f, src, d, q, sm, n, want)
    ensures Wants(f, src, d + 1, q + 1, sm, n - f.W, want)
  {
    hide Pos, Format.Valid, Source.HasBit, Bit;
    OffsetPos(f.W, d, 0, 0);
    PosPlus(f.W, q, sm, 1, 0);
    PosIsWord(f.W);
  }

  lemma PosIsWord(W: nat)
    ensures Pos(W, 1, 0) == W
  {
  }

  /** A whole destination word. */
  method StoreWord(f: Format, action: Action, dest: array<Word>, k: nat, val: Word, test: Test, ret0: nat,
                   ghost want: seq<bool>)
    returns (ret: nat)
    requires f.Holds(dest.Length) && k < dest.Length && Supplies(f, val, k, 0, f.W, want)
    modifies dest
    ensures Pos(f.W, k + 1, 0) == Pos(f.W, k, 0) + f.W
    ensures f.Bits(dest[..])
            == GenBits(action, old(f.Bits(dest[..])), want, Pos(f.W, k, 0), Pos(f.W, k, 0) + f.W)
    ensures ret == TestBits(test, ret0, f.Bits(dest[..]), Pos(f.W, k, 0), Pos(f.W, k, 0) + f.W)
  {
    hide *;
    HoldsWidth(f, dest.Length);
    SlotInside(f, dest.Length, k);
    OffsetPos(f.W, k, 0, 0);
    ghost var a := dest[..];
    var v := WordValue(f.W, action, val, dest[f.Slot(k)]);
    WholeWord(f, action, a, k, val, want);
    WholeWordTest(f, a, k, v, test, ret0);
    dest[f.Slot(k)] := v;
    assert dest[..] == a[f.Slot(k) := v];
    ret := HandleWord(test, f.W, ret0, v, Ones(f.W));
  }

  /** The last, partial destination word. */
  method LastWord(f: Format, action: Action, dest: array<Word>, d: nat, rest: nat, val: Word, test: Test,
                  ret0: nat, ghost want: seq<bool>)
    returns (ret: nat)
    requires f.Holds(dest.Length) && rest < f.W && d < dest.Length && Supplies(f, val, d, 0, rest, want)
    modifies dest
    ensures f.Bits(dest[..])
            == GenBits(action, old(f.Bits(dest[..])), want, Pos(f.W, d, 0), Pos(f.W, d, 0) + rest)
    ensures ret == TestBits(test, ret0, f.Bits(dest[..]), Pos(f.W, d, 0), Pos(f.W, d, 0) + rest)
  {
    hide *;
    HoldsWidth(f, dest.Length);
    SlotInside(f, dest.Length, d);
    ghost var a := dest[..];
    var mask, was := LowMask(f.W, rest), dest[f.Slot(d)];
    LowMaskBits(f.W, rest);
    PartialWord(f, action, a, d, val, mask, 0, rest, want);
    PartialWordTest(f, action, a, d, val, mask, 0, rest, test, ret0);
    dest[f.Slot(d)] := Merge(f, action, mask, val, was);
    assert dest[..] == a[f.Slot(d) := Merge(f, action, mask, val, was)];
    ret := HandleWord(test, f.W, ret0, And(f.W, WordValue(f.W, action, val, was), f.Conv(mask)), f.Conv(mask));
    OffsetPos(f.W, d, 0, rest);
    assert Pos(f.W, d, rest) == rest + Pos(f.W, d, 0);
  }

  /** The body of __XDP2_BITMAP_2ARG_GEN from the first word boundary of the destination on: whole words, then
      what is left over. */
  method Body(f: Format, action: Action, dest: array<Word>, d: nat, src: Source, q: nat, sm: nat, n: nat,
              test: Test, ret0: nat, ghost want: seq<bool>)
    returns (ret: nat)
    requires f.Holds(dest.Length) && src.Fits(f) && sm < f.W && Guarded(f, src, q, sm, n)
    requires Pos(f.W, d, 0) + n <= dest.Length * f.W && Wants(f, src, d, q, sm, n, want)
    modifies dest
    ensures f.Bits(dest[..])
            == GenBits(action, old(f.Bits(dest[..])), want, Pos(f.W, d, 0), Pos(f.W, d, 0) + n)
    ensures ret == TestBits(test, ret0, f.Bits(dest[..]), Pos(f.W, d, 0), Pos(f.W, d, 0) + n)
  {
    hide *;
    HoldsWidth(f, dest.Length);
    GuardedHas(f, src, q, sm, n);
    ghost var B := f.Bits(dest[..]);
    ghost var lo := Pos(f.W, d, 0);
    GenEmpty(action, B, want, lo);
    TestEmpty(test, ret0, B, lo);
    var rd := Align(f, src, q, sm, n);
    AlignReady(f, src, q, sm, n);
    AlignShift(f, src, q, sm, n);
    ret := ret0;
    ghost var at := lo;
    var i: nat, rest: nat := 0, n;
    while rest >= f.W
      invariant at == Pos(f.W, d + i, 0) && lo <= at && at + rest == lo + n
      invariant Ready(f, src, rd, q + i, rest) && rd.shift == sm
      invariant Wants(f, src, d + i, q + i, sm, rest, want)
      invariant f.Bits(dest[..]) == GenBits(action, B, want, lo, at)
      invariant ret == TestBits(test, ret0, f.Bits(dest[..]), lo, at)
      decreases rest
    {
      FetchSupplies(f, src, rd, d + i, q + i, rest, f.W, want);
      InMap(f.W, d + i, 0, rest, dest.Length);
      ghost var before := f.Bits(dest[..]);
      ret := StoreWord(f, action, dest, d + i, Fetch(f, src, rd), test, ret, want);
      Extend(action, B, want, lo, at, at + f.W, test, ret0, before);
      AdvanceReady(f, src, rd, q + i, rest);
      AdvanceShift(f, src, rd);
      WantsRest(f, src, d + i, q + i, sm, rest, want);
      rd := Advance(f, src, rd);
      rest, i, at := rest - f.W, i + 1, at + f.W;
    }
    if rest > 0 {
      FetchSupplies(f, src, rd, d + i, q + i, rest, rest, want);
      InMap(f.W, d + i, 0, rest, dest.Length);
      ghost var before := f.Bits(dest[..]);
      ret := LastWord(f, action, dest, d + i, rest, Fetch(f, src, rd), test, ret, want);
      Extend(action, B, want, lo, at, at + rest, test, ret0, before);
    }
  }

  lemma TestEmpty(test: Test, ret: nat, b: seq<bool>, lo: nat)
    ensures TestBits(test, ret, b, lo, lo) == ret
  {
  }

  lemma AlignShift(f: Format, src: Source, q: nat, sm: nat, n: nat)
    requires src.Fits(f) && src.Has(q)
    ensures Align(f, src, q, sm, n).shift == sm
  {
  }

  lemma AdvanceShift(f: Format, src: Source, rd: Reader)
    requires src.Fits(f) && src.Has(rd.q)
    ensures Advance(f, src, rd).shift == rd.shift
  {
  }

  lemma LowMaskBits(W: nat, n: nat)
    requires n <= W
    ensures forall j: nat | j < W :: Bit(LowMask(W, n), j) == (0 <= j < n)
  {
  }

  /** One more stretch: positions [mid, hi) after [lo, mid). */
  lemma Extend(action: Action, B: seq<bool>, want: seq<bool>, lo: nat, mid: nat, hi: nat,
               test: Test, ret0: nat, before: seq<bool>)
    requires lo <= mid <= hi && before == GenBits(action, B, want, lo, mid)
    ensures GenBits(action, before, want, mid, hi) == GenBits(action, B, want, lo, hi)
    ensures TestBits(test, TestBits(test, ret0, before, lo, mid), GenBits(action, B, want, lo, hi), mid, hi)
            == TestBits(test, ret0, GenBits(action, B, want, lo, hi), lo, hi)
  {
    hide BitValue, TestBits;
    var after := GenBits(action, B, want, lo, hi);
    GenCompose(action, B, want, lo, mid, hi);
    TestSameBits(test, ret0, before, lo, mid, after, 0);
    TestAppends(test, ret0, after, lo, mid, hi);
  }

  /** Bit `p` is the source bit that belongs to destination position `p` when position `destPos` takes the
      source bit `srcPos`. */
  function Aligned(f: Format, src: Source, srcPos: nat, destPos: nat, len: nat): (r: seq<bool>)
    requires src.Fits(f)
    ensures |r| == len
    ensures forall p: nat :: destPos <= p < len ==> Bit(r, p) == src.HasBit(f, p - destPos + srcPos)
  {
    seq(len, (p: nat) => if destPos <= p then src.HasBit(f, p - destPos + srcPos) else false)
  }

  lemma AlignedWants(f: Format, src: Source, srcPos: nat, destPos: nat, len: nat, d: nat, q: nat, sm: nat, n: nat)
    requires src.Fits(f) && Pos(f.W, d, 0) + n <= len && destPos <= Pos(f.W, d, 0)
    requires Pos(f.W, d, 0) - destPos + srcPos == Pos(f.W, q, sm)
    ensures Wants(f, src, d, q, sm, n, Aligned(f, src, srcPos, destPos, len))
  {
    hide Pos, Format.Valid, Source.HasBit, Bit, Aligned;
  }

  /** The head value supplies the bits of the first, partial destination word. */
  lemma HeadSupplies(f: Format, src: Source, q: nat, sm: nat, d: nat, dm: nat, need: nat, len: nat)
    requires src.Fits(f) && sm < f.W && 0 < dm && dm + need <= f.W && Pos(f.W, d, dm) + need <= len
    requires src.Has(q) && (dm < sm ==> src.Has(q + 1))
    ensures Supplies(f, DestMod(f, src, q, sm, dm, need).val, d, dm, dm + need,
                     Aligned(f, src, Pos(f.W, q, sm), Pos(f.W, d, dm), len))
  {
    hide Pos, Format.Conv, Format.Valid, Source.HasBit, DestMod, Bit, Aligned;
    OffsetPos(f.W, d, 0, 0);
    assert Pos(f.W, d, dm) == dm + Pos(f.W, d, 0);
    forall j: nat | dm <= j < dm + need
      ensures Bit(f.Conv(DestMod(f, src, q, sm, dm, need).val), j)
              == Bit(Aligned(f, src, Pos(f.W, q, sm), Pos(f.W, d, dm), len), Pos(f.W, d, j))
    {
      DestModBit(f, src, q, sm, dm, need, j);
      assert Pos(f.W, d, j) == j + Pos(f.W, d, 0);
    }
  }

  /** The source has every word that is read for `n` bits from bit `sm` of word `q` on, the destination starting at bit
      `dm` of a word: those of the head, and then those from where the head leaves off. See Guarded. */
  predicate Readable(f: Format, src: Source, q: nat, sm: nat, dm: nat, n: nat) {
    if dm == 0 then Guarded(f, src, q, sm, n)
    else
      && src.Has(q)
      && (dm < sm ==> src.Has(q + 1))
      && (dm < f.W && f.W - dm < n ==>
            if sm >= dm then Guarded(f, src, q + 1, sm - dm, n - (f.W - dm))
            else Guarded(f, src, q, sm + f.W - dm, n - (f.W - dm)))
  }

  /** The same for the operands of a call: positions [destPos, nbits) take source bits from `srcPos` on. */
  predicate ReadableAt(f: Format, src: Source, srcPos: nat, destPos: nat, nbits: nat)
    requires f.W > 0 && destPos <= nbits
  {
    Readable(f, src, srcPos / f.W, srcPos % f.W, destPos % f.W, nbits - destPos)
  }

  lemma ReadableSplit(f: Format, src: Source, srcPos: nat, destPos: nat, nbits: nat, q: nat, sm: nat, dm: nat)
    requires f.W > 0 && destPos <= nbits && q == srcPos / f.W && sm == srcPos % f.W && dm == destPos % f.W
    requires ReadableAt(f, src, srcPos, destPos, nbits)
    ensures Readable(f, src, q, sm, dm, nbits - destPos)
  {
  }

  /** One word behind the bits used is always enough, if the length is a word short of 2^32. */
  lemma GuardWordSuffices(f: Format, src: Source, srcPos: nat, destPos: nat, nbits: nat)
    requires f.W > 0 && destPos <= nbits
    requires src.Map? ==> srcPos + (nbits - destPos) + f.W <= |src.words| * f.W && nbits - destPos + f.W <= TWO32
    ensures ReadableAt(f, src, srcPos, destPos, nbits)
  {
    hide Readable, Pos;
    assert srcPos == Pos(f.W, srcPos / f.W, srcPos % f.W) by { SplitPos(srcPos, f.W); }
    GuardWord(f, src, srcPos / f.W, srcPos % f.W, destPos % f.W, nbits - destPos);
  }

  lemma GuardWord(f: Format, src: Source, q: nat, sm: nat, dm: nat, n: nat)
    requires dm < f.W && sm < f.W
    requires src.Map? ==> Pos(f.W, q, sm) + n + f.W <= |src.words| * f.W && n + f.W <= TWO32
    ensures Readable(f, src, q, sm, dm, n)
  {
    if src.Map? {
      var W, len := f.W, |src.words|;
      assert (q + 1) * W == q * W + W && (q + 2) * W == q * W + 2 * W;
      Cancel(q, len, W);
      Cancel(q + 1, len, W);
    }
  }

  /** Where the operand goes on after the head. */
  lemma HeadNext(f: Format, src: Source, q: nat, sm: nat, dm: nat, n: nat)
    requires src.Fits(f) && sm < f.W && 0 < dm < f.W && f.W - dm < n && Readable(f, src, q, sm, dm, n)
    ensures src.Has(q) && (dm < sm ==> src.Has(q + 1))
    ensures var h := DestMod(f, src, q, sm, dm, f.W - dm);
      && h.sm < f.W
      && Guarded(f, src, h.q, h.sm, n - (f.W - dm))
      && Pos(f.W, h.q, h.sm) == Pos(f.W, q, sm) + (f.W - dm)
  {
    hide Pos, Format.Valid, Guarded, Or, Source.At;
    DestModNext(f, src, q, sm, dm);
  }

  lemma HeadHas(f: Format, src: Source, q: nat, sm: nat, dm: nat, n: nat)
    requires Readable(f, src, q, sm, dm, n)
    ensures dm > 0 ==> src.Has(q) && (dm < sm ==> src.Has(q + 1))
    ensures dm == 0 ==> Guarded(f, src, q, sm, n)
  {
  }

  lemma MaskBits(W: nat, lo: nat, n: nat)
    requires lo + n <= W
    ensures forall j: nat | j < W :: Bit(Mask(W, lo, n), j) == (lo <= j < lo + n)
  {
  }

  /** The first, partial destination word. */
  method HeadWord(f: Format, action: Action, dest: array<Word>, d: nat, dm: nat, need: nat, val: Word,
                  test: Test, ghost want: seq<bool>)
    returns (ret: nat)
    requires f.Holds(dest.Length) && 0 < dm && dm + need <= f.W && d < dest.Length
    requires Supplies(f, val, d, dm, dm + need, want)
    modifies dest
    ensures f.Bits(dest[..])
            == GenBits(action, old(f.Bits(dest[..])), want, Pos(f.W, d, dm), Pos(f.W, d, dm) + need)
    ensures ret == TestBits(test, 0, f.Bits(dest[..]), Pos(f.W, d, dm), Pos(f.W, d, dm) + need)
  {
    hide *;
    HoldsWidth(f, dest.Length);
    SlotInside(f, dest.Length, d);
    var mask := Mask(f.W, dm, need);
    MaskBits(f.W, dm, need);
    ghost var a := dest[..];
    var was := dest[f.Slot(d)];
    PartialWord(f, action, a, d, val, mask, dm, dm + need, want);
    PartialWordTest(f, action, a, d, val, mask, dm, dm + need, test, 0);
    dest[f.Slot(d)] := Merge(f, action, mask, val, was);
    assert dest[..] == a[f.Slot(d) := Merge(f, action, mask, val, was)];
    ret := HandleWord(test, f.W, 0, And(f.W, WordValue(f.W, action, val, was), f.Conv(mask)), f.Conv(mask));
    OffsetPos(f.W, d, 0, 0);
    assert Pos(f.W, d, dm + need) == dm + need + Pos(f.W, d, 0);
    assert Pos(f.W, d, dm) == dm + Pos(f.W, d, 0);
  }

  /** Gen2 with the positions split into word and bit. */
  method Gen2At(f: Format, action: Action, dest: array<Word>, d0: nat, dm: nat, src: Source, q0: nat, sm0: nat,
                n0: nat, test: Test)
    returns (ret: nat)
    requires f.Holds(dest.Length) && src.Fits(f) && dm < f.W && sm0 < f.W && Readable(f, src, q0, sm0, dm, n0)
    requires Pos(f.W, d0, dm) + n0 <= dest.Length * f.W
    modifies dest
    ensures var lo, hi := Pos(f.W, d0, dm), Pos(f.W, d0, dm) + n0;
      && f.Bits(dest[..])
         == GenBits(action, old(f.Bits(dest[..])), Aligned(f, src, Pos(f.W, q0, sm0), lo, hi), lo, hi)
      && ret == TestBits(test, 0, f.Bits(dest[..]), lo, hi)
  {
    hide *;
    HoldsWidth(f, dest.Length);
    ghost var lo, hi := Pos(f.W, d0, dm), Pos(f.W, d0, dm) + n0;
    ghost var want, B, at := Aligned(f, src, Pos(f.W, q0, sm0), lo, hi), f.Bits(dest[..]), lo;
    var n, d, q, sm := n0, d0, q0, sm0;
    OffsetPos(f.W, d0, 0, 0);
    assert Pos(f.W, d0, dm) == dm + Pos(f.W, d0, 0);
    ret := 0;
    HeadHas(f, src, q, sm, dm, n);
    if dm > 0 {
      var need := if f.W - dm <= n then f.W - dm else n;
      InMap(f.W, d, 0, dm, dest.Length);
      HeadSupplies(f, src, q, sm, d, dm, need, hi);
      var h := DestMod(f, src, q, sm, dm, need);
      ret := HeadWord(f, action, dest, d, dm, need, h.val, test, want);
      n := n - need;
      if n == 0 {
        return;
      }
      HeadNext(f, src, q, sm, dm, n0);
      d, q, sm, at := d + 1, h.q, h.sm, lo + need;
    } else {
      GenEmpty(action, B, want, lo);
      TestEmpty(test, 0, B, lo);
    }
    AlignedWants(f, src, Pos(f.W, q0, sm0), lo, hi, d, q, sm, n);
    ghost var mid := f.Bits(dest[..]);
    ret := Body(f, action, dest, d, src, q, sm, n, test, ret, want);
    Extend(action, B, want, lo, at, hi, test, 0, mid);
  }

  /** __XDP2_BITMAP_2ARG_GEN: positions [destPos, nbits) of `dest` take the value the action gives them, the
      source bits being read from `srcPos` on. `ret` is the test over those positions of the result. */
  method Gen2(f: Format, action: Action, dest: array<Word>, destPos: nat, src: Source, srcPos: nat, nbits: nat,
              test: Test)
    returns (ret: nat)
    requires f.Holds(dest.Length) && src.Fits(f) && destPos <= nbits <= dest.Length * f.W
    requires ReadableAt(f, src, srcPos, destPos, nbits)
    modifies dest
    ensures f.Bits(dest[..])
            == GenBits(action, old(f.Bits(dest[..])), Aligned(f, src, srcPos, destPos, nbits), destPos, nbits)
    ensures ret == TestBits(test, 0, f.Bits(dest[..]), destPos, nbits)
  {
    hide *;
    HoldsWidth(f, dest.Length);
    var d, dm := Split(destPos, f.W);
    var q, sm := Split(srcPos, f.W);
    ReadableSplit(f, src, srcPos, destPos, nbits, q, sm, dm);
    ret := Gen2At(f, action, dest, d, dm, src, q, sm, nbits - destPos, test);
  }
}
