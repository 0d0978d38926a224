/** The general operation on two sources and a destination, each at its own bit position. */
module Gen3 {
  import opened Words
  import opened Bitmap
  import opened Tests
  import opened GenOps
  import opened Reader
  import opened Gen

  /** The operator applied bit by bit. */
  function Both(op: Op, x: seq<bool>, y: seq<bool>, len: nat): (r: seq<bool>)
    ensures |r| == len && forall p: nat :: p < len ==> Bit(r, p) == BitOp(op, Bit(x, p), Bit(y, p))
  {
    seq(len, (p: nat) => BitOp(op, Bit(x, p), Bit(y, p)))
  }

  lemma OpSupplies(f: Format, op: Op, v1: Word, v2: Word, k: nat, lo: nat, hi: nat,
                   want1: seq<bool>, want2: seq<bool>, len: nat)
    requires f.Valid() && lo <= hi <= f.W && Pos(f.W, k, 0) + hi <= len
    requires Supplies(f, v1, k, lo, hi, want1) && Supplies(f, v2, k, lo, hi, want2)
    ensures Supplies(f, WordOp(f.W, op, v1, v2), k, lo, hi, Both(op, want1, want2, len))
  {
    hide Pos, Format.Conv, Format.Valid, BitOp, WordOp, Bit, Both;
    forall j: nat | lo <= j < hi
      ensures Bit(f.Conv(WordOp(f.W, op, v1, v2)), j) == Bit(Both(op, want1, want2, len), Pos(f.W, k, j))
    {
      MergeBits(f, Combine(op), Ones(f.W), v1, v2, j);
      OffsetPos(f.W, k, lo, hi);
      assert Pos(f.W, k, j) == j + Pos(f.W, k, 0);
    }
  }

  /** The body of __XDP2_BITMAP_3ARG_GEN from the first word boundary of the destination on. */
  method Body3(f: Format, op: Op, dest: array<Word>, d: nat, src1: Source, q1: nat, sm1: nat,
               src2: Source, q2: nat, sm2: nat, n: nat, test: Test, ret0: nat,
               ghost want1: seq<bool>, ghost want2: seq<bool>, ghost want: seq<bool>)
    returns (ret: nat)
    requires f.Holds(dest.Length) && Pos(f.W, d, 0) + n <= dest.Length * f.W
    requires src1.Fits(f) && sm1 < f.W && Guarded(f, src1, q1, sm1, n) && Wants(f, src1, d, q1, sm1, n, want1)
    requires src2.Fits(f) && sm2 < f.W && Guarded(f, src2, q2, sm2, n) && Wants(f, src2, d, q2, sm2, n, want2)
    requires want == Both(op, want1, want2, Pos(f.W, d, 0) + n)
    modifies dest
    ensures f.Bits(dest[..])
            == GenBits(Move(false), old(f.Bits(dest[..])), want, Pos(f.W, d, 0), Pos(f.W, d, 0) + n)
    ensures ret == TestBits(test, ret0, f.Bits(dest[..]), Pos(f.W, d, 0), Pos(f.W, d, 0) + n)
  {
    hide *;
    HoldsWidth(f, dest.Length);
    GuardedHas(f, src1, q1, sm1, n);
    GuardedHas(f, src2, q2, sm2, n);
    ghost var B, lo, action := f.Bits(dest[..]), Pos(f.W, d, 0), Move(false);
    GenEmpty(action, B, want, lo);
    TestEmpty(test, ret0, B, lo);
    var rd1, rd2 := Align(f, src1, q1, sm1, n), Align(f, src2, q2, sm2, n);
    AlignReady(f, src1, q1, sm1, n);
    AlignReady(f, src2, q2, sm2, n);
    AlignShift(f, src1, q1, sm1, n);
    AlignShift(f, src2, q2, sm2, n);
    ret := ret0;
    ghost var at := lo;
    var i: nat, rest: nat := 0, n;
    while rest >= f.W
      invariant at == Pos(f.W, d + i, 0) && lo <= at && at + rest == lo + n
      invariant Ready(f, src1, rd1, q1 + i, rest) && rd1.shift == sm1
      invariant Ready(f, src2, rd2, q2 + i, rest) && rd2.shift == sm2
      invariant Wants(f, src1, d + i, q1 + i, sm1, rest, want1)
      invariant Wants(f, src2, d + i, q2 + i, sm2, rest, want2)
      invariant f.Bits(dest[..]) == GenBits(action, B, want, lo, at)
      invariant ret == TestBits(test, ret0, f.Bits(dest[..]), lo, at)
      decreases rest
    {
      FetchSupplies(f, src1, rd1, d + i, q1 + i, rest, f.W, want1);
      FetchSupplies(f, src2, rd2, d + i, q2 + i, rest, f.W, want2);
      InMap(f.W, d + i, 0, rest, dest.Length);
      ghost var before := f.Bits(dest[..]);
      var v := WordOp(f.W, op, Fetch(f, src1, rd1), Fetch(f, src2, rd2));
      OpSupplies(f, op, Fetch(f, src1, rd1), Fetch(f, src2, rd2), d + i, 0, f.W, want1, want2, lo + n);
      ret := StoreWord(f, Move(false), dest, d + i, v, test, ret, want);
      Extend(action, B, want, lo, at, at + f.W, test, ret0, before);
      AdvanceReady(f, src1, rd1, q1 + i, rest);
      AdvanceReady(f, src2, rd2, q2 + i, rest);
      AdvanceShift(f, src1, rd1);
      AdvanceShift(f, src2, rd2);
      WantsRest(f, src1, d + i, q1 + i, sm1, rest, want1);
      WantsRest(f, src2, d + i, q2 + i, sm2, rest, want2);
      rd1, rd2 := Advance(f, src1, rd1), Advance(f, src2, rd2);
      rest, i, at := rest - f.W, i + 1, at + f.W;
    }
    if rest > 0 {
      FetchSupplies(f, src1, rd1, d + i, q1 + i, rest, rest, want1);
      FetchSupplies(f, src2, rd2, d + i, q2 + i, rest, rest, want2);
      InMap(f.W, d + i, 0, rest, dest.Length);
      var v := WordOp(f.W, op, Fetch(f, src1, rd1), Fetch(f, src2, rd2));
      OpSupplies(f, op, Fetch(f, src1, rd1), Fetch(f, src2, rd2), d + i, 0, rest, want1, want2, lo + n);
      ghost var before := f.Bits(dest[..]);
      ret := LastWord(f, Move(false), dest, d + i, rest, v, test, ret, want);
      Extend(action, B, want, lo, at, at + rest, test, ret0, before);
    }
  }

  /** Gen3 with the positions split into word and bit. */
  method Gen3At(f: Format, op: Op, dest: array<Word>, d0: nat, dm: nat, src1: Source, q1: nat, sm1: nat,
                src2: Source, q2: nat, sm2: nat, n0: nat, test: Test)
    returns (ret: nat)
    requires f.Holds(dest.Length) && dm < f.W && Pos(f.W, d0, dm) + n0 <= dest.Length * f.W
    requires src1.Fits(f) && sm1 < f.W && Readable(f, src1, q1, sm1, dm, n0)
    requires src2.Fits(f) && sm2 < f.W && Readable(f, src2, q2, sm2, dm, n0)
    modifies dest
    ensures var lo, hi := Pos(f.W, d0, dm), Pos(f.W, d0, dm) + n0;
      && f.Bits(dest[..])
         == GenBits(Move(false), old(f.Bits(dest[..])),
                    Both(op, Aligned(f, src1, Pos(f.W, q1, sm1), lo, hi), Aligned(f, src2, Pos(f.W, q2, sm2), lo, hi), hi),
                    lo, hi)
      && ret == TestBits(test, 0, f.Bits(dest[..]), lo, hi)
  {
    hide *;
    HoldsWidth(f, dest.Length);
    ghost var lo, hi := Pos(f.W, d0, dm), Pos(f.W, d0, dm) + n0;
    ghost var want1, want2 := Aligned(f, src1, Pos(f.W, q1, sm1), lo, hi), Aligned(f, src2, Pos(f.W, q2, sm2), lo, hi);
    ghost var want, B, at := Both(op, want1, want2, hi), f.Bits(dest[..]), lo;
    var n, d, at1, s1, at2, s2 := n0, d0, q1, sm1, q2, sm2;
    OffsetPos(f.W, d0, 0, 0);
    assert Pos(f.W, d0, dm) == dm + Pos(f.W, d0, 0);
    ret := 0;
    HeadHas(f, src1, q1, sm1, dm, n);
    HeadHas(f, src2, q2, sm2, dm, n);
    if dm > 0 {
      var need := if f.W - dm <= n then f.W - dm else n;
      InMap(f.W, d, 0, dm, dest.Length);
      HeadSupplies(f, src1, q1, sm1, d, dm, need, hi);
      HeadSupplies(f, src2, q2, sm2, d, dm, need, hi);
      var h1, h2 := DestMod(f, src1, q1, sm1, dm, need), DestMod(f, src2, q2, sm2, dm, need);
      OpSupplies(f, op, h1.val, h2.val, d, dm, dm + need, want1, want2, hi);
      ret := HeadWord(f, Move(false), dest, d, dm, need, WordOp(f.W, op, h1.val, h2.val), test, want);
      n := n - need;
      if n == 0 {
        return;
      }
      HeadNext(f, src1, q1, sm1, dm, n0);
      HeadNext(f, src2, q2, sm2, dm, n0);
      d, at1, s1, at2, s2, at := d + 1, h1.q, h1.sm, h2.q, h2.sm, lo + need;
    } else {
      GenEmpty(Move(false), B, want, lo);
      TestEmpty(test, 0, B, lo);
    }
    AlignedWants(f, src1, Pos(f.W, q1, sm1), lo, hi, d, at1, s1, n);
    AlignedWants(f, src2, Pos(f.W, q2, sm2), lo, hi, d, at2, s2, n);
    ghost var mid := f.Bits(dest[..]);
    ret := Body3(f, op, dest, d, src1, at1, s1, src2, at2, s2, n, test, ret, want1, want2, want);
    Extend(Move(false), B, want, lo, at, hi, test, 0, mid);
  }

  /** __XDP2_BITMAP_3ARG_GEN: positions [destPos, nbits) of `dest` become the operator applied to the bits of the
      two operands, read from `pos1` and `pos2` on. */
  method Gen3(f: Format, op: Op, dest: array<Word>, destPos: nat, src1: Source, pos1: nat, src2: Source, pos2: nat,
              nbits: nat, test: Test)
    returns (ret: nat)
    requires f.Holds(dest.Length) && src1.Fits(f) && src2.Fits(f) && destPos <= nbits <= dest.Length * f.W
    requires ReadableAt(f, src1, pos1, destPos, nbits) && ReadableAt(f, src2, pos2, destPos, nbits)
    modifies dest
    ensures f.Bits(dest[..])
            == GenBits(Move(false), old(f.Bits(dest[..])),
                       Both(op, Aligned(f, src1, pos1, destPos, nbits), Aligned(f, src2, pos2, destPos, nbits), nbits),
                       destPos, nbits)
    ensures ret == TestBits(test, 0, f.Bits(dest[..]), destPos, nbits)
  {
    hide *;
    HoldsWidth(f, dest.Length);
    var d, dm := Split(destPos, f.W);
    var q1, sm1 := Split(pos1, f.W);
    var q2, sm2 := Split(pos2, f.W);
    ReadableSplit(f, src1, pos1, destPos, nbits, q1, sm1, dm);
    ReadableSplit(f, src2, pos2, destPos, nbits, q2, sm2, dm);
    ret := Gen3At(f, op, dest, d, dm, src1, q1, sm1, src2, q2, sm2, nbits - destPos, test);
  }
}
