/** What the operators of the bitmap operations do, seen from outside. */
module Laws {
  import opened Words
  import opened Bitmap
  import opened Tests
  import opened GenOps
  import opened Gen
  import opened Find
  import opened Compare

  const XOR: Op := Op(XorOp, false, false, false)

  /** The operators are known from AND: OR is its dual, and each negation negates its place. */
  lemma OperatorLaws(op: Op, a: bool, b: bool)
    ensures BitOp(op.(neg := !op.neg), a, b) == !BitOp(op, a, b)
    ensures BitOp(op.(neg1 := !op.neg1), a, b) == BitOp(op, !a, b)
    ensures BitOp(op.(neg2 := !op.neg2), a, b) == BitOp(op, a, !b)
    ensures op.base == AndOp && !op.neg && !op.neg1 && !op.neg2 ==> (BitOp(op, a, b) <==> a && b)
    ensures op.base == OrOp ==> BitOp(op, a, b) == !BitOp(op.(base := AndOp), !a, !b)
    ensures op.base == XorOp && !op.neg && !op.neg1 && !op.neg2 ==> (BitOp(op, a, b) <==> a != b)
  {
  }

  lemma XorBits(B: seq<bool>, want: seq<bool>, lo: nat, hi: nat)
    ensures GenBits(Combine(XOR), GenBits(Combine(XOR), B, want, lo, hi), want, lo, hi) == B
  {
    var r := GenBits(Combine(XOR), GenBits(Combine(XOR), B, want, lo, hi), want, lo, hi);
    hide GenBits;
    SameBits(r, B);
  }

  /** Exclusive or with the same operand twice restores the destination. */
  method XorTwice(f: Format, dest: array<Word>, destPos: nat, src: Source, srcPos: nat, nbits: nat)
    requires f.Holds(dest.Length) && src.Fits(f) && destPos <= nbits <= dest.Length * f.W
    requires ReadableAt(f, src, srcPos, destPos, nbits)
    modifies dest
    ensures f.Bits(dest[..]) == old(f.Bits(dest[..]))
  {
    hide *;
    XorBits(f.Bits(dest[..]), Aligned(f, src, srcPos, destPos, nbits), destPos, nbits);
    var _ := Gen2(f, Combine(XOR), dest, destPos, src, srcPos, nbits, NoTest);
    var _ := Gen2(f, Combine(XOR), dest, destPos, src, srcPos, nbits, NoTest);
  }

  /** Bit `p` of the destination and the source bit that belongs to it. */
  predicate Agree(f: Format, a: seq<Word>, pos: nat, src: Source, srcPos: nat, p: nat)
    requires f.Holds(|a|) && src.Fits(f) && pos <= p
  {
    Bit(f.Bits(a), p) == src.HasBit(f, p - pos + srcPos)
  }

  lemma DiffersAt(f: Format, a: seq<Word>, pos: nat, src: Source, srcPos: nat, nbits: nat, p: nat)
    requires f.Holds(|a|) && src.Fits(f) && pos <= p < nbits <= |a| * f.W
    ensures Bit(GenBits(Combine(XOR), f.Bits(a), Aligned(f, src, srcPos, pos, nbits), pos, nbits), p)
            <==> !Agree(f, a, pos, src, srcPos, p)
  {
    hide Format.Bits, Format.Valid, Source.HasBit, GenBits, Aligned;
  }

  /** A compare for differences: the ranges agree up to the position returned, and differ there unless it is the end. */
  method FirstDifference(f: Format, a: seq<Word>, pos: nat, src: Source, srcPos: nat, nbits: nat) returns (w: nat)
    requires f.Holds(|a|) && src.Fits(f) && pos <= nbits <= |a| * f.W && ReadableAt(f, src, srcPos, pos, nbits)
    ensures pos <= w <= nbits
    ensures forall p: nat :: pos <= p < w ==> Agree(f, a, pos, src, srcPos, p)
    ensures w < nbits ==> !Agree(f, a, pos, src, srcPos, w)
  {
    hide Format.Bits, Format.Valid, Source.HasBit, Source.Fits, GenBits, Aligned, Agree, ReadableAt;
    w := CompareGen(f, XOR, a, pos, src, srcPos, nbits);
    forall p: nat | pos <= p < nbits
      ensures Bit(GenBits(Combine(XOR), f.Bits(a), Aligned(f, src, srcPos, pos, nbits), pos, nbits), p)
              <==> !Agree(f, a, pos, src, srcPos, p)
    {
      DiffersAt(f, a, pos, src, srcPos, nbits, p);
    }
  }

  lemma MovedTwice(f: Format, mid: seq<Word>, B: seq<bool>, src: Source, srcPos: nat, n: nat, M: seq<bool>)
    requires f.Holds(|mid|) && src.Fits(f) && n <= |mid| * f.W && |M| == |mid| * f.W
    requires f.Bits(mid) == GenBits(Move(true), M, Aligned(f, src, srcPos, 0, n), 0, n)
    ensures GenBits(Move(true), B, Aligned(f, Map(mid), 0, 0, n), 0, n)
            == GenBits(Move(false), B, Aligned(f, src, srcPos, 0, n), 0, n)
  {
    var x, y := GenBits(Move(true), B, Aligned(f, Map(mid), 0, 0, n), 0, n),
                GenBits(Move(false), B, Aligned(f, src, srcPos, 0, n), 0, n);
    hide Format.Bits, Format.Valid, GenBits, Aligned;
    forall p: nat | p < |B| ensures Bit(x, p) == Bit(y, p) {
      if p < n { assert Map(mid).HasBit(f, p) == Bit(f.Bits(mid), p); }
    }
    SameBits(x, y);
  }

  /** From position 0 to position 0 the map itself is all that is read. */
  lemma WholeReadable(f: Format, words: seq<Word>, n: nat)
    requires f.Holds(|words|) && |words| > 0 && n <= |words| * f.W
    ensures Map(words).Fits(f) && ReadableAt(f, Map(words), 0, 0, n)
  {
  }

  /** Copying with negation, by way of another map, and again: a copy. */
  method NotTwice(f: Format, dest: array<Word>, mid: array<Word>, src: Source, srcPos: nat, nbits: nat)
    requires f.Holds(dest.Length) && f.Holds(mid.Length) && dest != mid && src.Fits(f)
    requires nbits <= dest.Length * f.W && nbits <= mid.Length * f.W && mid.Length > 0
    requires ReadableAt(f, src, srcPos, 0, nbits)
    modifies dest, mid
    ensures f.Bits(dest[..]) == GenBits(Move(false), old(f.Bits(dest[..])), Aligned(f, src, srcPos, 0, nbits), 0, nbits)
  {
    ghost var M := f.Bits(mid[..]);
    hide *;
    var _ := Gen2(f, Move(true), mid, 0, src, srcPos, nbits, NoTest);
    MovedTwice(f, mid[..], f.Bits(dest[..]), src, srcPos, nbits, M);
    WholeReadable(f, mid[..], nbits);
    var _ := Gen2(f, Move(true), dest, 0, Map(mid[..]), 0, nbits, NoTest);
  }
}
