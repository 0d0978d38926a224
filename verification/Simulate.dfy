/** Simulation: every operation does the same to a map whatever its layout in memory. Each method runs an operation on
    maps in one format and on the same maps in another, say forward and reverse, or host order and byte-swapped. */
module Simulate {
  import opened Words
  import opened Bitmap
  import opened Shift
  import opened Rotate
  import opened Tests
  import opened GenOps
  import opened Gen
  import Gen3
  import opened Same
  import opened Find
  import opened Compare

  /** The same operand in two formats. */
  predicate SameSource(f: Format, x: Source, g: Format, y: Source)
    requires x.Fits(f) && y.Fits(g)
  {
    && f.W == g.W
    && (x.Map? <==> y.Map?)
    && if x.Map? then Mirrors(f, x.words, g, y.words) else f.Conv(x.word) == g.Conv(y.word)
  }

  lemma SameSourceBit(f: Format, x: Source, g: Format, y: Source, p: nat)
    requires x.Fits(f) && y.Fits(g) && SameSource(f, x, g, y)
    ensures x.HasBit(f, p) == y.HasBit(g, p)
  {
    hide Format.Bits, Format.Conv, Format.Get;
    if x.Map? {
      MirrorsIff(f, x.words, g, y.words);
    }
  }

  /** The operand supplies the same bits, and the same words of it are read. */
  lemma SameAligned(f: Format, x: Source, g: Format, y: Source, srcPos: nat, destPos: nat, len: nat)
    requires x.Fits(f) && y.Fits(g) && SameSource(f, x, g, y)
    ensures Aligned(f, x, srcPos, destPos, len) == Aligned(g, y, srcPos, destPos, len)
  {
    hide Source.HasBit, Source.Fits, SameSource;
    var v, w := Aligned(f, x, srcPos, destPos, len), Aligned(g, y, srcPos, destPos, len);
    forall p: nat | p < len ensures v[p] == w[p] {
      if destPos <= p { SameSourceBit(f, x, g, y, p - destPos + srcPos); }
    }
  }

  lemma SameReadable(f: Format, x: Source, g: Format, y: Source, q: nat, sm: nat, dm: nat, n: nat)
    requires x.Fits(f) && y.Fits(g) && SameSource(f, x, g, y) && Readable(f, x, q, sm, dm, n)
    ensures Readable(g, y, q, sm, dm, n)
  {
    hide Format.Get, Format.Conv, Pos;
  }

  lemma SameReadableAt(f: Format, x: Source, g: Format, y: Source, srcPos: nat, destPos: nat, nbits: nat)
    requires x.Fits(f) && y.Fits(g) && SameSource(f, x, g, y) && destPos <= nbits && ReadableAt(f, x, srcPos, destPos, nbits)
    ensures ReadableAt(g, y, srcPos, destPos, nbits)
  {
    hide Readable, Format.Get, Format.Conv;
    SameReadable(f, x, g, y, srcPos / f.W, srcPos % f.W, destPos % f.W, nbits - destPos);
  }

  lemma LeastUnique(b: seq<bool>, neg: bool, lo: nat, hi: nat, v: nat, w: nat)
    requires Least(b, neg, lo, hi, v) && Least(b, neg, lo, hi, w)
    ensures v == w
  {
  }

  lemma LeastCyclicUnique(b: seq<bool>, neg: bool, pos: nat, nbits: nat, v: nat, w: nat)
    requires pos <= nbits && LeastCyclic(b, neg, pos, nbits, v) && LeastCyclic(b, neg, pos, nbits, w)
    ensures v == w
  {
    hide Bit;
  }

  method FindBoth(f: Format, g: Format, a: seq<Word>, a': seq<Word>, neg: bool, pos: nat, nbits: nat)
    returns (w: nat, w': nat)
    requires f.Holds(|a|) && g.Holds(|a'|) && Mirrors(f, a, g, a') && pos <= nbits <= |a| * f.W
    ensures w == w'
  {
    MirrorsIff(f, a, g, a');
    hide *;
    w := FindFrom(f, a, neg, pos, nbits);
    w' := FindFrom(g, a', neg, pos, nbits);
    LeastUnique(f.Bits(a), neg, pos, nbits, w, w');
  }

  method FindRollBoth(f: Format, g: Format, a: seq<Word>, a': seq<Word>, neg: bool, pos: nat, nbits: nat)
    returns (w: nat, w': nat)
    requires f.Holds(|a|) && g.Holds(|a'|) && Mirrors(f, a, g, a') && pos <= nbits <= |a| * f.W
    ensures w == w'
  {
    MirrorsIff(f, a, g, a');
    hide *;
    w := FindRoll(f, a, neg, pos, nbits);
    w' := FindRoll(g, a', neg, pos, nbits);
    LeastCyclicUnique(f.Bits(a), neg, pos, nbits, w, w');
  }

  method TestBoth(f: Format, g: Format, a: seq<Word>, a': seq<Word>, pos: nat, nbits: nat, test: Test)
    returns (w: nat, w': nat)
    requires f.Holds(|a|) && g.Holds(|a'|) && Mirrors(f, a, g, a') && pos <= nbits <= |a| * f.W
    ensures w == w'
  {
    MirrorsIff(f, a, g, a');
    hide *;
    w := TestRange(f, a, pos, nbits, test);
    w' := TestRange(g, a', pos, nbits, test);
  }

  method CompareBoth(f: Format, g: Format, op: Op, a: seq<Word>, a': seq<Word>, pos: nat, src: Source, src': Source,
                     srcPos: nat, nbits: nat)
    returns (w: nat, w': nat)
    requires f.Holds(|a|) && g.Holds(|a'|) && Mirrors(f, a, g, a') && pos <= nbits <= |a| * f.W
    requires src.Fits(f) && src'.Fits(g) && SameSource(f, src, g, src')
    requires ReadableAt(f, src, srcPos, pos, nbits)
    ensures w == w'
  {
    MirrorsIff(f, a, g, a');
    SameAligned(f, src, g, src', srcPos, pos, nbits);
    SameReadableAt(f, src, g, src', srcPos, pos, nbits);
    ghost var t := GenBits(Combine(op), f.Bits(a), Aligned(f, src, srcPos, pos, nbits), pos, nbits);
    hide *;
    w := CompareGen(f, op, a, pos, src, srcPos, nbits);
    w' := CompareGen(g, op, a', pos, src', srcPos, nbits);
    LeastUnique(t, false, pos, nbits, w, w');
  }

  method Gen2Both(f: Format, g: Format, action: Action, dest: array<Word>, dest': array<Word>, destPos: nat,
                  src: Source, src': Source, srcPos: nat, nbits: nat, test: Test)
    returns (r: nat, r': nat)
    requires dest != dest' && f.Holds(dest.Length) && g.Holds(dest'.Length) && Mirrors(f, dest[..], g, dest'[..])
    requires src.Fits(f) && src'.Fits(g) && SameSource(f, src, g, src') && destPos <= nbits <= dest.Length * f.W
    requires ReadableAt(f, src, srcPos, destPos, nbits)
    modifies dest, dest'
    ensures r == r' && Mirrors(f, dest[..], g, dest'[..])
  {
    MirrorsIff(f, dest[..], g, dest'[..]);
    SameAligned(f, src, g, src', srcPos, destPos, nbits);
    SameReadableAt(f, src, g, src', srcPos, destPos, nbits);
    hide *;
    r := Gen2(f, action, dest, destPos, src, srcPos, nbits, test);
    r' := Gen2(g, action, dest', destPos, src', srcPos, nbits, test);
    MirrorsIff(f, dest[..], g, dest'[..]);
  }

  method Gen3Both(f: Format, g: Format, op: Op, dest: array<Word>, dest': array<Word>, destPos: nat,
                  src1: Source, src1': Source, pos1: nat, src2: Source, src2': Source, pos2: nat, nbits: nat, test: Test)
    returns (r: nat, r': nat)
    requires dest != dest' && f.Holds(dest.Length) && g.Holds(dest'.Length) && Mirrors(f, dest[..], g, dest'[..])
    requires src1.Fits(f) && src1'.Fits(g) && SameSource(f, src1, g, src1') && destPos <= nbits <= dest.Length * f.W
    requires src2.Fits(f) && src2'.Fits(g) && SameSource(f, src2, g, src2')
    requires ReadableAt(f, src1, pos1, destPos, nbits)
    requires ReadableAt(f, src2, pos2, destPos, nbits)
    modifies dest, dest'
    ensures r == r' && Mirrors(f, dest[..], g, dest'[..])
  {
    MirrorsIff(f, dest[..], g, dest'[..]);
    SameAligned(f, src1, g, src1', pos1, destPos, nbits);
    SameAligned(f, src2, g, src2', pos2, destPos, nbits);
    SameReadableAt(f, src1, g, src1', pos1, destPos, nbits);
    SameReadableAt(f, src2, g, src2', pos2, destPos, nbits);
    hide *;
    r := Gen3.Gen3(f, op, dest, destPos, src1, pos1, src2, pos2, nbits, test);
    r' := Gen3.Gen3(g, op, dest', destPos, src1', pos1, src2', pos2, nbits, test);
    MirrorsIff(f, dest[..], g, dest'[..]);
  }

  lemma SameCovers(f: Format, x: Source, g: Format, y: Source, n: nat)
    requires x.Fits(f) && y.Fits(g) && SameSource(f, x, g, y) && Covers(f, x, n)
    ensures Covers(g, y, n)
  {
    hide Format.Get, Format.Conv;
  }

  method Same2Both(f: Format, g: Format, action: Action, dest: array<Word>, dest': array<Word>, src: Source, src': Source,
                   pos: nat, nbits: nat, test: Test)
    returns (r: nat, r': nat)
    requires dest != dest' && f.Holds(dest.Length) && g.Holds(dest'.Length) && Mirrors(f, dest[..], g, dest'[..])
    requires src.Fits(f) && src'.Fits(g) && SameSource(f, src, g, src') && Covers(f, src, nbits)
    requires pos <= nbits <= dest.Length * f.W
    modifies dest, dest'
    ensures r == r' && Mirrors(f, dest[..], g, dest'[..])
  {
    MirrorsIff(f, dest[..], g, dest'[..]);
    SameAligned(f, src, g, src', pos, pos, nbits);
    SameCovers(f, src, g, src', nbits);
    hide *;
    r := Same2(f, action, dest, src, pos, nbits, test);
    r' := Same2(g, action, dest', src', pos, nbits, test);
    MirrorsIff(f, dest[..], g, dest'[..]);
  }

  method Same3Both(f: Format, g: Format, op: Op, dest: array<Word>, dest': array<Word>, src1: Source, src1': Source,
                   src2: Source, src2': Source, pos: nat, nbits: nat, test: Test)
    returns (r: nat, r': nat)
    requires dest != dest' && f.Holds(dest.Length) && g.Holds(dest'.Length) && Mirrors(f, dest[..], g, dest'[..])
    requires src1.Fits(f) && src1'.Fits(g) && SameSource(f, src1, g, src1') && Covers(f, src1, nbits)
    requires src2.Fits(f) && src2'.Fits(g) && SameSource(f, src2, g, src2') && Covers(f, src2, nbits)
    requires pos <= nbits <= dest.Length * f.W
    modifies dest, dest'
    ensures r == r' && Mirrors(f, dest[..], g, dest'[..])
  {
    MirrorsIff(f, dest[..], g, dest'[..]);
    SameAligned(f, src1, g, src1', pos, pos, nbits);
    SameAligned(f, src2, g, src2', pos, pos, nbits);
    SameCovers(f, src1, g, src1', nbits);
    SameCovers(f, src2, g, src2', nbits);
    hide *;
    r := Same3(f, op, dest, src1, src2, pos, nbits, test);
    r' := Same3(g, op, dest', src1', src2', pos, nbits, test);
    MirrorsIff(f, dest[..], g, dest'[..]);
  }

  // Shifts and rotations, in place or not.

  /** Words copied from behind the map are the same words in both formats. */
  lemma CopiedMirrors(f: Format, S: seq<Word>, D: seq<Word>, a: seq<Word>, g: Format, S': seq<Word>, D': seq<Word>,
                      a': seq<Word>, numShift: nat, n: nat)
    requires f.Holds(|S|) && f.Holds(|D|) && g.Holds(|S'|) && g.Holds(|D'|) && 0 < n <= |S| && n <= |D|
    requires Mirrors(f, S, g, S') && Mirrors(f, D, g, D') && numShift % f.W == 0
    requires RightFits(f.W, numShift, n, |D|, |S|)
    requires RightShifted(f, S, D, a, numShift, n) && RightShifted(g, S', D', a', numShift, n)
    ensures f.Holds(|a|) && g.Holds(|a'|) && Mirrors(f, a, g, a')
  {
    hide RightWord, RightCount, RightOffset, RightFits, Format.Conv, Format.Valid, Pos, Bit, Zero;
    HoldsWidth(f, |S|);
    SplitPos(numShift, f.W);
    forall k: nat, j: nat | k < |a| && j < f.W ensures Bit(f.Get(a, k), j) == Bit(g.Get(a', k), j) {
      RightWordCases(f, S, D, numShift, n, numShift / f.W, 0, k);
      RightWordCases(g, S', D', numShift, n, numShift / f.W, 0, k);
      ConvZero(f);
      ConvZero(g);
      if k < RightCount(f.W, numShift, n) {
        var i := k + RightOffset(f.W, numShift, n);
        CopiedWord(f, S, i);
        assert Bit(f.Get(S, i), j) == Bit(g.Get(S', i), j);
      } else if k >= n {
        assert Bit(f.Get(D, k), j) == Bit(g.Get(D', k), j);
      }
    }
  }

  lemma CopiedWord(f: Format, S: seq<Word>, i: nat)
    requires f.Holds(|S|) && 0 <= f.Slot(i) < |S|
    ensures i < |S|
  {
  }

  method ShiftLeftBoth(f: Format, g: Format, dest: array<Word>, dest': array<Word>, src: array<Word>, src': array<Word>,
                       numShift: nat, nbits: nat)
    requires {dest, src} !! {dest', src'} && f.Holds(dest.Length) && g.Holds(dest'.Length)
    requires f.Holds(src.Length) && g.Holds(src'.Length) && f.numWords * f.W < TWO32 && g.numWords * g.W < TWO32
    requires Mirrors(f, dest[..], g, dest'[..]) && Mirrors(f, src[..], g, src'[..])
    requires nbits % f.W == 0 && numShift <= nbits <= dest.Length * f.W && nbits <= src.Length * f.W
    modifies dest, dest'
    ensures Mirrors(f, dest[..], g, dest'[..])
  {
    MirrorsIff(f, dest[..], g, dest'[..]);
    MirrorsIff(f, src[..], g, src'[..]);
    hide *;
    ShiftLeft(f, dest, src, numShift, nbits);
    ShiftLeft(g, dest', src', numShift, nbits);
    MirrorsIff(f, dest[..], g, dest'[..]);
  }

  /** All that the code leaves after a shift to the right, also where it is not the map shifted. */
  lemma RightMirrors(f: Format, S: seq<Word>, D: seq<Word>, a: seq<Word>, g: Format, S': seq<Word>, D': seq<Word>,
                     a': seq<Word>, numShift: nat, n: nat)
    requires f.Holds(|S|) && f.Holds(|D|) && g.Holds(|S'|) && g.Holds(|D'|) && 0 < n <= |S| && n <= |D|
    requires Mirrors(f, S, g, S') && Mirrors(f, D, g, D') && numShift <= Pos(f.W, n, 0) < TWO32
    requires RightFits(f.W, numShift, n, |D|, |S|)
    requires RightShifted(f, S, D, a, numShift, n) && RightShifted(g, S', D', a', numShift, n)
    ensures f.Holds(|a|) && g.Holds(|a'|) && Mirrors(f, a, g, a')
  {
    hide RightFits, RightWord, Mirrors, Format.Valid, Format.Bits, ShrBits, Pos;
    SameShape(f, S, g, S');
    SameShape(f, D, g, D');
    HoldsWidth(f, |S|);
    if numShift % f.W == 0 {
      CopiedMirrors(f, S, D, a, g, S', D', a', numShift, n);
    } else {
      MirrorsIff(f, S, g, S');
      MirrorsIff(f, D, g, D');
      RightIsShift(f, S, D, a, numShift, n);
      RightIsShift(g, S', D', a', numShift, n);
      MirrorsIff(f, a, g, a');
    }
  }

  method ShiftRightBoth(f: Format, g: Format, dest: array<Word>, dest': array<Word>, src: array<Word>, src': array<Word>,
                        numShift: nat, nbits: nat)
    requires {dest, src} !! {dest', src'} && f.Holds(dest.Length) && g.Holds(dest'.Length)
    requires f.Holds(src.Length) && g.Holds(src'.Length) && f.numWords * f.W < TWO32 && g.numWords * g.W < TWO32
    requires Mirrors(f, dest[..], g, dest'[..]) && Mirrors(f, src[..], g, src'[..])
    requires nbits % f.W == 0 && numShift <= nbits <= dest.Length * f.W && nbits <= src.Length * f.W && nbits < TWO32
    requires RightFits(f.W, numShift, WordCount(nbits, f.W), dest.Length, src.Length)
    modifies dest, dest'
    ensures Mirrors(f, dest[..], g, dest'[..])
  {
    SameShape(f, dest[..], g, dest'[..]);
    SameShape(f, src[..], g, src'[..]);
    ghost var S, D, S', D', n := src[..], dest[..], src'[..], dest'[..], WordCount(nbits, f.W);
    SplitPos(nbits, f.W);
    Cancel(n, |D|, f.W);
    hide *;
    ShiftRight(f, dest, src, numShift, nbits);
    ShiftRight(g, dest', src', numShift, nbits);
    if nbits > 0 {
      RightMirrors(f, S, D, dest[..], g, S', D', dest'[..], numShift, n);
    }
  }

  lemma SameShape(f: Format, a: seq<Word>, g: Format, b: seq<Word>)
    requires f.Holds(|a|) && g.Holds(|b|) && Mirrors(f, a, g, b)
    ensures f.W == g.W && |a| == |b|
  {
  }

  method RotateBoth(f: Format, g: Format, left: bool, dest: array<Word>, dest': array<Word>, src: array<Word>,
                    src': array<Word>, numRotate: nat, nbits: nat)
    requires {dest, src} !! {dest', src'} && f.Holds(dest.Length) && g.Holds(dest'.Length)
    requires f.Holds(src.Length) && g.Holds(src'.Length)
    requires Mirrors(f, dest[..], g, dest'[..]) && Mirrors(f, src[..], g, src'[..])
    requires nbits % f.W == 0 && nbits <= dest.Length * f.W && nbits <= src.Length * f.W
    requires numRotate < TWO32 && nbits < TWO32
    modifies dest, dest'
    ensures Mirrors(f, dest[..], g, dest'[..])
  {
    MirrorsIff(f, dest[..], g, dest'[..]);
    MirrorsIff(f, src[..], g, src'[..]);
    hide *;
    if left {
      RotateLeft(f, dest, src, numRotate, nbits);
      RotateLeft(g, dest', src', numRotate, nbits);
    } else {
      RotateRight(f, dest, src, numRotate, nbits);
      RotateRight(g, dest', src', numRotate, nbits);
    }
    MirrorsIff(f, dest[..], g, dest'[..]);
  }
}
