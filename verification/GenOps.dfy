/** Logical operations between bitmaps at arbitrary, unrelated bit positions. */
module GenOps {
  import opened Words
  import opened Bitmap
  import opened Shift
  import opened Tests

  datatype Base = AndOp | OrOp | XorOp

  /** The operator NOT((S1_OP a) OP (S2_OP b)). */
  datatype Op = Op(base: Base, neg: bool, neg1: bool, neg2: bool)

  function BitOp(op: Op, a: bool, b: bool): bool {
    var x, y := a != op.neg1, b != op.neg2;
    (match op.base
     case AndOp => x && y
     case OrOp => x || y
     case XorOp => x != y) != op.neg
  }

  function MaybeNot(W: nat, neg: bool, w: Word): Word {
    if neg then Not(W, w) else w
  }

  function WordOp(W: nat, op: Op, a: Word, b: Word): (r: Word)
    ensures forall i: nat :: i < W ==> Bit(r, i) == BitOp(op, Bit(a, i), Bit(b, i))
  {
    var x, y := MaybeNot(W, op.neg1, a), MaybeNot(W, op.neg2, b);
    MaybeNot(W, op.neg, match op.base
                        case AndOp => And(W, x, y)
                        case OrOp => Or(W, x, y)
                        case XorOp => Xor(W, x, y))
  }

  /** What happens to a destination bit: combined with the source bit (DESTSRC), or replaced by it. */
  datatype Action = Combine(op: Op) | Move(neg: bool)

  function BitValue(action: Action, s: bool, d: bool): bool {
    match action
    case Combine(op) => BitOp(op, s, d)
    case Move(neg) => s != neg
  }

  function WordValue(W: nat, action: Action, s: Word, d: Word): (r: Word)
    ensures forall i: nat :: i < W ==> Bit(r, i) == BitValue(action, Bit(s, i), Bit(d, i))
  {
    match action
    case Combine(op) => WordOp(W, op, s, d)
    case Move(neg) => MaybeNot(W, neg, s)
  }

  /** A read-only operand: a bitmap, or a single word that serves at every word position. */
  datatype Source = Map(words: seq<Word>) | Repeat(word: Word) {
    predicate Has(k: nat) {
      Map? ==> k < |words|
    }

    predicate Fits(f: Format) {
      f.Valid() && (Map? ==> f.Holds(|words|))
    }

    /** The stored word `k`. */
    function At(f: Format, k: nat): Word
      requires Fits(f) && Has(k)
    {
      if Map? then words[f.Slot(k)] else word
    }

    /** Bit `p` of the operand. */
    predicate HasBit(f: Format, p: nat)
      requires Fits(f)
    {
      if Map? then Bit(f.Bits(words), p) else Bit(f.Conv(word), p % f.W)
    }
  }

  lemma SourceBit(f: Format, src: Source, k: nat, j: nat)
    requires src.Fits(f) && src.Has(k) && j < f.W
    ensures src.HasBit(f, Pos(f.W, k, j)) == Bit(f.Conv(src.At(f, k)), j)
  {
    hide Format.Bits;
    if src.Map? {
      BitsAt(f, src.words, k, j);
    } else {
      QuotientUnique(Pos(f.W, k, j), k, j, f.W);
    }
  }

  /** The specification: positions [lo, hi) of `D` take the value `action` gives them, `want[p]` being the
      source bit for position `p`; all others stay. */
  function GenBits(action: Action, D: seq<bool>, want: seq<bool>, lo: nat, hi: nat): (r: seq<bool>)
    ensures |r| == |D|
    ensures forall p: nat :: p < |D| ==>
      Bit(r, p) == if lo <= p < hi then BitValue(action, Bit(want, p), Bit(D, p)) else Bit(D, p)
  {
    seq(|D|, (p: nat) requires p < |D| => if lo <= p < hi then BitValue(action, Bit(want, p), D[p]) else D[p])
  }

  lemma GenCompose(action: Action, D: seq<bool>, want: seq<bool>, lo: nat, mid: nat, hi: nat)
    requires lo <= mid <= hi
    ensures GenBits(action, GenBits(action, D, want, lo, mid), want, mid, hi) == GenBits(action, D, want, lo, hi)
  {
    hide BitValue;
    SameBits(GenBits(action, GenBits(action, D, want, lo, mid), want, mid, hi), GenBits(action, D, want, lo, hi));
  }

  lemma GenEmpty(action: Action, D: seq<bool>, want: seq<bool>, lo: nat)
    ensures GenBits(action, D, want, lo, lo) == D
  {
    SameBits(GenBits(action, D, want, lo, lo), D);
  }

  /** The new stored word when the bits under `mask` are to change. */
  function Merge(f: Format, action: Action, mask: Word, val: Word, d: Word): Word
    requires f.Valid()
  {
    Or(f.W, And(f.W, WordValue(f.W, action, val, d), f.Conv(mask)), And(f.W, d, Not(f.W, f.Conv(mask))))
  }

  lemma MergeBits(f: Format, action: Action, mask: Word, val: Word, d: Word, j: nat)
    requires f.Valid() && j < f.W
    ensures Bit(f.Conv(Merge(f, action, mask, val, d)), j)
            == if Bit(mask, j) then BitValue(action, Bit(f.Conv(val), j), Bit(f.Conv(d), j)) else Bit(f.Conv(d), j)
    ensures Bit(f.Conv(WordValue(f.W, action, val, d)), j)
            == BitValue(action, Bit(f.Conv(val), j), Bit(f.Conv(d), j))
    ensures Bit(f.Conv(And(f.W, WordValue(f.W, action, val, d), f.Conv(mask))), j)
            == (Bit(mask, j) && BitValue(action, Bit(f.Conv(val), j), Bit(f.Conv(d), j)))
  {
    hide BitValue, WordValue;
    assert f.order[f.order[j]] == j;
  }

  /** Writing one word of the map carries out the operation on that word's positions. */
  lemma WriteWord(f: Format, action: Action, a: seq<Word>, k: nat, v: Word, want: seq<bool>, lo: nat, hi: nat)
    requires f.Holds(|a|) && k < |a|
    requires Pos(f.W, k, 0) <= lo <= hi <= Pos(f.W, k + 1, 0)
    requires forall j: nat | j < f.W :: Bit(f.Conv(v), j) ==
                                        if lo <= Pos(f.W, k, j) < hi
                                        then BitValue(action, Bit(want, Pos(f.W, k, j)), Bit(f.Get(a, k), j))
                                        else Bit(f.Get(a, k), j)
    ensures 0 <= f.Slot(k) < |a|
    ensures f.Bits(a[f.Slot(k) := v]) == GenBits(action, f.Bits(a), want, lo, hi)
  {
    hide Pos, Format.Bits, Format.Conv, BitValue, GenBits;
    var c := a[f.Slot(k) := v];
    var t := GenBits(action, f.Bits(a), want, lo, hi);
    forall i: nat | i < |c| ensures WordHolds(f, c, i, t) {
      forall j: nat | j < f.W ensures Bit(f.Get(c, i), j) == Bit(t, Pos(f.W, i, j)) {
        BitsAt(f, a, i, j);
        if i != k {
          PosLess(f.W, i, j, k, 0);
          PosLess(f.W, i, j, k + 1, 0);
        }
      }
    }
    BitsFromWords(f, c, t);
  }

  /** Bits [lo, hi) of the value hold what positions (k, lo) to (k, hi) want. */
  ghost predicate Supplies(f: Format, val: Word, k: nat, lo: nat, hi: nat, want: seq<bool>)
    requires f.Valid() && hi <= f.W
  {
    forall j: nat :: lo <= j < hi ==> Bit(f.Conv(val), j) == Bit(want, Pos(f.W, k, j))
  }

  /** Testing bits [lo, hi) of word `k` is testing those positions of the map. */
  lemma TestInWord(f: Format, test: Test, ret: nat, c: seq<Word>, k: nat, w: Word, lo: nat, hi: nat)
    requires f.Holds(|c|) && k < |c| && lo <= hi <= f.W
    requires forall j: nat | lo <= j < hi :: Bit(w, j) == Bit(f.Get(c, k), j)
    ensures Pos(f.W, k, lo) <= Pos(f.W, k, hi)
    ensures TestBits(test, ret, w, lo, hi) == TestBits(test, ret, f.Bits(c), Pos(f.W, k, lo), Pos(f.W, k, hi))
  {
    hide Pos, Format.Bits, Format.Get, TestBits;
    OffsetPos(f.W, k, lo, hi);
    forall j: nat | lo <= j < hi ensures Bit(w, j) == Bit(f.Bits(c), j + Pos(f.W, k, 0)) {
      BitsAt(f, c, k, j);
      assert Pos(f.W, k, j) == j + Pos(f.W, k, 0);
    }
    TestSameBits(test, ret, w, lo, hi, f.Bits(c), Pos(f.W, k, 0));
  }

  /** A partial word: `res` is merged into word `k` and tested. */
  lemma PartialWord(f: Format, action: Action, a: seq<Word>, k: nat, val: Word, mask: Word, lo: nat, hi: nat,
                    want: seq<bool>)
    requires f.Holds(|a|) && k < |a| && lo <= hi <= f.W
    requires forall j: nat | j < f.W :: Bit(mask, j) == (lo <= j < hi)
    requires Supplies(f, val, k, lo, hi, want)
    ensures 0 <= f.Slot(k) < |a|
    ensures f.Bits(a[f.Slot(k) := Merge(f, action, mask, val, a[f.Slot(k)])])
            == GenBits(action, f.Bits(a), want, Pos(f.W, k, lo), Pos(f.W, k, hi))
  {
    hide Pos, Format.Bits, Format.Conv, BitValue, GenBits, WordValue, Merge;
    var d := a[f.Slot(k)];
    var v := Merge(f, action, mask, val, d);
    OffsetPos(f.W, k, lo, hi);
    forall j: nat | j < f.W
      ensures Bit(f.Conv(v), j) ==
              if Pos(f.W, k, lo) <= Pos(f.W, k, j) < Pos(f.W, k, hi)
              then BitValue(action, Bit(want, Pos(f.W, k, j)), Bit(f.Get(a, k), j))
              else Bit(f.Get(a, k), j)
    {
      MergeBits(f, action, mask, val, d, j);
      assert Pos(f.W, k, j) == j + Pos(f.W, k, 0);
    }
    WriteWord(f, action, a, k, v, want, Pos(f.W, k, lo), Pos(f.W, k, hi));
  }

  lemma PartialWordTest(f: Format, action: Action, a: seq<Word>, k: nat, val: Word, mask: Word, lo: nat, hi: nat,
                        test: Test, ret: nat)
    requires f.Holds(|a|) && k < |a| && lo <= hi <= f.W
    requires forall j: nat | j < f.W :: Bit(mask, j) == (lo <= j < hi)
    ensures 0 <= f.Slot(k) < |a| && Pos(f.W, k, lo) <= Pos(f.W, k, hi)
    ensures var d := a[f.Slot(k)];
      HandleWord(test, f.W, ret, And(f.W, WordValue(f.W, action, val, d), f.Conv(mask)), f.Conv(mask))
      == TestBits(test, ret, f.Bits(a[f.Slot(k) := Merge(f, action, mask, val, d)]), Pos(f.W, k, lo), Pos(f.W, k, hi))
  {
    hide Pos, Format.Bits, Format.Conv, BitValue, WordValue, Merge, And, HandleWord, TestBits;
    var d := a[f.Slot(k)];
    var v := Merge(f, action, mask, val, d);
    var res := And(f.W, WordValue(f.W, action, val, d), f.Conv(mask));
    forall j: nat | j < f.W ensures Bit(f.Conv(res), j) == (lo <= j < hi && Bit(f.Conv(v), j)) {
      MergeBits(f, action, mask, val, d, j);
    }
    HandleWordIsBitwise(f, test, ret, res, mask, lo, hi);
    TestInWord(f, test, ret, a[f.Slot(k) := v], k, f.Conv(res), lo, hi);
  }

  lemma OffsetPos(W: nat, k: nat, lo: nat, hi: nat)
    requires lo <= hi <= W
    ensures forall j: nat {:trigger Pos(W, k, j)} :: Pos(W, k, j) == j + Pos(W, k, 0)
    ensures Pos(W, k, hi) <= Pos(W, k + 1, 0) == Pos(W, k, 0) + W
  {
    assert (k + 1) * W == k * W + W;
  }

  /** A whole word: the value replaces word `k`. */
  lemma WholeWord(f: Format, action: Action, a: seq<Word>, k: nat, val: Word, want: seq<bool>)
    requires f.Holds(|a|) && k < |a| && Supplies(f, val, k, 0, f.W, want)
    ensures 0 <= f.Slot(k) < |a|
    ensures f.Bits(a[f.Slot(k) := WordValue(f.W, action, val, a[f.Slot(k)])])
            == GenBits(action, f.Bits(a), want, Pos(f.W, k, 0), Pos(f.W, k + 1, 0))
  {
    hide Pos, Format.Bits, Format.Conv, BitValue, GenBits, WordValue;
    var v := WordValue(f.W, action, val, a[f.Slot(k)]);
    OffsetPos(f.W, k, 0, f.W);
    forall j: nat | j < f.W
      ensures Bit(f.Conv(v), j) == BitValue(action, Bit(want, Pos(f.W, k, j)), Bit(f.Get(a, k), j))
      ensures Pos(f.W, k, 0) <= Pos(f.W, k, j) < Pos(f.W, k + 1, 0)
    {
      MergeBits(f, action, Ones(f.W), val, a[f.Slot(k)], j);
      assert Pos(f.W, k, j) == j + Pos(f.W, k, 0);
    }
    WriteWord(f, action, a, k, v, want, Pos(f.W, k, 0), Pos(f.W, k + 1, 0));
  }

  lemma WholeWordTest(f: Format, a: seq<Word>, k: nat, v: Word, test: Test, ret: nat)
    requires f.Holds(|a|) && k < |a|
    ensures 0 <= f.Slot(k) < |a| && Pos(f.W, k, 0) <= Pos(f.W, k + 1, 0)
    ensures HandleWord(test, f.W, ret, v, Ones(f.W))
            == TestBits(test, ret, f.Bits(a[f.Slot(k) := v]), Pos(f.W, k, 0), Pos(f.W, k + 1, 0))
  {
    hide Pos, Format.Bits, HandleWord, TestBits;
    OffsetPos(f.W, k, 0, f.W);
    SameBits(f.Conv(Ones(f.W)), Ones(f.W));
    HandleWordIsBitwise(f, test, ret, v, Ones(f.W), 0, f.W);
    TestInWord(f, test, ret, a[f.Slot(k) := v], k, f.Conv(v), 0, f.W);
    assert Pos(f.W, k, f.W) == f.W + Pos(f.W, k, 0);
  }

  /** The value for the first, partial destination word, and where the source goes on. */
  datatype Head = Head(val: Word, q: nat, sm: nat)

  /** __XDP2_BITMAP_HANDLE_DEST_MOD. */
  function DestMod(f: Format, src: Source, q: nat, sm: nat, dm: nat, need: nat): Head
    requires src.Fits(f) && sm < f.W && dm + need <= f.W && src.Has(q) && (dm < sm ==> src.Has(q + 1))
  {
    if dm == sm then Head(src.At(f, q), q + 1, 0)
    else if dm > sm then Head(StoredShl(f, src.At(f, q), dm - sm), q, sm + need)
    else
      var needLeft := if f.W - sm <= need then f.W - sm else need;
      Head(Or(f.W, StoredShr(f, src.At(f, q), sm - dm), StoredShl(f, src.At(f, q + 1), dm + needLeft)),
           q + 1, need - needLeft)
  }

  lemma DestModHostOrder(f: Format, src: Source, q: nat, sm: nat, dm: nat, need: nat)
    requires src.Fits(f) && sm < f.W && dm + need <= f.W && src.Has(q) && (dm < sm ==> src.Has(q + 1))
    ensures var v, x := f.Conv(DestMod(f, src, q, sm, dm, need).val), f.Conv(src.At(f, q));
      && (dm == sm ==> v == x)
      && (dm > sm ==> v == Shl(f.W, x, dm - sm))
      && (dm < sm ==> v == Or(f.W, Shr(f.W, x, sm - dm),
                              Shl(f.W, f.Conv(src.At(f, q + 1)), dm + if f.W - sm <= need then f.W - sm else need)))
  {
    hide Format.Conv, Format.Valid, Shl, Shr, Or, Source.At;
    var x := f.Conv(src.At(f, q));
    if dm > sm {
      ConvTwice(f, Shl(f.W, x, dm - sm));
    } else if dm < sm {
      var needLeft := if f.W - sm <= need then f.W - sm else need;
      ConvHalves(f, Shr(f.W, x, sm - dm), Shl(f.W, f.Conv(src.At(f, q + 1)), dm + needLeft));
    }
  }

  lemma DestModBit(f: Format, src: Source, q: nat, sm: nat, dm: nat, need: nat, j: nat)
    requires src.Fits(f) && sm < f.W && dm + need <= f.W && src.Has(q) && (dm < sm ==> src.Has(q + 1))
    requires dm <= j < dm + need
    ensures Bit(f.Conv(DestMod(f, src, q, sm, dm, need).val), j) == src.HasBit(f, Pos(f.W, q, sm) + (j - dm))
  {
    hide Pos, Format.Conv, Format.Valid, Source.HasBit, Source.At, DestMod, Bit, Or, Shl, Shr;
    DestModHostOrder(f, src, q, sm, dm, need);
    SourceBitFrom(f, src, q, sm, j - dm);
  }

  /** The bit `x` places on from (k, j). */
  lemma SourceBitFrom(f: Format, src: Source, k: nat, j: nat, x: nat)
    requires src.Fits(f) && src.Has(k) && j + x < 2 * f.W
    ensures j + x < f.W ==> src.HasBit(f, Pos(f.W, k, j) + x) == Bit(f.Conv(src.At(f, k)), j + x)
    ensures j + x >= f.W && src.Has(k + 1) ==>
      src.HasBit(f, Pos(f.W, k, j) + x) == Bit(f.Conv(src.At(f, k + 1)), j + x - f.W)
  {
    hide Pos, Format.Conv, Format.Valid, Source.HasBit, Source.At;
    PosIs(f.W, x);
    PosPlus(f.W, k, j, 0, x);
    if j + x < f.W {
      SourceBit(f, src, k, j + x);
    } else if src.Has(k + 1) {
      SourceBit(f, src, k + 1, j + x - f.W);
    }
  }

  lemma PosIs(W: nat, j: nat)
    ensures Pos(W, 0, j) == j
  {
  }

  lemma DestModNext(f: Format, src: Source, q: nat, sm: nat, dm: nat)
    requires src.Fits(f) && sm < f.W && dm < f.W && src.Has(q) && (dm < sm ==> src.Has(q + 1))
    ensures var h := DestMod(f, src, q, sm, dm, f.W - dm);
      h.sm < f.W && Pos(f.W, h.q, h.sm) == Pos(f.W, q, sm) + (f.W - dm)
  {
    assert (q + 1) * f.W == q * f.W + f.W;
  }
}
