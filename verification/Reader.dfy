/** Reading a source operand one destination word at a time when it is not aligned to the destination. */
module Reader {
  import opened Words
  import opened Bitmap
  import opened Shift
  import opened GenOps

  /** `q` is the next word to read, `shift` the offset of the wanted bits in a source word, `left` the bits
      already read that are still to be used. */
  datatype Reader = Reader(q: nat, shift: nat, left: Word)

  function MaskLeft(f: Format, shift: nat): Word
    requires f.Valid()
  {
    if shift > 0 then f.Conv(HighMask(f.W, shift)) else Zero(f.W)
  }

  /** Start at bit `sm` of word `q`, `remaining` bits being left to read. The sum is one of `unsigned int`. */
  function Align(f: Format, src: Source, q: nat, sm: nat, remaining: nat): Reader
    requires src.Fits(f) && src.Has(q)
  {
    if sm > 0 then
      Reader(if U32(remaining + sm) > f.W then q + 1 else q, sm,
             StoredShr(f, And(f.W, src.At(f, q), MaskLeft(f, sm)), sm))
    else
      Reader(q, 0, src.At(f, q))
  }

  /** The next word's worth of bits. */
  function Fetch(f: Format, src: Source, rd: Reader): Word
    requires src.Fits(f) && src.Has(rd.q) && rd.shift < f.W
  {
    var rightShift := f.W - rd.shift;
    Or(f.W, rd.left,
       if rightShift < f.W
       then StoredShl(f, And(f.W, src.At(f, rd.q), Not(f.W, MaskLeft(f, rd.shift))), rightShift)
       else src.At(f, rd.q))
  }

  function Advance(f: Format, src: Source, rd: Reader): Reader
    requires src.Fits(f) && src.Has(rd.q)
  {
    Reader(rd.q + 1, rd.shift, StoredShr(f, And(f.W, src.At(f, rd.q), MaskLeft(f, rd.shift)), rd.shift))
  }

  /** The source has every word that is read from bit `sm` of word `q` on for `n` bits: the word `q` itself, and as many
      words as the destination takes, one further on if the first of them is joined from two. The last word read may be
      one of which no bit is used. And the sum that tells whether to read on does not wrap around. */
  predicate Guarded(f: Format, src: Source, q: nat, sm: nat, n: nat) {
    src.Map? ==>
      && q < |src.words|
      && Pos(f.W, if sm > 0 && n + sm > f.W then q + 1 else q, 0) + n <= |src.words| * f.W
      && (sm > 0 ==> n + sm < TWO32)
  }

  lemma GuardedHas(f: Format, src: Source, q: nat, sm: nat, n: nat)
    requires Guarded(f, src, q, sm, n)
    ensures src.Has(q)
  {
  }

  /** The reader stands at bit `shift` of word `k` with `rem` bits to go, and the words it is going to read are there. */
  ghost predicate Ready(f: Format, src: Source, rd: Reader, k: nat, rem: nat)
    requires src.Fits(f)
  {
    && rd.shift < f.W
    && (rem > 0 ==>
          && src.Has(k)
          && (src.Map? ==> Pos(f.W, rd.q, 0) + rem <= |src.words| * f.W)
          && if rd.shift > 0 then
               && (rd.q == k + 1 || (rd.q == k && rem + rd.shift <= f.W) || src.Repeat?)
               && forall j: nat :: j < f.W ==>
                    Bit(f.Conv(rd.left), j) == (j + rd.shift < f.W && Bit(f.Conv(src.At(f, k)), j + rd.shift))
             else
               && rd.q == k
               && forall j: nat :: j < f.W && Bit(f.Conv(rd.left), j) ==> Bit(f.Conv(src.At(f, k)), j))
  }

  /** The next word to read is there, and after a whole word the one after it if there is more to come. */
  lemma ReadyHas(f: Format, src: Source, rd: Reader, k: nat, rem: nat)
    requires src.Fits(f) && rem > 0 && Ready(f, src, rd, k, rem)
    ensures src.Has(k) && src.Has(rd.q) && rd.shift < f.W
    ensures rem > f.W ==> src.Has(k + 1) && (src.Map? ==> Pos(f.W, rd.q + 1, 0) + (rem - f.W) <= |src.words| * f.W)
  {
    hide Pos, Format.Conv, Format.Valid, Source.At, Bit;
    OffsetPos(f.W, rd.q, 0, 0);
    if src.Map? {
      InMap(f.W, rd.q, 0, rem, |src.words|);
      if rem > f.W { InMap(f.W, rd.q + 1, 0, rem - f.W, |src.words|); }
    }
  }

  lemma LeftPart(f: Format, w: Word, shift: nat, j: nat)
    requires f.Valid() && shift < f.W && j < f.W
    ensures Bit(f.Conv(StoredShr(f, And(f.W, w, MaskLeft(f, shift)), shift)), j)
            == (shift > 0 && j + shift < f.W && Bit(f.Conv(w), j + shift))
  {
    hide And, Shr, Shl;
    ConvTwice(f, Shr(f.W, f.Conv(And(f.W, w, MaskLeft(f, shift))), shift));
    if j + shift < f.W {
      assert f.order[f.order[j + shift]] == j + shift;
    }
  }

  lemma RightPart(f: Format, w: Word, shift: nat, j: nat)
    requires f.Valid() && 0 < shift < f.W && j < f.W
    ensures Bit(f.Conv(StoredShl(f, And(f.W, w, Not(f.W, MaskLeft(f, shift))), f.W - shift)), j)
            == (j >= f.W - shift && Bit(f.Conv(w), j - (f.W - shift)))
  {
    hide And, Shr, Shl, Not;
    ConvTwice(f, Shl(f.W, f.Conv(And(f.W, w, Not(f.W, MaskLeft(f, shift)))), f.W - shift));
    if j >= f.W - shift {
      assert f.order[f.order[j - (f.W - shift)]] == j - (f.W - shift);
    }
  }

  lemma AlignReady(f: Format, src: Source, q: nat, sm: nat, rem: nat)
    requires src.Fits(f) && sm < f.W && Guarded(f, src, q, sm, rem)
    ensures src.Has(q) && Ready(f, src, Align(f, src, q, sm, rem), q, rem)
  {
    hide Format.Conv, Format.Valid, Source.At, StoredShr, MaskLeft, And, Pos;
    forall j: nat | j < f.W
      ensures Bit(f.Conv(StoredShr(f, And(f.W, src.At(f, q), MaskLeft(f, sm)), sm)), j)
              == (sm > 0 && j + sm < f.W && Bit(f.Conv(src.At(f, q)), j + sm))
    {
      LeftPart(f, src.At(f, q), sm, j);
    }
  }

  lemma RepeatAt(f: Format, src: Source, i: nat, k: nat)
    requires src.Fits(f) && src.Repeat?
    ensures src.At(f, i) == src.At(f, k)
  {
  }

  lemma AdvanceReady(f: Format, src: Source, rd: Reader, k: nat, rem: nat)
    requires src.Fits(f) && Ready(f, src, rd, k, rem) && f.W > 0 && rem >= f.W
    ensures src.Has(rd.q) && Ready(f, src, Advance(f, src, rd), k + 1, rem - f.W)
  {
    hide Format.Conv, Format.Valid, Source.At, StoredShr, MaskLeft, And, Pos;
    ReadyHas(f, src, rd, k, rem);
    if src.Repeat? { RepeatAt(f, src, rd.q, k + 1); }
    forall j: nat | j < f.W
      ensures Bit(f.Conv(StoredShr(f, And(f.W, src.At(f, rd.q), MaskLeft(f, rd.shift)), rd.shift)), j)
              == (rd.shift > 0 && j + rd.shift < f.W && Bit(f.Conv(src.At(f, rd.q)), j + rd.shift))
    {
      LeftPart(f, src.At(f, rd.q), rd.shift, j);
    }
  }

  /** What is fetched are the bits from the reader's position on, as far as there are any to go. */
  lemma FetchBit(f: Format, src: Source, rd: Reader, k: nat, rem: nat, j: nat)
    requires src.Fits(f) && Ready(f, src, rd, k, rem) && j < f.W && j < rem
    ensures src.Has(rd.q)
    ensures Bit(f.Conv(Fetch(f, src, rd)), j) == src.HasBit(f, Pos(f.W, k, rd.shift) + j)
  {
    hide Pos, Format.Conv, Format.Valid, Source.HasBit, Source.At, StoredShl, MaskLeft, Or, And, Not, Bit;
    ReadyHas(f, src, rd, k, rem);
    SourceBitFrom(f, src, k, rd.shift, j);
    if src.Repeat? { RepeatAt(f, src, rd.q, k + 1); }
    var right := if rd.shift > 0
      then StoredShl(f, And(f.W, src.At(f, rd.q), Not(f.W, MaskLeft(f, rd.shift))), f.W - rd.shift)
      else src.At(f, rd.q);
    ConvOr(f, rd.left, right);
    if rd.shift > 0 {
      RightPart(f, src.At(f, rd.q), rd.shift, j);
    }
  }

  /** The words with ones in word `k` of the map and nowhere else. */
  function OnlyWord(f: Format, len: nat, k: nat): (r: seq<Word>)
    ensures |r| == len
  {
    seq(len, i => if i == f.Slot(k) then Ones(f.W) else Zero(f.W))
  }

  /** For every offset and every length: the first word's worth of bits is right, whatever the words of the source, exactly
      if the sum of the length and the offset does not wrap around in 32 bits. */
  lemma AlignExact(f: Format, q: nat, sm: nat, n: nat, len: nat)
    requires f.Holds(len) && 0 < sm < f.W <= n < TWO32 && Pos(f.W, q + 1, 0) + n <= len * f.W
    ensures (forall words: seq<Word>, j: nat | |words| == len && j < f.W :: FirstIsRight(f, words, q, sm, n, j))
            <==> n + sm < TWO32
  {
    hide Pos, Format.Valid, FirstIsRight;
    HoldsWidth(f, len);
    OffsetPos(f.W, q, 0, 0);
    if n + sm < TWO32 {
      forall words: seq<Word>, j: nat | |words| == len && j < f.W ensures FirstIsRight(f, words, q, sm, n, j) {
        FirstRight(f, words, q, sm, n, j);
      }
    } else {
      var words := FirstWrong(f, q, sm, n, len);
    }
  }

  ghost predicate FirstIsRight(f: Format, words: seq<Word>, q: nat, sm: nat, n: nat, j: nat) {
    var src := Map(words);
    && src.Fits(f) && src.Has(q) && sm < f.W
    && var rd := Align(f, src, q, sm, n);
    && src.Has(rd.q)
    && Bit(f.Conv(Fetch(f, src, rd)), j) == src.HasBit(f, Pos(f.W, q, sm) + j)
  }

  lemma FirstRight(f: Format, words: seq<Word>, q: nat, sm: nat, n: nat, j: nat)
    requires f.Holds(|words|) && 0 < sm < f.W <= n && n + sm < TWO32 && Pos(f.W, q + 1, 0) + n <= |words| * f.W && j < f.W
    ensures FirstIsRight(f, words, q, sm, n, j)
  {
    hide Pos, Format.Conv, Fetch, Source.HasBit;
    var src := Map(words);
    InMap(f.W, q + 1, 0, n, |words|);
    AlignReady(f, src, q, sm, n);
    FetchBit(f, src, Align(f, src, q, sm, n), q, n, j);
  }

  lemma OnlyWordAt(f: Format, len: nat, k: nat, i: nat, j: nat)
    requires f.Holds(len) && i < len && k < len && j < f.W
    ensures Map(OnlyWord(f, len, k)).Fits(f) && Bit(f.Conv(Map(OnlyWord(f, len, k)).At(f, i)), j) == (i == k)
  {
    SlotFacts(f, len);
    assert Map(OnlyWord(f, len, k)).At(f, i) == if i == k then Ones(f.W) else Zero(f.W);
  }

  lemma FirstWrong(f: Format, q: nat, sm: nat, n: nat, len: nat) returns (words: seq<Word>)
    requires f.Holds(len) && 0 < sm < f.W <= n < TWO32 <= n + sm && Pos(f.W, q + 1, 0) + n <= len * f.W
    ensures |words| == len && !FirstIsRight(f, words, q, sm, n, f.W - sm)
  {
    hide Pos, Format.Conv, Format.Valid, Source.HasBit, Source.At, StoredShr, StoredShl, MaskLeft, And, Not, Or, Bit, OnlyWord;
    words := OnlyWord(f, len, q + 1);
    var src, j := Map(words), f.W - sm;
    InMap(f.W, q + 1, 0, n, len);
    var rd := Align(f, src, q, sm, n);
    assert U32(n + sm) == n + sm - TWO32;
    SourceBitFrom(f, src, q, sm, j);
    OnlyWordAt(f, len, q + 1, q, 0);
    OnlyWordAt(f, len, q + 1, q + 1, 0);
    var w := src.At(f, q);
    LeftPart(f, w, sm, j);
    RightPart(f, w, sm, j);
    var right := StoredShl(f, And(f.W, w, Not(f.W, MaskLeft(f, sm))), f.W - sm);
    ConvOr(f, rd.left, right);
    assert !Bit(f.Conv(Fetch(f, src, rd)), j);
  }
}
