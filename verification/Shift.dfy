/** Shifting a multi-word bitmap, in place or from another map. */
module Shift {
  import opened Words
  import opened Bitmap

  /** __XDP2_BITMAP_SHIFT_CONVERT with `<<` and `>>`: shift a stored word in host order. */
  function StoredShl(f: Format, w: Word, n: nat): Word
    requires f.Valid()
  {
    f.Conv(Shl(f.W, f.Conv(w), n))
  }

  function StoredShr(f: Format, w: Word, n: nat): Word
    requires f.Valid()
  {
    f.Conv(Shr(f.W, f.Conv(w), n))
  }

  lemma ConvTwice(f: Format, w: Word)
    requires f.Valid() && |w| == f.W
    ensures f.Conv(f.Conv(w)) == w
  {
    SameBits(f.Conv(f.Conv(w)), w);
  }

  lemma ConvOr(f: Format, x: Word, y: Word)
    requires f.Valid()
    ensures f.Conv(Or(f.W, x, y)) == Or(f.W, f.Conv(x), f.Conv(y))
  {
    SameBits(f.Conv(Or(f.W, x, y)), Or(f.W, f.Conv(x), f.Conv(y)));
  }

  /** A stored word put together from two converted halves reads back as the two halves. */
  lemma ConvHalves(f: Format, x: Word, y: Word)
    requires f.Valid() && |x| == f.W && |y| == f.W
    ensures f.Conv(Or(f.W, f.Conv(x), f.Conv(y))) == Or(f.W, x, y)
  {
    ConvOr(f, f.Conv(x), f.Conv(y));
    ConvTwice(f, x);
    ConvTwice(f, y);
  }

  lemma ConvZero(f: Format)
    requires f.Valid()
    ensures f.Conv(Zero(f.W)) == Zero(f.W)
  {
    SameBits(f.Conv(Zero(f.W)), Zero(f.W));
  }

  /** The stored word `k` of the map in `S` moved up by `q` words and `b` bits. */
  function Up(f: Format, S: seq<Word>, q: nat, b: nat, k: nat): Word
    requires f.Holds(|S|) && b < f.W && k < |S|
  {
    if k < q then Zero(f.W)
    else if b == 0 then S[f.Slot(k - q)]
    else if k == q then StoredShl(f, S[f.Slot(0)], b)
    else Or(f.W, StoredShl(f, S[f.Slot(k - q)], b), StoredShr(f, S[f.Slot(k - q - 1)], f.W - b))
  }

  lemma UpCases(f: Format, S: seq<Word>, q: nat, b: nat, k: nat)
    requires f.Holds(|S|) && b < f.W && q <= k < |S|
    ensures f.Valid() && 0 <= f.Slot(k - q) < |S| && 0 <= f.Slot(0) < |S|
    ensures b == 0 ==> Up(f, S, q, b, k) == S[f.Slot(k - q)]
    ensures b > 0 && k == q ==> Up(f, S, q, b, k) == StoredShl(f, S[f.Slot(0)], b)
    ensures b > 0 && k > q ==>
      && 0 <= f.Slot(k - q - 1) < |S|
      && Up(f, S, q, b, k)
         == Or(f.W, StoredShl(f, S[f.Slot(k - q)], b), StoredShr(f, S[f.Slot(k - q - 1)], f.W - b))
  {
  }

  lemma UpHostOrder(f: Format, S: seq<Word>, q: nat, b: nat, k: nat)
    requires f.Holds(|S|) && b < f.W && k < |S|
    ensures k < q ==> f.Conv(Up(f, S, q, b, k)) == Zero(f.W)
    ensures k >= q && b == 0 ==> f.Conv(Up(f, S, q, b, k)) == f.Get(S, k - q)
    ensures k == q && b > 0 ==> f.Conv(Up(f, S, q, b, k)) == Shl(f.W, f.Get(S, 0), b)
    ensures k > q && b > 0 ==> f.Conv(Up(f, S, q, b, k))
                               == Or(f.W, Shl(f.W, f.Get(S, k - q), b), Shr(f.W, f.Get(S, k - q - 1), f.W - b))
  {
    hide Format.Conv, Format.Valid, Or, Shl, Shr, Zero;
    if k < q {
      ConvZero(f);
    } else if b > 0 && k == q {
      ConvTwice(f, Shl(f.W, f.Get(S, 0), b));
    } else if b > 0 {
      ConvHalves(f, Shl(f.W, f.Get(S, k - q), b), Shr(f.W, f.Get(S, k - q - 1), f.W - b));
    }
  }

  /** Bit `j` of word `k` moved up, in host order, is the bit `q * W + b` places below it. */
  lemma UpBit(f: Format, S: seq<Word>, q: nat, b: nat, k: nat, j: nat)
    requires f.Holds(|S|) && b < f.W && k < |S| && j < f.W
    ensures Bit(f.Conv(Up(f, S, q, b, k)), j) ==
      (Pos(f.W, q, b) <= Pos(f.W, k, j) && Bit(f.Bits(S), Pos(f.W, k, j) - Pos(f.W, q, b)))
  {
    hide Pos, Up, Format.Bits, Format.Get, Format.Conv;
    var W := f.W;
    PosLess(W, k, j, q, b);
    UpHostOrder(f, S, q, b, k);
    if k >= q && j >= b {
      PosMinus(W, k, j, q, b);
      BitsAt(f, S, k - q, j - b);
    } else if k > q {
      PosMinus(W, k, j, q, b);
      BitsAt(f, S, k - q - 1, j + W - b);
    }
  }

  /** Words moved up make a shifted bit string. */
  lemma UpIsShift(f: Format, S: seq<Word>, D: seq<Word>, a: seq<Word>, n: nat, q: nat, b: nat)
    requires f.Holds(|S|) && f.Holds(|D|) && |a| == |D| && n <= |S| && n <= |D| && b < f.W
    requires forall k: nat {:trigger a[f.Slot(k)]} :: k < n ==> a[f.Slot(k)] == Up(f, S, q, b, k)
    requires forall k: nat {:trigger a[f.Slot(k)]} :: n <= k < |a| ==> a[f.Slot(k)] == D[f.Slot(k)]
    ensures Pos(f.W, n, 0) <= |S| * f.W && Pos(f.W, n, 0) <= |D| * f.W
    ensures f.Bits(a) == ShlBits(f.Bits(S)[..Pos(f.W, n, 0)], Pos(f.W, q, b)) + f.Bits(D)[Pos(f.W, n, 0)..]
  {
    hide Pos, Format.Bits, Format.Conv, Up, ShlBits, Bit;
    var W, m, s := f.W, Pos(f.W, n, 0), Pos(f.W, q, b);
    Monotone(n, |S|, W);
    Monotone(n, |D|, W);
    PosOrder(W, 0, 0, n);
    var c := ShlBits(f.Bits(S)[..m], s);
    var t := c + f.Bits(D)[m..];
    forall k: nat | k < |a| ensures WordHolds(f, a, k, t) {
      forall j: nat | j < W ensures Bit(f.Get(a, k), j) == Bit(t, Pos(W, k, j)) {
        var p := Pos(W, k, j);
        PosOrder(W, k, j, n);
        SplicedBit(c, f.Bits(D), p);
        if k < n {
          UpBit(f, S, q, b, k, j);
          if s <= p { Cut(f.Bits(S), m, p - s); }
        } else {
          BitsAt(f, D, k, j);
          BitIs(f.Bits(D), p);
        }
      }
    }
    BitsFromWords(f, a, t);
  }

  lemma Cut(b: seq<bool>, m: nat, p: nat)
    requires m <= |b|
    ensures Bit(b[..m], p) == (p < m && Bit(b, p))
  {
  }

  lemma BitIs(b: seq<bool>, p: nat)
    requires p < |b|
    ensures Bit(b, p) == b[p]
  {
  }

  /** The low `n` bits as a number. */
  lemma ShlValue(S: seq<bool>, D: seq<bool>, n: nat, s: nat)
    requires s <= n <= |S| && n <= |D|
    ensures Val((ShlBits(S[..n], s) + D[n..])[..n]) == Val(S[..n]) * Pow2(s) % Pow2(n)
  {
    hide Val, Pow2, ShlBits;
    ShlIsMultiplication(S[..n], s);
    assert (ShlBits(S[..n], s) + D[n..])[..n] == ShlBits(S[..n], s);
  }

  lemma ShrValue(S: seq<bool>, D: seq<bool>, n: nat, s: nat)
    requires s <= n <= |S| && n <= |D|
    ensures Val((ShrBits(S[..n], s) + D[n..])[..n]) == Val(S[..n]) / Pow2(s)
  {
    hide Val, Pow2, ShrBits;
    ShrIsDivision(S[..n], s);
    assert (ShrBits(S[..n], s) + D[n..])[..n] == ShrBits(S[..n], s);
  }

  /** __XDP2_BITMAP_SHIFT_LEFT, `dest` and `src` being one array or two: the low `nbits` bits of `dest`
      become those of `src` shifted, the others stay. */
  method ShiftLeft(f: Format, dest: array<Word>, src: array<Word>, numShift: nat, nbits: nat)
    requires f.Holds(dest.Length) && f.Holds(src.Length) && f.numWords * f.W < TWO32
    requires nbits % f.W == 0 && numShift <= nbits <= dest.Length * f.W && nbits <= src.Length * f.W
    modifies dest
    ensures f.Bits(dest[..]) ==
      ShlBits(old(f.Bits(src[..]))[..nbits], numShift) + old(f.Bits(dest[..]))[nbits..]
    ensures Val(f.Bits(dest[..])[..nbits]) == Val(old(f.Bits(src[..]))[..nbits]) * Pow2(numShift) % Pow2(nbits)
  {
    ShlValue(f.Bits(src[..]), f.Bits(dest[..]), nbits, numShift);
    if nbits == 0 {
      return;
    }
    assert f.W > 0;
    hide *;
    var n := WholeWords(nbits, f.W);
    var q, b := Split(numShift, f.W);
    FitsIn(f.W, n, dest.Length);
    FitsIn(f.W, n, src.Length);
    AmountFits(f.W, q, b, n);
    ShiftUp(f, dest, src, n, q, b);
    UpIsShift(f, old(src[..]), old(dest[..]), dest[..], n, q, b);
  }

  method ShiftUp(f: Format, dest: array<Word>, src: array<Word>, n: nat, q: nat, b: nat)
    requires f.Holds(dest.Length) && f.Holds(src.Length) && q <= n <= dest.Length && n <= src.Length
    requires b < f.W && (b > 0 ==> q < n)
    modifies dest
    ensures forall k: nat {:trigger dest[f.Slot(k)]} :: k < n ==> dest[f.Slot(k)] == Up(f, old(src[..]), q, b, k)
    ensures forall k: nat {:trigger dest[f.Slot(k)]} :: n <= k < dest.Length ==> dest[f.Slot(k)] == old(dest[f.Slot(k)])
  {
    hide *;
    SlotFacts(f, dest.Length);
    ghost var S := src[..];
    if b == 0 {
      MoveWordsUp(f, dest, src, n, q);
    } else {
      MoveBitsUp(f, dest, src, n, q, b);
    }
    ZeroWords(f, dest, 0, q);
    forall k: nat | k < q ensures Up(f, S, q, b, k) == Zero(f.W) {
      UpZero(f, S, q, b, k);
    }
  }

  lemma UpZero(f: Format, S: seq<Word>, q: nat, b: nat, k: nat)
    requires f.Holds(|S|) && b < f.W && k < |S| && k < q
    ensures Up(f, S, q, b, k) == Zero(f.W)
  {
  }

  /** The loop that zeroes the words shifted out. */
  method ZeroWords(f: Format, dest: array<Word>, lo: nat, hi: nat)
    requires f.Holds(dest.Length) && lo <= hi <= dest.Length
    modifies dest
    ensures forall k: nat {:trigger dest[f.Slot(k)]} :: k < dest.Length ==>
      dest[f.Slot(k)] == if lo <= k < hi then Zero(f.W) else old(dest[f.Slot(k)])
  {
    hide *;
    SlotFacts(f, dest.Length);
    for i := lo to hi
      invariant forall k: nat {:trigger dest[f.Slot(k)]} :: k < dest.Length ==>
        dest[f.Slot(k)] == if lo <= k < i then Zero(f.W) else old(dest[f.Slot(k)])
    {
      dest[f.Slot(i)] := Zero(f.W);
    }
  }

  method MoveWordsUp(f: Format, dest: array<Word>, src: array<Word>, n: nat, q: nat)
    requires f.Holds(dest.Length) && f.Holds(src.Length) && q <= n <= dest.Length && n <= src.Length
    modifies dest
    ensures forall k: nat {:trigger dest[f.Slot(k)]} :: q <= k < n ==> dest[f.Slot(k)] == Up(f, old(src[..]), q, 0, k)
    ensures forall k: nat {:trigger dest[f.Slot(k)]} :: n <= k < dest.Length ==> dest[f.Slot(k)] == old(dest[f.Slot(k)])
  {
    hide *;
    SlotFacts(f, dest.Length);
    SlotFacts(f, src.Length);
    ghost var S := src[..];
    var i := 0;
    while i < n - q
      invariant 0 <= i <= n - q
      invariant forall k: nat {:trigger dest[f.Slot(k)]} :: n - i <= k < n ==> dest[f.Slot(k)] == Up(f, S, q, 0, k)
      invariant forall k: nat {:trigger dest[f.Slot(k)]} :: n <= k < dest.Length ==> dest[f.Slot(k)] == old(dest[f.Slot(k)])
      invariant forall k: nat {:trigger src[f.Slot(k)]} :: k < n - i ==> src[f.Slot(k)] == S[f.Slot(k)]
    {
      UpCases(f, S, q, 0, n - 1 - i);
      dest[f.Slot(n - 1 - i)] := src[f.Slot(n - 1 - q - i)];
      i := i + 1;
    }
  }

  method MoveBitsUp(f: Format, dest: array<Word>, src: array<Word>, n: nat, q: nat, b: nat)
    requires f.Holds(dest.Length) && f.Holds(src.Length) && q < n <= dest.Length && n <= src.Length
    requires 0 < b < f.W
    modifies dest
    ensures forall k: nat {:trigger dest[f.Slot(k)]} :: q <= k < n ==> dest[f.Slot(k)] == Up(f, old(src[..]), q, b, k)
    ensures forall k: nat {:trigger dest[f.Slot(k)]} :: n <= k < dest.Length ==> dest[f.Slot(k)] == old(dest[f.Slot(k)])
  {
    hide *;
    SlotFacts(f, dest.Length);
    SlotFacts(f, src.Length);
    ghost var S := src[..];
    var i := 0;
    while i < n - q - 1
      invariant 0 <= i <= n - q - 1
      invariant forall k: nat {:trigger dest[f.Slot(k)]} :: n - i <= k < n ==> dest[f.Slot(k)] == Up(f, S, q, b, k)
      invariant forall k: nat {:trigger dest[f.Slot(k)]} :: n <= k < dest.Length ==> dest[f.Slot(k)] == old(dest[f.Slot(k)])
      invariant forall k: nat {:trigger src[f.Slot(k)]} :: k < n - i ==> src[f.Slot(k)] == S[f.Slot(k)]
    {
      UpCases(f, S, q, b, n - 1 - i);
      dest[f.Slot(n - 1 - i)] := Or(f.W, StoredShl(f, src[f.Slot(n - 1 - q - i)], b),
                                    StoredShr(f, src[f.Slot(n - 2 - q - i)], f.W - b));
      i := i + 1;
    }
    UpCases(f, S, q, b, q);
    dest[f.Slot(q)] := StoredShl(f, src[f.Slot(0)], b);
  }

  /** The stored word `k` of the first `n` words of the map in `S` moved down by `q` words and `b` bits. */
  function Down(f: Format, S: seq<Word>, n: nat, q: nat, b: nat, k: nat): Word
    requires f.Holds(|S|) && b < f.W && k < n <= |S|
  {
    if k + q >= n then Zero(f.W)
    else if b == 0 then S[f.Slot(k + q)]
    else if k + q == n - 1 then StoredShr(f, S[f.Slot(n - 1)], b)
    else Or(f.W, StoredShr(f, S[f.Slot(k + q)], b), StoredShl(f, S[f.Slot(k + q + 1)], f.W - b))
  }

  lemma DownCases(f: Format, S: seq<Word>, n: nat, q: nat, b: nat, k: nat)
    requires f.Holds(|S|) && b < f.W && k < n <= |S|
    ensures f.Valid()
    ensures k + q >= n ==> Down(f, S, n, q, b, k) == Zero(f.W)
    ensures k + q < n ==> 0 <= f.Slot(k + q) < |S|
    ensures k + q < n && b == 0 ==> Down(f, S, n, q, b, k) == S[f.Slot(k + q)]
    ensures k + q == n - 1 && b > 0 ==> Down(f, S, n, q, b, k) == StoredShr(f, S[f.Slot(n - 1)], b)
    ensures k + q < n - 1 && b > 0 ==>
      && 0 <= f.Slot(k + q + 1) < |S|
      && Down(f, S, n, q, b, k)
         == Or(f.W, StoredShr(f, S[f.Slot(k + q)], b), StoredShl(f, S[f.Slot(k + q + 1)], f.W - b))
  {
  }

  lemma DownHostOrder(f: Format, S: seq<Word>, n: nat, q: nat, b: nat, k: nat)
    requires f.Holds(|S|) && b < f.W && k < n <= |S|
    ensures k + q >= n ==> f.Conv(Down(f, S, n, q, b, k)) == Zero(f.W)
    ensures k + q < n && b == 0 ==> f.Conv(Down(f, S, n, q, b, k)) == f.Get(S, k + q)
    ensures k + q == n - 1 && b > 0 ==> f.Conv(Down(f, S, n, q, b, k)) == Shr(f.W, f.Get(S, n - 1), b)
    ensures k + q < n - 1 && b > 0 ==> f.Conv(Down(f, S, n, q, b, k))
                                       == Or(f.W, Shr(f.W, f.Get(S, k + q), b), Shl(f.W, f.Get(S, k + q + 1), f.W - b))
  {
    hide Format.Conv, Format.Valid, Or, Shl, Shr, Zero;
    if k + q >= n {
      ConvZero(f);
    } else if b > 0 && k + q == n - 1 {
      ConvTwice(f, Shr(f.W, f.Get(S, n - 1), b));
    } else if b > 0 {
      ConvHalves(f, Shr(f.W, f.Get(S, k + q), b), Shl(f.W, f.Get(S, k + q + 1), f.W - b));
    }
  }

  lemma DownBit(f: Format, S: seq<Word>, n: nat, q: nat, b: nat, k: nat, j: nat)
    requires f.Holds(|S|) && b < f.W && k < n <= |S| && j < f.W
    ensures Bit(f.Conv(Down(f, S, n, q, b, k)), j) ==
      (Pos(f.W, k, j) + Pos(f.W, q, b) < n * f.W && Bit(f.Bits(S), Pos(f.W, k, j) + Pos(f.W, q, b)))
  {
    hide Pos, Down, Format.Bits, Format.Get, Format.Conv;
    var W := f.W;
    PosPlus(W, k, j, q, b);
    DownHostOrder(f, S, n, q, b, k);
    if j + b < W {
      PosOrder(W, k + q, j + b, n);
      if k + q < n { BitsAt(f, S, k + q, j + b); }
    } else {
      PosOrder(W, k + q + 1, j + b - W, n);
      if k + q + 1 < n { BitsAt(f, S, k + q + 1, j + b - W); }
    }
  }

  /** Words moved down make a shifted bit string. */
  lemma DownIsShift(f: Format, S: seq<Word>, D: seq<Word>, a: seq<Word>, n: nat, q: nat, b: nat)
    requires f.Holds(|S|) && f.Holds(|D|) && |a| == |D| && n <= |S| && n <= |D| && b < f.W
    requires forall k: nat {:trigger a[f.Slot(k)]} :: k < n ==> a[f.Slot(k)] == Down(f, S, n, q, b, k)
    requires forall k: nat {:trigger a[f.Slot(k)]} :: n <= k < |a| ==> a[f.Slot(k)] == D[f.Slot(k)]
    ensures Pos(f.W, n, 0) <= |S| * f.W && Pos(f.W, n, 0) <= |D| * f.W
    ensures f.Bits(a) == ShrBits(f.Bits(S)[..Pos(f.W, n, 0)], Pos(f.W, q, b)) + f.Bits(D)[Pos(f.W, n, 0)..]
  {
    hide Pos, Format.Bits, Format.Conv, Down, ShrBits, Bit;
    var W, m, s := f.W, Pos(f.W, n, 0), Pos(f.W, q, b);
    Monotone(n, |S|, W);
    Monotone(n, |D|, W);
    PosOrder(W, 0, 0, n);
    var c := ShrBits(f.Bits(S)[..m], s);
    var t := c + f.Bits(D)[m..];
    forall k: nat | k < |a| ensures WordHolds(f, a, k, t) {
      forall j: nat | j < W ensures Bit(f.Get(a, k), j) == Bit(t, Pos(W, k, j)) {
        var p := Pos(W, k, j);
        PosOrder(W, k, j, n);
        SplicedBit(c, f.Bits(D), p);
        if k < n {
          DownBit(f, S, n, q, b, k, j);
          Cut(f.Bits(S), m, p + s);
        } else {
          BitsAt(f, D, k, j);
          BitIs(f.Bits(D), p);
        }
      }
    }
    BitsFromWords(f, a, t);
  }

  method MoveBitsDown(f: Format, dest: array<Word>, src: array<Word>, n: nat, q: nat, b: nat)
    requires f.Holds(dest.Length) && f.Holds(src.Length) && q < n <= dest.Length && n <= src.Length
    requires 0 < b < f.W
    modifies dest
    ensures forall k: nat {:trigger dest[f.Slot(k)]} :: k < n - q ==> dest[f.Slot(k)] == Down(f, old(src[..]), n, q, b, k)
    ensures forall k: nat {:trigger dest[f.Slot(k)]} :: n <= k < dest.Length ==> dest[f.Slot(k)] == old(dest[f.Slot(k)])
  {
    hide *;
    SlotFacts(f, dest.Length);
    SlotFacts(f, src.Length);
    ghost var S := src[..];
    var i := 0;
    while i < n - q - 1
      invariant 0 <= i <= n - q - 1
      invariant forall k: nat {:trigger dest[f.Slot(k)]} :: k < i ==> dest[f.Slot(k)] == Down(f, S, n, q, b, k)
      invariant forall k: nat {:trigger dest[f.Slot(k)]} :: n <= k < dest.Length ==> dest[f.Slot(k)] == old(dest[f.Slot(k)])
      invariant forall k: nat {:trigger src[f.Slot(k)]} :: i <= k < n ==> src[f.Slot(k)] == S[f.Slot(k)]
    {
      DownCases(f, S, n, q, b, i);
      dest[f.Slot(i)] := Or(f.W, StoredShr(f, src[f.Slot(i + q)], b), StoredShl(f, src[f.Slot(i + q + 1)], f.W - b));
      i := i + 1;
    }
    DownCases(f, S, n, q, b, n - q - 1);
    dest[f.Slot(n - q - 1)] := StoredShr(f, src[f.Slot(n - 1)], b);
  }

  // The aligned shift as the code counts it, in `int` and `unsigned int`

  /** The cast to `int`, and division of `int`s. */
  function AsInt(x: nat): int {
    if x < TWO31 then x else x - TWO32
  }

  function TruncDiv(x: int, m: nat): int
    requires m > 0
  {
    if x >= 0 then x / m else -(-x / m)
  }

  /** How many words the loop copies: the index runs from `n - 1` down to the shift in words. */
  function RightCount(W: nat, numShift: nat, n: nat): nat
    requires W > 0
  {
    var last := TruncDiv(AsInt(numShift), W);
    if last < n then n - last else 0
  }

  /** The word of the source that the loop begins with. */
  function RightOffset(W: nat, numShift: nat, n: nat): nat
    requires W > 0
  {
    U32((n * W - 1) / W - U32(n * W - numShift - 1) / W)
  }

  /** Arrays of these lengths have every word that the loop copies. */
  predicate RightFits(W: nat, numShift: nat, n: nat, destLen: nat, srcLen: nat)
    requires W > 0
  {
    numShift % W == 0 && n > 0 ==>
      var count := RightCount(W, numShift, n);
      count <= destLen && (count > 0 ==> RightOffset(W, numShift, n) + count <= srcLen)
  }

  lemma CountBelow(W: nat, q: nat, n: nat, numShift: nat)
    requires W > 0 && q <= n && numShift == q * W && numShift < TWO31
    ensures RightCount(W, numShift, n) == n - q
  {
    QuotientUnique(numShift, q, 0, W);
  }

  lemma CountAbove(W: nat, n: nat, numShift: nat)
    requires W > 0 && TWO31 <= numShift < TWO32
    ensures RightCount(W, numShift, n) >= n
    ensures W <= TWO32 - numShift ==> RightCount(W, numShift, n) > n
  {
    var x := TWO32 - numShift;
    if W <= x { AtLeastOnce(x, W); }
  }

  lemma AtLeastOnce(x: nat, W: nat)
    requires 0 < W <= x
    ensures x / W >= 1
  {
  }

  lemma WholeGap(W: nat, q: nat, numShift: nat)
    requires W > 0 && numShift == q * W && numShift < TWO32 && TWO32 % W == 0
    ensures W <= TWO32 - numShift
  {
    var m := TWO32 / W;
    assert m * W == TWO32;
    Cancel(q, m, W);
    Monotone(q + 1, m, W);
  }

  /** The loop copies as many words as remain of the map exactly if the shift is below 2^31. Otherwise it copies as many
      words as the map has and, with a word size that divides 2^32, more. */
  lemma RightCountExact(W: nat, q: nat, n: nat)
    requires W > 0 && q <= n && n * W < TWO32
    ensures RightCount(W, q * W, n) == n - q <==> q * W < TWO31
    ensures q * W >= TWO31 ==> RightCount(W, q * W, n) >= n
    ensures TWO32 % W == 0 ==> (RightCount(W, q * W, n) <= n <==> q * W < TWO31)
  {
    Monotone(q, n, W);
    var numShift := q * W;
    assert numShift >= TWO31 ==> q > 0;
    hide RightCount;
    if numShift < TWO31 {
      CountBelow(W, q, n, numShift);
    } else {
      CountAbove(W, n, numShift);
      if TWO32 % W == 0 { WholeGap(W, q, numShift); }
    }
  }

  lemma RightOffsetIs(W: nat, q: nat, n: nat)
    requires W > 0 && q < n && n * W < TWO32
    ensures RightOffset(W, q * W, n) == q
  {
    assert (n - q) * W == n * W - q * W && (n - 1) * W == n * W - W && (n - q - 1) * W == (n - q) * W - W;
    Monotone(1, n - q, W);
    var x := (n - q) * W - 1;
    assert U32(n * W - q * W - 1) == x;
    QuotientUnique(n * W - 1, n - 1, W - 1, W);
    QuotientUnique(x, n - q - 1, W - 1, W);
  }

  /** Below 2^31 the words of the map are enough. */
  lemma RightFitsMap(W: nat, numShift: nat, n: nat, destLen: nat, srcLen: nat)
    requires W > 0 && numShift <= n * W < TWO32 && n <= destLen && n <= srcLen && numShift < TWO31
    ensures RightFits(W, numShift, n, destLen, srcLen)
  {
    hide RightCount, RightOffset;
    if numShift % W == 0 && n > 0 {
      var q := numShift / W;
      assert q * W == numShift;
      Cancel(q, n, W);
      RightCountExact(W, q, n);
      if q < n { RightOffsetIs(W, q, n); }
    }
  }

  /** The stored word `k` that the code leaves, `S` and `D` being the words of the source and the destination before. */
  function RightWord(f: Format, S: seq<Word>, D: seq<Word>, numShift: nat, n: nat, k: nat): Word
    requires f.Holds(|S|) && f.Holds(|D|) && RightFits(f.W, numShift, n, |D|, |S|) && 0 < n <= |S| && k < |D|
  {
    var q, b := numShift / f.W, numShift % f.W;
    if b == 0 && k < RightCount(f.W, numShift, n) then S[f.Slot(k + RightOffset(f.W, numShift, n))]
    else if k >= n then D[f.Slot(k)]
    else if b == 0 then Zero(f.W)
    else Down(f, S, n, q, b, k)
  }

  ghost predicate RightShifted(f: Format, S: seq<Word>, D: seq<Word>, a: seq<Word>, numShift: nat, n: nat)
    requires f.Holds(|S|) && f.Holds(|D|) && RightFits(f.W, numShift, n, |D|, |S|) && 0 < n <= |S|
  {
    |a| == |D| && forall k: nat {:trigger a[f.Slot(k)]} :: k < |a| ==> a[f.Slot(k)] == RightWord(f, S, D, numShift, n, k)
  }

  /** The aligned loop: the index `i` runs in `int` down to `last`, the words are copied upwards in memory. */
  method CopyDown(f: Format, dest: array<Word>, src: array<Word>, n: nat, last: int, off: nat) returns (k: nat)
    requires f.Holds(dest.Length) && f.Holds(src.Length)
    requires last < n ==> n - last <= dest.Length && off + (n - last) <= src.Length
    modifies dest
    ensures k == if last < n then n - last else 0
    ensures k <= dest.Length && (k > 0 ==> off + k <= src.Length)
    ensures forall j: nat {:trigger dest[f.Slot(j)]} :: j < dest.Length ==>
      dest[f.Slot(j)] == if j < k then old(src[..])[f.Slot(j + off)] else old(dest[f.Slot(j)])
  {
    hide *;
    SlotFacts(f, dest.Length);
    SlotFacts(f, src.Length);
    ghost var S := src[..];
    var i: int := n - 1;
    k := 0;
    while i >= last
      invariant i + k == n - 1 && (last < n ==> k <= n - last) && (last >= n ==> k == 0)
      invariant forall j: nat {:trigger dest[f.Slot(j)]} :: j < dest.Length ==>
        dest[f.Slot(j)] == if j < k then S[f.Slot(j + off)] else old(dest[f.Slot(j)])
      invariant forall j: nat {:trigger src[f.Slot(j)]} :: k <= j < src.Length ==> src[f.Slot(j)] == S[f.Slot(j)]
    {
      dest[f.Slot(k)] := src[f.Slot(k + off)];
      i, k := i - 1, k + 1;
    }
  }

  lemma RightFitsCount(W: nat, numShift: nat, n: nat, destLen: nat, srcLen: nat)
    requires W > 0 && n > 0 && numShift % W == 0 && RightFits(W, numShift, n, destLen, srcLen)
    ensures var last := TruncDiv(AsInt(numShift), W);
      && RightCount(W, numShift, n) == (if last < n then n - last else 0)
      && (last < n ==> n - last <= destLen && RightOffset(W, numShift, n) + (n - last) <= srcLen)
  {
    hide RightOffset;
  }

  lemma RightWordCases(f: Format, S: seq<Word>, D: seq<Word>, numShift: nat, n: nat, q: nat, b: nat, k: nat)
    requires f.Holds(|S|) && f.Holds(|D|) && RightFits(f.W, numShift, n, |D|, |S|) && 0 < n <= |S| && k < |D|
    requires b < f.W && numShift == Pos(f.W, q, b)
    ensures numShift % f.W == b
    ensures var count, off, w := RightCount(f.W, numShift, n), RightOffset(f.W, numShift, n), RightWord(f, S, D, numShift, n, k);
      && (b == 0 && k < count ==> 0 <= f.Slot(k + off) < |S| && w == S[f.Slot(k + off)])
      && (b == 0 && count <= k < n ==> w == Zero(f.W))
      && (b > 0 && k < n ==> w == Down(f, S, n, q, b, k))
      && ((b == 0 ==> k >= count) && k >= n ==> w == D[f.Slot(k)])
  {
    hide Down, RightCount, RightOffset, Format.Valid;
    QuotientUnique(numShift, q, b, f.W);
  }

  /** Whole words moved down, and bits moved down, are what the code leaves. */
  lemma WordsMovedDown(f: Format, S: seq<Word>, D: seq<Word>, a: seq<Word>, numShift: nat, n: nat, count: nat, off: nat)
    requires f.Holds(|S|) && f.Holds(|D|) && 0 < n <= |S| && |a| == |D| && RightFits(f.W, numShift, n, |D|, |S|)
    requires numShift % f.W == 0 && count == RightCount(f.W, numShift, n)
    requires off == RightOffset(f.W, numShift, n) && (count > 0 ==> off + count <= |S|)
    requires forall k: nat {:trigger a[f.Slot(k)]} :: k < |a| ==>
      a[f.Slot(k)] == if k < count then S[f.Slot(k + off)] else if k < n then Zero(f.W) else D[f.Slot(k)]
    ensures RightShifted(f, S, D, a, numShift, n)
  {
    hide RightWord, RightCount, RightOffset, RightFits, Format.Valid, Pos;
    HoldsWidth(f, |S|);
    SplitPos(numShift, f.W);
    forall k: nat | k < |a| ensures a[f.Slot(k)] == RightWord(f, S, D, numShift, n, k) {
      RightWordCases(f, S, D, numShift, n, numShift / f.W, 0, k);
    }
  }

  lemma BitsMovedDown(f: Format, S: seq<Word>, D: seq<Word>, a: seq<Word>, numShift: nat, n: nat, q: nat, b: nat)
    requires f.Holds(|S|) && f.Holds(|D|) && 0 < n <= |S| && |a| == |D| && RightFits(f.W, numShift, n, |D|, |S|)
    requires 0 < b < f.W && numShift == Pos(f.W, q, b)
    requires forall k: nat {:trigger a[f.Slot(k)]} :: k < |a| ==>
      a[f.Slot(k)] == if k < n then Down(f, S, n, q, b, k) else D[f.Slot(k)]
    ensures RightShifted(f, S, D, a, numShift, n)
  {
    hide RightWord, RightCount, RightOffset, RightFits, Down, Format.Valid, Pos;
    forall k: nat | k < |a| ensures a[f.Slot(k)] == RightWord(f, S, D, numShift, n, k) {
      RightWordCases(f, S, D, numShift, n, q, b, k);
    }
  }

  method ShiftBitsDown(f: Format, dest: array<Word>, src: array<Word>, n: nat, q: nat, b: nat)
    requires f.Holds(dest.Length) && f.Holds(src.Length) && q < n <= dest.Length && n <= src.Length && 0 < b < f.W
    modifies dest
    ensures forall k: nat {:trigger dest[f.Slot(k)]} :: k < dest.Length ==>
      dest[f.Slot(k)] == if k < n then Down(f, old(src[..]), n, q, b, k) else old(dest[f.Slot(k)])
  {
    hide *;
    SlotFacts(f, dest.Length);
    ghost var S := src[..];
    MoveBitsDown(f, dest, src, n, q, b);
    ZeroWords(f, dest, n - q, n);
    forall k: nat | n - q <= k < n ensures Down(f, S, n, q, b, k) == Zero(f.W) {
      DownCases(f, S, n, q, b, k);
    }
  }

  method ShiftWordsDown(f: Format, dest: array<Word>, src: array<Word>, n: nat, last: int, off: nat, ghost count: nat)
    requires f.Holds(dest.Length) && f.Holds(src.Length) && n <= dest.Length
    requires count == if last < n then n - last else 0
    requires last < n ==> n - last <= dest.Length && off + (n - last) <= src.Length
    modifies dest
    ensures forall k: nat {:trigger dest[f.Slot(k)]} :: k < dest.Length ==>
      dest[f.Slot(k)] == if k < count then old(src[..])[f.Slot(k + off)] else if k < n then Zero(f.W) else old(dest[f.Slot(k)])
  {
    hide *;
    SlotFacts(f, dest.Length);
    SlotFacts(f, src.Length);
    var k := CopyDown(f, dest, src, n, last, off);
    if k < n {
      ZeroWords(f, dest, k, n);
    }
  }

  /** __XDP2_BITMAP_SHIFT_RIGHT over `n` words. */
  method ShiftDown(f: Format, dest: array<Word>, src: array<Word>, numShift: nat, n: nat)
    requires f.Holds(dest.Length) && f.Holds(src.Length) && 0 < n <= dest.Length && n <= src.Length
    requires numShift <= Pos(f.W, n, 0) && RightFits(f.W, numShift, n, dest.Length, src.Length)
    modifies dest
    ensures RightShifted(f, old(src[..]), old(dest[..]), dest[..], numShift, n)
  {
    hide *;
    HoldsWidth(f, dest.Length);
    SlotFacts(f, dest.Length);
    ghost var S, D := src[..], dest[..];
    var q, b := Split(numShift, f.W);
    if b == 0 {
      RightFitsCount(f.W, numShift, n, dest.Length, src.Length);
      var last, off := TruncDiv(AsInt(numShift), f.W), RightOffset(f.W, numShift, n);
      ghost var count := RightCount(f.W, numShift, n);
      ShiftWordsDown(f, dest, src, n, last, off, count);
      WordsMovedDown(f, S, D, dest[..], numShift, n, count, off);
    } else {
      AmountFits(f.W, q, b, n);
      ShiftBitsDown(f, dest, src, n, q, b);
      BitsMovedDown(f, S, D, dest[..], numShift, n, q, b);
    }
  }

  /** Below 2^31, or if the shift is not a whole number of words, that is the map moved down. */
  lemma RightIsShift(f: Format, S: seq<Word>, D: seq<Word>, a: seq<Word>, numShift: nat, n: nat)
    requires f.Holds(|S|) && f.Holds(|D|) && 0 < n <= |S| && n <= |D| && numShift <= Pos(f.W, n, 0) < TWO32
    requires numShift < TWO31 || numShift % f.W != 0
    requires RightFits(f.W, numShift, n, |D|, |S|) && RightShifted(f, S, D, a, numShift, n)
    ensures Pos(f.W, n, 0) <= |D| * f.W && Pos(f.W, n, 0) <= |S| * f.W && f.Holds(|a|)
    ensures f.Bits(a) == ShrBits(f.Bits(S)[..Pos(f.W, n, 0)], numShift) + f.Bits(D)[Pos(f.W, n, 0)..]
  {
    hide RightWord, RightCount, RightOffset, RightFits, Down, Format.Valid, Format.Bits, ShrBits, Pos;
    HoldsWidth(f, |S|);
    var q, b := numShift / f.W, numShift % f.W;
    SlotFacts(f, |a|);
    SplitPos(numShift, f.W);
    AmountFits(f.W, q, b, n);
    forall k: nat {:trigger a[f.Slot(k)]} | k < |a|
      ensures a[f.Slot(k)] == if k < n then Down(f, S, n, q, b, k) else D[f.Slot(k)]
    {
      RightWordCases(f, S, D, numShift, n, q, b, k);
      if b == 0 { AlignedWordIsDown(f, S, n, q, k); }
    }
    DownIsShift(f, S, D, a, n, q, b);
  }

  lemma AlignedWordIsDown(f: Format, S: seq<Word>, n: nat, q: nat, k: nat)
    requires f.Holds(|S|) && q <= n <= |S| && Pos(f.W, n, 0) < TWO32 && Pos(f.W, q, 0) < TWO31
    ensures RightCount(f.W, Pos(f.W, q, 0), n) == n - q
    ensures k < n - q ==> RightOffset(f.W, Pos(f.W, q, 0), n) == q && Down(f, S, n, q, 0, k) == S[f.Slot(k + q)]
    ensures n - q <= k < n ==> Down(f, S, n, q, 0, k) == Zero(f.W)
  {
    hide RightCount, RightOffset;
    RightCountExact(f.W, q, n);
    if k < n - q { RightOffsetIs(f.W, q, n); }
  }

  /** __XDP2_BITMAP_SHIFT_RIGHT, `dest` and `src` being one array or two. The shift is right unless it is a whole number of
      words and 2^31 bits or more; then the code copies words from behind the map, as RightShifted says. No other sum of
      the code wraps around, with word sizes that divide 2^32. */
  method ShiftRight(f: Format, dest: array<Word>, src: array<Word>, numShift: nat, nbits: nat)
    requires f.Holds(dest.Length) && f.Holds(src.Length) && f.numWords * f.W < TWO32
    requires nbits % f.W == 0 && numShift <= nbits <= dest.Length * f.W && nbits <= src.Length * f.W && nbits < TWO32
    requires RightFits(f.W, numShift, WordCount(nbits, f.W), dest.Length, src.Length)
    modifies dest
    ensures nbits == 0 ==> dest[..] == old(dest[..])
    ensures nbits > 0 ==>
      && 0 < WordCount(nbits, f.W) <= src.Length
      && RightShifted(f, old(src[..]), old(dest[..]), dest[..], numShift, WordCount(nbits, f.W))
    ensures numShift < TWO31 || numShift % f.W != 0 ==>
      && f.Bits(dest[..]) == ShrBits(old(f.Bits(src[..]))[..nbits], numShift) + old(f.Bits(dest[..]))[nbits..]
      && Val(f.Bits(dest[..])[..nbits]) == Val(old(f.Bits(src[..]))[..nbits]) / Pow2(numShift)
  {
    ShrValue(f.Bits(src[..]), f.Bits(dest[..]), nbits, numShift);
    if nbits == 0 {
      return;
    }
    assert f.W > 0;
    hide *;
    var n := WholeWords(nbits, f.W);
    SomeWords(f.W, n);
    FitsIn(f.W, n, dest.Length);
    FitsIn(f.W, n, src.Length);
    ShiftDown(f, dest, src, numShift, n);
    if numShift < TWO31 || numShift % f.W != 0 {
      RightIsShift(f, old(src[..]), old(dest[..]), dest[..], numShift, n);
    }
  }

  lemma SomeWords(W: nat, n: nat)
    requires W > 0 && Pos(W, n, 0) > 0
    ensures n > 0
  {
  }

  /** For every amount and every length of the map, in arrays that have the words the code copies: the low bits are those of
      the source shifted, whatever the words, exactly unless the shift is a whole number of words and 2^31 bits or more. */
  lemma RightShiftExact(f: Format, numShift: nat, n: nat, len: nat)
    requires f.Holds(len) && 0 < n <= len && numShift <= Pos(f.W, n, 0) < TWO32 && RightFits(f.W, numShift, n, len, len)
    ensures (forall S: seq<Word>, D: seq<Word>, a: seq<Word>
               | |S| == len && |D| == len && RightShifted(f, S, D, a, numShift, n) ::
               LowBitsShifted(f, S, a, numShift, n))
            <==> numShift < TWO31 || numShift % f.W != 0
  {
    hide RightShifted, RightFits, LowBitsShifted, Format.Valid, Pos;
    HoldsWidth(f, len);
    if numShift < TWO31 || numShift % f.W != 0 {
      forall S: seq<Word>, D: seq<Word>, a: seq<Word> | |S| == len && |D| == len && RightShifted(f, S, D, a, numShift, n)
        ensures LowBitsShifted(f, S, a, numShift, n)
      {
        LowBits(f, S, D, a, numShift, n);
      }
    } else {
      var S, D, a := RightShiftFails(f, numShift, n, len);
    }
  }

  /** The first `n` words hold the bits of the source shifted. */
  ghost predicate LowBitsShifted(f: Format, S: seq<Word>, a: seq<Word>, numShift: nat, n: nat) {
    && f.Holds(|S|) && f.Holds(|a|) && Pos(f.W, n, 0) <= |S| * f.W && Pos(f.W, n, 0) <= |a| * f.W
    && f.Bits(a)[..Pos(f.W, n, 0)] == ShrBits(f.Bits(S)[..Pos(f.W, n, 0)], numShift)
  }

  lemma LowBits(f: Format, S: seq<Word>, D: seq<Word>, a: seq<Word>, numShift: nat, n: nat)
    requires f.Holds(|S|) && f.Holds(|D|) && 0 < n <= |S| && n <= |D| && numShift <= Pos(f.W, n, 0) < TWO32
    requires numShift < TWO31 || numShift % f.W != 0
    requires RightFits(f.W, numShift, n, |D|, |S|) && RightShifted(f, S, D, a, numShift, n)
    ensures LowBitsShifted(f, S, a, numShift, n)
  {
    RightIsShift(f, S, D, a, numShift, n);
    assert |a| == |D|;
    hide RightShifted, RightFits, Format.Valid, Format.Bits, ShrBits, Pos;
  }

  /** The words the code leaves. */
  lemma RightResult(f: Format, S: seq<Word>, D: seq<Word>, numShift: nat, n: nat) returns (a: seq<Word>)
    requires f.Holds(|S|) && f.Holds(|D|) && RightFits(f.W, numShift, n, |D|, |S|) && 0 < n <= |S|
    ensures RightShifted(f, S, D, a, numShift, n)
  {
    hide RightWord, RightFits, Format.Valid;
    a := seq(|D|, (i: nat) requires i < |D| => RightWord(f, S, D, numShift, n, f.WordAt(i)));
  }

  /** Ones behind the map are copied into its last word, which a shift would clear. */
  lemma RightShiftFails(f: Format, numShift: nat, n: nat, len: nat) returns (S: seq<Word>, D: seq<Word>, a: seq<Word>)
    requires f.Holds(len) && 0 < n <= len && TWO31 <= numShift <= Pos(f.W, n, 0) < TWO32 && numShift % f.W == 0
    requires RightFits(f.W, numShift, n, len, len)
    ensures |S| == len && |D| == len && RightShifted(f, S, D, a, numShift, n) && !LowBitsShifted(f, S, a, numShift, n)
  {
    S, D := seq(len, _ => Ones(f.W)), seq(len, _ => Zero(f.W));
    assert numShift > 0;
    hide RightShifted, RightWord, RightFits, Format.Valid, Format.Bits, ShrBits, Pos, Ones, Zero;
    HoldsWidth(f, len);
    a := RightResult(f, S, D, numShift, n);
    LastWordCopied(f, S, D, a, numShift, n);
    LastBit(f, a, n);
    var m := Pos(f.W, n, 0);
    assert m <= |S| * f.W by { PosOrder(f.W, 0, 0, n); Monotone(n, len, f.W); }
    TopCleared(f.Bits(S)[..m], numShift);
    assert f.Bits(a)[..m][m - 1] != ShrBits(f.Bits(S)[..m], numShift)[m - 1];
  }

  lemma TopCleared(b: seq<bool>, s: nat)
    requires |b| > 0 && s > 0
    ensures |ShrBits(b, s)| == |b| && !ShrBits(b, s)[|b| - 1]
  {
    assert !Bit(ShrBits(b, s), |b| - 1);
  }

  lemma LastWordCopied(f: Format, S: seq<Word>, D: seq<Word>, a: seq<Word>, numShift: nat, n: nat)
    requires f.Holds(|S|) && f.Holds(|D|) && 0 < n <= |S| && n <= |D|
    requires TWO31 <= numShift <= Pos(f.W, n, 0) < TWO32 && numShift % f.W == 0
    requires RightFits(f.W, numShift, n, |D|, |S|) && RightShifted(f, S, D, a, numShift, n)
    requires forall i :: 0 <= i < |S| ==> S[i] == Ones(f.W)
    ensures f.Holds(|a|) && n <= |a| && a[f.Slot(n - 1)] == Ones(f.W)
  {
    hide RightWord, RightCount, RightOffset, RightFits, Format.Valid;
    var q := numShift / f.W;
    HoldsWidth(f, |S|);
    SplitPos(numShift, f.W);
    Cancel(q, n, f.W);
    RightCountExact(f.W, q, n);
    RightWordCases(f, S, D, numShift, n, q, 0, n - 1);
  }

  lemma LastBit(f: Format, a: seq<Word>, n: nat)
    requires f.Holds(|a|) && 0 < n <= |a| && a[f.Slot(n - 1)] == Ones(f.W)
    ensures 0 < Pos(f.W, n, 0) <= |a| * f.W && f.Bits(a)[Pos(f.W, n, 0) - 1]
  {
    hide Format.Bits, Pos;
    PosOrder(f.W, 0, 0, n);
    Monotone(n, |a|, f.W);
    BitsAt(f, a, n - 1, f.W - 1);
    assert Pos(f.W, n - 1, f.W - 1) == Pos(f.W, n, 0) - 1 by { LastPos(f.W, n); }
  }

  lemma LastPos(W: nat, n: nat)
    requires W > 0 && n > 0
    ensures Pos(W, n - 1, W - 1) == Pos(W, n, 0) - 1
  {
  }

  // The number of words of a reverse map

  /** What the shift macros make of the number of words: it goes through a number of bytes, in `unsigned int`. */
  function WordsInBytes(W: nat, numWords: nat): nat
    requires W > 0
  {
    U32(8 * (U32(numWords * W) / 8)) / W
  }

  lemma WordsInBytesExact(W: nat, numWords: nat)
    requires W > 0 && W % 8 == 0
    ensures WordsInBytes(W, numWords) == numWords <==> numWords * W < TWO32
  {
    var x := U32(numWords * W);
    if numWords * W < TWO32 {
      var m := W / 8;
      assert numWords * W == 8 * (numWords * m);
      QuotientUnique(numWords * W, numWords, 0, W);
    } else {
      var y := U32(8 * (x / 8));
      assert y / W * W <= y;
      if y / W >= numWords { Monotone(numWords, y / W, W); }
    }
  }
}
