/** How a bitmap lies in memory, and the string of bits it stands for. */
module Bitmap {
  import opened Words

  /** `numWords == 0` is a forward map: word `k` of the map is array element `k`. Otherwise the map is
      a reverse map of `numWords` words, stored last word first. `order[i]` is where bit `i` of a word
      in host order is found in the stored word: see HostOrder and SwappedOrder. */
  datatype Format = Format(W: nat, numWords: nat, order: seq<nat>) {
    predicate Valid() {
      && W > 0
      && |order| == W
      && forall i :: 0 <= i < W ==> order[i] < W && order[order[i]] == i
    }

    /** An array of `len` words holds a map of this format. */
    predicate Holds(len: nat) {
      Valid() && (numWords == 0 || numWords == len)
    }

    /** Array index of word `k` of the map. */
    function Slot(k: nat): int {
      if numWords == 0 then k else numWords - 1 - k
    }

    /** The inverse: which word of the map array element `i` is. */
    function WordAt(i: int): int {
      if numWords == 0 then i else numWords - 1 - i
    }

    /** CONV_FUNC: a no-op, or `bswap_16`, `bswap_32`, `bswap_64`. */
    function Conv(w: Word): (r: Word)
      requires Valid()
      ensures |r| == W && forall i: nat :: i < W ==> Bit(r, i) == Bit(w, order[i])
    {
      seq(W, (i: nat) requires i < W => Bit(w, order[i]))
    }

    /** Word `k` of the map, in host order. */
    function Get(a: seq<Word>, k: nat): Word
      requires Holds(|a|) && k < |a|
    {
      Conv(a[Slot(k)])
    }

    /** Bit `i` of the map, as the bitmap functions number them. */
    predicate IsSet(a: seq<Word>, i: nat)
      requires Holds(|a|) && i < |a| * W
    {
      WordInside(i, W, |a|);
      Bit(Get(a, i / W), i % W)
    }

    /** All the bits of the map. */
    function Bits(a: seq<Word>): (b: seq<bool>)
      requires Holds(|a|)
      ensures |b| == |a| * W && forall i: nat :: i < |b| ==> b[i] == IsSet(a, i)
    {
      seq(|a| * W, (i: nat) requires i < |a| * W => IsSet(a, i))
    }
  }

  /** Every word of the map has an array element of its own. */
  lemma SlotFacts(f: Format, len: nat)
    requires f.Holds(len)
    ensures f.Valid()
    ensures forall k: nat {:trigger f.Slot(k)} :: k < len ==> 0 <= f.Slot(k) < len && f.WordAt(f.Slot(k)) == k
  {
  }

  lemma SlotInside(f: Format, len: nat, k: nat)
    requires f.Holds(len) && k < len
    ensures 0 <= f.Slot(k) < len
  {
  }

  lemma HoldsWidth(f: Format, len: nat)
    requires f.Holds(len)
    ensures f.Valid() && f.W > 0
  {
  }

  /** The number of bit `j` of word `k`. */
  function Pos(W: nat, k: nat, j: nat): nat {
    k * W + j
  }

  lemma WordInside(i: nat, W: nat, n: nat)
    requires i < n * W
    ensures W > 0 && i / W < n
  {
    if i / W >= n {
      Monotone(n, i / W, W);
      assert false;
    }
  }

  lemma WordOf(i: nat, W: nat, n: nat) returns (k: nat, j: nat)
    requires i < n * W
    ensures k < n && j < W && i == Pos(W, k, j)
  {
    WordInside(i, W, n);
    k, j := i / W, i % W;
  }

  lemma Monotone(x: nat, y: nat, m: nat)
    requires x <= y
    ensures x * m <= y * m
  {
  }

  lemma Cancel(x: nat, y: nat, m: nat)
    requires m > 0
    ensures x * m <= y * m ==> x <= y
    ensures x * m < y * m ==> x < y
  {
    if x > y {
      Monotone(y + 1, x, m);
    }
  }

  /** Positions are ordered by word, then by bit, and those below `n * W` are the bits of `n` words. */
  lemma PosOrder(W: nat, k: nat, j: nat, n: nat)
    requires j < W
    ensures Pos(W, k, j) < n * W <==> k < n
    ensures Pos(W, n, 0) == n * W
  {
    if k < n { Monotone(k + 1, n, W); } else { Monotone(n, k, W); }
  }

  lemma PosLess(W: nat, k: nat, j: nat, q: nat, b: nat)
    requires j < W && b < W
    ensures Pos(W, q, b) <= Pos(W, k, j) <==> q < k || (q == k && b <= j)
  {
    if q < k { Monotone(q + 1, k, W); } else if k < q { Monotone(k + 1, q, W); }
  }

  lemma PosMinus(W: nat, k: nat, j: nat, q: nat, b: nat)
    requires q <= k
    ensures j >= b ==> Pos(W, k, j) - Pos(W, q, b) == Pos(W, k - q, j - b)
    ensures q < k && j + W >= b ==> Pos(W, k, j) - Pos(W, q, b) == Pos(W, k - q - 1, j + W - b)
  {
    assert (k - q) * W == k * W - q * W;
    assert q < k ==> (k - q - 1) * W == (k - q) * W - W;
  }

  lemma PosPlus(W: nat, k: nat, j: nat, q: nat, b: nat)
    ensures Pos(W, k, j) + Pos(W, q, b) == Pos(W, k + q, j + b)
    ensures j + b >= W ==> Pos(W, k, j) + Pos(W, q, b) == Pos(W, k + q + 1, j + b - W)
  {
    assert (k + q) * W == k * W + q * W;
    assert (k + q + 1) * W == (k + q) * W + W;
  }

  /** The word and the bit in it of position `p`. */
  method Split(p: nat, W: nat) returns (k: nat, j: nat)
    requires W > 0
    ensures k == p / W && j == p % W < W && p == Pos(W, k, j)
  {
    k, j := p / W, p % W;
  }

  lemma SplitPos(p: nat, W: nat)
    requires W > 0
    ensures p == Pos(W, p / W, p % W) && p % W < W
  {
  }

  function WordCount(nbits: nat, W: nat): nat
    requires W > 0
  {
    nbits / W
  }

  method WholeWords(nbits: nat, W: nat) returns (n: nat)
    requires W > 0 && nbits % W == 0
    ensures n == WordCount(nbits, W) && nbits == Pos(W, n, 0)
  {
    n := nbits / W;
  }

  lemma FitsIn(W: nat, n: nat, len: nat)
    requires W > 0 && Pos(W, n, 0) <= len * W
    ensures n <= len
  {
    Cancel(n, len, W);
  }

  lemma InMap(W: nat, d: nat, x: nat, rest: nat, len: nat)
    requires W > 0 && rest > 0 && Pos(W, d, x) + rest <= len * W
    ensures d < len
  {
    Cancel(d, len, W);
  }

  lemma AmountFits(W: nat, q: nat, b: nat, n: nat)
    requires b < W
    ensures Pos(W, q, b) <= Pos(W, n, 0) ==> q <= n && (b > 0 ==> q < n)
    ensures Pos(W, q, b) < Pos(W, n, 0) ==> q < n
  {
    if q >= n { Monotone(n, q, W); }
    if q > n { Monotone(n + 1, q, W); }
  }

  /** The bits of `c` followed by the rest of `D`. */
  lemma SplicedBit(c: seq<bool>, D: seq<bool>, p: nat)
    requires |c| <= |D|
    ensures |c + D[|c|..]| == |D|
    ensures Bit(c + D[|c|..], p) == if p < |c| then Bit(c, p) else Bit(D, p)
  {
  }

  /** Bit `Pos(W, k, j)` of the map is bit `j` of word `k`. */
  lemma BitsAt(f: Format, a: seq<Word>, k: nat, j: nat)
    requires f.Holds(|a|) && k < |a| && j < f.W
    ensures Pos(f.W, k, j) < |a| * f.W
    ensures f.Bits(a)[Pos(f.W, k, j)] == Bit(f.Get(a, k), j)
  {
    PosOrder(f.W, k, j, |a|);
    QuotientUnique(k * f.W + j, k, j, f.W);
  }

  /** Word `k` of the map holds the bits of `b` from `k * W` on. */
  predicate WordHolds(f: Format, a: seq<Word>, k: nat, b: seq<bool>)
    requires f.Holds(|a|) && k < |a|
  {
    forall j: nat :: j < f.W ==> Bit(f.Get(a, k), j) == Bit(b, Pos(f.W, k, j))
  }

  /** A map has the bits `b` when each of its words holds its share. */
  lemma BitsFromWords(f: Format, a: seq<Word>, b: seq<bool>)
    requires f.Holds(|a|) && |b| == |a| * f.W
    requires forall k: nat | k < |a| :: WordHolds(f, a, k, b)
    ensures f.Bits(a) == b
  {
    hide Pos, Format.Bits, Format.Get;
    forall i: nat | i < |b| ensures f.Bits(a)[i] == b[i] {
      var k, j := WordOf(i, f.W, |a|);
      BitsAt(f, a, k, j);
      assert WordHolds(f, a, k, b);
    }
  }

  function HostOrder(W: nat): seq<nat> {
    seq(W, (i: nat) => i)
  }

  /** The bytes of a word in the opposite order. */
  function SwappedOrder(W: nat): seq<nat>
    requires W % 8 == 0
  {
    seq(W, (i: nat) requires i < W => W - 8 - 8 * (i / 8) + i % 8)
  }

  lemma OrdersAreValid(W: nat, numWords: nat)
    requires W > 0 && W % 8 == 0
    ensures Format(W, numWords, HostOrder(W)).Valid()
    ensures Format(W, numWords, SwappedOrder(W)).Valid()
  {
    var o := SwappedOrder(W);
    forall i | 0 <= i < W ensures o[i] < W && o[o[i]] == i {
      assert o[i] / 8 == W / 8 - 1 - i / 8 && o[i] % 8 == i % 8;
    }
  }

  /** The map in `b`, of format `g`, holds the same words as the map in `a`, of format `f`, each bit where its format puts
      it. */
  predicate Mirrors(f: Format, a: seq<Word>, g: Format, b: seq<Word>)
    requires f.Holds(|a|) && g.Holds(|b|)
  {
    && f.W == g.W && |a| == |b|
    && forall k: nat, j: nat :: k < |a| && j < f.W ==> Bit(f.Get(a, k), j) == Bit(g.Get(b, k), j)
  }

  /** Two maps hold the same words exactly when they stand for the same bits. */
  lemma MirrorsIff(f: Format, a: seq<Word>, g: Format, b: seq<Word>)
    requires f.Holds(|a|) && g.Holds(|b|) && f.W == g.W && |a| == |b|
    ensures Mirrors(f, a, g, b) <==> f.Bits(a) == g.Bits(b)
  {
    hide Pos, Format.Bits, Format.Get;
    forall k: nat, j: nat | k < |a| && j < f.W
      ensures Pos(f.W, k, j) < |a| * f.W
      ensures f.Bits(a)[Pos(f.W, k, j)] == Bit(f.Get(a, k), j) && g.Bits(b)[Pos(f.W, k, j)] == Bit(g.Get(b, k), j)
    {
      BitsAt(f, a, k, j);
      BitsAt(g, b, k, j);
    }
    if Mirrors(f, a, g, b) {
      forall i: nat | i < |a| * f.W ensures f.Bits(a)[i] == g.Bits(b)[i] {
        var k, j := WordOf(i, f.W, |a|);
      }
    }
  }

  /** The reverse map with the same words is the array with the words in the opposite order, and no other. */
  lemma ReverseMirrors(f: Format, a: seq<Word>, r: seq<Word>)
    requires f.Holds(|a|) && f.numWords == 0 && |r| == |a| > 0
    ensures Mirrors(f, a, f.(numWords := |a|), r)
            <==> forall k: nat, i: nat :: k < |a| && i < f.W ==> Bit(a[k], i) == Bit(r[|a| - 1 - k], i)
  {
    var g := f.(numWords := |a|);
    if Mirrors(f, a, g, r) {
      forall k: nat, i: nat | k < |a| && i < f.W ensures Bit(a[k], i) == Bit(r[|a| - 1 - k], i) {
        var j := f.order[i];
        assert Bit(f.Get(a, k), j) == Bit(g.Get(r, k), j);
      }
    }
  }

  /** Byte `b` of a word, least significant bit first. */
  function ByteAt(w: Word, b: nat): (r: seq<bool>)
    ensures |r| == 8
  {
    seq(8, (i: nat) => Bit(w, 8 * b + i))
  }

  /** CONV_FUNC keeps a word in host order, and otherwise exchanges its first byte with the last, and so on. */
  lemma ConvBytes(f: Format, w: Word, b: nat)
    requires f.Valid() && f.W % 8 == 0 && b < f.W / 8
    ensures f.order == HostOrder(f.W) ==> ByteAt(f.Conv(w), b) == ByteAt(w, b)
    ensures f.order == SwappedOrder(f.W) ==> ByteAt(f.Conv(w), b) == ByteAt(w, f.W / 8 - 1 - b)
  {
    var x, y, z := ByteAt(f.Conv(w), b), ByteAt(w, b), ByteAt(w, f.W / 8 - 1 - b);
    forall i: nat | i < 8
      ensures f.order == HostOrder(f.W) ==> x[i] == y[i]
      ensures f.order == SwappedOrder(f.W) ==> x[i] == z[i]
    {
      assert (8 * b + i) / 8 == b && (8 * b + i) % 8 == i;
    }
  }

  lemma ByteBit(w: Word, j: nat)
    ensures ByteAt(w, j / 8)[j % 8] == Bit(w, j)
  {
  }

  /** The byte-swapped map with the same words is the array with the bytes of every word in the opposite order, and no
      other. */
  lemma SwapMirrors(f: Format, a: seq<Word>, r: seq<Word>)
    requires f.Holds(|a|) && f.order == HostOrder(f.W) && |r| == |a| && f.W % 8 == 0
    requires f.(order := SwappedOrder(f.W)).Valid()
    ensures Mirrors(f, a, f.(order := SwappedOrder(f.W)), r)
            <==> forall k: nat, b: nat :: k < |a| && b < f.W / 8 ==> ByteAt(a[k], b) == ByteAt(r[k], f.W / 8 - 1 - b)
  {
    var g := f.(order := SwappedOrder(f.W));
    hide SwappedOrder, HostOrder, ByteAt, Format.Conv, Bit;
    forall k: nat, b: nat | k < |a| && b < f.W / 8
      ensures 0 <= f.Slot(k) < |a| && f.Slot(k) == g.Slot(k)
      ensures ByteAt(f.Get(a, k), b) == ByteAt(a[f.Slot(k)], b)
      ensures ByteAt(g.Get(r, k), b) == ByteAt(r[f.Slot(k)], f.W / 8 - 1 - b)
    {
      ConvBytes(f, a[f.Slot(k)], b);
      ConvBytes(g, r[f.Slot(k)], b);
    }
    if Mirrors(f, a, g, r) {
      forall k: nat, b: nat | k < |a| && b < f.W / 8 ensures ByteAt(a[k], b) == ByteAt(r[k], f.W / 8 - 1 - b) {
        assert k == f.Slot(f.WordAt(k));
        SameByte(f.Get(a, f.WordAt(k)), g.Get(r, f.WordAt(k)), f.W, b);
      }
    } else {
      var k: nat, j: nat :| k < |a| && j < f.W && Bit(f.Get(a, k), j) != Bit(g.Get(r, k), j);
      ByteBit(f.Get(a, k), j);
      ByteBit(g.Get(r, k), j);
      assert j / 8 < f.W / 8;
    }
  }

  lemma SameByte(x: Word, y: Word, W: nat, b: nat)
    requires forall j: nat :: j < W ==> Bit(x, j) == Bit(y, j)
    requires W % 8 == 0 && b < W / 8
    ensures ByteAt(x, b) == ByteAt(y, b)
  {
  }
}
