/** Reading and writing a word of 8, 16, 32 or 64 bits at any position of a forward, host-order bitmap, on a
    little-endian host: the 64-bit union is then a bitmap of 64 bits whose low bits are the word. */
module ReadWrite {
  import opened Words
  import opened Bitmap
  import opened Tests
  import opened GenOps
  import opened Gen

  predicate Plain(f: Format) {
    f.W > 0 && 64 % f.W == 0 && f.numWords == 0 && f.order == HostOrder(f.W)
  }

  lemma PlainHolds(f: Format, len: nat)
    requires Plain(f)
    ensures f.Holds(len)
    ensures 64 / f.W * f.W == 64
  {
  }

  /** The words of the union that holds `targ`: its bits, then zeros. */
  function Pieces(W: nat, targ: Word, n: nat): (r: seq<Word>)
    ensures |r| == n
    ensures forall k: nat, j: nat :: k < n && j < W ==> Bit(r[k], j) == Bit(targ, Pos(W, k, j))
  {
    seq(n, (k: nat) => seq(W, (j: nat) => Bit(targ, Pos(W, k, j))))
  }

  /** The union followed by whatever word lies behind it in memory. */
  lemma UnionBits(f: Format, targ: Word, guard: Word, p: nat)
    requires Plain(f) && p < 64
    ensures var words := Pieces(f.W, targ, 64 / f.W) + [guard];
      f.Holds(|words|) && |words| * f.W == 64 + f.W && Bit(f.Bits(words), p) == Bit(targ, p)
  {
    hide Format.Bits, Pieces;
    var words := Pieces(f.W, targ, 64 / f.W) + [guard];
    PlainHolds(f, |words|);
    assert (64 / f.W + 1) * f.W == 64 / f.W * f.W + f.W;
    var k, j := WordOf(p, f.W, 64 / f.W);
    BitsAt(f, words, k, j);
    assert f.Get(words, k) == f.Conv(Pieces(f.W, targ, 64 / f.W)[k]);
    assert f.order[j] == j;
  }

  /** Copying `T` bits of a map to position 0 of `D`. */
  lemma CopyOut(f: Format, src: seq<Word>, srcPos: nat, T: nat, D: seq<bool>)
    requires f.Holds(|src|) && T <= |D| && srcPos + T <= |src| * f.W
    ensures GenBits(Move(false), D, Aligned(f, Map(src), srcPos, 0, T), 0, T)[..T] == f.Bits(src)[srcPos..srcPos + T]
  {
    hide Format.Bits, Format.Valid, GenBits, Aligned;
    var r := GenBits(Move(false), D, Aligned(f, Map(src), srcPos, 0, T), 0, T);
    forall i: nat | i < T ensures r[..T][i] == f.Bits(src)[srcPos..srcPos + T][i] {
      assert r[i] == Bit(r, i);
      assert Map(src).HasBit(f, i + srcPos) == Bit(f.Bits(src), srcPos + i);
    }
  }

  /** Copying the union to position `destPos` of `B`. */
  lemma CopyIn(f: Format, targ: Word, guard: Word, destPos: nat, B: seq<bool>)
    requires Plain(f) && |targ| <= 64 && destPos + |targ| <= |B|
    ensures var words := Pieces(f.W, targ, 64 / f.W) + [guard];
      && f.Holds(|words|)
      && |words| * f.W == 64 + f.W
      && GenBits(Move(false), B, Aligned(f, Map(words), 0, destPos, destPos + |targ|), destPos, destPos + |targ|)
         == B[..destPos] + targ + B[destPos + |targ|..]
  {
    hide Pos, Format.Bits, Format.Valid, Pieces, GenBits, Aligned;
    var words := Pieces(f.W, targ, 64 / f.W) + [guard];
    UnionBits(f, targ, guard, 0);
    var r := GenBits(Move(false), B, Aligned(f, Map(words), 0, destPos, destPos + |targ|), destPos, destPos + |targ|);
    var want := B[..destPos] + targ + B[destPos + |targ|..];
    forall p: nat | p < |B| ensures Bit(r, p) == Bit(want, p) {
      if destPos <= p < destPos + |targ| {
        UnionBits(f, targ, guard, p - destPos);
        assert Map(words).HasBit(f, p - destPos) == Bit(f.Bits(words), p - destPos);
      }
    }
    SameBits(r, want);
  }

  /** xdp2_bitmap_read8/16/32/64. */
  method Read(f: Format, src: seq<Word>, srcPos: nat, T: nat) returns (r: Word)
    requires Plain(f) && T <= 64 && srcPos + T <= |src| * f.W
    requires ReadableAt(f, Map(src), srcPos, 0, T)
    ensures f.Holds(|src|) && r == f.Bits(src)[srcPos..srcPos + T]
  {
    var n := 64 / f.W;
    PlainHolds(f, |src|);
    PlainHolds(f, n);
    assert Map(src).Fits(f);
    hide *;
    var data := new Word[n](_ => Zero(f.W));
    ghost var D := f.Bits(data[..]);
    var _ := Gen2(f, Move(false), data, 0, Map(src), srcPos, T, NoTest);
    CopyOut(f, src, srcPos, T, D);
    r := f.Bits(data[..])[..T];
  }

  /** xdp2_bitmap_write8/16/32/64. `guard` is the word behind the union: it is read and does not matter. */
  method Write(f: Format, targ: Word, dest: array<Word>, destPos: nat, guard: Word)
    requires Plain(f) && |targ| <= 64 && destPos + |targ| <= dest.Length * f.W
    modifies dest
    ensures f.Holds(dest.Length)
    ensures var was := old(f.Bits(dest[..]));
      |was| == dest.Length * f.W && f.Bits(dest[..]) == was[..destPos] + targ + was[destPos + |targ|..]
  {
    PlainHolds(f, dest.Length);
    var words := Pieces(f.W, targ, 64 / f.W) + [guard];
    CopyIn(f, targ, guard, destPos, f.Bits(dest[..]));
    assert Map(words).Fits(f);
    GuardWordSuffices(f, Map(words), 0, destPos, destPos + |targ|);
    hide *;
    var _ := Gen2(f, Move(false), dest, destPos, Map(words), 0, destPos + |targ|, NoTest);
  }

  /** Which words are read depends on how many there are, not on what they hold. */
  lemma SameLength(f: Format, a: seq<Word>, b: seq<Word>, pos: nat, T: nat)
    requires f.W > 0 && |a| == |b| && ReadableAt(f, Map(a), pos, 0, T)
    ensures ReadableAt(f, Map(b), pos, 0, T)
  {
  }

  /** A word written at any position is read back, and nothing else has changed. */
  method WriteThenRead(f: Format, targ: Word, dest: array<Word>, pos: nat, guard: Word) returns (r: Word)
    requires Plain(f) && |targ| <= 64 && pos + |targ| <= dest.Length * f.W
    requires ReadableAt(f, Map(dest[..]), pos, 0, |targ|)
    modifies dest
    ensures r == targ
    ensures f.Holds(dest.Length) && f.Bits(dest[..])[..pos] == old(f.Bits(dest[..]))[..pos]
    ensures f.Bits(dest[..])[pos + |targ|..] == old(f.Bits(dest[..]))[pos + |targ|..]
  {
    PlainHolds(f, dest.Length);
    ghost var before := dest[..];
    hide *;
    Write(f, targ, dest, pos, guard);
    SameLength(f, before, dest[..], pos, |targ|);
    r := Read(f, dest[..], pos, |targ|);
  }
}
