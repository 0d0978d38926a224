/** Rotating a multi-word bitmap, in place or from another map. */
module Rotate {
  import opened Words
  import opened Bitmap
  import opened Shift
  import opened Rings

  /** Clear the low `rb` bits of the stored word `d` and put the top bits of `y` there. */
  function PutLow(f: Format, d: Word, y: Word, rb: nat): Word
    requires f.Valid() && rb <= f.W
  {
    Or(f.W, And(f.W, d, Not(f.W, f.Conv(Shr(f.W, Ones(f.W), f.W - rb)))), StoredShr(f, y, f.W - rb))
  }

  /** Keep the low `rb` bits of the stored word `d` and put `x` above them. */
  function PutHigh(f: Format, d: Word, x: Word, rb: nat): Word
    requires f.Valid() && rb <= f.W
  {
    Or(f.W, And(f.W, d, Not(f.W, f.Conv(Shl(f.W, Ones(f.W), rb)))), StoredShl(f, x, rb))
  }

  function Joined(f: Format, x: Word, y: Word, rb: nat): Word
    requires f.Valid() && rb <= f.W
  {
    Or(f.W, StoredShl(f, x, rb), StoredShr(f, y, f.W - rb))
  }

  /** Whatever was in the word before, and in whichever order the two halves are put. */
  lemma PutBoth(f: Format, d: Word, x: Word, y: Word, rb: nat)
    requires f.Valid() && rb <= f.W
    ensures PutHigh(f, PutLow(f, d, y, rb), x, rb) == Joined(f, x, y, rb)
    ensures PutLow(f, PutHigh(f, d, x, rb), y, rb) == Joined(f, x, y, rb)
  {
    SameBits(PutHigh(f, PutLow(f, d, y, rb), x, rb), Joined(f, x, y, rb));
    SameBits(PutLow(f, PutHigh(f, d, x, rb), y, rb), Joined(f, x, y, rb));
  }

  /** The stored word `k` of the first `n` words of `S` rotated left by `rb` bits. */
  function Turned(f: Format, S: seq<Word>, n: nat, rb: nat, k: nat): Word
    requires f.Holds(|S|) && rb < f.W && k < n <= |S|
  {
    if rb == 0 then S[f.Slot(k)]
    else Joined(f, S[f.Slot(k)], S[f.Slot(if k == 0 then n - 1 else k - 1)], rb)
  }

  lemma TurnedIs(f: Format, S: seq<Word>, n: nat, rb: nat, k: nat)
    requires f.Holds(|S|) && 0 < rb < f.W && k < n <= |S|
    ensures 0 <= f.Slot(k) < |S| && 0 <= f.Slot(n - 1) < |S|
    ensures k == 0 ==> Turned(f, S, n, rb, k) == Joined(f, S[f.Slot(k)], S[f.Slot(n - 1)], rb)
    ensures k > 0 ==> 0 <= f.Slot(k - 1) < |S| && Turned(f, S, n, rb, k) == Joined(f, S[f.Slot(k)], S[f.Slot(k - 1)], rb)
  {
    hide Joined;
  }

  /** The first loop of __XDP2_BITMAP_MAKE_ROTATE: rotate by less than a word. */
  method TurnBits(f: Format, dest: array<Word>, src: array<Word>, n: nat, rb: nat)
    requires f.Holds(dest.Length) && f.Holds(src.Length) && 2 <= n <= dest.Length && n <= src.Length
    requires 0 < rb < f.W
    modifies dest
    ensures forall k: nat {:trigger dest[f.Slot(k)]} :: k < n ==> dest[f.Slot(k)] == Turned(f, old(src[..]), n, rb, k)
    ensures forall k: nat {:trigger dest[f.Slot(k)]} :: n <= k < dest.Length ==> dest[f.Slot(k)] == old(dest[f.Slot(k)])
  {
    hide *;
    SlotFacts(f, dest.Length);
    SlotFacts(f, src.Length);
    ghost var S, D := src[..], dest[..];
    var word := src[f.Slot(0)];
    var i := 0;
    while i < n - 1
      invariant 0 <= i <= n - 1
      invariant word == S[f.Slot(i)]
      invariant dest[f.Slot(i)] == if i == 0 then D[f.Slot(0)] else PutLow(f, D[f.Slot(i)], S[f.Slot(i - 1)], rb)
      invariant i > 0 ==> dest[f.Slot(0)] == PutHigh(f, D[f.Slot(0)], S[f.Slot(0)], rb)
      invariant forall k: nat {:trigger dest[f.Slot(k)]} :: 1 <= k < i ==> dest[f.Slot(k)] == Turned(f, S, n, rb, k)
      invariant forall k: nat {:trigger dest[f.Slot(k)]} :: i < k < dest.Length ==> dest[f.Slot(k)] == D[f.Slot(k)]
      invariant forall k: nat {:trigger src[f.Slot(k)]} :: i < k < n ==> src[f.Slot(k)] == S[f.Slot(k)]
    {
      dest[f.Slot(i)] := PutHigh(f, dest[f.Slot(i)], word, rb);
      var next := src[f.Slot(i + 1)];
      dest[f.Slot(i + 1)] := PutLow(f, dest[f.Slot(i + 1)], word, rb);
      if i > 0 {
        PutBoth(f, D[f.Slot(i)], S[f.Slot(i)], S[f.Slot(i - 1)], rb);
        TurnedIs(f, S, n, rb, i);
      }
      word := next;
      i := i + 1;
    }
    PutBoth(f, D[f.Slot(n - 1)], S[f.Slot(n - 1)], S[f.Slot(n - 2)], rb);
    PutBoth(f, D[f.Slot(0)], S[f.Slot(0)], S[f.Slot(n - 1)], rb);
    TurnedIs(f, S, n, rb, n - 1);
    TurnedIs(f, S, n, rb, 0);
    dest[f.Slot(n - 1)] := PutHigh(f, dest[f.Slot(n - 1)], word, rb);
    dest[f.Slot(0)] := PutLow(f, dest[f.Slot(0)], word, rb);
  }

  /** The index from which a step leads to `s`. */
  function Back(n: nat, r: nat, s: nat): int
    requires n > 0
  {
    (s - r) % n
  }

  lemma StepFacts(n: nat, r: nat)
    requires n > 0
    ensures forall k: nat {:trigger Step(n, r, k)} :: k < n ==> Back(n, r, Step(n, r, k)) == k
  {
    forall k: nat | k < n ensures Back(n, r, Step(n, r, k)) == k {
      ModStep(k + r, 0 - r, n);
      RemainderUnique(k, 0, k, n);
    }
  }

  /** One word moves on `r` places; the words at the indices in `U` have arrived. */
  method MoveOne(f: Format, dest: array<Word>, fsrc: array<Word>, n: nat, r: nat, index: nat, word: Word,
                 ghost S: seq<Word>, ghost U: set<nat>)
    returns (next: nat, nextWord: Word)
    requires f.Holds(dest.Length) && f.Holds(fsrc.Length) && n <= dest.Length && n <= fsrc.Length
    requires |S| == fsrc.Length && index < n && 0 <= f.Slot(index) < |S| && word == S[f.Slot(index)]
    requires Step(n, r, index) !in U
    requires forall k: nat {:trigger Step(n, r, k)} :: k < n && Step(n, r, k) in U ==>
      dest[f.Slot(Step(n, r, k))] == S[f.Slot(k)]
    requires forall k: nat {:trigger fsrc[f.Slot(k)]} :: k < n && k !in U ==> fsrc[f.Slot(k)] == S[f.Slot(k)]
    modifies dest
    ensures next == Step(n, r, index) && 0 <= f.Slot(next) < |S| && nextWord == S[f.Slot(next)]
    ensures forall k: nat {:trigger Step(n, r, k)} :: k < n && Step(n, r, k) in U + {next} ==>
      dest[f.Slot(Step(n, r, k))] == S[f.Slot(k)]
    ensures forall k: nat {:trigger fsrc[f.Slot(k)]} :: k < n && k !in U + {next} ==> fsrc[f.Slot(k)] == S[f.Slot(k)]
    ensures forall k: nat {:trigger dest[f.Slot(k)]} :: n <= k < dest.Length ==> dest[f.Slot(k)] == old(dest[f.Slot(k)])
  {
    hide *;
    SlotFacts(f, dest.Length);
    SlotFacts(f, fsrc.Length);
    StepFacts(n, r);
    next := Step(n, r, index);
    nextWord := fsrc[f.Slot(next)];
    dest[f.Slot(next)] := word;
  }

  /** Once round the ring of `base`, each word moving on `r` places; `count` words remain to be moved. */
  method MoveRing(f: Format, dest: array<Word>, fsrc: array<Word>, n: nat, r: nat, base: nat, count: nat,
                  ghost S: seq<Word>, ghost V: set<nat>)
    returns (left: nat, ghost t: nat)
    requires f.Holds(dest.Length) && f.Holds(fsrc.Length) && n <= dest.Length && n <= fsrc.Length
    requires |S| == fsrc.Length && 0 < r && base < n && base !in V && Closed(n, r, V) && count + |V| == n
    requires forall k: nat {:trigger Step(n, r, k)} :: k < n && Step(n, r, k) in V ==>
      dest[f.Slot(Step(n, r, k))] == S[f.Slot(k)]
    requires forall k: nat {:trigger fsrc[f.Slot(k)]} :: k < n && k !in V ==> fsrc[f.Slot(k)] == S[f.Slot(k)]
    modifies dest
    ensures t > 0 && Orbit(n, r, base, t) == base
    ensures V !! Visited(n, r, base, t) && left + |V + Visited(n, r, base, t)| == n
    ensures var V' := V + Visited(n, r, base, t);
      && (forall k: nat {:trigger Step(n, r, k)} :: k < n && Step(n, r, k) in V' ==>
            dest[f.Slot(Step(n, r, k))] == S[f.Slot(k)])
      && (forall k: nat {:trigger fsrc[f.Slot(k)]} :: k < n && k !in V' ==> fsrc[f.Slot(k)] == S[f.Slot(k)])
    ensures forall k: nat {:trigger dest[f.Slot(k)]} :: n <= k < dest.Length ==> dest[f.Slot(k)] == old(dest[f.Slot(k)])
  {
    hide *;
    SlotFacts(f, dest.Length);
    SlotFacts(f, fsrc.Length);
    var word := fsrc[f.Slot(base)];
    var index := base;
    left, t := count, 0;
    ghost var U := V;
    VisitedZero(n, r, base, V);
    while true
      invariant 0 <= t < n && index == Orbit(n, r, base, t) && index < n
      invariant 0 <= f.Slot(index) < |S| && word == S[f.Slot(index)]
      invariant U == V + Visited(n, r, base, t) && V !! Visited(n, r, base, t) && left + |U| == n
      invariant forall j: nat {:trigger Orbit(n, r, base, j)} :: 1 <= j <= t ==> Orbit(n, r, base, j) != base
      invariant forall k: nat {:trigger Step(n, r, k)} :: k < n && Step(n, r, k) in U ==>
        dest[f.Slot(Step(n, r, k))] == S[f.Slot(k)]
      invariant forall k: nat {:trigger fsrc[f.Slot(k)]} :: k < n && k !in U ==> fsrc[f.Slot(k)] == S[f.Slot(k)]
      invariant forall k: nat {:trigger dest[f.Slot(k)]} :: n <= k < dest.Length ==> dest[f.Slot(k)] == old(dest[f.Slot(k)])
      decreases n - t
    {
      NextIsNew(n, r, V, base, t);
      OneMore(n, r, V, base, t);
      index, word := MoveOne(f, dest, fsrc, n, r, index, word, S, U);
      left, t, U := left - 1, t + 1, U + {index};
      if index == base {
        break;
      }
      NotYetRound(n, r, base, t);
    }
  }

  lemma VisitedZero(n: nat, r: nat, b: nat, V: set<nat>)
    requires b < n
    ensures V == V + Visited(n, r, b, 0) && V !! Visited(n, r, b, 0) && Orbit(n, r, b, 0) == b
  {
  }

  lemma NotYetRound(n: nat, r: nat, b: nat, t: nat)
    requires b < n && t <= n
    requires forall j: nat {:trigger Orbit(n, r, b, j)} :: 1 <= j <= t ==> Orbit(n, r, b, j) != b
    ensures t < n
  {
    hide Orbit;
    if t == n {
      OrbitReturns(n, r, b);
      assert false;
    }
  }

  lemma OneMore(n: nat, r: nat, V: set<nat>, b: nat, t: nat)
    requires b < n && Closed(n, r, V) && b !in V && V !! Visited(n, r, b, t)
    requires Orbit(n, r, b, t + 1) !in V && Orbit(n, r, b, t + 1) !in Visited(n, r, b, t)
    ensures V + Visited(n, r, b, t + 1) == V + Visited(n, r, b, t) + {Orbit(n, r, b, t + 1)}
    ensures V !! Visited(n, r, b, t + 1)
    ensures Orbit(n, r, b, t + 1) == Step(n, r, Orbit(n, r, b, t))
    ensures |V + Visited(n, r, b, t + 1)| == |V + Visited(n, r, b, t)| + 1 <= n
  {
    var U := V + Visited(n, r, b, t);
    assert V + Visited(n, r, b, t + 1) == U + {Orbit(n, r, b, t + 1)};
    SubsetOfRange(V + Visited(n, r, b, t + 1), n);
  }

  /** The second loop of __XDP2_BITMAP_MAKE_ROTATE: move whole words along the rings. Every word is
      moved once, and there are gcd(n, r) rings. */
  method MoveWords(f: Format, dest: array<Word>, fsrc: array<Word>, n: nat, r: nat) returns (rings: nat)
    requires f.Holds(dest.Length) && f.Holds(fsrc.Length) && n <= dest.Length && n <= fsrc.Length && 0 < r < n
    modifies dest
    ensures rings == Gcd(n, r)
    ensures forall k: nat {:trigger Step(n, r, k)} :: k < n ==> dest[f.Slot(Step(n, r, k))] == old(fsrc[f.Slot(k)])
    ensures forall k: nat {:trigger dest[f.Slot(k)]} :: n <= k < dest.Length ==> dest[f.Slot(k)] == old(dest[f.Slot(k)])
  {
    hide *;
    SlotFacts(f, dest.Length);
    SlotFacts(f, fsrc.Length);
    ghost var S := fsrc[..];
    ghost var V: set<nat> := {};
    EmptyPartition(n, r);
    var base, count := 0, n;
    while count > 0
      invariant Partition(n, r, base, V) && count + |V| == n
      invariant forall k: nat {:trigger Step(n, r, k)} :: k < n && Step(n, r, k) in V ==>
        dest[f.Slot(Step(n, r, k))] == S[f.Slot(k)]
      invariant forall k: nat {:trigger fsrc[f.Slot(k)]} :: k < n && k !in V ==> fsrc[f.Slot(k)] == S[f.Slot(k)]
      invariant forall k: nat {:trigger dest[f.Slot(k)]} :: n <= k < dest.Length ==> dest[f.Slot(k)] == old(dest[f.Slot(k)])
      decreases count
    {
      NextBaseIsNew(n, r, base, V);
      PartitionClosed(n, r, base, V);
      ghost var t;
      count, t := MoveRing(f, dest, fsrc, n, r, base, count, S, V);
      AddRing(n, r, base, V, t);
      RingNotEmpty(n, r, base, V, t);
      V := V + Visited(n, r, base, t);
      base := base + 1;
    }
    PartitionClosed(n, r, base, V);
    SubsetOfRange(V, n);
    RingCount(n, r, base, V);
    rings := base;
  }

  lemma EmptyPartition(n: nat, r: nat)
    requires n > 0
    ensures Partition(n, r, 0, {})
  {
  }

  lemma PartitionClosed(n: nat, r: nat, base: nat, V: set<nat>)
    requires n > 0 && Partition(n, r, base, V)
    ensures Closed(n, r, V) && forall x | x in V :: x < n
  {
  }

  lemma RingNotEmpty(n: nat, r: nat, base: nat, V: set<nat>, t: nat)
    requires base < n && t > 0 && V !! Visited(n, r, base, t)
    ensures |V + Visited(n, r, base, t)| > |V|
  {
    var R := Visited(n, r, base, t);
    assert Orbit(n, r, base, t) in R;
    assert |R| > 0;
    assert |V + R| == |V| + |R|;
  }

  /** The stored word `k` of the first `n` words of `S` rotated left by `rw` words and `rb` bits. */
  function Rotated(f: Format, S: seq<Word>, n: nat, rw: nat, rb: nat, k: nat): Word
    requires f.Holds(|S|) && rb < f.W && k < n <= |S| && rw < n
  {
    Turned(f, S, n, rb, if k >= rw then k - rw else k + n - rw)
  }

  /** __XDP2_BITMAP_MAKE_ROTATE for maps of two or more words. */
  method MakeRotate(f: Format, dest: array<Word>, src: array<Word>, n: nat, rw: nat, rb: nat)
    requires f.Holds(dest.Length) && f.Holds(src.Length) && 2 <= n <= dest.Length && n <= src.Length
    requires rw < n && rb < f.W && (rw > 0 || rb > 0)
    modifies dest
    ensures forall k: nat {:trigger dest[f.Slot(k)]} :: k < n ==> dest[f.Slot(k)] == Rotated(f, old(src[..]), n, rw, rb, k)
    ensures forall k: nat {:trigger dest[f.Slot(k)]} :: n <= k < dest.Length ==> dest[f.Slot(k)] == old(dest[f.Slot(k)])
  {
    hide *;
    SlotFacts(f, dest.Length);
    SlotFacts(f, src.Length);
    ghost var S := src[..];
    var fsrc := src;
    if rb > 0 {
      TurnBits(f, dest, src, n, rb);
      fsrc := dest;
    }
    ghost var T := fsrc[..];
    assert forall k: nat {:trigger f.Slot(k)} :: k < n ==> T[f.Slot(k)] == Turned(f, S, n, rb, k) by {
      if rb == 0 { TurnedByNothing(f, S, n); }
    }
    if rw > 0 {
      var _ := MoveWords(f, dest, fsrc, n, rw);
      forall k: nat | k < n ensures dest[f.Slot(k)] == Rotated(f, S, n, rw, rb, k) {
        RotatedIs(f, S, n, rw, rb, k);
      }
    } else {
      forall k: nat | k < n ensures dest[f.Slot(k)] == Rotated(f, S, n, rw, rb, k) {
        RotatedIs(f, S, n, rw, rb, k);
      }
    }
  }

  lemma TurnedByNothing(f: Format, S: seq<Word>, n: nat)
    requires f.Holds(|S|) && n <= |S|
    ensures forall k: nat {:trigger f.Slot(k)} :: k < n ==> Turned(f, S, n, 0, k) == S[f.Slot(k)]
  {
  }

  lemma RotatedIs(f: Format, S: seq<Word>, n: nat, rw: nat, rb: nat, k: nat)
    requires f.Holds(|S|) && rb < f.W && k < n <= |S| && rw < n
    ensures var i := if k >= rw then k - rw else k + n - rw;
      i < n && Rotated(f, S, n, rw, rb, k) == Turned(f, S, n, rb, i) && Step(n, rw, i) == k
  {
    hide Turned;
  }

  /** The position that comes to `i` when `n` positions rotate up by `r`. */
  function From(n: nat, r: nat, i: nat): nat
    requires i < n && r <= n
  {
    if i >= r then i - r else i + n - r
  }

  /** Rotating a bit string towards its high end. */
  function RotBits(b: seq<bool>, r: nat): (c: seq<bool>)
    requires r <= |b|
    ensures |c| == |b| && forall i: nat :: i < |c| ==> Bit(c, i) == Bit(b, From(|b|, r, i))
  {
    seq(|b|, (i: nat) requires i < |b| => b[From(|b|, r, i)])
  }

  lemma TurnedHostOrder(f: Format, S: seq<Word>, n: nat, rb: nat, k: nat)
    requires f.Holds(|S|) && rb < f.W && k < n <= |S|
    ensures rb == 0 ==> f.Conv(Turned(f, S, n, rb, k)) == f.Get(S, k)
    ensures rb > 0 ==> f.Conv(Turned(f, S, n, rb, k))
                       == Or(f.W, Shl(f.W, f.Get(S, k), rb),
                             Shr(f.W, f.Get(S, if k == 0 then n - 1 else k - 1), f.W - rb))
  {
    hide Format.Conv, Format.Valid, Or, Shl, Shr;
    if rb > 0 {
      ConvHalves(f, Shl(f.W, f.Get(S, k), rb), Shr(f.W, f.Get(S, if k == 0 then n - 1 else k - 1), f.W - rb));
    }
  }

  /** In which word, and where in it, the bit that moves to (k, j) was. */
  lemma FromPos(W: nat, n: nat, rw: nat, rb: nat, k: nat, j: nat)
    requires k < n && j < W && rw < n && rb < W
    ensures Pos(W, k, j) < Pos(W, n, 0) && Pos(W, rw, rb) < Pos(W, n, 0)
    ensures var i := if k >= rw then k - rw else k + n - rw;
      From(Pos(W, n, 0), Pos(W, rw, rb), Pos(W, k, j))
      == if j >= rb then Pos(W, i, j - rb) else Pos(W, if i == 0 then n - 1 else i - 1, j + W - rb)
  {
    hide Pos;
    PosOrder(W, k, j, n);
    PosOrder(W, rw, rb, n);
    PosLess(W, k, j, rw, rb);
    if k >= rw {
      PosMinus(W, k, j, rw, rb);
      if k == rw && j < rb {
        PosPlus(W, k, j, n, 0);
        PosMinus(W, k + n, j, rw, rb);
      }
    } else {
      PosPlus(W, k, j, n, 0);
      PosMinus(W, k + n, j, rw, rb);
    }
  }

  lemma RotatedBit(f: Format, S: seq<Word>, n: nat, rw: nat, rb: nat, k: nat, j: nat)
    requires f.Holds(|S|) && rb < f.W && k < n <= |S| && rw < n && j < f.W
    ensures Pos(f.W, k, j) < Pos(f.W, n, 0) && Pos(f.W, rw, rb) < Pos(f.W, n, 0)
    ensures Bit(f.Conv(Rotated(f, S, n, rw, rb, k)), j)
            == Bit(f.Bits(S), From(Pos(f.W, n, 0), Pos(f.W, rw, rb), Pos(f.W, k, j)))
  {
    hide Pos, From, Turned, Format.Bits, Format.Get, Format.Conv;
    var W := f.W;
    var i := if k >= rw then k - rw else k + n - rw;
    FromPos(W, n, rw, rb, k, j);
    TurnedHostOrder(f, S, n, rb, i);
    if j >= rb {
      BitsAt(f, S, i, j - rb);
    } else {
      BitsAt(f, S, if i == 0 then n - 1 else i - 1, j + W - rb);
    }
  }

  /** Words moved along the rings make a rotated bit string. */
  lemma RotatedIsRotation(f: Format, S: seq<Word>, D: seq<Word>, a: seq<Word>, n: nat, rw: nat, rb: nat)
    requires f.Holds(|S|) && f.Holds(|D|) && |a| == |D| && n <= |S| && n <= |D| && rw < n && rb < f.W
    requires forall k: nat {:trigger a[f.Slot(k)]} :: k < n ==> a[f.Slot(k)] == Rotated(f, S, n, rw, rb, k)
    requires forall k: nat {:trigger a[f.Slot(k)]} :: n <= k < |a| ==> a[f.Slot(k)] == D[f.Slot(k)]
    ensures Pos(f.W, rw, rb) < Pos(f.W, n, 0) <= |S| * f.W && Pos(f.W, n, 0) <= |D| * f.W
    ensures f.Bits(a) == RotBits(f.Bits(S)[..Pos(f.W, n, 0)], Pos(f.W, rw, rb)) + f.Bits(D)[Pos(f.W, n, 0)..]
  {
    hide Pos, From, Rotated, Format.Bits;
    var W, m, r := f.W, Pos(f.W, n, 0), Pos(f.W, rw, rb);
    Monotone(n, |S|, W);
    Monotone(n, |D|, W);
    PosOrder(W, 0, 0, n);
    PosOrder(W, rw, rb, n);
    var c := RotBits(f.Bits(S)[..m], r);
    var t := c + f.Bits(D)[m..];
    forall k: nat | k < |a| ensures WordHolds(f, a, k, t) {
      forall j: nat | j < W ensures Bit(f.Get(a, k), j) == Bit(t, Pos(W, k, j)) {
        PosOrder(W, k, j, n);
        PosOrder(W, k, j, |a|);
        if k < n {
          RotatedBit(f, S, n, rw, rb, k, j);
          FromBelow(m, r, Pos(W, k, j));
          assert Bit(c, Pos(W, k, j)) == Bit(t, Pos(W, k, j));
        } else {
          BitsAt(f, D, k, j);
        }
      }
    }
    BitsFromWords(f, a, t);
  }

  lemma FromBelow(n: nat, r: nat, i: nat)
    requires i < n && r <= n
    ensures From(n, r, i) < n
  {
  }

  /** xdp2_[r]bitmap[N][swp]_rotate_left, `dest` and `src` being one array or two. */
  method RotateLeft(f: Format, dest: array<Word>, src: array<Word>, numRotate: nat, nbits: nat)
    requires f.Holds(dest.Length) && f.Holds(src.Length)
    requires nbits % f.W == 0 && nbits <= dest.Length * f.W && nbits <= src.Length * f.W
    modifies dest
    ensures nbits == 0 ==> dest[..] == old(dest[..])
    ensures nbits > 0 ==>
      f.Bits(dest[..]) == RotBits(old(f.Bits(src[..]))[..nbits], numRotate % nbits) + old(f.Bits(dest[..]))[nbits..]
  {
    if nbits == 0 {
      return;
    }
    assert f.W > 0;
    hide *;
    var r := numRotate % nbits;
    var n := WholeWords(nbits, f.W);
    var rw, rb := Split(r, f.W);
    FitsIn(f.W, n, dest.Length);
    FitsIn(f.W, n, src.Length);
    AmountFits(f.W, rw, rb, n);
    RotateBy(f, dest, src, n, rw, rb);
    RotatedIsRotation(f, old(src[..]), old(dest[..]), dest[..], n, rw, rb);
  }

  /** The three ways the wrapper goes: copy, rotate one word, rotate many. */
  method RotateBy(f: Format, dest: array<Word>, src: array<Word>, n: nat, rw: nat, rb: nat)
    requires f.Holds(dest.Length) && f.Holds(src.Length) && 0 < n <= dest.Length && n <= src.Length
    requires rw < n && rb < f.W
    modifies dest
    ensures forall k: nat {:trigger dest[f.Slot(k)]} :: k < n ==> dest[f.Slot(k)] == Rotated(f, old(src[..]), n, rw, rb, k)
    ensures forall k: nat {:trigger dest[f.Slot(k)]} :: n <= k < dest.Length ==> dest[f.Slot(k)] == old(dest[f.Slot(k)])
  {
    hide *;
    SlotFacts(f, dest.Length);
    SlotFacts(f, src.Length);
    ghost var S := src[..];
    if rw == 0 && rb == 0 {
      CopyWords(f, dest, src, n);
      forall k: nat | k < n ensures dest[f.Slot(k)] == Rotated(f, S, n, 0, 0, k) {
        RotatedIs(f, S, n, 0, 0, k);
        TurnedByNothing(f, S, n);
      }
    } else if n == 1 {
      TurnedIs(f, S, 1, rb, 0);
      RotatedIs(f, S, 1, 0, rb, 0);
      RolIsJoined(f, src[f.Slot(0)], rb);
      dest[f.Slot(0)] := f.Conv(Rol(f.W, f.Conv(src[f.Slot(0)]), rb));
    } else {
      MakeRotate(f, dest, src, n, rw, rb);
    }
  }

  /** xdp2_bitmap_word_rol8/16/32/64. */
  function Rol(W: nat, w: Word, n: nat): Word
    requires n <= W
  {
    Or(W, Shl(W, w, n), Shr(W, w, W - n))
  }

  lemma RolIsJoined(f: Format, w: Word, rb: nat)
    requires f.Valid() && rb <= f.W
    ensures f.Conv(Rol(f.W, f.Conv(w), rb)) == Joined(f, w, w, rb)
  {
    hide Format.Conv, Format.Valid, Or, Shl, Shr;
    ConvOr(f, Shl(f.W, f.Conv(w), rb), Shr(f.W, f.Conv(w), f.W - rb));
  }

  method CopyWords(f: Format, dest: array<Word>, src: array<Word>, n: nat)
    requires f.Holds(dest.Length) && f.Holds(src.Length) && n <= dest.Length && n <= src.Length
    modifies dest
    ensures forall k: nat {:trigger dest[f.Slot(k)]} :: k < n ==> dest[f.Slot(k)] == old(src[f.Slot(k)])
    ensures forall k: nat {:trigger dest[f.Slot(k)]} :: n <= k < dest.Length ==> dest[f.Slot(k)] == old(dest[f.Slot(k)])
  {
    hide *;
    SlotFacts(f, dest.Length);
    SlotFacts(f, src.Length);
    if src != dest {
      for i := 0 to n
        invariant forall k: nat {:trigger dest[f.Slot(k)]} :: k < i ==> dest[f.Slot(k)] == old(src[f.Slot(k)])
        invariant forall k: nat {:trigger dest[f.Slot(k)]} :: n <= k < dest.Length ==> dest[f.Slot(k)] == old(dest[f.Slot(k)])
      {
        dest[f.Slot(i)] := src[f.Slot(i)];
      }
    }
  }

  /** xdp2_[r]bitmap[N][swp]_rotate_right; `nbits - numRotate` is computed in 32 bits. */
  method RotateRight(f: Format, dest: array<Word>, src: array<Word>, numRotate: nat, nbits: nat)
    requires f.Holds(dest.Length) && f.Holds(src.Length) && numRotate < TWO32 && nbits < TWO32
    requires nbits % f.W == 0 && nbits <= dest.Length * f.W && nbits <= src.Length * f.W
    modifies dest
    ensures nbits == 0 ==> dest[..] == old(dest[..])
    ensures nbits > 0 ==>
      f.Bits(dest[..])
      == RotBits(old(f.Bits(src[..]))[..nbits], RightAmount(numRotate, nbits)) + old(f.Bits(dest[..]))[nbits..]
  {
    RotateLeft(f, dest, src, (nbits - numRotate) % TWO32, nbits);
  }

  function RightAmount(numRotate: nat, nbits: nat): (r: nat)
    requires nbits > 0
    ensures r < nbits
  {
    ((nbits - numRotate) % TWO32) % nbits
  }

  /** Rotating moves bit `i` to `(i + r) % n`. */
  lemma RotationMovesBits(b: seq<bool>, r: nat, i: nat)
    requires i < |b| && r <= |b|
    ensures RotBits(b, r)[(i + r) % |b|] == b[i]
  {
    var n := |b|;
    var k := (i + r) % n;
    if i + r < n {
      RemainderUnique(i + r, 0, i + r, n);
    } else {
      RemainderUnique(i + r, 1, i + r - n, n);
    }
    assert Bit(RotBits(b, r), k) == Bit(b, From(n, r, k));
  }

  /** Rotations compose additively. */
  lemma RotationsCompose(b: seq<bool>, r: nat, s: nat)
    requires |b| > 0 && r <= |b| && s <= |b|
    ensures RotBits(RotBits(b, r), s) == RotBits(b, (r + s) % |b|)
  {
    hide RotBits, From, Bit;
    var n := |b|;
    var x, y := RotBits(RotBits(b, r), s), RotBits(b, (r + s) % n);
    forall i: nat | i < n ensures Bit(x, i) == Bit(y, i) {
      FromTwice(n, r, s, i);
    }
    SameBits(x, y) by { assert |x| == |y|; }
  }

  lemma FromTwice(n: nat, r: nat, s: nat, i: nat)
    requires i < n && r <= n && s <= n
    ensures From(n, s, i) < n && From(n, r, From(n, s, i)) == From(n, (r + s) % n, i)
  {
    if r + s < n {
      RemainderUnique(r + s, 0, r + s, n);
    } else if r + s < 2 * n {
      RemainderUnique(r + s, 1, r + s - n, n);
    } else {
      RemainderUnique(r + s, 2, 0, n);
    }
  }

  /** Two rotations undo each other on every string of `n` bits exactly when their sum is 0 modulo n. */
  lemma UndoExactly(n: nat, l: nat, m: nat)
    requires l < n && m < n
    ensures (forall b: seq<bool> :: |b| == n ==> RotBits(RotBits(b, l), m) == b) <==> (l + m) % n == 0
  {
    hide RotBits;
    var k := (l + m) % n;
    if k == 0 {
      forall b: seq<bool> | |b| == n ensures RotBits(RotBits(b, l), m) == b {
        RotationsCompose(b, l, m);
        SameBits(RotBits(b, 0), b);
      }
    } else {
      var b := OnlyBit0(n);
      RotationsCompose(b, l, m);
      assert Bit(RotBits(b, k), 0) == Bit(b, From(n, k, 0));
      assert RotBits(RotBits(b, l), m) != b;
    }
  }

  function OnlyBit0(n: nat): (b: seq<bool>)
    ensures |b| == n && forall i: nat :: Bit(b, i) == (i < n && i == 0)
  {
    seq(n, (i: nat) => i == 0)
  }

  /** Rotating right by `r` undoes rotating left by `r`, for every map of `n` bits, exactly when `r` is at
      most `n` or `n` divides 2^32: otherwise `n - r` wraps round and the amounts do not cancel. */
  lemma RightUndoesLeft(n: nat, r: nat)
    requires 0 < n < TWO32 && r < TWO32
    ensures (forall b: seq<bool> :: |b| == n ==> RotBits(RotBits(b, r % n), RightAmount(r, n)) == b)
            <==> (r <= n || TWO32 % n == 0)
  {
    hide RotBits, RightAmount;
    Cancels(n, r);
    UndoExactly(n, r % n, RightAmount(r, n));
  }

  lemma Cancels(n: nat, r: nat)
    requires 0 < n < TWO32 && r < TWO32
    ensures ((r % n) + RightAmount(r, n)) % n == if r <= n then 0 else TWO32 % n
  {
    var x := (n - r) % TWO32;
    ModStep(r, x % n, n);
    ModStep(x, r, n);
    assert ((r % n) + x % n) % n == (r + x) % n;
    if r <= n {
      assert r + x == if n - r < TWO32 then n else n;
      RemainderUnique(n, 1, 0, n);
    } else {
      RemainderUnique(n - r, -1, n - r + TWO32, TWO32);
      assert r + x == TWO32 + 1 * n;
      ModMultiple(TWO32, 1, n);
    }
  }
}
