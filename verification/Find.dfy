/** Searching and testing a range of a bitmap word by word. */
module Find {
  import opened Words
  import opened Bitmap
  import opened Tests
  import opened GenOps
  import opened Gen

  /** `w` is the least position in [lo, hi) whose bit is `!neg`, or `hi` if there is none. */
  ghost predicate Least(b: seq<bool>, neg: bool, lo: nat, hi: nat, w: nat) {
    && lo <= w <= hi
    && (w < hi ==> Bit(b, w) != neg)
    && forall p: nat :: lo <= p < w ==> Bit(b, p) == neg
  }

  /** The value searched in a word: its matching bits under `mask`, in host order. */
  function Matches(f: Format, neg: bool, stored: Word, mask: Word): Word
    requires f.Valid()
  {
    f.Conv(And(f.W, MaybeNot(f.W, neg, stored), f.Conv(mask)))
  }

  lemma MatchesBits(f: Format, neg: bool, stored: Word, mask: Word, j: nat)
    requires f.Valid() && j < f.W
    ensures Bit(Matches(f, neg, stored, mask), j) == (Bit(mask, j) && Bit(f.Conv(stored), j) != neg)
  {
    assert f.order[f.order[j]] == j;
  }

  /** If `m` marks the matches among positions [base + lo, base + hi), its first bit is the least of them. */
  lemma FirstIsLeast(W: nat, m: Word, b: seq<bool>, neg: bool, base: nat, lo: nat, hi: nat)
    requires lo <= hi <= W
    requires forall j: nat {:trigger Bit(m, j)} | j < W :: Bit(m, j) == (lo <= j < hi && Bit(b, base + j) != neg)
    ensures var i := First(W, m);
      if i < W then Least(b, neg, base + lo, base + hi, base + i) && i < hi
      else Least(b, neg, base + lo, base + hi, base + hi)
  {
    hide Bit, First;
    forall p: nat | base + lo <= p < base + hi ensures Bit(m, p - base) == (Bit(b, p) != neg) {
      assert base + (p - base) == p;
    }
  }

  /** The search for bits [lo, hi) of word `k`. */
  lemma FirstInWord(f: Format, a: seq<Word>, k: nat, neg: bool, mask: Word, lo: nat, hi: nat)
    requires f.Holds(|a|) && k < |a| && lo <= hi <= f.W
    requires forall j: nat | j < f.W :: Bit(mask, j) == (lo <= j < hi)
    ensures 0 <= f.Slot(k) < |a| && Pos(f.W, k + 1, 0) == Pos(f.W, k, 0) + f.W
    ensures var i, base := First(f.W, Matches(f, neg, a[f.Slot(k)], mask)), Pos(f.W, k, 0);
      if i < f.W then Least(f.Bits(a), neg, base + lo, base + hi, base + i) && i < hi
      else Least(f.Bits(a), neg, base + lo, base + hi, base + hi)
  {
    hide Pos, Format.Bits, Format.Conv, Format.Valid, First, Matches;
    HoldsWidth(f, |a|);
    OffsetPos(f.W, k, lo, hi);
    var m := Matches(f, neg, a[f.Slot(k)], mask);
    forall j: nat | j < f.W ensures Bit(m, j) == (lo <= j < hi && Bit(f.Bits(a), Pos(f.W, k, 0) + j) != neg) {
      MatchesBits(f, neg, a[f.Slot(k)], mask, j);
      BitsAt(f, a, k, j);
      assert Pos(f.W, k, j) == j + Pos(f.W, k, 0);
    }
    FirstIsLeast(f.W, m, f.Bits(a), neg, Pos(f.W, k, 0), lo, hi);
  }

  lemma LeastJoin(b: seq<bool>, neg: bool, lo: nat, mid: nat, hi: nat, w: nat)
    requires Least(b, neg, lo, mid, mid) && Least(b, neg, mid, hi, w)
    ensures Least(b, neg, lo, hi, w)
  {
  }

  lemma LeastWithin(b: seq<bool>, neg: bool, lo: nat, mid: nat, hi: nat, w: nat)
    requires Least(b, neg, lo, mid, w) && w < mid <= hi
    ensures Least(b, neg, lo, hi, w)
  {
  }

  lemma LeastEmpty(b: seq<bool>, neg: bool, lo: nat)
    ensures Least(b, neg, lo, lo, lo)
  {
  }

  lemma OnesBits(W: nat)
    ensures forall j: nat | j < W :: Bit(Ones(W), j) == (0 <= j < W)
  {
  }

  /** __XDP2_BITMAP_1ARG as a search, from the first word boundary on. */
  method Search(f: Format, a: seq<Word>, neg: bool, k0: nat, n: nat) returns (w: nat)
    requires f.Holds(|a|) && Pos(f.W, k0, 0) + n <= |a| * f.W
    ensures Least(f.Bits(a), neg, Pos(f.W, k0, 0), Pos(f.W, k0, 0) + n, w)
  {
    hide *;
    HoldsWidth(f, |a|);
    ghost var lo, hi, b := Pos(f.W, k0, 0), Pos(f.W, k0, 0) + n, f.Bits(a);
    OnesBits(f.W);
    LeastEmpty(b, neg, lo);
    var i: nat, rest: nat := 0, n;
    var at: nat := Pos(f.W, k0, 0);
    while rest >= f.W
      invariant at == Pos(f.W, k0 + i, 0) && at + rest == hi && Least(b, neg, lo, at, at)
      decreases rest
    {
      InMap(f.W, k0 + i, 0, rest, |a|);
      FirstInWord(f, a, k0 + i, neg, Ones(f.W), 0, f.W);
      var j := First(f.W, Matches(f, neg, a[f.Slot(k0 + i)], Ones(f.W)));
      if j < f.W {
        LeastJoin(b, neg, lo, at, at + f.W, j + at);
        LeastWithin(b, neg, lo, at + f.W, hi, j + at);
        return j + at;
      }
      LeastJoin(b, neg, lo, at, at + f.W, at + f.W);
      at, rest, i := at + f.W, rest - f.W, i + 1;
    }
    w := at + rest;
    if rest > 0 {
      InMap(f.W, k0 + i, 0, rest, |a|);
      LowMaskBits(f.W, rest);
      FirstInWord(f, a, k0 + i, neg, LowMask(f.W, rest), 0, rest);
      var j := First(f.W, Matches(f, neg, a[f.Slot(k0 + i)], LowMask(f.W, rest)));
      if j < f.W {
        w := j + at;
      }
      LeastJoin(b, neg, lo, at, hi, w);
    }
  }

  /** xdp2_bitmap_find and find_zero: the least position from `pos` on with a set (zero) bit, or `nbits`. */
  method FindFrom(f: Format, a: seq<Word>, neg: bool, pos: nat, nbits: nat) returns (w: nat)
    requires f.Holds(|a|) && pos <= nbits <= |a| * f.W
    ensures Least(f.Bits(a), neg, pos, nbits, w)
  {
    hide *;
    HoldsWidth(f, |a|);
    ghost var b := f.Bits(a);
    var k, mod := Split(pos, f.W);
    var n := nbits - pos;
    if mod == 0 {
      w := Search(f, a, neg, k, n);
      return;
    }
    OffsetPos(f.W, k, 0, 0);
    assert Pos(f.W, k, mod) == mod + Pos(f.W, k, 0);
    InMap(f.W, k, 0, mod, |a|);
    SmallMap(f.W, k, mod, n, nbits);
    var need := if nbits <= f.W || n <= f.W - mod then n else f.W - mod;
    MaskBits(f.W, mod, need);
    FirstInWord(f, a, k, neg, Mask(f.W, mod, need), mod, mod + need);
    var j := First(f.W, Matches(f, neg, a[f.Slot(k)], Mask(f.W, mod, need)));
    if j < f.W {
      w := j + (pos - mod);
      LeastWithin(b, neg, pos, pos + need, nbits, w);
      return;
    }
    if n == need {
      return nbits;
    }
    w := Search(f, a, neg, k + 1, n - need);
    LeastJoin(b, neg, pos, pos + need, nbits, w);
  }

  /** A map of at most one word lies within the word it starts in. */
  lemma SmallMap(W: nat, k: nat, mod: nat, n: nat, nbits: nat)
    requires 0 < mod < W && Pos(W, k, mod) + n == nbits
    ensures nbits <= W ==> mod + n <= W
  {
  }

  /** How far `p` is ahead of `pos` when positions wrap around at `n`. */
  function CyclicDistance(pos: nat, p: nat, n: nat): int {
    if p >= pos then p - pos else p - pos + n
  }

  /** `w` is the first match in cyclic order from `pos`, or `nbits` if there is none anywhere. */
  ghost predicate LeastCyclic(b: seq<bool>, neg: bool, pos: nat, nbits: nat, w: nat) {
    && w <= nbits
    && (w < nbits ==> Bit(b, w) != neg)
    && forall p: nat :: p < nbits && Bit(b, p) != neg ==>
         w < nbits && CyclicDistance(pos, w, nbits) <= CyclicDistance(pos, p, nbits)
  }

  /** xdp2_bitmap_find_roll: with ROLL set, a search that reaches the end starts over from 0. */
  method FindRoll(f: Format, a: seq<Word>, neg: bool, pos: nat, nbits: nat) returns (w: nat)
    requires f.Holds(|a|) && pos <= nbits <= |a| * f.W
    ensures LeastCyclic(f.Bits(a), neg, pos, nbits, w)
  {
    hide Format.Bits, Format.Valid;
    w := FindFrom(f, a, neg, pos, nbits);
    if w >= nbits {
      w := FindFrom(f, a, neg, 0, nbits);
    }
  }

  /** Strictly increasing positions. */
  predicate Ascending(v: seq<nat>) {
    forall i, j :: 0 <= i < j < |v| ==> v[i] < v[j]
  }

  /** `v` lists in ascending order exactly the matches in [lo, hi). */
  ghost predicate Visits(b: seq<bool>, neg: bool, lo: nat, hi: nat, v: seq<nat>) {
    Ascending(v) && forall p: nat :: p in v <==> lo <= p < hi && Bit(b, p) != neg
  }

  lemma VisitNone(b: seq<bool>, neg: bool, lo: nat, hi: nat, w: nat)
    requires Least(b, neg, lo, hi, w)
    ensures Visits(b, neg, lo, w, [])
  {
  }

  lemma VisitOne(b: seq<bool>, neg: bool, lo: nat, at: nat, hi: nat, w: nat, v: seq<nat>)
    requires Visits(b, neg, lo, at, v) && lo <= at && Bit(b, at) != neg && Least(b, neg, at + 1, hi, w)
    ensures Visits(b, neg, lo, w, v + [at])
  {
    hide Bit;
    forall p: nat ensures p in v + [at] <==> lo <= p < w && Bit(b, p) != neg {
      assert p in v + [at] <==> p in v || p == at;
    }
    forall i, j | 0 <= i < j < |v + [at]| ensures (v + [at])[i] < (v + [at])[j] {
      assert v[i] in v;
    }
  }

  lemma LeastFacts(b: seq<bool>, neg: bool, lo: nat, hi: nat, w: nat)
    requires Least(b, neg, lo, hi, w)
    ensures lo <= w <= hi && (w < hi ==> Bit(b, w) != neg)
  {
  }

  /** The foreach loop: it ends, having visited in ascending order exactly the matches from `pos0` on. */
  method ForEach(f: Format, a: seq<Word>, neg: bool, pos0: nat, nbits: nat) returns (visited: seq<nat>)
    requires f.Holds(|a|) && pos0 <= nbits <= |a| * f.W
    ensures Visits(f.Bits(a), neg, pos0, nbits, visited)
  {
    hide *;
    visited := [];
    var pos := FindFrom(f, a, neg, pos0, nbits);
    ghost var b := f.Bits(a);
    LeastFacts(b, neg, pos0, nbits, pos);
    VisitNone(b, neg, pos0, nbits, pos);
    while pos < nbits
      invariant pos0 <= pos <= nbits && Visits(b, neg, pos0, pos, visited)
      invariant pos < nbits ==> Bit(b, pos) != neg
    {
      var at := pos;
      pos := FindFrom(f, a, neg, pos + 1, nbits);
      LeastFacts(b, neg, at + 1, nbits, pos);
      VisitOne(b, neg, pos0, at, nbits, pos, visited);
      visited := visited + [at];
    }
  }

  /** As many positions as the set of them has elements. */
  lemma {:induction false} AscendingCount(v: seq<nat>, s: set<nat>)
    requires Ascending(v) && forall p: nat :: p in v <==> p in s
    ensures |v| == |s|
    decreases |v|
  {
    if v == [] {
      assert s == {};
    } else {
      var last, rest := v[|v| - 1], v[..|v| - 1];
      assert v == rest + [last];
      assert last in v;
      forall p: nat ensures p in rest <==> p in s - {last} {
        assert p in v <==> p in rest || p == last;
      }
      AscendingCount(rest, s - {last});
    }
  }

  /** The weight test counts what foreach visits. */
  lemma WeightIsCount(b: seq<bool>, pos: nat, nbits: nat, visited: seq<nat>)
    requires pos <= nbits && Visits(b, false, pos, nbits, visited)
    ensures TestBits(TestWeight, 0, b, pos, nbits) == |visited|
  {
    hide Bit;
    TestMeaning(0, b, pos, nbits);
    AscendingCount(visited, set i: nat | pos <= i < nbits && Bit(b, i));
  }

  /** Testing bits [lo, hi) of word `k` under a mask. */
  lemma TestMasked(f: Format, a: seq<Word>, k: nat, mask: Word, lo: nat, hi: nat, test: Test, ret: nat)
    requires f.Holds(|a|) && k < |a| && lo <= hi <= f.W
    requires forall j: nat | j < f.W :: Bit(mask, j) == (lo <= j < hi)
    ensures 0 <= f.Slot(k) < |a| && Pos(f.W, k + 1, 0) == Pos(f.W, k, 0) + f.W
    ensures HandleWord(test, f.W, ret, And(f.W, a[f.Slot(k)], f.Conv(mask)), f.Conv(mask))
            == TestBits(test, ret, f.Bits(a), Pos(f.W, k, 0) + lo, Pos(f.W, k, 0) + hi)
  {
    hide Pos, Format.Bits, Format.Conv, HandleWord, TestBits, And, Matches;
    var res := And(f.W, a[f.Slot(k)], f.Conv(mask));
    assert f.Conv(res) == Matches(f, false, a[f.Slot(k)], mask) by { MatchesIs(f, a[f.Slot(k)], mask); }
    forall j: nat | j < f.W ensures Bit(f.Conv(res), j) == (lo <= j < hi && Bit(f.Get(a, k), j)) {
      MatchesBits(f, false, a[f.Slot(k)], mask, j);
    }
    HandleWordIsBitwise(f, test, ret, res, mask, lo, hi);
    TestInWord(f, test, ret, a, k, f.Conv(res), lo, hi);
    OffsetPos(f.W, k, lo, hi);
    assert Pos(f.W, k, lo) == lo + Pos(f.W, k, 0) && Pos(f.W, k, hi) == hi + Pos(f.W, k, 0);
  }

  lemma MatchesIs(f: Format, stored: Word, mask: Word)
    requires f.Valid()
    ensures Matches(f, false, stored, mask) == f.Conv(And(f.W, stored, f.Conv(mask)))
  {
  }

  lemma TestWhole(f: Format, a: seq<Word>, k: nat, test: Test, ret: nat)
    requires f.Holds(|a|) && k < |a|
    ensures 0 <= f.Slot(k) < |a| && Pos(f.W, k + 1, 0) == Pos(f.W, k, 0) + f.W
    ensures HandleWord(test, f.W, ret, a[f.Slot(k)], Ones(f.W))
            == TestBits(test, ret, f.Bits(a), Pos(f.W, k, 0), Pos(f.W, k, 0) + f.W)
  {
    hide Pos, Format.Bits, Format.Conv, HandleWord, TestBits, Format.Valid;
    HoldsWidth(f, |a|);
    WholeWordTest(f, a, k, a[f.Slot(k)], test, ret);
    assert a[f.Slot(k) := a[f.Slot(k)]] == a;
    OffsetPos(f.W, k, 0, f.W);
  }

  /** Testing from a word boundary on. */
  method TestWords(f: Format, a: seq<Word>, k0: nat, n0: nat, test: Test, ret: nat) returns (w: nat)
    requires f.Holds(|a|) && Pos(f.W, k0, 0) + n0 <= |a| * f.W
    ensures w == TestBits(test, ret, f.Bits(a), Pos(f.W, k0, 0), Pos(f.W, k0, 0) + n0)
  {
    hide *;
    HoldsWidth(f, |a|);
    ghost var b, lo, at := f.Bits(a), Pos(f.W, k0, 0), Pos(f.W, k0, 0);
    TestEmpty(test, ret, b, lo);
    w := ret;
    var k: nat, n: nat := k0, n0;
    while n >= f.W
      invariant at == Pos(f.W, k, 0) && lo <= at && at + n == lo + n0 && w == TestBits(test, ret, b, lo, at)
      decreases n
    {
      InMap(f.W, k, 0, n, |a|);
      TestWhole(f, a, k, test, w);
      w := HandleWord(test, f.W, w, a[f.Slot(k)], Ones(f.W));
      TestAppends(test, ret, b, lo, at, at + f.W);
      at, n, k := at + f.W, n - f.W, k + 1;
    }
    if n > 0 {
      InMap(f.W, k, 0, n, |a|);
      LowMaskBits(f.W, n);
      var mask := f.Conv(LowMask(f.W, n));
      TestMasked(f, a, k, LowMask(f.W, n), 0, n, test, w);
      w := HandleWord(test, f.W, w, And(f.W, a[f.Slot(k)], mask), mask);
      TestAppends(test, ret, b, lo, at, at + n);
    }
  }

  /** xdp2_bitmap_test: the test over [pos, nbits), computed a word at a time. */
  method TestRange(f: Format, a: seq<Word>, pos: nat, nbits: nat, test: Test) returns (w: nat)
    requires f.Holds(|a|) && pos <= nbits <= |a| * f.W
    ensures w == TestBits(test, 0, f.Bits(a), pos, nbits)
  {
    hide *;
    HoldsWidth(f, |a|);
    var k, mod := Split(pos, f.W);
    var n := nbits - pos;
    if mod == 0 {
      w := TestWords(f, a, k, n, test, 0);
      return;
    }
    OffsetPos(f.W, k, 0, 0);
    assert Pos(f.W, k, mod) == mod + Pos(f.W, k, 0);
    InMap(f.W, k, 0, mod, |a|);
    SmallMap(f.W, k, mod, n, nbits);
    var need := if nbits <= f.W || n <= f.W - mod then n else f.W - mod;
    MaskBits(f.W, mod, need);
    var mask := f.Conv(Mask(f.W, mod, need));
    TestMasked(f, a, k, Mask(f.W, mod, need), mod, mod + need, test, 0);
    w := HandleWord(test, f.W, 0, And(f.W, a[f.Slot(k)], mask), mask);
    if n > need {
      TestAppends(test, 0, f.Bits(a), pos, pos + need, nbits);
      w := TestWords(f, a, k + 1, n - need, test, w);
    }
  }
}
