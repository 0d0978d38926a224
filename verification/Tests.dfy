/** The optional test that a bitmap operation runs over its result: Hamming weight, any bit set, any bit zero. */
module Tests {
  import opened Words
  import opened Bitmap

  datatype Test = NoTest | TestWeight | AnySet | AnyZero

  /** __XDP2_BITMAP_HANDLE_TEST_BIT: the effect of one bit of the result. */
  function HandleBit(test: Test, ret: nat, v: bool): nat {
    match test
    case NoTest => ret
    case TestWeight => if v then ret + 1 else ret
    case AnySet => if v then 1 else ret
    case AnyZero => if !v then 1 else ret
  }

  /** One bit after the other: what the test means for bits [lo, hi) of the result. */
  function TestBits(test: Test, ret: nat, b: seq<bool>, lo: nat, hi: nat): nat
    requires lo <= hi
  {
    if lo == hi then ret else HandleBit(test, TestBits(test, ret, b, lo, hi - 1), Bit(b, hi - 1))
  }

  /** popcount. */
  function Weight(W: nat, w: Word): nat {
    |SetBits(W, w)|
  }

  function SetBits(W: nat, w: Word): set<nat> {
    set i: nat | i < W && Bit(w, i)
  }

  /** __XDP2_BITMAP_HANDLE_TEST: the effect of a whole word of the result under a mask. */
  function HandleWord(test: Test, W: nat, ret: nat, v: Word, mask: Word): nat {
    match test
    case NoTest => ret
    case TestWeight => ret + Weight(W, v)
    case AnySet => if First(W, v) < W then 1 else ret
    case AnyZero => if First(W, And(W, Not(W, v), mask)) < W then 1 else ret
  }

  lemma {:induction false} TestAppends(test: Test, ret: nat, b: seq<bool>, lo: nat, mid: nat, hi: nat)
    requires lo <= mid <= hi
    ensures TestBits(test, TestBits(test, ret, b, lo, mid), b, mid, hi) == TestBits(test, ret, b, lo, hi)
  {
    if mid < hi { TestAppends(test, ret, b, lo, mid, hi - 1); }
  }

  lemma {:induction false} TestSameBits(test: Test, ret: nat, b: seq<bool>, lo: nat, hi: nat, c: seq<bool>, d: int)
    requires lo <= hi && lo + d >= 0
    requires forall i: nat | lo <= i < hi :: Bit(b, i) == Bit(c, i + d)
    ensures TestBits(test, ret, b, lo, hi) == TestBits(test, ret, c, lo + d, hi + d)
  {
    if lo < hi { TestSameBits(test, ret, b, lo, hi - 1, c, d); }
  }

  /** What the bitwise test amounts to. */
  lemma {:induction false} TestMeaning(ret: nat, b: seq<bool>, lo: nat, hi: nat)
    requires lo <= hi
    ensures TestBits(TestWeight, ret, b, lo, hi) == ret + |set i: nat | lo <= i < hi && Bit(b, i)|
    ensures TestBits(AnySet, ret, b, lo, hi) == if exists i: nat :: lo <= i < hi && Bit(b, i) then 1 else ret
    ensures TestBits(AnyZero, ret, b, lo, hi) == if exists i: nat :: lo <= i < hi && !Bit(b, i) then 1 else ret
  {
    if lo < hi {
      TestMeaning(ret, b, lo, hi - 1);
      var s, t := set i: nat | lo <= i < hi - 1 && Bit(b, i), set i: nat | lo <= i < hi && Bit(b, i);
      if Bit(b, hi - 1) {
        assert t == s + {hi - 1};
      } else {
        assert t == s;
      }
    }
  }

  lemma {:induction false} Injection(A: set<nat>, B: set<nat>, order: seq<nat>)
    requires forall i | i in A :: i < |order| && order[i] in B
    requires forall i, j | i in A && j in A && order[i] == order[j] :: i == j
    ensures |A| <= |B|
    decreases A
  {
    if A != {} {
      var i :| i in A;
      Injection(A - {i}, B - {order[i]}, order);
    }
  }

  /** Byte order does not change the weight of a word. */
  lemma ConvKeepsWeight(f: Format, w: Word)
    requires f.Valid()
    ensures Weight(f.W, f.Conv(w)) == Weight(f.W, w)
  {
    var A, B := SetBits(f.W, f.Conv(w)), SetBits(f.W, w);
    forall i, j | 0 <= i < f.W && 0 <= j < f.W && f.order[i] == f.order[j] ensures i == j {
      assert f.order[f.order[i]] == i && f.order[f.order[j]] == j;
    }
    Injection(A, B, f.order);
    forall i | i in B ensures f.order[i] in A {
      assert f.order[f.order[i]] == i;
    }
    Injection(B, A, f.order);
  }

  /** Testing a masked stored word at once equals testing its bits [lo, hi), in host order, one by one. */
  lemma HandleWordIsBitwise(f: Format, test: Test, ret: nat, v: Word, mask: Word, lo: nat, hi: nat)
    requires f.Valid() && lo <= hi <= f.W
    requires forall j: nat | j < f.W :: Bit(mask, j) == (lo <= j < hi)
    requires forall j: nat | j < f.W :: Bit(f.Conv(v), j) ==> lo <= j < hi
    ensures HandleWord(test, f.W, ret, v, f.Conv(mask)) == TestBits(test, ret, f.Conv(v), lo, hi)
  {
    TestMeaning(ret, f.Conv(v), lo, hi);
    match test
    case NoTest => NoTestKeeps(ret, f.Conv(v), lo, hi);
    case TestWeight =>
      ConvKeepsWeight(f, v);
      assert SetBits(f.W, f.Conv(v)) == set i: nat | lo <= i < hi && Bit(f.Conv(v), i);
    case AnySet => FirstConv(f, v);
    case AnyZero =>
      var z := And(f.W, Not(f.W, v), f.Conv(mask));
      FirstConv(f, z);
      assert forall j: nat | j < f.W :: Bit(f.Conv(z), j) == (lo <= j < hi && !Bit(f.Conv(v), j));
  }

  lemma {:induction false} NoTestKeeps(ret: nat, b: seq<bool>, lo: nat, hi: nat)
    requires lo <= hi
    ensures TestBits(NoTest, ret, b, lo, hi) == ret
  {
    if lo < hi { NoTestKeeps(ret, b, lo, hi - 1); }
  }

  /** A stored word is zero exactly when it is zero in host order. */
  lemma FirstConv(f: Format, w: Word)
    requires f.Valid()
    ensures First(f.W, w) < f.W <==> exists j: nat :: j < f.W && Bit(f.Conv(w), j)
  {
    var i := First(f.W, w);
    if i < f.W {
      assert f.order[f.order[i]] == i;
      assert Bit(f.Conv(w), f.order[i]);
    }
  }
}
