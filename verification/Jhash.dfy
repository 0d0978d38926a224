/** The Jenkins hash: the byte form, the word form, the forms for one to three words, and its mixing. */
module Jhash {
  import opened Rol32

  const INITVAL: bv32 := 0xdeadbeef

  /** `u32` arithmetic. */
  function Plus(x: bv32, y: bv32): bv32 {
    x + y
  }

  function Minus(x: bv32, y: bv32): bv32 {
    x - y
  }

  function Xor(x: bv32, y: bv32): bv32 {
    x ^ y
  }

  datatype Regs = Regs(a: bv32, b: bv32, c: bv32)

  /** One line of __jhash_mix: x -= y; x ^= rol32(y, s); y += z. */
  function Round(x: bv32, y: bv32, z: bv32, s: bv6): (bv32, bv32) {
    (Xor(Minus(x, y), Rol(y, s)), Plus(y, z))
  }

  function Unround(x: bv32, y: bv32, z: bv32, s: bv6): (bv32, bv32) {
    (Plus(Xor(x, Rol(Minus(y, z), s)), Minus(y, z)), Minus(y, z))
  }

  function Mix(r: Regs): Regs {
    var (a, c) := Round(r.a, r.c, r.b, 4);
    var (b, a) := Round(r.b, a, c, 6);
    var (c, b) := Round(c, b, a, 8);
    var (a, c) := Round(a, c, b, 16);
    var (b, a) := Round(b, a, c, 19);
    var (c, b) := Round(c, b, a, 4);
    Regs(a, b, c)
  }

  function Unmix(r: Regs): Regs {
    var (c, b) := Unround(r.c, r.b, r.a, 4);
    var (b, a) := Unround(b, r.a, c, 19);
    var (a, c) := Unround(a, c, b, 16);
    var (c, b) := Unround(c, b, a, 8);
    var (b, a) := Unround(b, a, c, 6);
    var (a, c) := Unround(a, c, b, 4);
    Regs(a, b, c)
  }

  lemma PlusIs(x: bv32, y: bv32)
    ensures Plus(x, y) == x + y
  {
  }

  lemma MinusIs(x: bv32, y: bv32)
    ensures Minus(x, y) == x - y
  {
  }

  lemma XorIs(x: bv32, y: bv32)
    ensures Xor(x, y) == x ^ y
  {
  }

  lemma PlusAfterMinus(x: bv32, y: bv32)
    ensures Plus(x - y, y) == x
  {
  }

  lemma MinusAfterPlus(x: bv32, y: bv32)
    ensures Minus(x + y, y) == x
  {
  }

  /** Addition and subtraction undo each other, and so does exclusive or itself. */
  lemma SubAdd(x: bv32, y: bv32)
    ensures Plus(Minus(x, y), y) == x && Minus(Plus(x, y), y) == x
  {
    hide Plus, Minus;
    PlusAfterMinus(x, y);
    MinusIs(x, y);
    MinusAfterPlus(x, y);
    PlusIs(x, y);
  }

  lemma XorTwice(x: bv32, y: bv32)
    ensures Xor(Xor(x, y), y) == x
  {
  }

  lemma RoundInverse(x: bv32, y: bv32, z: bv32, s: bv6)
    ensures var (x', y') := Round(x, y, z, s); Unround(x', y', z, s) == (x, y)
    ensures var (x', y') := Unround(x, y, z, s); Round(x', y', z, s) == (x, y)
  {
    hide Rol, Plus, Minus, Xor;
    SubAdd(y, z);
    XorTwice(Minus(x, y), Rol(y, s));
    SubAdd(x, y);
    XorTwice(x, Rol(Minus(y, z), s));
    SubAdd(Xor(x, Rol(Minus(y, z), s)), Minus(y, z));
  }

  /** Mixing is a bijection on the three registers. */
  lemma MixIsBijective(r: Regs)
    ensures Unmix(Mix(r)) == r
    ensures Mix(Unmix(r)) == r
  {
    MixThenUnmix(r);
    UnmixThenMix(r);
  }

  lemma MixThenUnmix(r: Regs)
    ensures Unmix(Mix(r)) == r
  {
    hide Round, Unround;
    RoundInverse(r.a, r.c, r.b, 4);
    var (a1, c1) := Round(r.a, r.c, r.b, 4);
    RoundInverse(r.b, a1, c1, 6);
    var (b2, a2) := Round(r.b, a1, c1, 6);
    RoundInverse(c1, b2, a2, 8);
    var (c3, b3) := Round(c1, b2, a2, 8);
    RoundInverse(a2, c3, b3, 16);
    var (a4, c4) := Round(a2, c3, b3, 16);
    RoundInverse(b3, a4, c4, 19);
    var (b5, a5) := Round(b3, a4, c4, 19);
    RoundInverse(c4, b5, a5, 4);
  }

  lemma UnmixThenMix(r: Regs)
    ensures Mix(Unmix(r)) == r
  {
    hide Round, Unround;
    RoundInverse(r.c, r.b, r.a, 4);
    var (c1, b1) := Unround(r.c, r.b, r.a, 4);
    RoundInverse(b1, r.a, c1, 19);
    var (b2, a2) := Unround(b1, r.a, c1, 19);
    RoundInverse(a2, c1, b2, 16);
    var (a3, c3) := Unround(a2, c1, b2, 16);
    RoundInverse(c3, b2, a3, 8);
    var (c4, b4) := Unround(c3, b2, a3, 8);
    RoundInverse(b4, a3, c4, 6);
    var (b5, a5) := Unround(b4, a3, c4, 6);
    RoundInverse(a5, c4, b5, 4);
  }

  /** One line of __jhash_final: x ^= y; x -= rol32(y, s). */
  function FinalRound(x: bv32, y: bv32, s: bv6): bv32 {
    Minus(Xor(x, y), Rol(y, s))
  }

  /** __jhash_final; the hash is `c`. */
  function Final(r: Regs): Regs {
    var c := FinalRound(r.c, r.b, 14);
    var a := FinalRound(r.a, c, 11);
    var b := FinalRound(r.b, a, 25);
    var c := FinalRound(c, b, 16);
    var a := FinalRound(a, c, 4);
    var b := FinalRound(b, a, 14);
    var c := FinalRound(c, b, 24);
    Regs(a, b, c)
  }

  function Unfinal(r: Regs): Regs {
    var c := FinalUnround(r.c, r.b, 24);
    var b := FinalUnround(r.b, r.a, 14);
    var a := FinalUnround(r.a, c, 4);
    var c := FinalUnround(c, b, 16);
    var b := FinalUnround(b, a, 25);
    var a := FinalUnround(a, c, 11);
    var c := FinalUnround(c, b, 14);
    Regs(a, b, c)
  }

  function FinalUnround(x: bv32, y: bv32, s: bv6): bv32 {
    Xor(Plus(x, Rol(y, s)), y)
  }

  lemma FinalRoundInverse(x: bv32, y: bv32, s: bv6)
    ensures FinalUnround(FinalRound(x, y, s), y, s) == x
  {
    hide Rol, Plus, Minus, Xor;
    SubAdd(Xor(x, y), Rol(y, s));
    XorTwice(x, y);
  }

  /** The final mixing loses nothing either: the registers before it can be computed from those after it. */
  lemma FinalIsInjective(r: Regs)
    ensures Unfinal(Final(r)) == r
  {
    hide FinalRound, FinalUnround;
    var c1 := FinalRound(r.c, r.b, 14);
    var a1 := FinalRound(r.a, c1, 11);
    var b1 := FinalRound(r.b, a1, 25);
    var c2 := FinalRound(c1, b1, 16);
    var a2 := FinalRound(a1, c2, 4);
    var b2 := FinalRound(b1, a2, 14);
    FinalRoundInverse(r.c, r.b, 14);
    FinalRoundInverse(r.a, c1, 11);
    FinalRoundInverse(r.b, a1, 25);
    FinalRoundInverse(c1, b1, 16);
    FinalRoundInverse(a1, c2, 4);
    FinalRoundInverse(b1, a2, 14);
    FinalRoundInverse(c2, b2, 24);
  }

  lemma RoundIs(x: bv32, y: bv32, z: bv32, s: bv6, x1: bv32, r: bv32)
    requires Minus(x, y) == x1 && Rol(y, s) == r
    ensures Round(x, y, z, s) == (Xor(x1, r), Plus(y, z))
  {
    hide Xor, Rol, Minus, Plus;
  }

  /** A line of __jhash_mix, in the operators of `u32`. */
  method MixLine(x0: bv32, y0: bv32, z: bv32, s: bv6) returns (x: bv32, y: bv32)
    ensures (x, y) == Round(x0, y0, z, s)
  {
    hide *;
    x, y := x0, y0;
    x := x - y;
    ghost var x1 := x;
    var r := (y << (s & 31)) | (y >> ((0 - s) & 31));
    x := x ^ r;
    y := y + z;
    MinusIs(x0, y0);
    RolIs(y0, s);
    XorIs(x1, r);
    PlusIs(y0, z);
    RoundIs(x0, y0, z, s, x1, r);
  }

  lemma FinalRoundIs(x: bv32, y: bv32, s: bv6, x1: bv32, r: bv32)
    requires Xor(x, y) == x1 && Rol(y, s) == r
    ensures FinalRound(x, y, s) == Minus(x1, r)
  {
    hide Xor, Rol, Minus;
  }

  /** A line of __jhash_final. */
  method FinalLine(x0: bv32, y: bv32, s: bv6) returns (x: bv32)
    ensures x == FinalRound(x0, y, s)
  {
    hide *;
    x := x0;
    x := x ^ y;
    ghost var x1 := x;
    var r := (y << (s & 31)) | (y >> ((0 - s) & 31));
    x := x - r;
    XorIs(x0, y);
    RolIs(y, s);
    MinusIs(x1, r);
    FinalRoundIs(x0, y, s, x1, r);
  }

  /** __jhash_mix. */
  method MixInPlace(a0: bv32, b0: bv32, c0: bv32) returns (a: bv32, b: bv32, c: bv32)
    ensures Regs(a, b, c) == Mix(Regs(a0, b0, c0))
  {
    hide Round;
    a, b, c := a0, b0, c0;
    a, c := MixLine(a, c, b, 4);
    b, a := MixLine(b, a, c, 6);
    c, b := MixLine(c, b, a, 8);
    a, c := MixLine(a, c, b, 16);
    b, a := MixLine(b, a, c, 19);
    c, b := MixLine(c, b, a, 4);
  }

  /** __jhash_final. */
  method FinalInPlace(a0: bv32, b0: bv32, c0: bv32) returns (a: bv32, b: bv32, c: bv32)
    ensures Regs(a, b, c) == Final(Regs(a0, b0, c0))
  {
    hide FinalRound;
    a, b, c := a0, b0, c0;
    c := FinalLine(c, b, 14);
    a := FinalLine(a, c, 11);
    b := FinalLine(b, a, 25);
    c := FinalLine(c, b, 16);
    a := FinalLine(a, c, 4);
    b := FinalLine(b, a, 14);
    c := FinalLine(c, b, 24);
  }

  // Values on the way to four hashes

  lemma MixOfFourWords()
    ensures Mix(Regs(0xdeadbf00, 0xdeadbf01, 0xdeadbf02)) == Regs(0xdc01260d, 0xf13d0a7b, 0xa7e6880a)
  {
    assert Round(0xdeadbf00, 0xdeadbf02, 0xdeadbf01, 4) == (0x15240fd3, 0xbd5b7e03);
    assert Round(0xdeadbf01, 0x15240fd3, 0xbd5b7e03, 6) == (0x808a5beb, 0xd27f8dd6);
    assert Round(0xbd5b7e03, 0x808a5beb, 0xd27f8dd6, 8) == (0xb68ac998, 0x5309e9c1);
    assert Round(0xd27f8dd6, 0xb68ac998, 0x5309e9c1, 16) == (0xd26c72b4, 0x0994b359);
    assert Round(0x5309e9c1, 0xd26c72b4, 0x0994b359, 19) == (0x153be46e, 0xdc01260d);
    assert Round(0x0994b359, 0x153be46e, 0xdc01260d, 4) == (0xa7e6880a, 0xf13d0a7b);
    hide Round;
  }

  lemma FinalOfOneWord()
    ensures Final(Regs(0xdeadbef4, 0xdeadbef3, 0xdeadbef3)) == Regs(0x1a67f149, 0xb7a166f8, 0x72a82a9b)
  {
    assert FinalRound(0xdeadbef3, 0xdeadbef3, 14) == 0x90430855;
    assert FinalRound(0xdeadbef4, 0x90430855, 11) == 0x36ac0a1f;
    assert FinalRound(0xdeadbef3, 0x36ac0a1f, 25) == 0xa9945cd8;
    assert FinalRound(0x90430855, 0xa9945cd8, 16) == 0xdcfeaaf9;
    assert FinalRound(0x36ac0a1f, 0xdcfeaaf9, 4) == 0x1a67f149;
    assert FinalRound(0xa9945cd8, 0x1a67f149, 14) == 0xb7a166f8;
    assert FinalRound(0xdcfeaaf9, 0xb7a166f8, 24) == 0x72a82a9b;
    hide FinalRound;
  }

  lemma FinalOfThreeWords()
    ensures Final(Regs(0xdeadbefc, 0xdeadbefd, 0xdeadbefe)) == Regs(0xba22befd, 0x45915a7e, 0xa46158f5)
  {
    assert FinalRound(0xdeadbefe, 0xdeadbefd, 14) == 0x90408858;
    assert FinalRound(0xdeadbefc, 0x90408858, 11) == 0x4aaa7222;
    assert FinalRound(0xdeadbefd, 0x4aaa7222, 25) == 0x4f7277fb;
    assert FinalRound(0x90408858, 0x4f7277fb, 16) == 0x6737b031;
    assert FinalRound(0x4aaa7222, 0x6737b031, 4) == 0xba22befd;
    assert FinalRound(0x4f7277fb, 0xba22befd, 14) == 0x45915a7e;
    assert FinalRound(0x6737b031, 0x45915a7e, 24) == 0xa46158f5;
    hide FinalRound;
  }

  lemma FinalOfFourWords()
    ensures Final(Regs(0xdc012611, 0xf13d0a7b, 0xa7e6880a)) == Regs(0x81d6bcf5, 0xbf826fca, 0x66491246)
  {
    assert FinalRound(0xa7e6880a, 0xf13d0a7b, 14) == 0x143c8622;
    assert FinalRound(0xdc012611, 0x143c8622, 11) == 0xe40c8f92;
    assert FinalRound(0xf13d0a7b, 0xe40c8f92, 25) == 0xef696cca;
    assert FinalRound(0x143c8622, 0xef696cca, 16) == 0x8e8afb7f;
    assert FinalRound(0xe40c8f92, 0x8e8afb7f, 4) == 0x81d6bcf5;
    assert FinalRound(0xef696cca, 0x81d6bcf5, 14) == 0xbf826fca;
    assert FinalRound(0x8e8afb7f, 0xbf826fca, 24) == 0x66491246;
    hide FinalRound;
  }

  lemma FinalOfFiveBytes()
    ensures Final(Regs(0xe2b0c0f5, 0xdeadbef9, 0xdeadbef4)) == Regs(0x992b9297, 0x2f77d5c9, 0xf85554a4)
  {
    assert FinalRound(0xdeadbef4, 0xdeadbef9, 14) == 0x90418862;
    assert FinalRound(0xe2b0c0f5, 0x90418862, 11) == 0x66ae3415;
    assert FinalRound(0xdeadbef9, 0x66ae3415, 25) == 0x8d362e84;
    assert FinalRound(0x90418862, 0x8d362e84, 16) == 0xeef319b0;
    assert FinalRound(0x66ae3415, 0xeef319b0, 4) == 0x992b9297;
    assert FinalRound(0x8d362e84, 0x992b9297, 14) == 0x2f77d5c9;
    assert FinalRound(0xeef319b0, 0x2f77d5c9, 24) == 0xf85554a4;
    hide FinalRound;
  }

  /** The `u32` value of a length. */
  function Length(n: nat): bv32 {
    if n == 0 then 0 else Plus(Length(n - 1), 1)
  }

  lemma {:induction false} LengthOfWords(n: nat)
    ensures Length(4 * n) == Shift2(Length(n))
  {
    hide Plus, Shift2, Plus4;
    if n > 0 {
      LengthOfWords(n - 1);
      LengthPlus4(4 * n - 4);
      ShiftedSuccessor(Length(n - 1));
    } else {
      ShiftedSuccessor(0);
    }
  }

  function Plus4(x: bv32): bv32 {
    Plus(Plus(Plus(Plus(x, 1), 1), 1), 1)
  }

  lemma LengthPlus4(n: nat)
    ensures Length(n + 4) == Plus4(Length(n))
  {
    hide Plus;
    assert Length(n + 4) == Plus(Length(n + 3), 1);
    assert Length(n + 3) == Plus(Length(n + 2), 1);
    assert Length(n + 2) == Plus(Length(n + 1), 1);
    assert Length(n + 1) == Plus(Length(n), 1);
  }

  /** length << 2. */
  function Shift2(x: bv32): bv32 {
    x << 2
  }

  lemma ShiftedSuccessor(x: bv32)
    ensures Plus4(Shift2(x)) == Shift2(Plus(x, 1)) && Shift2(0) == 0
  {
  }

  function Add(r: Regs, x: bv32, y: bv32, z: bv32): Regs {
    Regs(Plus(r.a, x), Plus(r.b, y), Plus(r.c, z))
  }

  function Word(k: seq<bv32>, i: nat): bv32 {
    if i < |k| then k[i] else 0
  }

  /** All blocks of three words but the last, which may be shorter. */
  function Blocks(k: seq<bv32>, r: Regs): Regs
    decreases |k|
  {
    if |k| > 3 then Blocks(k[3..], Mix(Add(r, k[0], k[1], k[2]))) else r
  }

  function LastBlock(k: seq<bv32>): (r: seq<bv32>)
    decreases |k|
    ensures |r| <= 3
  {
    if |k| > 3 then LastBlock(k[3..]) else k
  }

  /** The hash of a sequence of words, the registers all starting at `init`. */
  function Hash(k: seq<bv32>, init: bv32): bv32 {
    var r, last := Blocks(k, Regs(init, init, init)), LastBlock(k);
    if |last| == 0 then r.c else Final(Add(r, Word(last, 0), Word(last, 1), Word(last, 2))).c
  }

  /** The blocks undone, last one first. */
  function Unblocks(k: seq<bv32>, r: Regs): Regs
    decreases |k|
  {
    if |k| > 3 then
      var s := Unmix(Unblocks(k[3..], r));
      Regs(Minus(s.a, k[0]), Minus(s.b, k[1]), Minus(s.c, k[2]))
    else r
  }

  /** For a fixed key the block loop is a bijection on the registers. */
  lemma {:induction false} BlocksAreBijective(k: seq<bv32>, r: Regs)
    ensures Unblocks(k, Blocks(k, r)) == r
    ensures Blocks(k, Unblocks(k, r)) == r
    decreases |k|
  {
    hide Mix, Unmix, Plus, Minus;
    if |k| > 3 {
      var s := Add(r, k[0], k[1], k[2]);
      BlocksAreBijective(k[3..], Mix(s));
      MixIsBijective(s);
      SubAdd(r.a, k[0]);
      SubAdd(r.b, k[1]);
      SubAdd(r.c, k[2]);
      var t := Unblocks(k[3..], r);
      BlocksAreBijective(k[3..], r);
      MixIsBijective(t);
      var u := Unmix(t);
      SubAdd(u.a, k[0]);
      SubAdd(u.b, k[1]);
      SubAdd(u.c, k[2]);
      assert Add(Unblocks(k, r), k[0], k[1], k[2]) == u;
    }
  }

  /** jhash2. */
  method Jhash2(key: seq<bv32>, initval: bv32) returns (h: bv32)
    requires |key| < 0x1_0000_0000
    ensures h == Hash(key, Plus(Plus(INITVAL, Shift2(Length(|key|))), initval))
  {
    hide Mix, Final, Plus, Shift2, Length;
    ghost var init := Plus(Plus(INITVAL, Shift2(Length(|key|))), initval);
    var a := Plus(Plus(INITVAL, Shift2(Length(|key|))), initval);
    var r, k := Regs(a, a, a), key;
    while |k| > 3
      invariant Blocks(k, r) == Blocks(key, Regs(init, init, init)) && LastBlock(k) == LastBlock(key)
    {
      var a, b, c := MixInPlace(Plus(r.a, k[0]), Plus(r.b, k[1]), Plus(r.c, k[2]));
      r := Regs(a, b, c);
      k := k[3..];
    }
    if |k| == 0 {
      return r.c;
    }
    PlusZero(r.b);
    PlusZero(r.c);
    if |k| == 3 { r := r.(c := Plus(r.c, k[2])); }
    if |k| >= 2 { r := r.(b := Plus(r.b, k[1])); }
    var _, _, c := FinalInPlace(Plus(r.a, k[0]), r.b, r.c);
    h := c;
  }

  lemma PlusZero(x: bv32)
    ensures Plus(x, 0) == x
  {
  }

  function NWords(a: bv32, b: bv32, c: bv32, initval: bv32): bv32 {
    Final(Regs(Plus(a, initval), Plus(b, initval), Plus(c, initval))).c
  }

  function OneWord(a: bv32, initval: bv32): bv32 {
    NWords(a, 0, 0, Plus(Plus(initval, INITVAL), 4))
  }

  function TwoWords(a: bv32, b: bv32, initval: bv32): bv32 {
    NWords(a, b, 0, Plus(Plus(initval, INITVAL), 8))
  }

  function ThreeWords(a: bv32, b: bv32, c: bv32, initval: bv32): bv32 {
    NWords(a, b, c, Plus(Plus(initval, INITVAL), 12))
  }

  lemma PlusCommutes(x: bv32, y: bv32)
    ensures Plus(x, y) == Plus(y, x)
  {
  }

  lemma PlusSum(x: bv32, y: bv32, z: bv32)
    ensures Plus(x + y, z) == Plus(x, y + z)
  {
  }

  lemma PlusAssociates(x: bv32, y: bv32, z: bv32)
    ensures Plus(Plus(x, y), z) == Plus(x, Plus(y, z))
  {
    hide Plus;
    PlusSum(x, y, z);
    PlusIs(x, y);
    PlusIs(y, z);
  }

  lemma Rearranged(initval: bv32, n: bv32)
    ensures Plus(Plus(initval, INITVAL), n) == Plus(Plus(INITVAL, n), initval)
  {
    hide Plus;
    PlusAssociates(initval, INITVAL, n);
    PlusCommutes(initval, Plus(INITVAL, n));
  }

  lemma SmallLengths()
    ensures Shift2(Length(1)) == 4 && Shift2(Length(2)) == 8 && Shift2(Length(3)) == 12
  {
    assert Length(1) == 1;
    assert Length(2) == Plus(Length(1), 1) == 2;
    assert Length(3) == Plus(Length(2), 1) == 3;
  }

  /** The forms for one, two and three words are jhash2 of that many words. */
  lemma FixedFormsAreJhash2(a: bv32, b: bv32, c: bv32, initval: bv32)
    ensures OneWord(a, initval) == Hash([a], Plus(Plus(INITVAL, Shift2(Length(1))), initval))
    ensures TwoWords(a, b, initval) == Hash([a, b], Plus(Plus(INITVAL, Shift2(Length(2))), initval))
    ensures ThreeWords(a, b, c, initval) == Hash([a, b, c], Plus(Plus(INITVAL, Shift2(Length(3))), initval))
  {
    SmallLengths();
    hide Final, Plus, Shift2, Length;
    FixedForm([a], initval, 4);
    FixedForm([a, b], initval, 8);
    FixedForm([a, b, c], initval, 12);
  }

  lemma FixedForm(k: seq<bv32>, initval: bv32, n: bv32)
    requires 1 <= |k| <= 3
    ensures NWords(Word(k, 0), Word(k, 1), Word(k, 2), Plus(Plus(initval, INITVAL), n))
            == Hash(k, Plus(Plus(INITVAL, n), initval))
  {
    hide Final, Plus;
    Rearranged(initval, n);
    var init := Plus(Plus(INITVAL, n), initval);
    PlusCommutes(Word(k, 0), init);
    PlusCommutes(Word(k, 1), init);
    PlusCommutes(Word(k, 2), init);
  }

  // Hashes of small keys

  lemma OneWordHash()
    ensures OneWord(1, 0) == 0x72a82a9b
  {
    FinalOfOneWord();
    hide Final;
  }

  lemma ThreeWordsHash()
    ensures ThreeWords(1, 2, 3, 0) == 0xa46158f5
  {
    FinalOfThreeWords();
    hide Final;
  }

  lemma FourLengths()
    ensures Plus(Plus(INITVAL, Shift2(Length(4))), 0) == 0xdeadbeff
  {
    assert Length(1) == 1;
    assert Length(2) == Plus(Length(1), 1) == 2;
    assert Length(3) == Plus(Length(2), 1) == 3;
    assert Length(4) == Plus(Length(3), 1) == 4;
  }

  lemma FourWordsHash()
    ensures Hash([1, 2, 3, 4], Plus(Plus(INITVAL, Shift2(Length(4))), 0)) == 0x66491246
  {
    FourLengths();
    MixOfFourWords();
    FinalOfFourWords();
    hide Mix, Final, Length;
    var k: seq<bv32> := [1, 2, 3, 4];
    assert k[3..] == [4];
    assert Add(Regs(0xdeadbeff, 0xdeadbeff, 0xdeadbeff), 1, 2, 3) == Regs(0xdeadbf00, 0xdeadbf01, 0xdeadbf02);
    assert Blocks(k, Regs(0xdeadbeff, 0xdeadbeff, 0xdeadbeff)) == Regs(0xdc01260d, 0xf13d0a7b, 0xa7e6880a);
    assert LastBlock(k) == [4];
  }

  function ByteAt(k: seq<bv8>, i: nat): bv8 {
    if i < |k| then k[i] else 0
  }

  /** (u32)b << s. */
  function Place(b: bv8, s: nat): bv32
    requires s < 32
  {
    (b as bv32) << s
  }

  function Join(b0: bv8, b1: bv8, b2: bv8, b3: bv8): bv32 {
    (b0 as bv32) | ((b1 as bv32) << 8) | ((b2 as bv32) << 16) | ((b3 as bv32) << 24)
  }

  /** The little-endian word at byte `i`, bytes behind the end of the key being zero. */
  function Load(k: seq<bv8>, i: nat): bv32 {
    Join(ByteAt(k, i), ByteAt(k, i + 1), ByteAt(k, i + 2), ByteAt(k, i + 3))
  }

  /** The words of a key padded with zero bytes. */
  function LoadAll(k: seq<bv8>): (r: seq<bv32>)
    ensures |r| == (|k| + 3) / 4
  {
    seq((|k| + 3) / 4, (j: nat) => Load(k, 4 * j))
  }

  /** The additions of the last block to the register that takes bytes `i` to `i + 3`, highest byte first, starting at
      the length of the key. */
  function AddTail(x: bv32, k: seq<bv8>, i: nat): bv32 {
    var x := if i + 3 < |k| then Plus(x, Place(k[i + 3], 24)) else x;
    var x := if i + 2 < |k| then Plus(x, Place(k[i + 2], 16)) else x;
    var x := if i + 1 < |k| then Plus(x, Place(k[i + 1], 8)) else x;
    if i < |k| then Plus(x, Place(k[i], 0)) else x
  }

  /** Bytes in their places do not overlap, so that joining them is adding them. */
  lemma JoinIsSum(b0: bv8, b1: bv8, b2: bv8, b3: bv8)
    ensures Join(b0, b1, b2, b3) == Plus(Plus(Plus(Place(b3, 24), Place(b2, 16)), Place(b1, 8)), Place(b0, 0))
  {
  }

  lemma PlaceZero(x: bv32)
    ensures Plus(x, Place(0, 24)) == x && Plus(x, Place(0, 16)) == x && Plus(x, Place(0, 8)) == x && Plus(x, Place(0, 0)) == x
  {
  }

  lemma AddTailIsLoad(x: bv32, k: seq<bv8>, i: nat)
    ensures AddTail(x, k, i) == Plus(x, Load(k, i))
  {
    hide Plus, Place, Join;
    var y0, y1, y2, y3 := ByteAt(k, i), ByteAt(k, i + 1), ByteAt(k, i + 2), ByteAt(k, i + 3);
    var x3 := Plus(x, Place(y3, 24));
    var x2 := Plus(x3, Place(y2, 16));
    var x1 := Plus(x2, Place(y1, 8));
    PlaceZero(x);
    PlaceZero(x3);
    PlaceZero(x2);
    PlaceZero(x1);
    JoinIsSum(y0, y1, y2, y3);
    PlusAssociates(x, Place(y3, 24), Place(y2, 16));
    PlusAssociates(x, Plus(Place(y3, 24), Place(y2, 16)), Place(y1, 8));
    PlusAssociates(x, Plus(Plus(Place(y3, 24), Place(y2, 16)), Place(y1, 8)), Place(y0, 0));
  }

  lemma LoadNothing(k: seq<bv8>, i: nat)
    requires i >= |k|
    ensures Load(k, i) == 0
  {
  }

  lemma LoadShifted(k: seq<bv8>, n: nat, i: nat)
    requires n <= |k|
    ensures Load(k[n..], i) == Load(k, n + i)
  {
    hide Join;
  }

  /** Dropping the first block of bytes drops the first three words. */
  lemma LoadRest(k: seq<bv8>)
    requires |k| > 12
    ensures |LoadAll(k)| > 3 && LoadAll(k)[3..] == LoadAll(k[12..])
    ensures forall j :: 0 <= j < 3 ==> LoadAll(k)[j] == Load(k, 4 * j)
  {
    hide Load;
    forall j | 0 <= j < |LoadAll(k)| - 3 ensures LoadAll(k)[3..][j] == LoadAll(k[12..])[j] {
      LoadShifted(k, 12, 4 * j);
    }
  }

  /** jhash: for every key, whatever its length, the hash of its zero-padded words, with the length in bytes. */
  method Jhash(key: seq<bv8>, initval: bv32) returns (h: bv32)
    requires |key| < 0x1_0000_0000
    ensures h == Hash(LoadAll(key), Plus(Plus(INITVAL, Length(|key|)), initval))
  {
    hide Mix, Final, Plus, Length, Load, LoadAll, AddTail;
    var a := Plus(Plus(INITVAL, Length(|key|)), initval);
    ghost var words, start := LoadAll(key), Regs(a, a, a);
    var r, k := Regs(a, a, a), key;
    while |k| > 12
      invariant Blocks(LoadAll(k), r) == Blocks(words, start) && LastBlock(LoadAll(k)) == LastBlock(words)
    {
      LoadRest(k);
      var a', b, c := MixInPlace(Plus(r.a, Load(k, 0)), Plus(r.b, Load(k, 4)), Plus(r.c, Load(k, 8)));
      r := Regs(a', b, c);
      k := k[12..];
    }
    if |k| == 0 {
      return r.c;
    }
    LastWords(k);
    AddTailIsLoad(r.c, k, 8);
    AddTailIsLoad(r.b, k, 4);
    AddTailIsLoad(r.a, k, 0);
    var c := AddTail(r.c, k, 8);
    var b := AddTail(r.b, k, 4);
    var a' := AddTail(r.a, k, 0);
    var _, _, last := FinalInPlace(a', b, c);
    h := last;
  }

  lemma LastWords(k: seq<bv8>)
    requires 0 < |k| <= 12
    ensures 0 < |LoadAll(k)| <= 3
    ensures forall j {:trigger Word(LoadAll(k), j)} :: 0 <= j < 3 ==> Word(LoadAll(k), j) == Load(k, 4 * j)
  {
    hide Load;
    LoadNothing(k, 12);
    if |k| <= 8 { LoadNothing(k, 8); }
    if |k| <= 4 { LoadNothing(k, 4); }
  }

  /** Byte `i` of a word on a little-endian host. */
  function ByteOf(w: bv32, i: nat): bv8 {
    if i == 0 then (w & 0xff) as bv8
    else if i == 1 then ((w >> 8) & 0xff) as bv8
    else if i == 2 then ((w >> 16) & 0xff) as bv8
    else ((w >> 24) & 0xff) as bv8
  }

  function Bytes(words: seq<bv32>): (r: seq<bv8>)
    ensures |r| == 4 * |words|
  {
    seq(4 * |words|, (i: nat) requires i < 4 * |words| => ByteOf(words[i / 4], i % 4))
  }

  lemma JoinBytes(w: bv32)
    ensures Join(ByteOf(w, 0), ByteOf(w, 1), ByteOf(w, 2), ByteOf(w, 3)) == w
  {
  }

  lemma LoadBytes(words: seq<bv32>)
    ensures LoadAll(Bytes(words)) == words
  {
    hide Join, ByteOf;
    var k := Bytes(words);
    forall j | 0 <= j < |words| ensures LoadAll(k)[j] == words[j] {
      assert k[4 * j] == ByteOf(words[j], 0) && k[4 * j + 1] == ByteOf(words[j], 1);
      assert k[4 * j + 2] == ByteOf(words[j], 2) && k[4 * j + 3] == ByteOf(words[j], 3);
      JoinBytes(words[j]);
    }
  }

  /** The byte form over the bytes of `n` words is the word form over the words, for every `n` and initial value. */
  lemma JhashOfBytesIsJhash2(words: seq<bv32>, initval: bv32)
    ensures var key := Bytes(words);
      Hash(LoadAll(key), Plus(Plus(INITVAL, Length(|key|)), initval))
      == Hash(words, Plus(Plus(INITVAL, Shift2(Length(|words|))), initval))
  {
    hide Plus, Length, Shift2, Hash, LoadAll, Bytes;
    LoadBytes(words);
    LengthOfWords(|words|);
  }

  /** The byte form of five bytes. */
  lemma FiveBytesHash()
    ensures Hash(LoadAll([1, 2, 3, 4, 5]), Plus(Plus(INITVAL, Length(5)), 0)) == 0xf85554a4
  {
    FourLengths();
    assert Length(5) == Plus(Length(4), 1);
    FinalOfFiveBytes();
    hide Final;
    var k: seq<bv8> := [1, 2, 3, 4, 5];
    assert Load(k, 0) == 0x04030201 && Load(k, 4) == 5;
    assert LoadAll(k) == [0x04030201, 5];
  }
}
