/** Rotating a 32-bit word. */
module Rol32 {
  function Or(x: bv32, y: bv32): bv32 {
    x | y
  }

  function Left(w: bv32, s: bv6): bv32
    requires s < 32
  {
    w << s
  }

  function Right(w: bv32, s: bv6): bv32
    requires s < 32
  {
    w >> s
  }

  /** rol32. */
  function Rol(w: bv32, s: bv6): bv32 {
    Or(Left(w, s & 31), Right(w, (0 - s) & 31))
  }

  predicate IsSet(w: bv32, i: bv6)
    requires i < 32
  {
    (w >> i) & 1 == 1
  }

  // Bits of the three operators

  lemma ShiftedLeft(w: bv32, s: bv6, j: bv6)
    requires s < 32 && j < 32
    ensures IsSet(w << s, j) <==> j >= s && IsSet(w, j - s)
  {
  }

  lemma ShiftedRight(w: bv32, s: bv6, j: bv6)
    requires s < 32 && j < 32
    ensures IsSet(w >> s, j) <==> j + s < 32 && IsSet(w, j + s)
  {
  }

  lemma Ored(x: bv32, y: bv32, j: bv6)
    requires j < 32
    ensures IsSet(x | y, j) <==> IsSet(x, j) || IsSet(y, j)
  {
  }

  lemma LeftIs(w: bv32, s: bv6)
    requires s < 32
    ensures Left(w, s) == w << s
  {
  }

  lemma RightIs(w: bv32, s: bv6)
    requires s < 32
    ensures Right(w, s) == w >> s
  {
  }

  lemma OrIs(x: bv32, y: bv32)
    ensures Or(x, y) == x | y
  {
  }

  lemma LeftBit(w: bv32, s: bv6, j: bv6)
    requires s < 32 && j < 32
    ensures IsSet(Left(w, s), j) <==> j >= s && IsSet(w, j - s)
  {
    hide *;
    ShiftedLeft(w, s, j);
    LeftIs(w, s);
  }

  lemma RightBit(w: bv32, s: bv6, j: bv6)
    requires s < 32 && j < 32
    ensures IsSet(Right(w, s), j) <==> j + s < 32 && IsSet(w, j + s)
  {
    hide *;
    ShiftedRight(w, s, j);
    RightIs(w, s);
  }

  lemma OrBit(x: bv32, y: bv32, j: bv6)
    requires j < 32
    ensures IsSet(Or(x, y), j) <==> IsSet(x, j) || IsSet(y, j)
  {
    hide *;
    Ored(x, y, j);
    OrIs(x, y);
  }

  lemma RolParts(w: bv32, s: bv6)
    requires s < 32
    ensures Rol(w, s) == Or(Left(w, s), Right(w, (0 - s) & 31))
  {
    hide Or, Left, Right;
  }

  lemma Places(i: bv6, s: bv6)
    requires i < 32 && s < 32
    ensures var j, t := (i + s) & 31, (0 - s) & 31;
      if j >= s then j - s == i && (t == 0 || j + t >= 32) && (t == 0 ==> j == i && s == 0) else j + t == i
  {
  }

  /** Bit `i` goes to place `i + s`, modulo 32. */
  lemma RolMovesBits(w: bv32, s: bv6, i: bv6)
    requires s < 32 && i < 32
    ensures IsSet(Rol(w, s), (i + s) & 31) <==> IsSet(w, i)
  {
    hide *;
    var j, t := (i + s) & 31, (0 - s) & 31;
    RolParts(w, s);
    LeftBit(w, s, j);
    RightBit(w, t, j);
    OrBit(Left(w, s), Right(w, t), j);
    Places(i, s);
  }

  lemma RolIs(w: bv32, s: bv6)
    ensures Rol(w, s) == (w << (s & 31)) | (w >> ((0 - s) & 31))
  {
  }
}
