/** Changing the DS field of an IPv4 header with the checksum updated incrementally, as in section 3 of RFC 1624. */
module DsField {
  import opened Words
  import opened Checksum

  /** The header checksum field and the DS field. */
  const CHECK: nat := 10
  const TOS: nat := 1

  function Big16(h: seq<Byte>, i: nat): nat
    requires i + 2 <= |h|
  {
    256 * (h[i] as nat) + h[i + 1]
  }

  /** The 16-bit words of a header, in network byte order, added up. */
  function SumWords(h: seq<Byte>): nat
    requires |h| % 2 == 0
  {
    if |h| == 0 then 0 else Big16(h, 0) + SumWords(h[2..])
  }

  predicate IsHeader(h: seq<Byte>) {
    |h| >= 20 && |h| % 4 == 0 && h[0] / 16 == 4
  }

  lemma EvenLength(n: nat)
    requires n % 4 == 0
    ensures n % 2 == 0
  {
    assert n == 4 * (n / 4);
    TwiceIsEven(2 * (n / 4));
  }

  lemma TwiceIsEven(k: nat)
    ensures 2 * k % 2 == 0
  {
  }

  /** The one's-complement sum over the header, checksum included, is all ones. */
  predicate ValidChecksum(h: seq<Byte>)
    requires IsHeader(h)
  {
    EvenLength(|h|);
    Canon(SumWords(h)) == 0xffff
  }

  function NewField(tos: Byte, mask: Byte, value: Byte): Byte {
    (((tos as bv8) & (mask as bv8)) | (value as bv8)) as nat
  }

  /** Bit `i` of a byte. */
  predicate IsSet(x: Byte, i: nat) {
    x / Pow2(i) % 2 == 1
  }

  function Vector(x: Byte): bv8 {
    x as bv8
  }

  predicate VectorSet(x: bv8, i: nat)
    requires i < 8
  {
    x & (1 << i) != 0
  }

  lemma Powers()
    ensures Pow2(0) == 1 && Pow2(1) == 2 && Pow2(2) == 4 && Pow2(3) == 8
    ensures Pow2(4) == 16 && Pow2(5) == 32 && Pow2(6) == 64 && Pow2(7) == 128 && Pow2(8) == 256
  {
    assert Pow2(4) == 2 * Pow2(3);
    assert Pow2(6) == 2 * Pow2(5);
    assert Pow2(8) == 2 * Pow2(7);
  }

  lemma SetIs(x: Byte)
    ensures IsSet(x, 0) == (x % 2 == 1) && IsSet(x, 1) == (x / 2 % 2 == 1) && IsSet(x, 2) == (x / 4 % 2 == 1)
    ensures IsSet(x, 3) == (x / 8 % 2 == 1) && IsSet(x, 4) == (x / 16 % 2 == 1) && IsSet(x, 5) == (x / 32 % 2 == 1)
    ensures IsSet(x, 6) == (x / 64 % 2 == 1) && IsSet(x, 7) == (x / 128 % 2 == 1)
  {
    Powers();
    hide Pow2;
  }

  lemma ByteBits(x: Byte)
    ensures x % 2 == 1 <==> Vector(x) & 1 != 0
    ensures x / 2 % 2 == 1 <==> Vector(x) & 2 != 0
    ensures x / 4 % 2 == 1 <==> Vector(x) & 4 != 0
    ensures x / 8 % 2 == 1 <==> Vector(x) & 8 != 0
    ensures x / 16 % 2 == 1 <==> Vector(x) & 16 != 0
    ensures x / 32 % 2 == 1 <==> Vector(x) & 32 != 0
    ensures x / 64 % 2 == 1 <==> Vector(x) & 64 != 0
    ensures x / 128 % 2 == 1 <==> Vector(x) & 128 != 0
  {
  }

  lemma VectorIs(x: bv8)
    ensures VectorSet(x, 0) == (x & 1 != 0) && VectorSet(x, 1) == (x & 2 != 0)
    ensures VectorSet(x, 2) == (x & 4 != 0) && VectorSet(x, 3) == (x & 8 != 0)
    ensures VectorSet(x, 4) == (x & 16 != 0) && VectorSet(x, 5) == (x & 32 != 0)
    ensures VectorSet(x, 6) == (x & 64 != 0) && VectorSet(x, 7) == (x & 128 != 0)
  {
  }

  lemma ByteBit(x: Byte, i: nat)
    requires i < 8
    ensures IsSet(x, i) <==> VectorSet(Vector(x), i)
  {
    hide *;
    SetIs(x);
    ByteBits(x);
    VectorIs(Vector(x));
  }

  lemma FieldVector(tos: Byte, mask: Byte, value: Byte)
    ensures Vector(NewField(tos, mask, value)) == (Vector(tos) & Vector(mask)) | Vector(value)
  {
  }

  lemma VectorBits(t: bv8, m: bv8, v: bv8, i: nat)
    requires i < 8
    ensures VectorSet((t & m) | v, i) <==> VectorSet(v, i) || (VectorSet(t, i) && VectorSet(m, i))
  {
  }

  /** Bit `i` is set if it is set in the value, or in the field and the mask. */
  lemma NewFieldBits(tos: Byte, mask: Byte, value: Byte, i: nat)
    requires i < 8
    ensures IsSet(NewField(tos, mask, value), i) <==> IsSet(value, i) || (IsSet(tos, i) && IsSet(mask, i))
  {
    hide *;
    FieldVector(tos, mask, value);
    ByteBit(tos, i);
    ByteBit(mask, i);
    ByteBit(value, i);
    ByteBit(NewField(tos, mask, value), i);
    VectorBits(Vector(tos), Vector(mask), Vector(value), i);
  }

  lemma HalfSum(m: nat, r: nat)
    ensures (2 * m + r) / 2 == m + r / 2
  {
  }

  lemma HalfDivAt(x: nat, p: nat, q: nat, r: nat)
    requires r < 2 * p && x == 2 * (q * p) + r
    ensures x / 2 / p == q
  {
    HalfSum(q * p, r);
    QuotientUnique(x / 2, q, r / 2, p);
  }

  lemma DivMod(x: nat, m: nat, p: nat)
    requires m > 0 && m == 2 * p
    ensures x == 2 * ((x / m) * p) + x % m
  {
    var q := x / m;
    assert x == q * m + x % m;
    assert q * m == 2 * (q * p);
  }

  lemma HalfDiv(x: nat, p: nat, m: nat)
    requires m > 0 && m == 2 * p
    ensures x / 2 / p == x / m
  {
    DivMod(x, m, p);
    HalfDivAt(x, p, x / m, x % m);
  }

  /** A number is known by its bits. */
  lemma {:induction false} SameBinary(x: nat, y: nat, n: nat)
    requires x < Pow2(n) && y < Pow2(n)
    requires forall i: nat :: i < n ==> x / Pow2(i) % 2 == y / Pow2(i) % 2
    ensures x == y
    decreases n
  {
    if n > 0 {
      assert x / Pow2(0) % 2 == y / Pow2(0) % 2;
      forall i: nat | i < n - 1 ensures x / 2 / Pow2(i) % 2 == y / 2 / Pow2(i) % 2 {
        HalfDiv(x, Pow2(i), Pow2(i + 1));
        HalfDiv(y, Pow2(i), Pow2(i + 1));
        assert x / Pow2(i + 1) % 2 == y / Pow2(i + 1) % 2;
      }
      SameBinary(x / 2, y / 2, n - 1);
    }
  }

  lemma SameByte(x: Byte, y: Byte)
    requires forall i: nat :: i < 8 ==> IsSet(x, i) == IsSet(y, i)
    ensures x == y
  {
    Powers();
    hide Pow2;
    forall i: nat | i < 8 ensures x / Pow2(i) % 2 == y / Pow2(i) % 2 {
      assert IsSet(x, i) == IsSet(y, i);
    }
    SameBinary(x, y, 8);
  }

  lemma ConstantBits(i: nat)
    requires i < 8
    ensures IsSet(0xff, i) && !IsSet(0, i)
  {
    hide *;
    SetIs(0xff);
    SetIs(0);
  }

  /** A full mask and no value leave the field, and an empty mask replaces it. */
  lemma NewFieldEnds(tos: Byte, mask: Byte, value: Byte)
    ensures mask == 0xff && value == 0 ==> NewField(tos, mask, value) == tos
    ensures mask == 0 ==> NewField(tos, mask, value) == value
  {
    hide *;
    var x := NewField(tos, mask, value);
    forall i: nat | i < 8
      ensures mask == 0xff && value == 0 ==> IsSet(x, i) == IsSet(tos, i)
      ensures mask == 0 ==> IsSet(x, i) == IsSet(value, i)
    {
      NewFieldBits(tos, mask, value, i);
      ConstantBits(i);
    }
    if mask == 0 {
      SameByte(x, value);
    } else if mask == 0xff && value == 0 {
      SameByte(x, tos);
    }
  }

  /** The arithmetic on the `__u32` running check value, cut to 16 bits. */
  function NewCheck(check0: nat, tos: Byte, dsfield: Byte): nat
    requires check0 < TWO16
  {
    var check := U32(check0 + tos);
    var check := if U32(check + 1) / TWO16 != 0 then U32(check + 1) % TWO16 else check;
    var check := U32(check - dsfield);
    U32(check + check / TWO16) % TWO16
  }

  /** Despite the 32-bit wrap-around, the new check value is the old one plus the old field minus the new one, modulo
      0xffff, and never 0xffff. */
  lemma NewCheckIs(check0: nat, tos: Byte, dsfield: Byte)
    requires check0 < TWO16
    ensures NewCheck(check0, tos, dsfield) <= 0xfffe
    ensures exists k: int :: -1 <= k <= 1 && NewCheck(check0, tos, dsfield) == check0 + tos - dsfield + 0xffff * k
  {
    var c1 := check0 + tos;
    assert U32(c1) == c1 && U32(c1 + 1) == c1 + 1;
    var k1 := if c1 + 1 >= TWO16 then -1 else 0;
    var c2 := c1 + 0xffff * k1;
    assert c1 + 1 >= TWO16 ==> (c1 + 1) / TWO16 != 0 && (c1 + 1) % TWO16 == c1 + 1 - TWO16;
    assert 0 <= c2 <= 0xfffe;
    var d: int := c2 - dsfield;
    if d >= 0 {
      assert U32(d) == d && d / TWO16 == 0;
      assert NewCheck(check0, tos, dsfield) == check0 + tos - dsfield + 0xffff * k1;
    } else {
      assert U32(d) == TWO32 + d && U32(d) / TWO16 == 0xffff;
      assert U32(TWO32 + d + 0xffff) == 0xffff + d;
      assert NewCheck(check0, tos, dsfield) == check0 + tos - dsfield + 0xffff * (k1 + 1);
    }
  }

  /** The incremental update is the one of RFC 1624: HC' = ~(~HC + ~m + m') in one's-complement arithmetic, where `m`
      and `m'` are the old and the new word that holds the field. */
  lemma UpdateIsRfc1624(check0: nat, version: Byte, tos: Byte, dsfield: Byte)
    requires check0 < TWO16
    ensures var m, m' := 256 * (version as nat) + tos, 256 * (version as nat) + dsfield;
      NewCheck(check0, tos, dsfield) == 0xffff - Canon((0xffff - check0) + (0xffff - m) + m')
  {
    hide NewCheck, Canon;
    NewCheckIs(check0, tos, dsfield);
    var n := NewCheck(check0, tos, dsfield);
    var k: int :| -1 <= k <= 1 && n == check0 + tos - dsfield + 0xffff * k;
    var x := 2 * 0xffff - check0 - tos + dsfield;
    Congruent(x, 0xffff - n, 1 + k);
    CanonUnique(x, 0xffff - n);
  }

  /** The header after the change. */
  function Changed(h: seq<Byte>, mask: Byte, value: Byte): (r: seq<Byte>)
    requires IsHeader(h)
    ensures |r| == |h|
  {
    var dsfield := NewField(h[TOS], mask, value);
    var check := NewCheck(Big16(h, CHECK), h[TOS], dsfield);
    h[CHECK := check / 256][CHECK + 1 := check % 256][TOS := dsfield]
  }

  /** ipv4_change_dsfield. */
  method ChangeDsField(h: array<Byte>, mask: Byte, value: Byte)
    requires IsHeader(h[..])
    modifies h
    ensures h[..] == Changed(old(h[..]), mask, value)
  {
    var check := 256 * (h[CHECK] as nat) + h[CHECK + 1];
    var tos: nat := h[TOS];
    var dsfield := NewField(h[TOS], mask, value);
    check := U32(check + tos);
    if U32(check + 1) / TWO16 != 0 {
      check := U32(check + 1) % TWO16;
    }
    check := U32(check - dsfield);
    check := U32(check + check / TWO16);
    h[CHECK] := check % TWO16 / 256;
    h[CHECK + 1] := check % TWO16 % 256;
    h[TOS] := dsfield;
  }

  /** What replacing one byte does to the sum. */
  lemma {:induction false} SumUpdate(h: seq<Byte>, i: nat, x: Byte)
    requires |h| % 2 == 0 && i < |h|
    ensures SumWords(h[i := x]) == SumWords(h) + (if i % 2 == 0 then 256 * (x - h[i]) else x - h[i])
    decreases |h|
  {
    if i >= 2 {
      SumUpdate(h[2..], i - 2, x);
      assert h[i := x][2..] == h[2..][i - 2 := x];
    } else {
      assert h[i := x][2..] == h[2..];
    }
  }

  lemma SumChanged(h: seq<Byte>, mask: Byte, value: Byte)
    requires IsHeader(h)
    ensures exists k: int :: SumWords(Changed(h, mask, value)) == SumWords(h) + 0xffff * k
  {
    hide NewCheck, NewField, SumWords, U32;
    var dsfield := NewField(h[TOS], mask, value);
    NewCheckIs(Big16(h, CHECK), h[TOS], dsfield);
    var check := NewCheck(Big16(h, CHECK), h[TOS], dsfield);
    var k: int :| check == Big16(h, CHECK) + h[TOS] - dsfield + 0xffff * k;
    var h1 := h[CHECK := check / 256];
    var h2 := h1[CHECK + 1 := check % 256];
    SumUpdate(h, CHECK, check / 256);
    SumUpdate(h1, CHECK + 1, check % 256);
    SumUpdate(h2, TOS, dsfield);
    assert SumWords(h2[TOS := dsfield]) == SumWords(h) + 0xffff * k;
  }

  lemma SumPositive(h: seq<Byte>)
    requires IsHeader(h)
    ensures |h| % 2 == 0 && SumWords(h) > 0
  {
    EvenLength(|h|);
    assert h[0] > 0;
    assert SumWords(h) == Big16(h, 0) + SumWords(h[2..]);
  }

  lemma AllOnes(x: nat)
    requires x > 0
    ensures Canon(x) == 0xffff <==> x % MOD == 0
  {
  }

  lemma ZeroedSum(h: seq<Byte>)
    requires IsHeader(h)
    ensures var z := h[CHECK := 0][CHECK + 1 := 0];
      IsHeader(z) && |z| % 2 == 0 && SumWords(h) == SumWords(z) + Big16(h, CHECK) && SumWords(z) > 0
  {
    hide SumWords;
    SumPositive(h);
    var z1 := h[CHECK := 0];
    SumUpdate(h, CHECK, 0);
    SumUpdate(z1, CHECK + 1, 0);
    SumPositive(z1[CHECK + 1 := 0]);
  }

  lemma ComplementIs(x: nat, c: nat)
    requires x > 0 && c < TWO16
    ensures Canon(x + c) == 0xffff <==> c == 0xffff - Canon(x) || (c == 0xffff && Canon(x) == 0xffff)
  {
    var q, r := x / MOD, x % MOD;
    assert x == q * MOD + r;
    AllOnes(x + c);
    if r + c == 0 || r + c == MOD || r + c == 2 * MOD {
      RestUnique(x + c, q + (r + c) / MOD, 0);
    } else if r + c < MOD {
      RestUnique(x + c, q, r + c);
    } else {
      RestUnique(x + c, q + 1, r + c - MOD);
    }
  }

  lemma RestUnique(x: nat, q: nat, r: nat)
    requires r < MOD && x == q * MOD + r
    ensures x % MOD == r
  {
  }

  /** The checksum is valid exactly if it is the complement of the one's-complement sum of the other words; for a sum of
      0xffff, which is a zero, both zeros will do. */
  lemma ValidIsComplement(h: seq<Byte>)
    requires IsHeader(h)
    ensures var z, check := h[CHECK := 0][CHECK + 1 := 0], Big16(h, CHECK);
      && |z| % 2 == 0
      && (ValidChecksum(h)
          <==> check == 0xffff - Canon(SumWords(z)) || (check == 0xffff && Canon(SumWords(z)) == 0xffff))
  {
    hide SumWords, Canon;
    ZeroedSum(h);
    ComplementIs(SumWords(h[CHECK := 0][CHECK + 1 := 0]), Big16(h, CHECK));
  }

  /** The sum of the words is additive, and a word is its two bytes in network byte order. */
  lemma {:induction false} SumAppends(x: seq<Byte>, y: seq<Byte>)
    requires |x| % 2 == 0 && |y| % 2 == 0
    ensures SumWords(x + y) == SumWords(x) + SumWords(y)
    ensures |x| == 2 ==> SumWords(x) == 256 * (x[0] as nat) + x[1]
    decreases |x|
  {
    if x == [] {
      assert x + y == y;
    } else {
      SumAppends(x[2..], y);
      assert (x + y)[2..] == x[2..] + y;
    }
  }

  /** Changing the DS field, whatever the mask and the value, keeps a valid header checksum valid and an invalid one
      invalid; the new checksum is never 0xffff, and nothing else in the header changes. */
  lemma ChangeKeepsChecksum(h: seq<Byte>, mask: Byte, value: Byte)
    requires IsHeader(h)
    ensures var r := Changed(h, mask, value);
      && IsHeader(r)
      && (ValidChecksum(r) <==> ValidChecksum(h))
      && Big16(r, CHECK) <= 0xfffe
      && (forall i: nat :: i < 8 ==> (IsSet(r[TOS], i) <==> IsSet(value, i) || (IsSet(h[TOS], i) && IsSet(mask, i))))
      && (mask == 0xff && value == 0 ==> r[TOS] == h[TOS])
      && (mask == 0 ==> r[TOS] == value)
      && forall i :: 0 <= i < |h| && i != TOS && i != CHECK && i != CHECK + 1 ==> r[i] == h[i]
  {
    hide NewCheck, NewField, SumWords, Canon, IsSet;
    var r := Changed(h, mask, value);
    forall i: nat | i < 8 ensures IsSet(r[TOS], i) <==> IsSet(value, i) || (IsSet(h[TOS], i) && IsSet(mask, i)) {
      NewFieldBits(h[TOS], mask, value, i);
    }
    NewFieldEnds(h[TOS], mask, value);
    NewCheckIs(Big16(h, CHECK), h[TOS], NewField(h[TOS], mask, value));
    SumChanged(h, mask, value);
    var k: int :| SumWords(r) == SumWords(h) + 0xffff * k;
    SumPositive(h);
    SumPositive(r);
    if k >= 0 { Congruent(SumWords(r), SumWords(h), k); } else { Congruent(SumWords(h), SumWords(r), -k); }
    AllOnes(SumWords(h));
    AllOnes(SumWords(r));
  }
}
