/** The flow hash over packet metadata, made independent of the direction of the flow by ordering its end points. */
module FlowHash {
  import opened Words
  import opened Checksum

  /** Four bytes, the unit in which addresses are stored. */
  type Quad = q: seq<Byte> | |q| == 4 witness [0, 0, 0, 0]

  datatype Kind = IPv4 | IPv6 | OtherKind

  /** The hashed part of the metadata. `before` are the fields from eth_proto to keyid, `ports` the two port16 values,
      `addrs` the address union as eight quads: v4_addrs[i] is quad i, v6_addrs[j].s6_addr32[i] is quad 4 * j + i;
      `pad` are the bytes that align the end of the structure. */
  datatype Meta = Meta(kind: Kind, before: seq<Byte>, ports: seq<nat>, icmp: Quad, addrs: seq<Quad>, pad: Quad) {
    predicate Valid() {
      && |before| == 20 && |ports| == 2 && ports[0] < TWO16 && ports[1] < TWO16 && |addrs| == 8
    }
  }

  /** A quad read as `__be32` and a port written as `__be16`, on a little-endian host. */
  function Value(q: Quad): (r: nat)
    ensures r < TWO32
  {
    q[0] as nat + 0x100 * (q[1] as nat) + 0x1_0000 * (q[2] as nat) + 0x100_0000 * (q[3] as nat)
  }

  function PortBytes(p: nat): seq<Byte>
    requires p < TWO16
  {
    [p % 256, p / 256]
  }

  function Flat(a: seq<Quad>): (r: seq<Byte>)
    ensures |r| == 4 * |a|
  {
    if a == [] then [] else a[0] + Flat(a[1..])
  }

  /** How many quads of the addresses parselite_hash_length takes in: the subtraction leaves the four bytes of padding
      counted, so that one quad more than the addresses is hashed. */
  function HashedQuads(kind: Kind): nat {
    match kind
    case IPv4 => 3
    case IPv6 => 9
    case OtherKind => 1
  }

  /** The bytes that are hashed. */
  function HashInput(m: Meta): (r: seq<Byte>)
    requires m.Valid()
    ensures |r| == HashLength(m.kind)
  {
    m.before + PortBytes(m.ports[0]) + PortBytes(m.ports[1]) + m.icmp + Flat((m.addrs + [m.pad])[..HashedQuads(m.kind)])
  }

  /** parselite_hash_length: sizeof is 112, the hashed part starts at 48, the address union has 32 bytes. */
  function HashLength(kind: Kind): nat {
    var diff := 48 + 32;
    var diff := match kind case IPv4 => diff - 8 case IPv6 => diff - 32 case OtherKind => diff;
    112 - diff
  }

  /** memcmp, as a sign. */
  function Compare(x: seq<Byte>, y: seq<Byte>): int
    requires |x| == |y|
  {
    if x == [] then 0
    else if x[0] != y[0] then (if x[0] < y[0] then -1 else 1)
    else Compare(x[1..], y[1..])
  }

  lemma {:induction false} CompareIsOrder(x: seq<Byte>, y: seq<Byte>)
    requires |x| == |y|
    ensures Compare(x, y) == -Compare(y, x)
    ensures Compare(x, y) == 0 <==> x == y
    decreases |x|
  {
    if x != [] {
      CompareIsOrder(x[1..], y[1..]);
      assert x == [x[0]] + x[1..] && y == [y[0]] + y[1..];
    }
  }

  /** A 32-bit difference as an `int`. */
  function Signed(x: int): (r: int)
    ensures -0x8000_0000 <= r < 0x8000_0000
  {
    var u := x % TWO32;
    if u < 0x8000_0000 then u else u - TWO32
  }

  function AddrDiff(kind: Kind, addrs: seq<Quad>): int
    requires |addrs| == 8
  {
    match kind
    case IPv4 => Signed(Value(addrs[1]) - Value(addrs[0]))
    case IPv6 => Compare(Flat(addrs[4..]), Flat(addrs[..4]))
    case OtherKind => 0
  }

  /** The end points are to be exchanged. */
  predicate OutOfOrder(m: Meta)
    requires m.Valid()
  {
    var d := AddrDiff(m.kind, m.addrs);
    m.kind != OtherKind && (d < 0 || (d == 0 && m.ports[1] < m.ports[0]))
  }

  /** The metadata of a packet of the same flow in the other direction. */
  function Reversed(m: Meta): (r: Meta)
    requires m.Valid()
    ensures r.Valid()
  {
    m.(ports := [m.ports[1], m.ports[0]],
       addrs := match m.kind
         case IPv4 => [m.addrs[1], m.addrs[0]] + m.addrs[2..]
         case IPv6 => m.addrs[4..] + m.addrs[..4]
         case OtherKind => m.addrs)
  }

  function Canonical(m: Meta): (r: Meta)
    requires m.Valid()
    ensures r.Valid()
  {
    if OutOfOrder(m) then Reversed(m) else m
  }

  /** The ordering part of parselite_hash_metadata, in place. */
  method OrderEndPoints(kind: Kind, addrs: array<Quad>, ports: array<nat>, ghost m: Meta)
    requires m.Valid() && m.kind == kind && addrs[..] == m.addrs && ports[..] == m.ports
    modifies addrs, ports
    ensures addrs[..] == Canonical(m).addrs && ports[..] == Canonical(m).ports
  {
    match kind
    case IPv4 =>
      var addrDiff := Signed(Value(addrs[1]) - Value(addrs[0]));
      if addrDiff < 0 || (addrDiff == 0 && ports[1] < ports[0]) {
        addrs[0], addrs[1] := addrs[1], addrs[0];
        ports[0], ports[1] := ports[1], ports[0];
      }
    case IPv6 =>
      var addrDiff := Compare(Flat(addrs[4..]), Flat(addrs[..4]));
      if addrDiff < 0 || (addrDiff == 0 && ports[1] < ports[0]) {
        SwapHalves(addrs);
        ports[0], ports[1] := ports[1], ports[0];
      }
    case OtherKind =>
  }

  /** The loop that exchanges the two IPv6 addresses. */
  method SwapHalves(addrs: array<Quad>)
    requires addrs.Length == 8
    modifies addrs
    ensures addrs[..] == old(addrs[4..]) + old(addrs[..4])
  {
    ghost var was := addrs[..];
    for i := 0 to 4
      invariant forall j {:trigger addrs[j]} :: 0 <= j < 8 ==>
        addrs[j] == if j < i then was[j + 4] else if 4 <= j < 4 + i then was[j - 4] else was[j]
    {
      addrs[i], addrs[4 + i] := addrs[4 + i], addrs[i];
    }
  }

  /** parselite_compute_hash over any keyed hash function. */
  function ComputeHash(siphash: seq<Byte> -> nat, input: seq<Byte>): (r: nat)
    ensures 0 < r < TWO32
  {
    var hash := siphash(input) % TWO32;
    if hash == 0 then 1 else hash
  }

  /** The hash is cut to its low 32 bits, and 1 stands for 0. */
  lemma HashIsCut(siphash: seq<Byte> -> nat, input: seq<Byte>, k: nat, low: nat)
    requires siphash(input) == k * TWO32 + low && low < TWO32
    ensures ComputeHash(siphash, input) == if low == 0 then 1 else low
  {
    QuotientUnique(siphash(input), k, low, TWO32);
  }

  lemma {:induction false} FlatInjective(a: seq<Quad>, b: seq<Quad>)
    requires |a| == |b|
    ensures Flat(a) == Flat(b) <==> a == b
    decreases |a|
  {
    if a != [] {
      FlatInjective(a[1..], b[1..]);
      assert Flat(a)[..4] == a[0] && Flat(b)[..4] == b[0];
      assert Flat(a)[4..] == Flat(a[1..]) && Flat(b)[4..] == Flat(b[1..]);
      assert a == [a[0]] + a[1..] && b == [b[0]] + b[1..];
    }
  }

  lemma ValueInjective(x: Quad, y: Quad)
    requires Value(x) == Value(y)
    ensures x == y
  {
    var a, b := Upper(x), Upper(y);
    SameDigits(x[0], y[0], a, b);
    SameDigits(x[1], y[1], x[2] as nat + 256 * (x[3] as nat), y[2] as nat + 256 * (y[3] as nat));
    SameDigits(x[2], y[2], x[3], y[3]);
  }

  function Upper(q: Quad): nat {
    q[1] as nat + 256 * (q[2] as nat + 256 * (q[3] as nat))
  }

  lemma SameDigits(x: Byte, y: Byte, a: nat, b: nat)
    requires x as nat + 256 * a == y as nat + 256 * b
    ensures x == y && a == b
  {
  }

  lemma ReversedTwice(m: Meta)
    requires m.Valid()
    ensures Reversed(Reversed(m)) == m
  {
    var r := Reversed(Reversed(m));
    assert r.ports == m.ports;
    assert r.addrs == m.addrs;
  }

  /** The quads that are hashed. */
  function Hashed(m: Meta): (r: seq<Quad>)
    requires m.Valid()
    ensures |r| == HashedQuads(m.kind)
  {
    (m.addrs + [m.pad])[..HashedQuads(m.kind)]
  }

  lemma {:induction false} FlatQuad(a: seq<Quad>, i: nat)
    requires i < |a|
    ensures Flat(a)[4 * i..4 * i + 4] == a[i]
    decreases |a|
  {
    if i > 0 {
      FlatQuad(a[1..], i - 1);
      assert Flat(a)[4 * i..4 * i + 4] == Flat(a[1..])[4 * i - 4..4 * i];
    }
  }

  lemma QuadAt(m: Meta, i: nat)
    requires m.Valid() && i < HashedQuads(m.kind)
    ensures 32 + 4 * i <= |HashInput(m)| && HashInput(m)[28 + 4 * i..32 + 4 * i] == Hashed(m)[i]
  {
    hide Flat;
    var r, flat := HashInput(m), Flat(Hashed(m));
    assert r[28..] == flat;
    FlatQuad(Hashed(m), i);
    assert r[28 + 4 * i..32 + 4 * i] == flat[4 * i..4 * i + 4];
  }

  /** Where the fields lie: the ports, low byte first, behind 20 bytes, and the addresses behind 28. */
  lemma InputLayout(m: Meta)
    requires m.Valid()
    ensures var r := HashInput(m);
      && r[..20] == m.before
      && r[20] as nat + 256 * (r[21] as nat) == m.ports[0] && r[22] as nat + 256 * (r[23] as nat) == m.ports[1]
      && r[24..28] == m.icmp
      && forall i: nat {:trigger Hashed(m)[i]} :: i < HashedQuads(m.kind) ==>
           Hashed(m)[i] == (if i < 8 then m.addrs[i] else m.pad) && r[28 + 4 * i..32 + 4 * i] == Hashed(m)[i]
  {
    forall i: nat | i < HashedQuads(m.kind) ensures HashInput(m)[28 + 4 * i..32 + 4 * i] == Hashed(m)[i] {
      QuadAt(m, i);
    }
    hide Flat;
  }

  /** The hash input tells all that is hashed, and nothing else enters it. */
  lemma InputIsExact(m: Meta, n: Meta)
    requires m.Valid() && n.Valid() && m.kind == n.kind
    ensures HashInput(m) == HashInput(n)
            <==> m.before == n.before && m.ports == n.ports && m.icmp == n.icmp && Hashed(m) == Hashed(n)
  {
    InputLayout(m);
    InputLayout(n);
    hide HashInput, Hashed, Flat;
    if HashInput(m) == HashInput(n) {
      assert m.ports == [m.ports[0], m.ports[1]] && n.ports == [n.ports[0], n.ports[1]];
      forall i: nat | i < HashedQuads(m.kind) ensures Hashed(m)[i] == Hashed(n)[i] {
        QuadAt(m, i);
        QuadAt(n, i);
      }
    }
    if m.before == n.before && m.ports == n.ports && m.icmp == n.icmp && Hashed(m) == Hashed(n) {
      SameInput(m, n);
    }
  }

  lemma SameInput(m: Meta, n: Meta)
    requires m.Valid() && n.Valid() && m.kind == n.kind
    requires m.before == n.before && m.ports == n.ports && m.icmp == n.icmp && Hashed(m) == Hashed(n)
    ensures HashInput(m) == HashInput(n)
  {
  }

  /** Different end points give different inputs. */
  lemma InputTellsAddress(m: Meta, n: Meta)
    requires m.Valid() && n.Valid() && m.kind == n.kind && m.addrs[0] != n.addrs[0]
    ensures HashInput(m) != HashInput(n)
  {
    hide HashInput;
    InputIsExact(m, n);
    assert Hashed(m)[0] == m.addrs[0] && Hashed(n)[0] == n.addrs[0];
  }

  // Which end point comes first

  lemma {:induction false} CompareAt(x: seq<Byte>, y: seq<Byte>, i: nat)
    requires |x| == |y| && i < |x| && x[..i] == y[..i] && x[i] != y[i]
    ensures Compare(x, y) < 0 <==> x[i] < y[i]
    ensures Compare(x, y) != 0
    decreases i
  {
    if i > 0 {
      assert x[0] == x[..i][0] && y[0] == y[..i][0];
      assert x[1..][..i - 1] == x[..i][1..] && y[1..][..i - 1] == y[..i][1..];
      CompareAt(x[1..], y[1..], i - 1);
    }
  }

  /** IPv6 addresses are ordered by the first byte in which they differ. */
  lemma FirstByteOrders(m: Meta, i: nat)
    requires m.Valid() && m.kind == IPv6 && i < 16
    ensures var x, y := Flat(m.addrs[..4]), Flat(m.addrs[4..]);
      x[..i] == y[..i] && x[i] != y[i] ==> (OutOfOrder(m) <==> y[i] < x[i])
  {
    hide Flat, Compare;
    var x, y := Flat(m.addrs[..4]), Flat(m.addrs[4..]);
    if x[..i] == y[..i] && x[i] != y[i] {
      CompareAt(y, x, i);
    }
  }

  /** IPv4 addresses are ordered by their last byte, if it differs by less than 128. */
  lemma LastByteOrders(m: Meta)
    requires m.Valid() && m.kind == IPv4
    ensures var x, y := m.addrs[0][3] as int, m.addrs[1][3] as int;
      && (0 < y - x < 128 ==> !OutOfOrder(m))
      && (-128 < y - x < 0 ==> OutOfOrder(m))
  {
  }

  /** Equal addresses are ordered by the ports, and addresses of another kind are not ordered. */
  lemma PortsOrder(m: Meta)
    requires m.Valid()
    ensures m.kind == IPv4 && m.addrs[0] == m.addrs[1] ==> (OutOfOrder(m) <==> m.ports[1] < m.ports[0])
    ensures m.kind == IPv6 && m.addrs[..4] == m.addrs[4..] ==> (OutOfOrder(m) <==> m.ports[1] < m.ports[0])
    ensures m.kind == OtherKind ==> !OutOfOrder(m)
  {
    hide Flat, Compare, Value;
    CompareIsOrder(Flat(m.addrs[4..]), Flat(m.addrs[..4]));
  }

  /** Both directions order alike: exactly one of the two is out of order, or they are the same. */
  predicate OrdersAlike(m: Meta)
    requires m.Valid()
  {
    OutOfOrder(m) != OutOfOrder(Reversed(m)) || Reversed(m) == m
  }

  lemma AlikeIsCanonical(m: Meta)
    requires m.Valid() && OrdersAlike(m)
    ensures Canonical(Reversed(m)) == Canonical(m)
  {
    hide Reversed, OutOfOrder;
    ReversedTwice(m);
  }

  lemma Order6(m: Meta)
    requires m.Valid() && m.kind == IPv6
    ensures OrdersAlike(m)
  {
    hide Flat, Compare;
    var x, y := m.addrs[..4], m.addrs[4..];
    var r := Reversed(m);
    assert r.addrs[..4] == y && r.addrs[4..] == x;
    CompareIsOrder(Flat(x), Flat(y));
    FlatInjective(x, y);
    if x == y && m.ports[0] == m.ports[1] {
      assert r.addrs == m.addrs && r.ports == m.ports;
    }
  }

  lemma SignedDifference(x: nat, y: nat)
    requires x < TWO32 && y < TWO32
    ensures Signed(x - y) == 0 <==> x == y
    ensures (Signed(x - y) < 0) != (Signed(y - x) < 0) || x == y || (x - y) % TWO32 == 0x8000_0000
    ensures (x - y) % TWO32 == 0x8000_0000 ==> Signed(x - y) < 0 && Signed(y - x) < 0
  {
  }

  lemma Order4(m: Meta)
    requires m.Valid() && m.kind == IPv4
    ensures var half := (Value(m.addrs[1]) - Value(m.addrs[0])) % TWO32 == 0x8000_0000;
      && (!half ==> OrdersAlike(m))
      && (half ==> m.addrs[0] != m.addrs[1] && OutOfOrder(m) && OutOfOrder(Reversed(m)))
  {
    hide Value, Signed;
    var x, y := m.addrs[0], m.addrs[1];
    var r := Reversed(m);
    SignedDifference(Value(y), Value(x));
    SignedDifference(Value(x), Value(y));
    if Value(x) == Value(y) {
      ValueInjective(x, y);
      if m.ports[0] == m.ports[1] {
        assert r.addrs == m.addrs && r.ports == m.ports;
      }
    }
  }

  /** Both directions of a flow have the same hash input: always for IPv6, and for IPv4 exactly when the two addresses
      do not differ by 2^31, where the signed difference is negative both ways. */
  lemma DirectionIndependence(m: Meta)
    requires m.Valid() && m.kind != OtherKind
    ensures HashInput(Canonical(m)) == HashInput(Canonical(Reversed(m)))
            <==> m.kind == IPv6 || (Value(m.addrs[1]) - Value(m.addrs[0])) % TWO32 != 0x8000_0000
  {
    hide HashInput, OutOfOrder, Value;
    if m.kind == IPv6 {
      Order6(m);
      AlikeIsCanonical(m);
    } else {
      Order4(m);
      if (Value(m.addrs[1]) - Value(m.addrs[0])) % TWO32 != 0x8000_0000 {
        AlikeIsCanonical(m);
      } else {
        ReversedTwice(m);
        InputTellsAddress(Reversed(m), m);
      }
    }
  }

  /** Two addresses that differ by 2^31, 0.0.0.10 and 0.0.0.138: the two directions are hashed differently. */
  lemma DirectionMatters(m: Meta)
    requires m.Valid() && m.kind == IPv4 && m.addrs[0] == [0, 0, 0, 10] && m.addrs[1] == [0, 0, 0, 138]
    ensures HashInput(Canonical(m)) != HashInput(Canonical(Reversed(m)))
  {
    assert Value(m.addrs[1]) - Value(m.addrs[0]) == 0x8000_0000;
    DirectionIndependence(m);
  }
}
