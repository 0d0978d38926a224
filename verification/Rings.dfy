/** The rings that the indices 0..n-1 form under adding `r` modulo `n`. */
module Rings {
  import opened Words

  function Step(n: nat, r: nat, i: nat): (s: nat)
    requires n > 0
    ensures s < n
  {
    (i + r) % n
  }

  /** The index reached from `b` by `t` steps. */
  function Orbit(n: nat, r: nat, b: nat, t: nat): (i: nat)
    requires b < n
    ensures i < n
  {
    if t == 0 then b else Step(n, r, Orbit(n, r, b, t - 1))
  }

  /** The indices reached by 1 to `t` steps. */
  function Visited(n: nat, r: nat, b: nat, t: nat): (s: set<nat>)
    requires b < n
    ensures forall x | x in s :: x < n
  {
    if t == 0 then {} else Visited(n, r, b, t - 1) + {Orbit(n, r, b, t)}
  }

  ghost predicate Closed(n: nat, r: nat, V: set<nat>)
    requires n > 0
  {
    forall x | x in V :: x < n && Step(n, r, x) in V
  }

  ghost predicate OnRing(n: nat, r: nat, b: nat, x: nat)
    requires b < n
  {
    exists t: nat :: Orbit(n, r, b, t) == x
  }

  /** The rings of the bases below `base` are disjoint and make up `V`. */
  ghost predicate Partition(n: nat, r: nat, base: nat, V: set<nat>)
    requires n > 0
  {
    && base <= n
    && Closed(n, r, V)
    && (forall b: nat | b < base :: b in V)
    && (forall x | x in V :: exists b: nat :: b < base && OnRing(n, r, b, x))
    && (forall b: nat, c: nat | b < c < base :: !OnRing(n, r, b, c))
  }

  lemma ModStep(x: int, y: int, n: nat)
    requires n > 0
    ensures (x % n + y) % n == (x + y) % n
  {
    var q := x / n;
    assert x == q * n + x % n;
    ModMultiple(x % n + y, q, n);
  }

  lemma ModMultiple(x: int, q: int, n: nat)
    requires n > 0
    ensures (x + q * n) % n == x % n
  {
    var z := x + q * n;
    assert z == (x / n + q) * n + x % n by {
      assert (x / n + q) * n == (x / n) * n + q * n;
    }
    RemainderUnique(z, x / n + q, x % n, n);
  }

  lemma RemainderUnique(z: int, q: int, m: int, n: nat)
    requires n > 0 && 0 <= m < n && z == q * n + m
    ensures z % n == m
  {
    assert (q - z / n) * n == z % n - m;
    SmallMultiple(q - z / n, n);
  }

  lemma {:induction false} OrbitAdds(n: nat, r: nat, b: nat, s: nat, t: nat)
    requires b < n
    ensures Orbit(n, r, Orbit(n, r, b, s), t) == Orbit(n, r, b, s + t)
  {
    if t > 0 { OrbitAdds(n, r, b, s, t - 1); }
  }

  lemma {:induction false} OrbitIs(n: nat, r: nat, b: nat, t: nat)
    requires b < n
    ensures Orbit(n, r, b, t) == (b + t * r) % n
  {
    if t > 0 {
      OrbitIs(n, r, b, t - 1);
      var x := b + (t - 1) * r;
      assert x + r == b + t * r;
      ModStep(x, r, n);
      StepIs(n, r, b, t, x);
    }
  }

  lemma StepIs(n: nat, r: nat, b: nat, t: nat, x: nat)
    requires b < n && t > 0 && Orbit(n, r, b, t - 1) == x % n && (x % n + r) % n == (x + r) % n
    ensures Orbit(n, r, b, t) == (x + r) % n
  {
  }

  /** After `n` steps every ring is back where it began. */
  lemma OrbitReturns(n: nat, r: nat, b: nat)
    requires b < n
    ensures Orbit(n, r, b, n) == b
  {
    hide Orbit, Step;
    OrbitIs(n, r, b, n);
    assert b + n * r == r * n + b;
    RemainderUnique(b + n * r, r, b, n);
  }

  lemma {:induction false} OrbitReturnsOften(n: nat, r: nat, b: nat, m: nat)
    requires b < n
    ensures Orbit(n, r, b, m * n) == b
  {
    if m > 0 {
      OrbitReturnsOften(n, r, b, m - 1);
      OrbitAdds(n, r, b, (m - 1) * n, n);
      OrbitReturns(n, r, b);
      assert (m - 1) * n + n == m * n;
    }
  }

  /** Being on one ring is symmetric: going on from `x` one comes back to `b`. */
  lemma ComesBack(n: nat, r: nat, b: nat, t: nat)
    requires b < n
    ensures OnRing(n, r, Orbit(n, r, b, t), b)
  {
    hide Orbit;
    OrbitReturnsOften(n, r, b, t);
    assert t <= t * n;
    OrbitAdds(n, r, b, t, t * n - t);
  }

  lemma {:induction false} ClosedOrbit(n: nat, r: nat, V: set<nat>, x: nat, t: nat)
    requires n > 0 && Closed(n, r, V) && x in V
    ensures Orbit(n, r, x, t) in V
  {
    if t > 0 { ClosedOrbit(n, r, V, x, t - 1); }
  }

  /** A closed set that holds some index of a ring holds its base. */
  lemma RingMeetsOnlyIfBaseDoes(n: nat, r: nat, V: set<nat>, b: nat, t: nat)
    requires b < n && Closed(n, r, V) && Orbit(n, r, b, t) in V
    ensures b in V
  {
    ComesBack(n, r, b, t);
    var u: nat :| Orbit(n, r, Orbit(n, r, b, t), u) == b;
    ClosedOrbit(n, r, V, Orbit(n, r, b, t), u);
  }

  lemma StepInjective(n: nat, r: nat, x: nat, y: nat)
    requires x < n && y < n && Step(n, r, x) == Step(n, r, y)
    ensures x == y
  {
    var p, q := (x + r) / n, (y + r) / n;
    assert x + r == p * n + Step(n, r, x) && y + r == q * n + Step(n, r, y);
    assert (p - q) * n == x - y;
    SmallMultiple(p - q, n);
  }

  /** If two points of a ring coincide, the base was met that many steps before. */
  lemma {:induction false} OrbitRepeats(n: nat, r: nat, b: nat, j: nat, k: nat)
    requires b < n && j <= k && Orbit(n, r, b, j) == Orbit(n, r, b, k)
    ensures Orbit(n, r, b, k - j) == b
  {
    if j > 0 {
      StepInjective(n, r, Orbit(n, r, b, j - 1), Orbit(n, r, b, k - 1));
      OrbitRepeats(n, r, b, j - 1, k - 1);
    }
  }

  lemma {:induction false} VisitedIs(n: nat, r: nat, b: nat, t: nat, x: nat)
    requires b < n
    ensures x in Visited(n, r, b, t) <==> exists j: nat :: 1 <= j <= t && Orbit(n, r, b, j) == x
  {
    hide Orbit;
    if t > 0 {
      VisitedIs(n, r, b, t - 1, x);
      assert Visited(n, r, b, t) == Visited(n, r, b, t - 1) + {Orbit(n, r, b, t)};
      if x == Orbit(n, r, b, t) {
        assert x in Visited(n, r, b, t);
        assert exists j: nat :: 1 <= j <= t && Orbit(n, r, b, j) == x by {
          assert 1 <= t <= t && Orbit(n, r, b, t) == x;
        }
      } else {
        if j: nat :| 1 <= j <= t - 1 && Orbit(n, r, b, j) == x {
          assert 1 <= j <= t && Orbit(n, r, b, j) == x;
        }
        if j: nat :| 1 <= j <= t && Orbit(n, r, b, j) == x {
          assert 1 <= j <= t - 1 && Orbit(n, r, b, j) == x;
        }
      }
    }
  }

  /** As long as the base has not come up again, the next index is a new one. */
  lemma NextIsNew(n: nat, r: nat, V: set<nat>, b: nat, t: nat)
    requires b < n && Closed(n, r, V) && b !in V
    requires forall j: nat | 1 <= j <= t :: Orbit(n, r, b, j) != b
    ensures Orbit(n, r, b, t + 1) !in V
    ensures Orbit(n, r, b, t + 1) !in Visited(n, r, b, t)
  {
    if Orbit(n, r, b, t + 1) in V {
      RingMeetsOnlyIfBaseDoes(n, r, V, b, t + 1);
    }
    var x := Orbit(n, r, b, t + 1);
    if x in Visited(n, r, b, t) {
      VisitedIs(n, r, b, t, x);
      var j: nat :| 1 <= j <= t && Orbit(n, r, b, j) == x;
      OrbitRepeats(n, r, b, j, t + 1);
    }
  }

  lemma {:induction false} SubsetOfRange(s: set<nat>, n: nat)
    requires forall x | x in s :: x < n
    ensures |s| <= n
    ensures |s| == n ==> forall x: nat | x < n :: x in s
  {
    if n > 0 {
      var s' := s - {n - 1};
      SubsetOfRange(s', n - 1);
      if n - 1 in s {
        assert |s| == |s'| + 1;
      } else {
        assert s == s';
      }
    }
  }

  lemma {:induction false} FullRange(s: set<nat>, n: nat)
    requires forall x: nat | x < n :: x in s
    ensures |s| >= n
  {
    if n > 0 {
      FullRange(s - {n - 1}, n - 1);
    }
  }

  lemma {:induction false} Translate(n: nat, r: nat, b: nat, c: nat, t: nat)
    requires b + c < n
    ensures Orbit(n, r, b + c, t) == (Orbit(n, r, b, t) + c) % n
  {
    OrbitIs(n, r, b + c, t);
    OrbitIs(n, r, b, t);
    ModStep(b + t * r, c, n);
  }

  /** If `base` lies on the ring of a smaller base then the bases below it reach every index. */
  lemma {:induction false} ReachesAll(n: nat, r: nat, base: nat, V: set<nat>, b: nat, t: nat, i: nat)
    requires b < base < n && i < n && Closed(n, r, V) && Orbit(n, r, b, t) == base
    requires forall c: nat | c < base :: c in V
    ensures i in V
    decreases i
  {
    hide Orbit, Step;
    if i >= base {
      ReachesAll(n, r, base, V, b, t, i - (base - b));
      Translate(n, r, b, i - base, t);
      RemainderUnique(i, 0, i, n);
      ClosedOrbit(n, r, V, i - (base - b), t);
    }
  }

  /** While some index is unvisited, `base` is: the next ring starts on new ground. */
  lemma NextBaseIsNew(n: nat, r: nat, base: nat, V: set<nat>)
    requires n > 0 && Partition(n, r, base, V) && |V| < n
    ensures base < n && base !in V
  {
    if base == n {
      FullRange(V, n);
      assert false;
    }
    if base in V {
      var b: nat :| b < base && OnRing(n, r, b, base);
      var t: nat :| Orbit(n, r, b, t) == base;
      forall i: nat | i < n ensures i in V {
        ReachesAll(n, r, base, V, b, t, i);
      }
      FullRange(V, n);
    }
  }

  /** A finished ring is closed under stepping. */
  lemma RingIsClosed(n: nat, r: nat, b: nat, t: nat)
    requires b < n && t > 0 && Orbit(n, r, b, t) == b
    ensures Closed(n, r, Visited(n, r, b, t)) && b in Visited(n, r, b, t)
  {
    hide Visited, Step;
    var R := Visited(n, r, b, t);
    forall x | x in R ensures Step(n, r, x) in R {
      VisitedIs(n, r, b, t, x);
      var j: nat :| 1 <= j <= t && Orbit(n, r, b, j) == x;
      VisitedIs(n, r, b, t, Step(n, r, x));
      var i := if j < t then j + 1 else 1;
      assert Orbit(n, r, b, i) == Step(n, r, x) by {
        assert Orbit(n, r, b, 0) == b;
      }
      assert 1 <= i <= t;
    }
    VisitedIs(n, r, b, t, b);
  }

  lemma VisitedOnRing(n: nat, r: nat, b: nat, t: nat, x: nat)
    requires b < n && x in Visited(n, r, b, t)
    ensures OnRing(n, r, b, x)
  {
    hide Orbit, Visited;
    VisitedIs(n, r, b, t, x);
  }

  /** A ring does not meet a closed set from outside it. */
  lemma NotOnRing(n: nat, r: nat, V: set<nat>, b: nat, c: nat)
    requires b < n && Closed(n, r, V) && b in V && c !in V
    ensures !OnRing(n, r, b, c)
  {
    hide Orbit, Step;
    if u: nat :| Orbit(n, r, b, u) == c {
      ClosedOrbit(n, r, V, b, u);
    }
  }

  /** Adding the ring of a new base keeps the partition. */
  lemma AddRing(n: nat, r: nat, base: nat, V: set<nat>, t: nat)
    requires n > 0 && Partition(n, r, base, V) && base < n && base !in V
    requires t > 0 && Orbit(n, r, base, t) == base
    ensures Partition(n, r, base + 1, V + Visited(n, r, base, t))
  {
    hide Orbit, Step, Visited, OnRing;
    var R := Visited(n, r, base, t);
    RingIsClosed(n, r, base, t);
    forall x | x in V + R ensures exists b: nat :: b < base + 1 && OnRing(n, r, b, x) {
      if x in R {
        VisitedOnRing(n, r, base, t, x);
      } else {
        var b: nat :| b < base && OnRing(n, r, b, x);
      }
    }
    forall b: nat, c: nat | b < c < base + 1 ensures !OnRing(n, r, b, c) {
      if c == base { NotOnRing(n, r, V, b, c); }
    }
  }

  function Gcd(a: nat, b: nat): nat
    decreases b
  {
    if b == 0 then a else Gcd(b, a % b)
  }

  ghost predicate Divides(d: nat, x: int) {
    exists k: int :: k * d == x
  }

  lemma DividesSum(d: nat, x: int, y: int, m: int)
    requires Divides(d, x) && Divides(d, y)
    ensures Divides(d, m * x + y)
  {
    var k: int :| k * d == x;
    var l: int :| l * d == y;
    assert (m * k + l) * d == m * (k * d) + l * d;
  }

  lemma {:induction false} GcdDivides(a: nat, b: nat)
    ensures Divides(Gcd(a, b), a) && Divides(Gcd(a, b), b)
    decreases b
  {
    if b == 0 {
      assert 1 * a == a && 0 * a == b;
    } else {
      GcdDivides(b, a % b);
      DividesSum(Gcd(a, b), b, a % b, a / b);
      assert (a / b) * b + a % b == a;
    }
  }

  /** The greatest common divisor is a combination of the two numbers. */
  lemma {:induction false} Bezout(a: nat, b: nat) returns (x: int, y: int)
    ensures x * a + y * b == Gcd(a, b)
    decreases b
  {
    if b == 0 {
      x, y := 1, 0;
    } else {
      var u, v := Bezout(b, a % b);
      x, y := v, u - v * (a / b);
      assert x * a + y * b == v * (a - (a / b) * b) + u * b by {
        assert (u - v * (a / b)) * b == u * b - v * ((a / b) * b);
      }
    }
  }

  lemma {:induction false} OrbitKeepsResidue(n: nat, r: nat, b: nat, t: nat, g: nat)
    requires b < n && Divides(g, n) && Divides(g, r)
    ensures Divides(g, Orbit(n, r, b, t) - b)
  {
    if t == 0 {
      assert 0 * g == 0;
    } else {
      OrbitKeepsResidue(n, r, b, t - 1, g);
      var o := Orbit(n, r, b, t - 1);
      var q := (o + r) / n;
      DividesSum(g, r, o - b, 1);
      DividesSum(g, n, 1 * r + (o - b), -q);
      assert -q * n + (1 * r + (o - b)) == Orbit(n, r, b, t) - b;
    }
  }

  lemma SmallMultipleOf(g: nat, x: int)
    requires Divides(g, x) && 0 <= x < g
    ensures x == 0
  {
    var k: int :| k * g == x;
    SmallMultiple(k, g);
  }

  /** A positive number is no smaller than its divisors. */
  lemma DivisorBound(g: nat, x: nat)
    requires x > 0 && Divides(g, x)
    ensures 0 < g <= x
  {
    var k: int :| k * g == x;
    assert k > 0;
  }

  /** The step size itself reaches its greatest common divisor with `n`. */
  lemma GcdOnFirstRing(n: nat, r: nat)
    requires 0 < r < n
    ensures 0 < Gcd(n, r) <= r && OnRing(n, r, 0, Gcd(n, r))
  {
    hide Orbit, Gcd, Divides;
    var g := Gcd(n, r);
    GcdDivides(n, r);
    DivisorBound(g, r);
    var x, y := Bezout(n, r);
    var t := y % n;
    OrbitIs(n, r, 0, t);
    var q := -x - (y / n) * r;
    assert t * r == q * n + g by { Rearrange(n, r, x, y, g); }
    RemainderUnique(t * r, q, g, n);
  }

  lemma Rearrange(n: nat, r: nat, x: int, y: int, g: nat)
    requires n > 0 && x * n + y * r == g
    ensures (y % n) * r == (-x - (y / n) * r) * n + g
  {
    var d := y / n;
    calc {
      (y % n) * r;
      (y - d * n) * r;
      y * r - (d * n) * r;
      { assert (d * n) * r == (d * r) * n; }
      g - x * n - (d * r) * n;
      (-x - d * r) * n + g;
    }
  }

  /** When the rings cover everything there are exactly gcd(n, r) of them. */
  lemma RingCount(n: nat, r: nat, base: nat, V: set<nat>)
    requires 0 < r < n && Partition(n, r, base, V) && forall x: nat | x < n :: x in V
    ensures base == Gcd(n, r)
  {
    hide Orbit, Gcd, Divides, Closed;
    var g := Gcd(n, r);
    GcdOnFirstRing(n, r);
    GcdDivides(n, r);
    if base < g {
      assert base in V;
      var b: nat :| b < base && OnRing(n, r, b, base);
      var t: nat :| Orbit(n, r, b, t) == base;
      OrbitKeepsResidue(n, r, b, t, g);
      SmallMultipleOf(g, base - b);
    }
  }
}
