/**
 * Rotation of an array in place by cycles (cpp/rotate.cpp, the class at the end of the file).
 */
module Rotate {
  import opened Modular

  // ---------------------------------------------------------------------------------------------
  // Divisors
  // ---------------------------------------------------------------------------------------------

  ghost predicate Divides(d: int, x: int) { exists q :: x == d * q }

  lemma DividesSum(d: int, x: int, y: int, c: int)
    requires Divides(d, x) && Divides(d, y)
    ensures Divides(d, x * c + y)
  {
    var p, q :| x == d * p && y == d * q;
    assert x * c + y == d * (p * c + q) by { calc { d * (p * c + q); d * (p * c) + d * q; (d * p) * c + d * q; } }
  }

  lemma DividesSelf(d: int)
    ensures Divides(d, d) && Divides(d, 0)
  {
    assert d == d * 1 && 0 == d * 0;
  }

  /** g is a common divisor of m and n, and a combination of them: the greatest common divisor. */
  ghost predicate IsGcd(g: int, m: int, n: int) {
    g > 0 && Divides(g, m) && Divides(g, n) && exists x, y :: g == x * m + y * n
  }

  lemma GcdIsGreatest(g: int, m: int, n: int, d: int)
    requires IsGcd(g, m, n) && Divides(d, m) && Divides(d, n)
    ensures Divides(d, g) && d <= g
  {
    var x, y :| g == x * m + y * n;
    DividesSelf(d);
    DividesSum(d, n, 0, y);
    DividesSum(d, m, n * y + 0, x);
    assert g == m * x + (n * y + 0);
    var q :| g == d * q;
    if d > g { if q <= 0 { MulSign(d, q); } else { MulGrows(d, q); } }
  }

  lemma MulSign(d: int, q: int)
    requires d > 0 && q <= 0
    ensures d * q <= 0
  {}

  lemma MulGrows(d: int, q: int)
    requires d > 0 && q >= 1
    ensures d * q >= d
  {}

  method Gcd(m0: int, n0: int) returns (g: int)
    requires m0 > 0 && n0 >= 0
    ensures IsGcd(g, m0, n0)
  {
    hide Divides;
    var m, n := m0, n0;
    ghost var x, y, u, v := 1, 0, 0, 1;
    while n != 0
      invariant m > 0 && n >= 0 && m == x * m0 + y * n0 && n == u * m0 + v * n0
      invariant forall d :: Divides(d, m) && Divides(d, n) ==> Divides(d, m0) && Divides(d, n0)
      decreases n
    {
      var t := m % n;
      ghost var q := m / n;
      DivisionIs(m, n);
      forall d | Divides(d, n) && Divides(d, t) ensures Divides(d, m0) && Divides(d, n0) { DividesSum(d, n, t, q); }
      Combine(m, n, t, q, x, y, u, v, m0, n0);
      x, y, u, v := u, v, x - q * u, y - q * v;
      m, n := n, t;
    }
    g := m;
    DividesSelf(g);
  }

  lemma DivisionIs(m: int, n: int)
    requires n > 0
    ensures m == n * (m / n) + m % n && 0 <= m % n < n
  {}

  lemma Combine(m: int, n: int, t: int, q: int, x: int, y: int, u: int, v: int, m0: int, n0: int)
    requires m == x * m0 + y * n0 && n == u * m0 + v * n0 && m == n * q + t
    ensures t == (x - q * u) * m0 + (y - q * v) * n0
  {
    calc {
      (x - q * u) * m0 + (y - q * v) * n0;
      x * m0 - q * u * m0 + y * n0 - q * v * n0;
      x * m0 + y * n0 - q * (u * m0 + v * n0);
      m - q * n;
    }
  }

  // ---------------------------------------------------------------------------------------------
  // The cycle of positions r, r + s, r + 2s, ... modulo n
  // ---------------------------------------------------------------------------------------------

  function At(r: int, s: int, n: int, i: int): int
    requires n > 0
  {
    (r + i * s) % n
  }

  lemma AtNext(r: int, s: nat, n: nat, i: int)
    requires 0 < n && s < n
    ensures var p := At(r, s, n, i);
      0 <= p < n && At(r, s, n, i + 1) == Turn(s, n, p) == if p + s < n then p + s else p + s - n
  {
    assert r + (i + 1) * s == (r + i * s) + s;
    ModStep(r + i * s, s, n);
    var p := At(r, s, n, i);
    ModStep(p, s, n);
    DivModUnique(p, n, 0, p);
  }

  /** Adding a multiple of the modulus. */
  lemma ModMultiple(a: int, n: nat, q: int)
    requires n > 0
    ensures (a + n * q) % n == a % n
  {
    assert a + n * q == n * (a / n + q) + a % n;
    DivModUnique(a + n * q, n, a / n + q, a % n);
  }

  lemma Rounds(r: int, i: int, g: int, len: int, t: int, m: int)
    ensures r + (i + len * m) * (g * t) == (r + i * (g * t)) + (g * len) * (m * t)
  {
    var s := g * t;
    assert (i + len * m) * s == i * s + (len * m) * s;
    assert (len * m) * (g * t) == (g * len) * (m * t);
  }

  lemma Residue(r: int, i: int, g: int, len: int, t: int, q: int)
    ensures (r + i * (g * t)) - (g * len) * q == g * (i * t - len * q) + r
  {
    assert i * (g * t) == g * (i * t);
    assert (g * len) * q == g * (len * q);
    assert g * (i * t - len * q) == g * (i * t) - g * (len * q);
  }

  lemma Difference(r: int, i: int, j: int, s: int, n: int)
    requires n > 0 && (r + i * s) % n == (r + j * s) % n
    ensures (j - i) * s == n * ((r + j * s) / n - (r + i * s) / n)
  {
    var a, b := r + i * s, r + j * s;
    assert a == n * (a / n) + a % n && b == n * (b / n) + b % n;
    assert (j - i) * s == b - a;
    assert n * (b / n - a / n) == n * (b / n) - n * (a / n);
  }

  lemma Period(d: int, g: int, n: int, s: int, x: int, y: int, q: int, len: int)
    requires d * s == n * q && g == x * n + y * s && n == g * len
    ensures g * (d - len * (d * x + q * y)) == 0
  {
    var k := d * x + q * y;
    assert d * g == n * k by {
      assert d * (x * n + y * s) == d * (x * n) + d * (y * s);
      assert d * (x * n) == n * (d * x);
      assert d * (y * s) == (d * s) * y == (n * q) * y == n * (q * y);
    }
    assert n * k == g * (len * k);
  }

  lemma Position(p: int, g: int, q: int, r: int, x: int, n: int, y: int, s: int)
    requires p == g * q + r && g == x * n + y * s
    ensures r + (q * y) * s == p + n * (-(q * x))
  {
    assert q * (x * n + y * s) == q * (x * n) + q * (y * s);
    assert q * (x * n) == n * (q * x);
    assert q * (y * s) == (q * y) * s;
  }

  ghost predicate Cycle(g: int, r: int, s: int, n: int) { 0 < s < n && IsGcd(g, n, s) && 0 <= r < g }

  lemma Lengths(g: int, r: int, s: int, n: int) returns (len: nat, t: int)
    requires Cycle(g, r, s, n)
    ensures n == g * len && s == g * t && len > 0 && g <= n && len == n / g
  {
    len := n / g;
    var q :| n == g * q;
    t :| s == g * t;
    DivModUnique(n, g, q, 0);
    if q <= 0 { MulSign(g, q); }
    MulGrows(g, q);
  }

  lemma AtResidue(g: int, r: int, s: int, n: int, i: int)
    requires Cycle(g, r, s, n)
    ensures At(r, s, n, i) % g == r
  {
    var len, t := Lengths(g, r, s, n);
    var a := r + i * s;
    var q := a / n;
    assert a % n == a - n * q;
    Residue(r, i, g, len, t, q);
    DivModUnique(a % n, g, i * t - len * q, r);
  }

  /** The cycle closes after n / g steps. */
  lemma AtClosed(g: int, r: int, s: int, n: int, i: int, m: int)
    requires Cycle(g, r, s, n)
    ensures At(r, s, n, i + (n / g) * m) == At(r, s, n, i)
  {
    var len, t := Lengths(g, r, s, n);
    hide Divides, IsGcd;
    Rounds(r, i, g, len, t, m);
    ModMultiple(r + i * s, n, m * t);
  }

  /** It does not close earlier. */
  lemma AtApart(g: int, r: int, s: int, n: int, i: int, j: int)
    requires Cycle(g, r, s, n) && i < j && At(r, s, n, i) == At(r, s, n, j)
    ensures j - i >= n / g
  {
    var len, t := Lengths(g, r, s, n);
    var a, b, d := r + i * s, r + j * s, j - i;
    var q := b / n - a / n;
    Difference(r, i, j, s, n);
    var x, y :| g == x * n + y * s;
    var k := d * x + q * y;
    Period(d, g, n, s, x, y, q, len);
    Cancel(g, d - len * k);
    if k <= 0 { MulSign(len, k); } else { MulGrows(len, k); }
  }

  lemma Cancel(g: int, z: int)
    requires g > 0 && g * z == 0
    ensures z == 0
  {}

  lemma AtSome(g: int, r: int, s: int, n: int, p: int) returns (k: int)
    requires Cycle(g, r, s, n) && 0 <= p < n && p % g == r
    ensures At(r, s, n, k) == p
  {
    var x, y :| g == x * n + y * s;
    var q := p / g;
    k := q * y;
    Position(p, g, q, r, x, n, y, s);
    ModMultiple(p, n, -(q * x));
    DivModUnique(p, n, 0, p);
  }

  /** It passes every position of its residue. */
  lemma AtOnto(g: int, r: int, s: int, n: int, p: int) returns (i: int)
    requires Cycle(g, r, s, n) && 0 <= p < n && p % g == r
    ensures 0 <= i < n / g && At(r, s, n, i) == p
  {
    hide At, Divides, IsGcd;
    var len, t := Lengths(g, r, s, n);
    var k := AtSome(g, r, s, n, p);
    i := k % len;
    assert k == i + len * (k / len);
    AtClosed(g, r, s, n, i, k / len);
  }

  // ---------------------------------------------------------------------------------------------
  // The rotation
  // ---------------------------------------------------------------------------------------------

  ghost predicate OnCycle(g: int, r: int, p: int)
    requires g > 0
  {
    p % g == r
  }

  ghost function Source(g: int, r: int, shift: int, n: int, p: int): (q: int)
    requires g > 0 && n > 0 && 0 <= p < n
    ensures 0 <= q < n
  {
    if OnCycle(g, r, p) then Turn(shift, n, p) else p
  }

  /** Where the element of position p comes from. */
  function Turn(shift: int, n: int, p: int): (q: int)
    requires n > 0
    ensures 0 <= q < n
  {
    (p + shift) % n
  }

  /** A list of positions, each once, each where the element of the one before comes from. */
  ghost predicate IsRing(c: seq<int>, shift: int, n: int) {
    && |c| > 0 && n > 0 && (forall i, j :: 0 <= i < j < |c| ==> c[i] != c[j])
    && (forall i :: 0 <= i < |c| ==> 0 <= c[i] < n && Turn(shift, n, c[i]) == c[if i + 1 < |c| then i + 1 else 0])
  }

  lemma Ring(g: int, r: int, s: int, n: int) returns (c: seq<int>)
    requires Cycle(g, r, s, n)
    ensures IsRing(c, s, n) && c[0] == r && |c| == n / g
    ensures forall p :: 0 <= p < n ==> (OnCycle(g, r, p) <==> p in c)
  {
    hide At, Divides, IsGcd, Turn;
    var len, t := Lengths(g, r, s, n);
    c := seq(len, i => At(r, s, n, i));
    AtStart(r, s, n);
    AtClosed(g, r, s, n, 0, 1);
    forall i, j | 0 <= i < j < len ensures c[i] != c[j] {
      if At(r, s, n, i) == At(r, s, n, j) { AtApart(g, r, s, n, i, j); }
    }
    forall i | 0 <= i < len ensures 0 <= c[i] < n && Turn(s, n, c[i]) == c[if i + 1 < |c| then i + 1 else 0] {
      AtNext(r, s, n, i);
    }
    forall p | 0 <= p < n ensures OnCycle(g, r, p) <==> p in c {
      if OnCycle(g, r, p) { var i := AtOnto(g, r, s, n, p); assert c[i] == p; }
      if p in c { var i :| 0 <= i < len && c[i] == p; AtResidue(g, r, s, n, i); }
    }
  }

  lemma AtStart(r: int, s: int, n: int)
    requires 0 <= r < n
    ensures At(r, s, n, 0) == r
  {
    DivModUnique(r, n, 0, r);
    assert r + 0 * s == r;
  }

  lemma NotClosedYet(c: seq<int>, shift: int, n: int, j: nat)
    requires IsRing(c, shift, n) && j < |c|
    ensures j + 1 < |c| ==> Turn(shift, n, c[j]) != c[0]
  {
    if j + 1 < |c| { assert c[0] != c[j + 1]; }
  }

  /** __rotate_cycle: the positions of one residue are rotated, the others are not touched. */
  method RotateCycle(a: array<int>, r: nat, shift: nat, ghost g: int)
    requires Cycle(g, r, shift, a.Length) && r + shift < a.Length
    modifies a
    ensures forall p :: 0 <= p < a.Length ==> a[p] == old(a[Source(g, r, shift, a.Length, p)])
  {
    hide OnCycle, Divides, IsGcd, Turn;
    ghost var n := a.Length;
    ghost var c := Ring(g, r, shift, n);
    ghost var j := 0;
    var value := a[r];
    var p1, p2 := r, r + shift;
    TurnIs(shift, n, r);
    while p2 != r
      invariant 0 <= j < |c| && p1 == c[j] && 0 <= p2 < n && p2 == Turn(shift, n, c[j])
      invariant forall i :: 0 <= i < j ==> a[c[i]] == old(a[Turn(shift, n, c[i])])
      invariant forall i :: j <= i < |c| ==> a[c[i]] == old(a[c[i]])
      invariant forall p :: 0 <= p < n && p !in c ==> a[p] == old(a[p])
      decreases |c| - j
    {
      assert j + 1 < |c|;
      a[p1] := a[p2];
      p1 := p2;
      TurnIs(shift, n, p2);
      if a.Length - p2 > shift {
        p2 := p2 + shift;
      } else {
        p2 := shift - (a.Length - p2);
      }
      j := j + 1;
    }
    NotClosedYet(c, shift, n, j);
    a[p1] := value;
  }

  lemma TurnIs(s: nat, n: nat, p: nat)
    requires p < n && s < n
    ensures Turn(s, n, p) == if p + s < n then p + s else p + s - n
  {
    ModStep(p, s, n);
    DivModUnique(p, n, 0, p);
  }

  /** The cycles of residues m and up have been rotated. */
  ghost predicate Turned(was: seq<int>, now: seq<int>, g: int, m: int, shift: int) {
    && g > 0 && |now| == |was|
    && forall p :: 0 <= p < |was| ==> now[p] == was[if p % g >= m then Turn(shift, |was|, p) else p]
  }

  lemma TurnedMore(was: seq<int>, now: seq<int>, next: seq<int>, g: int, m: nat, shift: nat)
    requires m < g && 0 < shift < |was| && Divides(g, |was|) && Divides(g, shift) && Turned(was, now, g, m + 1, shift)
      && |next| == |was|
    requires forall p :: 0 <= p < |was| ==> next[p] == now[Source(g, m, shift, |was|, p)]
    ensures Turned(was, next, g, m, shift)
  {
    hide Turn;
    forall p | 0 <= p < |was| ensures next[p] == was[if p % g >= m then Turn(shift, |was|, p) else p] {
      if p % g == m { TurnResidue(g, shift, |was|, p); }
    }
  }

  /** Moving by the shift keeps the residue. */
  lemma TurnResidue(g: int, shift: nat, n: nat, p: nat)
    requires g > 0 && shift < n && p < n && Divides(g, n) && Divides(g, shift)
    ensures Turn(shift, n, p) % g == p % g
  {
    TurnIs(shift, n, p);
    var s :| shift == g * s;
    var l :| n == g * l;
    ModMultiple(p, g, s);
    ModMultiple(p, g, s - l);
    assert g * (s - l) == g * s - g * l;
  }

  /** __rotate with middle = first + shift: as many cycles as the greatest common divisor. */
  method RotateBy(a: array<int>, shift: nat)
    requires 0 < shift < a.Length
    modifies a
    ensures forall p :: 0 <= p < a.Length ==> a[p] == old(a[Turn(shift, a.Length, p)])
  {
    hide Turn, IsGcd, Divides, Source;
    var g := Gcd(a.Length, shift);
    GcdFacts(g, a.Length, shift);
    ghost var was := a[..];
    var m := g;
    TurnedNone(was, g, shift);
    while m > 0
      invariant 0 <= m <= g && Turned(was, a[..], g, m, shift)
    {
      m := m - 1;
      ghost var now := a[..];
      RotateCycle(a, m, shift, g);
      assert forall p :: 0 <= p < |was| ==> a[..][p] == now[Source(g, m, shift, |was|, p)];
      TurnedMore(was, now, a[..], g, m, shift);
    }
    forall p | 0 <= p < a.Length ensures a[p] == was[Turn(shift, a.Length, p)] {
      assert a[..][p] == a[p] && p % g >= 0;
    }
  }

  lemma TurnedNone(was: seq<int>, g: int, shift: int)
    requires g > 0 && |was| > 0
    ensures Turned(was, was, g, g, shift)
  {}

  lemma GcdFacts(g: int, n: int, s: int)
    requires IsGcd(g, n, s) && 0 < s < n
    ensures g > 0 && Divides(g, n) && Divides(g, s) && g - 1 + s < n
  {
    var q :| n == g * q;
    var t :| s == g * t;
    assert n - s == g * (q - t);
    if q - t <= 0 { MulSign(g, q - t); }
    MulGrows(g, q - t);
  }

  /** rotate: the element at i ends at i + k, modulo the length. */
  method RotateArray(a: array<int>, k: int)
    modifies a
    ensures k <= 0 ==> a[..] == old(a[..])
    ensures k > 0 ==> forall i :: 0 <= i < a.Length ==> a[Turn(k, a.Length, i)] == old(a[i])
  {
    if a.Length == 0 || k <= 0 { return; }
    var n := a.Length;
    var j := k % n;
    assert k == j + n * (k / n);
    if j != 0 {
      RotateBy(a, n - j);
    }
    forall i | 0 <= i < n ensures a[Turn(k, n, i)] == old(a[i]) {
      ModMultiple(i + j, n, k / n);
      assert Turn(k, n, i) == Turn(j, n, i);
      BackAndForth(j, n, i);
    }
  }

  lemma BackAndForth(j: nat, n: nat, i: nat)
    requires j < n && i < n
    ensures if j == 0 then Turn(j, n, i) == i else Turn(n - j, n, Turn(j, n, i)) == i
  {
    TurnIs(j, n, i);
    if j != 0 { TurnIs(n - j, n, Turn(j, n, i)); }
  }
}
