/** Bitwise operators on natural numbers, and the arithmetic they are used for. */
module Bits {
  function Pow2(k: nat): (p: nat)
    ensures p > 0
  {
    if k == 0 then 1 else 2 * Pow2(k - 1)
  }

  /** x & y */
  function And(x: nat, y: nat): nat {
    if x == 0 || y == 0 then 0
    else 2 * And(x / 2, y / 2) + (if x % 2 == 1 && y % 2 == 1 then 1 else 0)
  }

  /** A mask of k ones takes the remainder. */
  lemma {:induction false} MaskIsMod(x: nat, k: nat)
    ensures And(x, Pow2(k) - 1) == x % Pow2(k)
  {
    hide Pow2, And;
    PowStep(k);
    if k == 0 {
      AndNothing(x);
    } else {
      var p := Pow2(k - 1);
      MaskIsMod(x / 2, k - 1);
      AndOdd(x, p - 1);
      HalfMod(x, p);
    }
  }

  lemma PowStep(k: nat)
    ensures Pow2(k) == if k == 0 then 1 else 2 * Pow2(k - 1)
  {}

  lemma AndNothing(x: nat)
    ensures And(x, 0) == 0
  {}

  lemma AndOdd(x: nat, h: nat)
    ensures And(x, 2 * h + 1) == 2 * And(x / 2, h) + x % 2
  {
    assert (2 * h + 1) / 2 == h;
  }

  lemma HalfMod(x: nat, p: nat)
    requires p > 0
    ensures x % (2 * p) == 2 * (x / 2 % p) + x % 2
  {
    DivMod(x, x / 2 / p, 2 * (x / 2 % p) + x % 2, 2 * p);
  }

  /** The usual test for a power of two. */
  lemma PowerTest(c: nat)
    requires c > 0
    ensures And(c, c - 1) == 0 <==> exists k: nat :: c == Pow2(k)
  {
    if And(c, c - 1) == 0 {
      var k := PowerOf(c);
    }
    if k: nat :| c == Pow2(k) {
      PowerPasses(k);
    }
  }

  lemma {:induction false} PowerOf(c: nat) returns (k: nat)
    requires c > 0 && And(c, c - 1) == 0
    ensures c == Pow2(k)
  {
    if c == 1 {
      k := 0;
    } else if c % 2 == 1 {
      AndSelf(c / 2);
      assert false;
    } else {
      assert (c - 1) / 2 == c / 2 - 1;
      var h := PowerOf(c / 2);
      k := h + 1;
    }
  }

  lemma {:induction false} PowerPasses(k: nat)
    ensures And(Pow2(k), Pow2(k) - 1) == 0
  {
    if k > 0 {
      PowerPasses(k - 1);
      assert (Pow2(k) - 1) / 2 == Pow2(k - 1) - 1;
    }
  }

  lemma {:induction false} AndSelf(x: nat)
    ensures And(x, x) == x
  {
    if x > 0 { AndSelf(x / 2); }
  }

  lemma DivMod(a: int, q: int, r: nat, d: nat)
    requires d > 0 && r < d && a == q * d + r
    ensures a / d == q && a % d == r
  {
    var q', r' := a / d, a % d;
    assert a == q' * d + r';
    assert (q - q') * d == r' - r;
    if q - q' >= 1 { MulMono(1, q - q', d); }
    if q - q' <= -1 { MulMono(1, q' - q, d); }
  }

  lemma MulMono(a: int, b: int, d: nat)
    requires a <= b
    ensures a * d <= b * d
  {}

  lemma {:induction false} PowAdd(a: nat, b: nat)
    ensures Pow2(a + b) == Pow2(a) * Pow2(b)
  {
    if a > 0 {
      PowAdd(a - 1, b);
    }
  }

  lemma {:induction false} PowMono(a: nat, b: nat)
    requires a <= b
    ensures Pow2(a) <= Pow2(b)
    decreases b - a
  {
    if a < b { PowMono(a, b - 1); }
  }

  /** Counting modulo m and then modulo a divisor of m. */
  lemma ModMod(x: int, d: nat, n: nat)
    requires d > 0 && n > 0
    ensures d * n > 0 && (x % (d * n)) % d == x % d
  {
    var m := d * n;
    assert m > 0;
    var w, q, r := x / m, x / d, x % d;
    assert x == w * m + x % m && x == q * d + r;
    assert w * m == (w * n) * d;
    DivMod(x % m, q - w * n, r, d);
  }

  /** Dividing below a multiple of the divisor. */
  lemma DivWrap(x: nat, c: nat, n: nat)
    requires c > 0 && n > 0
    ensures c * n > 0 && x % (c * n) / c == x / c % n && x % (c * n) % c == x % c
  {
    var q, r := x / c, x % c;
    var w, v := q / n, q % n;
    assert q == w * n + v;
    Regroup(w, n, v, c);
    MulMono(v + 1, n, c);
    Regroup(0, 0, v + 1, c);
    Regroup(1, 1, v, c);
    assert v * c + r < c * n;
    DivMod(x, w, v * c + r, c * n);
    DivMod(v * c + r, v, r, c);
  }

  lemma Regroup(w: int, n: int, v: int, c: int)
    ensures (w * n + v) * c == w * (c * n) + v * c
  {}

  /** The multiples of c that follow x. */
  lemma Ahead(x: int, c: nat, more: int)
    requires c > 0
    ensures (x / c + more) * c == x - x % c + more * c
  {
    Regroup(1, x / c, more, c);
  }

  /** A difference of remainders. */
  lemma ModDiff(a: int, b: int, m: nat)
    requires m > 0
    ensures (a % m - b % m) % m == (a - b) % m
  {
    var qa, qb, r := a / m, b / m, (a % m - b % m) % m;
    var q := (a % m - b % m) / m;
    assert a == qa * m + a % m && b == qb * m + b % m && a % m - b % m == q * m + r;
    Regroup(qa - qb, 1, q, m);
    Regroup(qa, 1, -qb, m);
    DivMod(a - b, qa - qb + q, r, m);
  }

  /** A sum with a remainder. */
  lemma ModSum(a: int, b: int, m: nat)
    requires m > 0
    ensures (a % m + b) % m == (a + b) % m
  {
    var qa, r := a / m, (a % m + b) % m;
    var q := (a % m + b) / m;
    assert a == qa * m + a % m && a % m + b == q * m + r;
    Regroup(qa, 1, q, m);
    DivMod(a + b, qa + q, r, m);
  }

  lemma NegMod(x: int, m: nat)
    requires m > 0 && x >= 0
    ensures -x % m == if x % m == 0 then 0 else m - x % m
  {
    var q, r := x / m, x % m;
    assert x == q * m + r;
    Regroup(-1, q, -1, m);
    if r == 0 { DivMod(-x, -q, 0, m); } else { DivMod(-x, -q - 1, m - r, m); }
  }
}
