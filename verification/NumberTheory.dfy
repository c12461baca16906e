/** Greatest common divisors, residues and how often a residue occurs in a window of integers. */
module NumberTheory {

  function Gcd(a: nat, b: nat): (g: nat)
    ensures a > 0 || b > 0 ==> g > 0
    decreases b
  {
    if b == 0 then a else Gcd(b, a % b)
  }

  function Lcm(n: nat, m: nat): nat
    requires n > 0 && m > 0
  {
    n / Gcd(n, m) * m
  }

  // Residues

  lemma AtLeastOnce(n: int, t: int)
    requires n > 0 && t >= 1
    ensures n * t >= n
  {
  }

  lemma SmallMultiple(n: int, t: int)
    requires -n < n * t < n
    ensures t == 0
  {
    if t >= 1 {
      AtLeastOnce(n, t);
    } else if t <= -1 {
      AtLeastOnce(n, -t);
    }
  }

  lemma Distribute(n: int, a: int, b: int)
    ensures n * a - n * b == n * (a - b)
    ensures n * a + n * b == n * (a + b)
  {
  }

  lemma Regroup(a: int, b: int, c: int)
    ensures a * (b * c) == a * b * c == b * (a * c)
  {
  }

  lemma QuotientIsUnique(x: int, n: int, q: int, r: int)
    requires n > 0 && 0 <= r < n && x == n * q + r
    ensures x / n == q && x % n == r
  {
    assert x == n * (x / n) + x % n;
    Distribute(n, x / n, q);
    SmallMultiple(n, x / n - q);
  }

  lemma ModShift(x: int, n: int, t: int)
    requires n > 0
    ensures (x + n * t) % n == x % n
  {
    assert x == n * (x / n) + x % n;
    Distribute(n, x / n, t);
    QuotientIsUnique(x + n * t, n, x / n + t, x % n);
  }

  lemma EqualResidues(x: int, y: int, n: int) returns (t: int)
    requires n > 0 && x % n == y % n
    ensures x - y == n * t
  {
    t := x / n - y / n;
    assert x == n * (x / n) + x % n && y == n * (y / n) + y % n;
    Distribute(n, x / n, y / n);
  }

  // Greatest common divisor

  /** `Gcd` is an integer combination of the two numbers and divides both. */
  lemma {:induction false} Bezout(a: nat, b: nat) returns (u: int, v: int)
    ensures a * u + b * v == Gcd(a, b)
    decreases b
  {
    if b == 0 {
      u, v := 1, 0;
    } else {
      var u', v' := Bezout(b, a % b);
      u, v := v', u' - a / b * v';
      assert a == b * (a / b) + a % b;
      BezoutStep(b, a / b, a % b, u', v');
    }
  }

  lemma BezoutStep(b: int, q: int, r: int, u: int, v: int)
    ensures (b * q + r) * v + b * (u - q * v) == b * u + r * v
  {
    Regroup(b, q, v);
    Distribute(b, u, q * v);
  }

  lemma {:induction false} GcdFacts(a: nat, b: nat)
    requires a > 0 || b > 0
    ensures a % Gcd(a, b) == 0 && b % Gcd(a, b) == 0
    decreases b
  {
    if b > 0 {
      GcdFacts(b, a % b);
      DividesBoth(a, b, Gcd(a, b));
    }
  }

  lemma DividesBoth(a: nat, b: nat, g: nat)
    requires b > 0 && g > 0 && b % g == 0 && (a % b) % g == 0
    ensures a % g == 0
  {
    var p, q := b / g, a / b;
    ExactQuotient(b, g);
    assert a == b * q + a % b;
    Regroup(g, p, q);
    assert a == a % b + g * (p * q);
    ModShift(a % b, g, p * q);
  }

  lemma LcmAlgebra(g: int, p: int, q: int)
    requires g > 0 && g * p > 0 && g * q > 0
    ensures p * (g * q) == g * p * q == g * q * p && g * p * (g * q) == g * (p * (g * q)) && p * (g * q) > 0
  {
    Regroup(p, g, q);
    Regroup(g, p, g * q);
    Regroup(g, q, p);
    if p <= 0 {
      AtLeastOnce(g, 1 - p);
      Distribute(g, 1, p);
    }
    AtLeastOnce(g * q, p);
  }

  lemma ExactQuotient(n: int, g: int)
    requires g > 0 && n % g == 0
    ensures n == g * (n / g)
  {
  }

  lemma LcmFacts(n: nat, m: nat)
    requires n > 0 && m > 0
    ensures Lcm(n, m) > 0
    ensures n * m == Gcd(n, m) * Lcm(n, m)
    ensures Lcm(n, m) == n * (m / Gcd(n, m)) == m * (n / Gcd(n, m))
  {
    var g := Gcd(n, m);
    GcdFacts(n, m);
    ExactQuotient(n, g);
    ExactQuotient(m, g);
    LcmAlgebra(g, n / g, m / g);
  }

  /** A common multiple of n and m is a multiple of their lcm. */
  lemma CommonMultiple(n: nat, m: nat, p: int, r: int) returns (t: int)
    requires n > 0 && m > 0 && n * p == m * r
    ensures n * p == Lcm(n, m) * t
  {
    var e, g, l := n * p, Gcd(n, m), Lcm(n, m);
    LcmFacts(n, m);
    var u, v := Bezout(n, m);
    t := u * r + v * p;
    ScaleCombination(n, m, u, v, p, r);
    Regroup(g, l, t);
    Distribute(g, e, l * t);
    assert g * e == g * (l * t) by {
      assert g * e == n * m * t;
    }
    CancelFactor(g, e, l * t);
  }

  lemma ScaleCombination(n: int, m: int, u: int, v: int, p: int, r: int)
    requires n * p == m * r
    ensures (n * u + m * v) * (n * p) == n * m * (u * r + v * p)
  {
    calc {
      (n * u + m * v) * (n * p);
      (n * u) * (n * p) + (m * v) * (n * p);
      (n * u) * (m * r) + (m * v) * (n * p);
      { FourFactors(n, u, m, r); FourFactors(m, v, n, p); }
      (n * m) * (u * r) + (n * m) * (v * p);
      { Distribute(n * m, u * r, v * p); }
      n * m * (u * r + v * p);
    }
  }

  lemma FourFactors(a: int, b: int, c: int, d: int)
    ensures (a * b) * (c * d) == (a * c) * (b * d)
  {
    Regroup(a, b, c * d);
    Regroup(b, c, d);
    Regroup(a, c, b * d);
  }

  lemma CancelFactor(g: int, a: int, b: int)
    requires g > 0 && g * a == g * b
    ensures a == b
  {
    Distribute(g, a, b);
    SmallMultiple(g, a - b);
  }

  // Pairs of residues

  /** Two residues of one number agree modulo the gcd. */
  lemma ResiduesAgree(k: nat, n: nat, m: nat)
    requires n > 0 && m > 0
    ensures (k % n) % Gcd(n, m) == (k % m) % Gcd(n, m)
  {
    GcdFacts(n, m);
    var g := Gcd(n, m);
    ResidueOfResidue(k, n, g);
    ResidueOfResidue(k, m, g);
  }

  lemma ResidueOfResidue(k: nat, n: nat, g: nat)
    requires n > 0 && g > 0 && n % g == 0
    ensures (k % n) % g == k % g
  {
    var p := n / g;
    assert n == g * p;
    assert k == n * (k / n) + k % n;
    assert k == k % n + g * (p * (k / n));
    ModShift(k % n, g, p * (k / n));
  }

  /** Residues that agree modulo the gcd have a common witness (the Chinese remainder theorem). */
  lemma CommonWitness(n: nat, m: nat, i: nat, j: nat) returns (x: int)
    requires i < n && j < m
    requires i % Gcd(n, m) == j % Gcd(n, m)
    ensures x % n == i && x % m == j
  {
    var g := Gcd(n, m);
    var u, v := Bezout(n, m);
    var q := EqualResidues(j, i, g);
    x := i + n * (u * q);
    assert x == j + m * (-(v * q)) by {
      SplitCombination(n, m, u, v, q);
    }
    ModShift(i, n, u * q);
    ModShift(j, m, -(v * q));
    QuotientIsUnique(i, n, 0, i);
    QuotientIsUnique(j, m, 0, j);
  }

  lemma SplitCombination(n: int, m: int, u: int, v: int, q: int)
    ensures (n * u + m * v) * q == n * (u * q) - m * (-(v * q))
  {
    Regroup(n, u, q);
    Regroup(m, v, q);
  }

  /** Any lcm(n, m) consecutive numbers contain a number with given compatible residues... */
  lemma WitnessInWindow(n: nat, m: nat, i: nat, j: nat, start: nat) returns (k: nat)
    requires i < n && j < m
    requires i % Gcd(n, m) == j % Gcd(n, m)
    ensures start <= k < start + Lcm(n, m) && k % n == i && k % m == j
  {
    var x := CommonWitness(n, m, i, j);
    LcmFacts(n, m);
    var t := (x - start) / Lcm(n, m);
    k := IntoWindow(x, start, Lcm(n, m));
    ModShiftByMultiple(x, n, m / Gcd(n, m), -t);
    ModShiftByMultiple(x, m, n / Gcd(n, m), -t);
  }

  lemma IntoWindow(x: int, start: nat, l: nat) returns (k: nat)
    requires l > 0
    ensures start <= k < start + l && k == x + l * (-((x - start) / l))
  {
    k := start + (x - start) % l;
    assert x - start == l * ((x - start) / l) + (x - start) % l;
  }

  lemma ModShiftByMultiple(x: int, n: int, a: int, t: int)
    requires n > 0
    ensures (x + n * a * t) % n == x % n
  {
    Regroup(n, a, t);
    ModShift(x, n, a * t);
  }

  /** ...and only one. */
  lemma WitnessIsUnique(n: nat, m: nat, k: nat, k': nat)
    requires n > 0 && m > 0
    requires k % n == k' % n && k % m == k' % m
    requires k <= k' < k + Lcm(n, m)
    ensures k == k'
  {
    var p := EqualResidues(k', k, n);
    var r := EqualResidues(k', k, m);
    var t := CommonMultiple(n, m, p, r);
    SmallMultiple(Lcm(n, m), t);
  }

  // Counting one residue

  /** How many k in [lo, hi) leave remainder i when divided by n. */
  function CountResidue(lo: nat, hi: nat, n: nat, i: nat): nat
    requires n > 0 && lo <= hi
    decreases hi
  {
    if lo == hi then 0
    else CountResidue(lo, hi - 1, n, i) + (if (hi - 1) % n == i then 1 else 0)
  }

  /** How many k in [0, hi) do. */
  function Below(hi: nat, n: nat, i: nat): nat
    requires i < n
  {
    (hi + (n - 1 - i)) / n
  }

  lemma BelowStep(hi: nat, n: nat, i: nat)
    requires i < n
    ensures Below(hi + 1, n, i) == Below(hi, n, i) + (if hi % n == i then 1 else 0)
  {
    var q, r := hi / n, hi % n;
    assert hi == n * q + r;
    if r < i {
      QuotientIsUnique(hi + (n - 1 - i), n, q, r + n - 1 - i);
      QuotientIsUnique(hi + 1 + (n - 1 - i), n, q, r + n - i);
    } else if r == i {
      QuotientIsUnique(hi + (n - 1 - i), n, q, n - 1);
      QuotientIsUnique(hi + 1 + (n - 1 - i), n, q + 1, 0);
    } else {
      QuotientIsUnique(hi + (n - 1 - i), n, q + 1, r - 1 - i);
      QuotientIsUnique(hi + 1 + (n - 1 - i), n, q + 1, r - i);
    }
  }

  lemma {:induction false} CountIsDifference(lo: nat, hi: nat, n: nat, i: nat)
    requires i < n && lo <= hi
    ensures CountResidue(lo, hi, n, i) == Below(hi, n, i) - Below(lo, n, i)
    decreases hi
  {
    if lo < hi {
      CountIsDifference(lo, hi - 1, n, i);
      BelowStep(hi - 1, n, i);
    }
  }

  lemma BelowIsClose(hi: nat, n: nat, i: nat, j: nat)
    requires i <= j < n
    ensures Below(hi, n, j) <= Below(hi, n, i) <= Below(hi, n, j) + 1
  {
    var a, b := hi + (n - 1 - i), hi + (n - 1 - j);
    assert b <= a < b + n;
    var q, r := b / n, b % n;
    assert b == n * q + r;
    if r + (a - b) < n {
      QuotientIsUnique(a, n, q, r + (a - b));
    } else {
      QuotientIsUnique(a, n, q + 1, r + (a - b) - n);
    }
  }

  /** In a window of any length, any two residues occur equally often, up to one. */
  lemma ResiduesAreFair(lo: nat, hi: nat, n: nat, i: nat, j: nat)
    requires i < n && j < n && lo <= hi
    ensures -1 <= CountResidue(lo, hi, n, i) - CountResidue(lo, hi, n, j) <= 1
  {
    CountIsDifference(lo, hi, n, i);
    CountIsDifference(lo, hi, n, j);
    var x, y := if i <= j then i else j, if i <= j then j else i;
    BelowIsClose(lo, n, x, y);
    BelowIsClose(hi, n, x, y);
  }
}
