/**
 * Greatest common divisors, Bezout coefficients and the primality of the
 * small primes the MPMC queue draws its stride from. They justify that a
 * stride coprime with the capacity sends any `capacity` consecutive tickets
 * to distinct slots.
 */
module NumberTheory {

  /** Euclid's algorithm. */
  function Gcd(a: nat, b: nat): nat
    decreases b
  {
    if b == 0 then a else Gcd(b, a % b)
  }

  predicate Prime(p: nat)
  {
    p > 1 && forall d :: 1 < d < p ==> p % d != 0
  }

  /** True when no d in [2, bound] divides p; evaluated on literals. */
  function NoDivisorUpTo(p: nat, bound: nat): bool
  {
    bound <= 1 || (p % bound != 0 && NoDivisorUpTo(p, bound - 1))
  }

  lemma {:induction false} NoDivisorUpToSound(p: nat, bound: nat)
    requires NoDivisorUpTo(p, bound)
    ensures forall d :: 1 < d <= bound ==> p % d != 0
  {
    if bound > 1 {
      NoDivisorUpToSound(p, bound - 1);
    }
  }

  lemma PrimeByCheck(p: nat)
    requires p > 1 && NoDivisorUpTo(p, p - 1)
    ensures Prime(p)
  {
    NoDivisorUpToSound(p, p - 1);
  }

  /** A nonzero multiple of g is at least g away from zero. */
  lemma MulSign(t: int, g: nat)
    requires g > 0
    ensures t >= 1 ==> t * g >= g
    ensures t <= -1 ==> t * g + g <= 0
  {
  }

  /** Division with remainder is unique. */
  lemma DivModUnique(a: int, n: nat, q: int, r: int)
    requires n > 0 && 0 <= r < n && a == q * n + r
    ensures a / n == q && a % n == r
  {
    var q', r' := a / n, a % n;
    assert a == q' * n + r';
    assert (q - q') * n == r' - r;
    MulSign(q - q', n);
  }

  /** Taking the successor commutes with reduction modulo n. */
  lemma ModSucc(x: nat, n: nat)
    requires n > 0
    ensures (x + 1) % n == (x % n + 1) % n
  {
    assert x == (x / n) * n + x % n;
    if x % n + 1 < n {
      DivModUnique(x + 1, n, x / n, x % n + 1);
      DivModUnique(x % n + 1, n, 0, x % n + 1);
    } else {
      DivModUnique(x + 1, n, x / n + 1, 0);
      DivModUnique(x % n + 1, n, 1, 0);
    }
  }

  lemma ModOfMultiple(k: nat, g: nat)
    requires g > 0
    ensures (k * g) % g == 0
  {
    var q := (k * g) / g;
    var r := (k * g) % g;
    assert k * g == q * g + r;
    assert (k - q) * g == r;
    MulSign(k - q, g);
  }

  lemma DivisibleSum(x: nat, y: nat, g: nat)
    requires g > 0 && x % g == 0 && y % g == 0
    ensures (x + y) % g == 0
  {
    assert x == (x / g) * g;
    assert y == (y / g) * g;
    assert x + y == (x / g + y / g) * g;
    ModOfMultiple(x / g + y / g, g);
  }

  lemma DivisibleMul(q: nat, x: nat, g: nat)
    requires g > 0 && x % g == 0
    ensures (q * x) % g == 0
  {
    var k := x / g;
    assert x == k * g;
    assert q * x == (q * k) * g;
    ModOfMultiple(q * k, g);
  }

  /** A common divisor of b and a % b divides a. */
  lemma DividesThroughMod(a: nat, b: nat, g: nat)
    requires b > 0 && g > 0 && b % g == 0 && (a % b) % g == 0
    ensures a % g == 0
  {
    var q := a / b;
    assert a == q * b + a % b;
    DivisibleMul(q, b, g);
    DivisibleSum(q * b, a % b, g);
  }

  /** The gcd is a positive common divisor. */
  lemma {:induction false} GcdDivides(a: nat, b: nat)
    requires a > 0 || b > 0
    ensures Gcd(a, b) > 0 && a % Gcd(a, b) == 0 && b % Gcd(a, b) == 0
    decreases b
  {
    if b == 0 {
      ModOfMultiple(1, a);
    } else {
      GcdDivides(b, a % b);
      DividesThroughMod(a, b, Gcd(b, a % b));
    }
  }

  /** The ring identity behind one step of the extended Euclid algorithm. */
  lemma BezoutStep(a: int, b: int, q: int, r: int, x: int, y: int)
    requires a == q * b + r
    ensures a * y + b * (x - q * y) == b * x + r * y
  {
    calc {
      a * y + b * (x - q * y);
      (q * b + r) * y + b * x - b * (q * y);
      { assert (q * b + r) * y == q * b * y + r * y; }
      q * b * y + r * y + b * x - b * (q * y);
    }
  }

  /** Bezout's identity: the gcd is an integer combination of a and b. */
  lemma {:induction false} Bezout(a: nat, b: nat) returns (x: int, y: int)
    ensures a * x + b * y == Gcd(a, b)
    decreases b
  {
    if b == 0 {
      x, y := 1, 0;
    } else {
      var r := a % b;
      var q := a / b;
      assert Gcd(a, b) == Gcd(b, r);
      var x', y' := Bezout(b, r);
      assert a == q * b + r;
      BezoutStep(a, b, q, r, x', y');
      x := y';
      y := x' - q * y';
    }
  }

  /** The only positive divisors of a prime are 1 and itself. */
  lemma PrimeDivisors(p: nat, g: nat)
    requires Prime(p) && g > 0 && p % g == 0
    ensures g == 1 || g == p
  {
  }

  /** A prime that does not divide n is coprime with n. */
  lemma PrimeCoprime(p: nat, n: nat)
    requires Prime(p) && n > 0 && n % p != 0
    ensures Gcd(p, n) == 1
  {
    var g := Gcd(p, n);
    GcdDivides(p, n);
    PrimeDivisors(p, g);
  }

  /** Equal residues of a*s and b*s make (b - a)*s a multiple of n. */
  lemma EqualResidues(s: nat, n: nat, a: nat, b: nat) returns (m: int)
    requires n > 0 && a <= b && (a * s) % n == (b * s) % n
    ensures (b - a) * s == n * m
  {
    m := (b * s) / n - (a * s) / n;
    assert b * s == n * ((b * s) / n) + (b * s) % n;
    assert a * s == n * ((a * s) / n) + (a * s) % n;
    assert (b - a) * s == b * s - a * s;
  }

  /** Euclid's lemma through Bezout coefficients: if s*x + n*y == 1 and n
      divides d*s, then n divides d. */
  lemma CoprimeFactor(d: int, s: int, n: int, x: int, y: int, m: int)
    requires s * x + n * y == 1 && d * s == n * m
    ensures d == n * (m * x + d * y)
  {
    calc {
      d;
      d * (s * x + n * y);
      (d * s) * x + n * (d * y);
      (n * m) * x + n * (d * y);
      n * (m * x + d * y);
    }
  }

  /** No multiple of n lies strictly between 0 and n. */
  lemma NoMultipleBelow(d: int, n: nat, k: int)
    requires n > 0 && d == n * k
    ensures d <= 0 || d >= n
  {
    MulSign(k, n);
  }

  /** If s is coprime with n, multiplying by s is injective modulo n on any n
      consecutive integers. */
  lemma MulModInjective(s: nat, n: nat, a: nat, b: nat)
    requires n > 0 && Gcd(s, n) == 1
    requires a < b < a + n
    ensures (a * s) % n != (b * s) % n
  {
    if (a * s) % n == (b * s) % n {
      var x, y := Bezout(s, n);
      var m := EqualResidues(s, n, a, b);
      var d := b - a;
      CoprimeFactor(d, s, n, x, y, m);
      NoMultipleBelow(d, n, m * x + d * y);
    }
  }

  /** The primes a stride is drawn from. */
  lemma SmallPrimesArePrime()
    ensures Prime(2) && Prime(3) && Prime(5) && Prime(7) && Prime(11)
    ensures Prime(13) && Prime(17) && Prime(19) && Prime(23)
  {
    PrimeByCheck(2);
    PrimeByCheck(3);
    assert NoDivisorUpTo(5, 3);
    PrimeByCheck(5);
    assert NoDivisorUpTo(7, 3);
    PrimeByCheck(7);
    assert NoDivisorUpTo(11, 3);
    assert NoDivisorUpTo(11, 6);
    assert NoDivisorUpTo(11, 9);
    PrimeByCheck(11);
    assert NoDivisorUpTo(13, 3);
    assert NoDivisorUpTo(13, 6);
    assert NoDivisorUpTo(13, 9);
    PrimeByCheck(13);
    assert NoDivisorUpTo(17, 3);
    assert NoDivisorUpTo(17, 6);
    assert NoDivisorUpTo(17, 9);
    assert NoDivisorUpTo(17, 12);
    assert NoDivisorUpTo(17, 15);
    PrimeByCheck(17);
    assert NoDivisorUpTo(19, 3);
    assert NoDivisorUpTo(19, 6);
    assert NoDivisorUpTo(19, 9);
    assert NoDivisorUpTo(19, 12);
    assert NoDivisorUpTo(19, 15);
    PrimeByCheck(19);
    assert NoDivisorUpTo(23, 3);
    assert NoDivisorUpTo(23, 6);
    assert NoDivisorUpTo(23, 9);
    assert NoDivisorUpTo(23, 12);
    assert NoDivisorUpTo(23, 15);
    assert NoDivisorUpTo(23, 18);
    assert NoDivisorUpTo(23, 21);
    PrimeByCheck(23);
  }

  /** 1 is coprime with everything. */
  lemma OneCoprime(n: nat)
    requires n > 0
    ensures Gcd(1, n) == 1
  {
    if n > 1 {
      assert 1 % n == 1;
      assert Gcd(1, n) == Gcd(n, 1);
      assert n % 1 == 0;
      assert Gcd(n, 1) == Gcd(1, 0);
    }
  }
}
