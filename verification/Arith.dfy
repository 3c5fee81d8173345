/** Integer facts shared by the models: powers, division with remainder,
    congruence, divisibility and common divisors. */
module Arith {

  /** x times y, by repeated addition. Contracts use it where a product of two unknowns
      would otherwise set off nonlinear search; MulIs turns it into x * y. */
  function Mul(x: nat, y: nat): nat {
    if x == 0 then 0 else y + Mul(x - 1, y)
  }

  lemma {:induction false} MulIs(x: nat, y: nat)
    ensures Mul(x, y) == x * y
  {
    if x != 0 {
      MulIs(x - 1, y);
    }
  }

  lemma {:induction false} MulComm(x: nat, y: nat)
    ensures Mul(x, y) == Mul(y, x)
  {
    MulIs(x, y); MulIs(y, x);
  }

  lemma {:induction false} MulAdd(x: nat, y: nat, z: nat)
    ensures Mul(x, y + z) == Mul(x, y) + Mul(x, z)
    ensures Mul(y + z, x) == Mul(y, x) + Mul(z, x)
  {
    MulIs(x, y + z); MulIs(x, y); MulIs(x, z);
    MulComm(x, y + z); MulComm(x, y); MulComm(x, z);
    MulDistrib(x, y, z);
  }

  lemma {:induction false} MulMul(x: nat, y: nat, z: nat)
    ensures Mul(x, Mul(y, z)) == Mul(Mul(x, y), z)
    ensures Mul(x, Mul(y, z)) == Mul(y, Mul(x, z))
  {
    MulIs(y, z); MulIs(x, y * z); MulIs(x, y); MulIs(x * y, z); MulIs(x, z); MulIs(y, x * z);
    MulAssoc(x, y, z);
    MulAssoc(y, x, z);
  }

  lemma {:induction false} MulLess(x: nat, y: nat, z: nat)
    ensures y <= z ==> Mul(x, y) <= Mul(x, z) && Mul(y, x) <= Mul(z, x)
    ensures x > 0 && y < z ==> Mul(x, y) + x <= Mul(x, z)
  {
    if y <= z { MulAdd(x, y, z - y); }
    if y < z { MulAdd(x, y, z - y); MulAdd(x, 1, z - y - 1); MulIs(x, 1); }
  }

  lemma {:induction false} MulUnit(x: nat)
    ensures Mul(x, 0) == 0 && Mul(0, x) == 0 && Mul(x, 1) == x && Mul(1, x) == x
  {
    MulIs(x, 0); MulIs(x, 1); MulIs(1, x);
  }

  function Pow(b: nat, n: nat): (r: nat)
    ensures b > 0 ==> r > 0
  {
    if n == 0 then 1 else Mul(b, Pow(b, n - 1))
  }

  lemma {:induction false} PowStep(b: nat, n: nat)
    ensures Pow(b, n + 1) == b * Pow(b, n)
  {
    MulIs(b, Pow(b, n));
  }

  lemma {:induction false} PowAdd(b: nat, m: nat, n: nat)
    ensures Pow(b, m + n) == Pow(b, m) * Pow(b, n)
  {
    if m != 0 {
      PowAdd(b, m - 1, n);
      PowStep(b, m + n - 1);
      PowStep(b, m - 1);
      MulAssoc(b, Pow(b, m - 1), Pow(b, n));
    }
  }

  lemma {:induction false} PowSum(b: nat, m: nat, n: nat)
    ensures Pow(b, m + n) == Mul(Pow(b, m), Pow(b, n))
  {
    PowAdd(b, m, n);
    MulIs(Pow(b, m), Pow(b, n));
  }

  lemma {:induction false} PowMonotone(b: nat, m: nat, n: nat)
    requires b > 0 && m <= n
    ensures Pow(b, m) <= Pow(b, n)
  {
    PowAdd(b, m, n - m);
    MulMonotone(Pow(b, m), 1, Pow(b, n - m));
  }

  lemma {:induction false} PowStrict(b: nat, m: nat, n: nat)
    requires b > 1 && m < n
    ensures Pow(b, m) < Pow(b, n)
  {
    PowMonotone(b, m, n - 1);
    PowStep(b, n - 1);
    MulMonotone(Pow(b, n - 1), 2, b);
  }

  lemma {:induction false} PowPow(b: nat, m: nat, n: nat)
    ensures Pow(Pow(b, m), n) == Pow(b, Mul(n, m))
  {
    if n != 0 {
      PowPow(b, m, n - 1);
      PowStep(Pow(b, m), n - 1);
      PowAdd(b, m, Mul(n - 1, m));
    }
  }

  // ----- multiplication

  lemma {:induction false} MulAssoc(x: int, y: int, z: int)
    ensures x * y * z == x * (y * z)
  {
  }

  lemma {:induction false} MulDistrib(x: int, y: int, z: int)
    ensures x * (y + z) == x * y + x * z
    ensures x * (y - z) == x * y - x * z
  {
  }

  lemma {:induction false} MulMonotone(x: int, y: int, z: int)
    requires 0 <= x && y <= z
    ensures x * y <= x * z
  {
    MulDistrib(x, z, -y);
  }

  lemma {:induction false} MulStrict(x: int, y: int, z: int)
    requires 0 < x && y < z
    ensures x * y < x * z
    ensures x * y + x <= x * z
  {
    MulMonotone(x, y + 1, z);
    MulDistrib(x, y, 1);
  }

  // ----- division with remainder

  /** A quotient and a remainder in range are the quotient and the remainder. */
  lemma {:induction false} DivModUnique(x: int, n: int, q: int, r: int)
    requires n > 0 && 0 <= r < n && x == q * n + r
    ensures x / n == q && x % n == r
  {
    var q', r' := x / n, x % n;
    assert x == n * q' + r';
    if q' < q { MulStrict(n, q', q); }
    if q < q' { MulStrict(n, q, q'); }
  }

  lemma {:induction false} DivBounds(x: nat, n: int)
    requires n > 0
    ensures 0 <= x / n <= x
    ensures n > 1 && x > 0 ==> x / n < x
    ensures x == n * (x / n) + x % n
  {
    var q := x / n;
    if q < 0 { MulMonotone(n, q, -1); }
    if q > 0 { MulMonotone(q, 1, n); }
    if n > 1 && q > 0 { MulMonotone(q, 2, n); }
  }

  /** The quotient stays below a bound whose multiple bounds the dividend. */
  lemma {:induction false} DivLess(x: nat, n: int, m: int)
    requires n > 0
    ensures x < n * m ==> x / n < m
    ensures x >= n * m ==> x / n >= m
  {
    DivBounds(x, n);
    if x / n >= m { MulMonotone(n, m, x / n); }
    if x / n < m { MulMonotone(n, x / n + 1, m); MulDistrib(n, x / n, 1); }
  }

  lemma {:induction false} DivMul(x: int, n: int)
    requires n > 0
    ensures x * n / n == x && x * n % n == 0
    ensures n * x / n == x && n * x % n == 0
  {
    DivModUnique(x * n, n, x, 0);
  }

  /** Dividing by a product is dividing twice. */
  lemma {:induction false} DivDiv(x: nat, m: int, n: int)
    requires m > 0 && n > 0
    ensures m * n > 0 && x / (m * n) == x / m / n
    ensures x % (m * n) == x / m % n * m + x % m
  {
    var q, r := x / m, x % m;
    var q', r' := q / n, q % n;
    assert x == m * q + r && q == n * q' + r';
    assert m * q == m * (n * q') + m * r' by { MulDistrib(m, n * q', r'); }
    MulAssoc(m, n, q');
    MulStrict(m, r', n);
    MulStrict(m, 0, n);
    DivModUnique(x, m * n, q', m * r' + r);
  }

  // ----- congruence

  predicate Cong(a: int, b: int, n: int)
    requires n > 0
  {
    (a - b) % n == 0
  }

  lemma {:induction false} CongIntro(a: int, b: int, n: int, k: int)
    requires n > 0 && a == b + k * n
    ensures Cong(a, b, n)
  {
    DivMul(k, n);
  }

  lemma {:induction false} CongWitness(a: int, b: int, n: int) returns (k: int)
    requires n > 0 && Cong(a, b, n)
    ensures a == b + k * n
  {
    k := (a - b) / n;
  }

  lemma {:induction false} CongSym(a: int, b: int, n: int)
    requires n > 0 && Cong(a, b, n)
    ensures Cong(b, a, n)
  {
    var k := CongWitness(a, b, n);
    CongIntro(b, a, n, -k);
  }

  lemma {:induction false} CongTrans(a: int, b: int, c: int, n: int)
    requires n > 0 && Cong(a, b, n) && Cong(b, c, n)
    ensures Cong(a, c, n)
  {
    var k := CongWitness(a, b, n);
    var l := CongWitness(b, c, n);
    MulDistrib(n, k, l);
    CongIntro(a, c, n, k + l);
  }

  lemma {:induction false} CongAdd(a: int, b: int, c: int, d: int, n: int)
    requires n > 0 && Cong(a, b, n) && Cong(c, d, n)
    ensures Cong(a + c, b + d, n)
    ensures Cong(a - c, b - d, n)
  {
    var k := CongWitness(a, b, n);
    var l := CongWitness(c, d, n);
    MulDistrib(n, k, l);
    CongIntro(a + c, b + d, n, k + l);
    CongIntro(a - c, b - d, n, k - l);
  }

  lemma {:induction false} CongScale(a: int, b: int, c: int, n: int)
    requires n > 0 && Cong(a, b, n)
    ensures Cong(a * c, b * c, n)
  {
    var k := CongWitness(a, b, n);
    assert (b + k * n) * c == b * c + (k * c) * n;
    CongIntro(a * c, b * c, n, k * c);
  }

  lemma {:induction false} CongMul(a: int, b: int, c: int, d: int, n: int)
    requires n > 0 && Cong(a, b, n) && Cong(c, d, n)
    ensures Cong(a * c, b * d, n)
  {
    CongScale(a, b, c, n);
    CongScale(c, d, b, n);
    assert c * b == b * c && d * b == b * d;
    CongTrans(a * c, b * c, b * d, n);
  }

  lemma {:induction false} CongMod(a: int, n: int)
    requires n > 0
    ensures Cong(a % n, a, n) && Cong(a, a % n, n)
  {
    CongIntro(a, a % n, n, a / n);
    CongSym(a, a % n, n);
  }

  /** Congruent remainders are equal. */
  lemma {:induction false} CongUnique(a: int, b: int, n: int)
    requires n > 0 && Cong(a, b, n)
    ensures a % n == b % n
    ensures 0 <= a < n && 0 <= b < n ==> a == b
  {
    var k := CongWitness(a, b, n);
    assert b == n * (b / n) + b % n;
    MulDistrib(n, b / n, k);
    DivModUnique(a, n, b / n + k, b % n);
  }

  lemma {:induction false} CongPow(a: nat, b: nat, e: nat, n: int)
    requires n > 0 && Cong(a, b, n)
    ensures Cong(Pow(a, e), Pow(b, e), n)
  {
    if e != 0 {
      CongPow(a, b, e - 1, n);
      PowStep(a, e - 1);
      PowStep(b, e - 1);
      CongMul(a, b, Pow(a, e - 1), Pow(b, e - 1), n);
    }
  }

  /** A congruence modulo a multiple of n holds modulo n. */
  lemma {:induction false} CongDivisor(a: int, b: int, m: int, n: int)
    requires n > 0 && m > 0 && Cong(a, b, m) && m % n == 0
    ensures Cong(a, b, n)
  {
    var k := CongWitness(a, b, m);
    var l := m / n;
    assert m == n * l;
    assert k * m == k * l * n by { MulAssoc(k, l, n); }
    CongIntro(a, b, n, k * l);
  }

  /** Two may be cancelled modulo an odd number. */
  lemma {:induction false} CongHalve(x: int, y: int, n: int)
    requires n > 0 && n % 2 == 1 && Cong(2 * x, 2 * y, n)
    ensures Cong(x, y, n)
  {
    var k := CongWitness(2 * x, 2 * y, n);
    if k % 2 == 1 {
      OddTimesOdd(k, n);
      assert false;
    }
    var h := k / 2;
    assert k * n == 2 * (h * n) by { MulAssoc(2, h, n); }
    CongIntro(x, y, n, h);
  }

  lemma {:induction false} CongCancelPow2(x: int, y: int, e: nat, n: int)
    requires n > 0 && n % 2 == 1 && Cong(x * Pow(2, e), y * Pow(2, e), n)
    ensures Cong(x, y, n)
  {
    if e != 0 {
      var p := Pow(2, e - 1);
      PowStep(2, e - 1);
      assert x * Pow(2, e) == 2 * (x * p);
      assert y * Pow(2, e) == 2 * (y * p);
      CongHalve(x * p, y * p, n);
      CongCancelPow2(x, y, e - 1, n);
    }
  }

  lemma {:induction false} OddTimesOdd(x: int, y: int)
    requires x % 2 == 1 && y % 2 == 1
    ensures x * y % 2 == 1
  {
    var p, q := x / 2, y / 2;
    assert x * y == 2 * (p * y + q) + 1 by {
      assert x * y == 2 * p * y + y;
      MulAssoc(2, p, y);
    }
  }

  // ----- divisors

  predicate Divides(d: nat, n: int)
    requires d > 0
  {
    n % d == 0
  }

  /** g has exactly the divisors that x and y share: it is their greatest common divisor. */
  ghost predicate IsGcd(g: nat, x: int, y: int)
  {
    forall d: nat | d > 0 :: Divides(d, g) <==> Divides(d, x) && Divides(d, y)
  }

  /** The greatest common divisor is unique. */
  lemma {:induction false} GcdUnique(g: nat, h: nat, x: int, y: int)
    requires IsGcd(g, x, y) && IsGcd(h, x, y)
    ensures g == h
  {
    if g != 0 && h != 0 {
      assert Divides(g, g) && Divides(h, h);
      assert Divides(g, h) && Divides(h, g);
      DividesLe(g, h);
      DividesLe(h, g);
    } else if g == 0 && h != 0 {
      DividesZero(h + 1);
      assert Divides(h + 1, g);
    } else if g != 0 {
      DividesZero(g + 1);
    }
  }

  lemma {:induction false} DividesZero(d: nat)
    requires d > 0
    ensures Divides(d, 0)
  {
  }

  lemma {:induction false} DividesLe(d: nat, n: nat)
    requires d > 0 && n > 0 && Divides(d, n)
    ensures d <= n
  {
  }

  lemma {:induction false} DividesIntro(d: nat, n: int, k: int)
    requires d > 0 && n == d * k
    ensures Divides(d, n)
  {
    DivMul(k, d);
  }

  lemma {:induction false} DividesAddSub(d: nat, x: int, y: int)
    requires d > 0 && Divides(d, x)
    ensures Divides(d, y) ==> Divides(d, x + y) && Divides(d, x - y) && Divides(d, y - x)
    ensures Divides(d, x + y) || Divides(d, y - x) ==> Divides(d, y)
  {
    var p := x / d;
    var q := y / d;
    if Divides(d, y) {
      MulDistrib(d, p, q);
      MulDistrib(d, q, p);
      DividesIntro(d, x + y, p + q);
      DividesIntro(d, x - y, p - q);
      DividesIntro(d, y - x, q - p);
    }
    if Divides(d, x + y) {
      q := (x + y) / d;
      MulDistrib(d, q, p);
      DividesIntro(d, y, q - p);
    }
    if Divides(d, y - x) {
      q := (y - x) / d;
      MulDistrib(d, q, p);
      DividesIntro(d, y, q + p);
    }
  }

  lemma {:induction false} DividesTimes(d: nat, x: int, k: int)
    requires d > 0 && Divides(d, x)
    ensures Divides(d, x * k) && Divides(d, k * x)
  {
    var p := x / d;
    assert x * k == d * (p * k) by { MulAssoc(d, p, k); }
    DividesIntro(d, x * k, p * k);
  }

  lemma {:induction false} EvenTimes(x: int, y: int)
    requires x % 2 == 0
    ensures x * y % 2 == 0 && y * x % 2 == 0
  {
    DivMul(x / 2 * y, 2);
    MulAssoc(2, x / 2, y);
  }

  lemma {:induction false} OddFactor(d: int, k: int)
    requires d * k % 2 == 1
    ensures d % 2 == 1
  {
    if d % 2 == 0 {
      EvenTimes(d, k);
    }
  }

  /** A divisor of an odd number is odd, so it divides x whenever it divides 2x. */
  lemma {:induction false} OddDivisor(d: nat, n: int, x: int)
    requires d > 0 && n % 2 == 1 && Divides(d, n)
    ensures d % 2 == 1
    ensures Divides(d, 2 * x) <==> Divides(d, x)
  {
    var k := n / d;
    assert n == d * k;
    OddFactor(d, k);
    OddDividesDouble(d, x);
  }

  lemma {:induction false} OddDividesDouble(d: nat, x: int)
    requires d % 2 == 1
    ensures Divides(d, 2 * x) <==> Divides(d, x)
  {
    if Divides(d, x) {
      DividesTimes(d, x, 2);
    }
    if Divides(d, 2 * x) {
      CongHalve(x, 0, d);
    }
  }
}
