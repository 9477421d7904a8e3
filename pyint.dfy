/** Python's operators on nonnegative integers, as the bit packer uses them:
    `1 << n`, `x >> n`, `x | y` and `x & ~y`. Python integers are unbounded,
    like Dafny's `nat`; `x >> n` is `x / Pow2(n)` and `x << n` is
    `x * Pow2(n)`. The bitwise operators are defined bit by bit, and the
    lemmas below give their arithmetic meaning. */
module PyInt {

  /** 2 to the power n, that is Python's `1 << n`. */
  function Pow2(n: nat): (r: nat)
    ensures r >= 1
  {
    if n == 0 then 1 else 2 * Pow2(n - 1)
  }

  /** `x >> n` for nonnegative x. */
  function Shr(x: nat, n: nat): (r: nat)
  {
    DivModNonneg(x, Pow2(n));
    x / Pow2(n)
  }

  /** `x << n` for nonnegative x. */
  function Shl(x: nat, n: nat): (r: nat)
  {
    MulNonneg(x, Pow2(n));
    x * Pow2(n)
  }

  /** `x << n` for any integer x: on a nonnegative x it is `Shl`, and a negative
      x stays negative. */
  function ShlInt(x: int, n: nat): (r: int)
    ensures x >= 0 ==> r == Shl(x, n)
    ensures x < 0 ==> r < 0
  {
    if x < 0 then
      MulMonotone(x, -1, Pow2(n));
      x * Pow2(n)
    else
      x * Pow2(n)
  }

  /** The low n bits of x, that is `x & ((1 << n) - 1)`. */
  function Low(x: nat, n: nat): (r: nat)
    ensures r < Pow2(n)
  {
    DivModNonneg(x, Pow2(n));
    DivModBasics(x, Pow2(n));
    x % Pow2(n)
  }

  /** `x | y` for nonnegative x and y. */
  function Or(x: nat, y: nat): (r: nat)
    ensures x <= r && y <= r && r <= x + y
    decreases x + y
  {
    if x == 0 && y == 0 then 0
    else (if x % 2 == 1 || y % 2 == 1 then 1 else 0) + 2 * Or(x / 2, y / 2)
  }

  /** `x & ~y` for nonnegative x and y: the bits of x that are clear in y.
      (In Python `~y` is `-y - 1`, a negative number whose two's-complement
      bits are those of y inverted.) */
  function AndNot(x: nat, y: nat): (r: nat)
    ensures r <= x
    decreases x
  {
    if x == 0 then 0
    else (if x % 2 == 1 && y % 2 == 0 then 1 else 0) + 2 * AndNot(x / 2, y / 2)
  }

  // ---------------------------------------------------------------------
  // Arithmetic on powers of two

  lemma {:induction false} Pow2Add(a: nat, b: nat)
    ensures Pow2(a + b) == Pow2(a) * Pow2(b)
    decreases a
  {
    if a > 0 {
      Pow2Add(a - 1, b);
      assert Pow2(a + b) == 2 * Pow2(a - 1 + b);
    }
  }

  lemma Pow2Monotone(a: nat, b: nat)
    requires a <= b
    ensures Pow2(a) <= Pow2(b)
    ensures a < b ==> 2 * Pow2(a) <= Pow2(b)
  {
    Pow2Add(a, b - a);
    if a < b {
      assert Pow2(b - a) == 2 * Pow2(b - a - 1);
    }
  }

  lemma Pow2Byte()
    ensures Pow2(8) == 256
  {
    assert Pow2(1) == 2;
    assert Pow2(2) == 4;
    assert Pow2(3) == 8;
    assert Pow2(4) == 16;
    assert Pow2(5) == 32;
    assert Pow2(6) == 64;
    assert Pow2(7) == 128;
  }

  lemma MulDistributes(a: int, b: int, c: int)
    ensures (a + b) * c == a * c + b * c
    ensures (a - b) * c == a * c - b * c
    ensures a * (b * c) == (a * b) * c
    ensures a * b == b * a
  {
  }

  lemma MulNonneg(a: int, b: int)
    requires a >= 0 && b >= 0
    ensures a * b >= 0
  {
  }

  lemma MulMonotone(a: int, b: int, c: int)
    requires a <= b && c >= 0
    ensures a * c <= b * c
  {
    MulDistributes(b, a, c);
  }

  lemma DivModNonneg(x: int, m: int)
    requires x >= 0 && m > 0
    ensures x / m >= 0 && x % m >= 0
  {
    DivModBasics(x, m);
    if x / m < 0 {
      MulMonotone(x / m, -1, m);
    }
  }

  lemma DivModBasics(x: int, m: int)
    requires m > 0
    ensures x == (x / m) * m + x % m && 0 <= x % m < m
  {
  }

  /** Quotient and remainder are determined by the division equation. */
  lemma DivModUnique(x: int, m: int, q: int, r: int)
    requires m > 0 && 0 <= r < m && x == q * m + r
    ensures x / m == q && x % m == r
  {
    var q' := x / m;
    DivModBasics(x, m);
    MulDistributes(q, q', m);
    MulDistributes(q', q, m);
    if q > q' {
      MulMonotone(1, q - q', m);
    } else if q < q' {
      MulMonotone(1, q' - q, m);
    }
  }

  /** x = r + m * q with 0 <= r < m has quotient q. */
  lemma DivBelow(x: int, r: int, m: int, q: int)
    requires 0 <= r < m && x == r + m * q
    ensures x / m == q
  {
    DivModUnique(x, m, q, r);
  }

  lemma DivDiv(x: nat, a: nat, b: nat)
    requires a > 0 && b > 0
    ensures x / (a * b) == x / a / b
  {
    var q, r := x / a, x % a;
    var q2, r2 := q / b, q % b;
    DivModBasics(x, a);
    DivModBasics(q, b);
    assert x == q * a + r;
    assert q == q2 * b + r2;
    MulDistributes(q2 * b, r2, a);
    MulDistributes(q2, b, a);
    MulDistributes(b, a, q2);
    assert x == q2 * (a * b) + (r2 * a + r);
    MulMonotone(r2, b - 1, a);
    MulDistributes(b, 1, a);
    assert r2 * a + r < a * b;
    assert 0 <= r2 * a by { MulMonotone(0, r2, a); }
    DivModUnique(x, a * b, q2, r2 * a + r);
  }

  /** Taking x modulo a*b and then dropping the low factor a is taking x / a modulo b. */
  lemma ModDiv(x: nat, a: nat, b: nat)
    requires a > 0 && b > 0
    ensures (x % (a * b)) / a == (x / a) % b
  {
    assert 0 < a * b by { MulMonotone(1, b, a); }
    var r := x % (a * b);
    var q := x / (a * b);
    DivModBasics(x, a * b);
    var r1, r0 := r / a, r % a;
    DivModBasics(r, a);
    assert r1 < b by {
      if r1 >= b {
        MulMonotone(b, r1, a);
        MulDistributes(a, b, 1);
      }
    }
    assert x == (q * b + r1) * a + r0 by {
      MulDistributes(q * b, r1, a);
      MulDistributes(q, b, a);
      MulDistributes(a, b, 1);
    }
    DivModUnique(x, a, q * b + r1, r0);
    DivModUnique(x / a, b, q, r1);
  }

  /** The remainder modulo a*b, split at the factor a. */
  lemma ModProduct(x: nat, a: nat, b: nat)
    requires a > 0 && b > 0
    ensures x % (a * b) == x % a + a * ((x / a) % b)
  {
    assert 0 < a * b by { MulMonotone(1, b, a); }
    var q, r := x / a, x % a;
    DivModBasics(x, a);
    var q2, r2 := q / b, q % b;
    DivModBasics(q, b);
    assert x == q2 * (a * b) + (r + a * r2) by {
      MulDistributes(q2 * b, r2, a);
      MulDistributes(q2, b, a);
      MulDistributes(b, a, q2);
      MulDistributes(r2, a, 1);
    }
    assert r + a * r2 < a * b by {
      MulMonotone(r2, b - 1, a);
      MulDistributes(b, 1, a);
      MulDistributes(r2, a, 1);
    }
    assert 0 <= a * r2 by { MulNonneg(a, r2); }
    DivModUnique(x, a * b, q2, r + a * r2);
  }

  /** Adding a multiple of m does not change the remainder, and adds to the quotient. */
  lemma DivModAddMultiple(x: nat, m: nat, k: nat)
    requires m > 0
    ensures (x + m * k) / m == x / m + k
    ensures (x + m * k) % m == x % m
  {
    DivModBasics(x, m);
    MulDistributes(x / m, k, m);
    MulDistributes(m, k, 1);
    DivModUnique(x + m * k, m, x / m + k, x % m);
  }

  lemma DivZeroIff(x: nat, m: nat)
    requires m > 0
    ensures x / m == 0 <==> x < m
  {
    DivModBasics(x, m);
    if x < m {
      DivModUnique(x, m, 0, x);
    }
  }

  lemma MulPow2Less(x: nat, a: nat, b: nat)
    ensures x * Pow2(b) < Pow2(a + b) <==> x < Pow2(a)
  {
    Pow2Add(a, b);
    if x < Pow2(a) {
      MulMonotone(x, Pow2(a) - 1, Pow2(b));
      MulDistributes(Pow2(a), 1, Pow2(b));
    } else {
      MulMonotone(Pow2(a), x, Pow2(b));
    }
  }

  lemma DivPow2Less(x: nat, a: nat, b: nat)
    requires x < Pow2(a + b)
    ensures x / Pow2(a) < Pow2(b)
  {
    Pow2Add(a, b);
    var q := x / Pow2(a);
    DivModBasics(x, Pow2(a));
    if q >= Pow2(b) {
      MulMonotone(Pow2(b), q, Pow2(a));
      MulDistributes(Pow2(a), Pow2(b), 1);
    }
  }

  /** Splitting off the lowest bit of a remainder modulo 2m. */
  lemma ModDouble(x: nat, m: nat)
    requires m > 0
    ensures x % (2 * m) == x % 2 + 2 * ((x / 2) % m)
  {
    var h := x / 2;
    assert x == 2 * h + x % 2;
    var q := h / m;
    DivModBasics(h, m);
    assert x == q * (2 * m) + (x % 2 + 2 * (h % m)) by {
      MulDistributes(q, m, 2);
      MulDistributes(2, m, q);
    }
    DivModUnique(x, 2 * m, q, x % 2 + 2 * (h % m));
  }

  // ---------------------------------------------------------------------
  // The arithmetic meaning of `|`

  lemma OrUnfold(x: nat, y: nat)
    ensures Or(x, y) == (if x % 2 == 1 || y % 2 == 1 then 1 else 0) + 2 * Or(x / 2, y / 2)
  {
  }

  /** 0 is the identity of OR. */
  lemma {:induction false} OrZero(x: nat)
    ensures Or(x, 0) == x && Or(0, x) == x
    decreases x
  {
    if x > 0 {
      OrZero(x / 2);
    }
  }

  /** OR is commutative. */
  lemma {:induction false} OrCommutes(x: nat, y: nat)
    ensures Or(x, y) == Or(y, x)
    decreases x + y
  {
    if x != 0 || y != 0 {
      OrCommutes(x / 2, y / 2);
    }
  }

  /** OR is associative. */
  lemma {:induction false} OrAssociates(x: nat, y: nat, z: nat)
    ensures Or(Or(x, y), z) == Or(x, Or(y, z))
    decreases x + y + z
  {
    if x != 0 || y != 0 || z != 0 {
      var xy, yz := Or(x, y), Or(y, z);
      OrUnfold(x, y);
      OrUnfold(y, z);
      OrUnfold(xy, z);
      OrUnfold(x, yz);
      assert xy / 2 == Or(x / 2, y / 2) && xy % 2 == (if x % 2 == 1 || y % 2 == 1 then 1 else 0);
      assert yz / 2 == Or(y / 2, z / 2) && yz % 2 == (if y % 2 == 1 || z % 2 == 1 then 1 else 0);
      OrAssociates(x / 2, y / 2, z / 2);
    }
  }

  /** `x | y` keeps every bit of x, so it is at least x. */
  lemma {:induction false} OrAtLeast(x: nat, y: nat)
    ensures x <= Or(x, y)
    decreases x
  {
    if x > 0 {
      OrUnfold(x, y);
      OrAtLeast(x / 2, y / 2);
    }
  }

  /** OR of two numbers below 2^m is below 2^m. */
  lemma {:induction false} OrBound(x: nat, y: nat, m: nat)
    requires x < Pow2(m) && y < Pow2(m)
    ensures Or(x, y) < Pow2(m)
    decreases m
  {
    if m > 0 && (x != 0 || y != 0) {
      OrBound(x / 2, y / 2, m - 1);
    }
  }

  /** OR works independently on the low m bits and on the rest: x and y split
      at bit m into a, hiA and b, hiB. */
  lemma {:induction false} OrSplit(x: nat, y: nat, a: nat, b: nat, hiA: nat, hiB: nat, m: nat)
    requires a < Pow2(m) && b < Pow2(m)
    requires x == a + Pow2(m) * hiA && y == b + Pow2(m) * hiB
    ensures Or(x, y) == Or(a, b) + Pow2(m) * Or(hiA, hiB)
    decreases m
  {
    if m > 0 {
      var p := Pow2(m - 1);
      MulNonneg(p, hiA);
      MulNonneg(p, hiB);
      var x2: nat := a / 2 + p * hiA;
      var y2: nat := b / 2 + p * hiB;
      assert x == a % 2 + 2 * x2 by { MulDistributes(2, p, hiA); }
      assert y == b % 2 + 2 * y2 by { MulDistributes(2, p, hiB); }
      OrSplit(x2, y2, a / 2, b / 2, hiA, hiB, m - 1);
      OrStep(x, y, x2, y2, a % 2, b % 2);
      OrStep(a, b, a / 2, b / 2, a % 2, b % 2);
      MulNonneg(p, Or(hiA, hiB));
      MulDistributes(2, p, Or(hiA, hiB));
    } else {
      assert Pow2(m) == 1 && a == 0 && b == 0;
      MulDistributes(1, hiA, 0);
      MulDistributes(1, hiB, 0);
      MulDistributes(1, Or(hiA, hiB), 0);
    }
  }

  /** One step of `|`: the low bits are ORed and the rest is ORed one place up. */
  lemma OrStep(x: nat, y: nat, x2: nat, y2: nat, u: nat, v: nat)
    requires u < 2 && v < 2 && x == u + 2 * x2 && y == v + 2 * y2
    ensures Or(x, y) == (if u == 1 || v == 1 then 1 else 0) + 2 * Or(x2, y2)
  {
    assert x / 2 == x2 && x % 2 == u by { DivModUnique(x, 2, x2, u); }
    assert y / 2 == y2 && y % 2 == v by { DivModUnique(y, 2, y2, v); }
    OrUnfold(x, y);
  }

  /** OR of numbers whose set bits do not overlap is their sum. */
  lemma OrDisjoint(a: nat, hi: nat, m: nat)
    requires a < Pow2(m)
    ensures Or(a, Pow2(m) * hi) == a + Pow2(m) * hi
  {
    OrSplit(a, Pow2(m) * hi, a, 0, 0, hi, m);
    OrZero(a);
    OrZero(hi);
  }

  /** x split into its remainder and quotient by m. */
  lemma Decompose(x: nat, m: nat)
    requires m > 0
    ensures x == x % m + m * (x / m)
  {
    DivModBasics(x, m);
    MulDistributes(x / m, m, 1);
  }

  /** Shifting by nothing changes nothing. */
  lemma ShrZero(x: nat)
    ensures Shr(x, 0) == x
  {
  }

  /** `(x >> a) >> b == x >> (a + b)`. */
  lemma ShrShr(x: nat, a: nat, b: nat)
    ensures Shr(Shr(x, a), b) == Shr(x, a + b)
  {
    Pow2Add(a, b);
    DivDiv(x, Pow2(a), Pow2(b));
  }

  /** `(x << a) << b == x << (a + b)`. */
  lemma ShlShl(x: nat, a: nat, b: nat)
    ensures Shl(Shl(x, a), b) == Shl(x, a + b)
  {
    Pow2Add(a, b);
    MulDistributes(x, Pow2(a), Pow2(b));
  }

  /** x << m is the OR of its low n bits lo shifted by m and its high part hi shifted by
      e = m + n. */
  lemma ShlLowHigh(x: nat, lo: nat, hi: nat, n: nat, m: nat, e: nat)
    requires lo == Low(x, n) && hi == Shr(x, n) && e == m + n
    ensures Or(Shl(lo, m), Shl(hi, e)) == Shl(x, m)
  {
    Pow2Add(n, m);
    assert Pow2(m + n) == Pow2(m) * Pow2(n) by { MulDistributes(Pow2(n), Pow2(m), 0); }
    assert Shl(lo, m) < Pow2(n + m) by { MulPow2Less(lo, n, m); }
    assert Shl(hi, m + n) == Pow2(n + m) * hi by { MulDistributes(hi, Pow2(n + m), 0); }
    OrDisjoint(Shl(lo, m), hi, n + m);
    assert Shl(lo, m) + Pow2(m + n) * hi == Pow2(m) * (lo + Pow2(n) * hi) by {
      MulDistributes(lo, Pow2(m), 0);
      MulDistributes(Pow2(m), Pow2(n), hi);
      MulDistributes(lo, Pow2(n) * hi, Pow2(m));
      MulDistributes(lo + Pow2(n) * hi, Pow2(m), 0);
    }
    Decompose(x, Pow2(n));
    MulDistributes(x, Pow2(m), 0);
  }

  /** OR of x and y, split at bit m. */
  lemma OrSplitAt(x: nat, y: nat, m: nat)
    ensures Or(x, y) == Or(Low(x, m), Low(y, m)) + Pow2(m) * Or(Shr(x, m), Shr(y, m))
  {
    Decompose(x, Pow2(m));
    Decompose(y, Pow2(m));
    OrSplit(x, y, Low(x, m), Low(y, m), Shr(x, m), Shr(y, m), m);
  }

  /** `(x | y) >> m == (x >> m) | (y >> m)` and `(x | y) % 2^m == (x % 2^m) | (y % 2^m)`. */
  lemma OrShiftMod(x: nat, y: nat, m: nat)
    ensures Or(x, y) / Pow2(m) == Or(Shr(x, m), Shr(y, m))
    ensures Or(x, y) % Pow2(m) == Or(Low(x, m), Low(y, m))
  {
    var hi, lo := Or(Shr(x, m), Shr(y, m)), Or(Low(x, m), Low(y, m));
    OrSplitAt(x, y, m);
    OrBound(Low(x, m), Low(y, m), m);
    MulDistributes(hi, Pow2(m), 1);
    DivModUnique(Or(x, y), Pow2(m), hi, lo);
  }

  /** OR with 2^m - 1 sets every bit below m. */
  lemma {:induction false} OrAllOnes(x: nat, m: nat)
    requires x < Pow2(m)
    ensures Or(x, Pow2(m) - 1) == Pow2(m) - 1
    decreases m
  {
    if m > 0 {
      var ones := Pow2(m) - 1;
      assert ones % 2 == 1 && ones / 2 == Pow2(m - 1) - 1;
      OrAllOnes(x / 2, m - 1);
      OrUnfold(x, ones);
    }
  }

  // ---------------------------------------------------------------------
  // The arithmetic meaning of `& ~`

  lemma {:induction false} AndNotSelf(x: nat)
    ensures AndNot(x, x) == 0
    decreases x
  {
    if x > 0 {
      AndNotSelf(x / 2);
    }
  }

  /** Clearing the bits of 2^m - 1 from a number below 2^m leaves nothing. */
  lemma {:induction false} AndNotAllOnes(x: nat, m: nat)
    requires x < Pow2(m)
    ensures AndNot(x, Pow2(m) - 1) == 0
    decreases m
  {
    if m > 0 && x > 0 {
      var ones := Pow2(m) - 1;
      assert ones % 2 == 1 && ones / 2 == Pow2(m - 1) - 1;
      AndNotAllOnes(x / 2, m - 1);
    }
  }

  /** `x & ~(0xFF << size)` keeps the low `size` bits of x when x has fewer
      than size + 8 bits: the 8 cleared bits cover everything above them. */
  lemma {:induction false} AndNotByteMask(x: nat, size: nat)
    requires x < Pow2(size + 8)
    ensures AndNot(x, 255 * Pow2(size)) == x % Pow2(size)
    decreases size
  {
    if size == 0 {
      Pow2Byte();
      AndNotAllOnes(x, 8);
    } else if x == 0 {
    } else {
      var q := Pow2(size - 1);
      var y := 255 * Pow2(size);
      assert y == 2 * (255 * q);
      DivModAddMultiple(0, 2, 255 * q);
      assert x / 2 < Pow2(size - 1 + 8);
      AndNotByteMask(x / 2, size - 1);
      ModDouble(x, Pow2(size - 1));
    }
  }

  /** `x & ~((x >> n) << n)` is the low n bits of x. */
  lemma {:induction false} AndNotHighPart(x: nat, n: nat)
    ensures AndNot(x, Shl(Shr(x, n), n)) == Low(x, n)
    decreases n
  {
    if n == 0 {
      AndNotSelf(x);
    } else if x > 0 {
      var p := Pow2(n - 1);
      var h := (x / 2) / p;
      DivDiv(x, 2, p);
      assert x / Pow2(n) == h;
      var y := Shl(h, n);
      MulDistributes(h, 2, p);
      MulDistributes(h, p, 2);
      assert y == 2 * (h * p);
      MulMonotone(0, h, p);
      DivModAddMultiple(0, 2, h * p);
      assert y % 2 == 0 && y / 2 == h * p;
      AndNotHighPart(x / 2, n - 1);
      assert Shl(Shr(x / 2, n - 1), n - 1) == y / 2;
      ModDouble(x, p);
      assert AndNot(x, y) == Low(x, n);
    }
  }
}
