/** Powers and unsigned bit operations on natural numbers, shared by the limb arithmetic, the compact
    target encoding and the Base58 buffers. */
module Powers {

  const TWO_TO_32: nat := 0x1_0000_0000
  const TWO_TO_64: nat := 0x1_0000_0000_0000_0000

  function Pow(b: nat, n: nat): nat {
    if n == 0 then 1 else b * Pow(b, n - 1)
  }

  lemma {:induction false} PowPositive(b: nat, n: nat)
    requires b > 0
    ensures Pow(b, n) > 0
  {
    if n > 0 {
      PowPositive(b, n - 1);
    }
  }

  lemma {:induction false} PowAdd(b: nat, m: nat, n: nat)
    ensures Pow(b, m + n) == Pow(b, m) * Pow(b, n)
  {
    if m > 0 {
      PowAdd(b, m - 1, n);
      MulAssoc(b, Pow(b, m - 1), Pow(b, n));
    }
  }

  lemma {:induction false} PowMul(b: nat, m: nat, n: nat)
    ensures Pow(Pow(b, m), n) == Pow(b, m * n)
  {
    if n > 0 {
      PowMul(b, m, n - 1);
      PowAdd(b, m, m * (n - 1));
      assert m * n == m + m * (n - 1);
    } else {
      assert m * n == 0;
    }
  }

  lemma MulMono(a: nat, b: nat, c: nat, d: nat)
    requires a <= b && c <= d
    ensures a * c <= b * d
  {
    assert a * c <= b * c;
    assert b * c <= b * d;
  }

  lemma {:induction false} PowMonoBase(a: nat, b: nat, n: nat)
    requires a <= b
    ensures Pow(a, n) <= Pow(b, n)
  {
    if n > 0 {
      PowMonoBase(a, b, n - 1);
      MulMono(a, b, Pow(a, n - 1), Pow(b, n - 1));
    }
  }

  lemma {:induction false} PowLess(b: nat, m: nat, n: nat)
    requires b >= 2 && m < n
    ensures Pow(b, m) < Pow(b, n)
    decreases n
  {
    PowPositive(b, n - 1);
    if m < n - 1 {
      PowLess(b, m, n - 1);
    }
    MulMono(2, b, Pow(b, n - 1), Pow(b, n - 1));
  }

  /** Powers of two different bases, compared through one known pair: if a^p <= b^q, then a^n < b^k as soon
      as q * n < p * k. */
  lemma PowCompare(a: nat, b: nat, p: nat, q: nat, n: nat, k: nat)
    requires b >= 2 && Pow(a, p) <= Pow(b, q) && q * n < p * k
    ensures Pow(a, n) < Pow(b, k)
  {
    hide Pow;
    calc <= {
      Pow(Pow(a, n), p);
      { PowSwap(a, n, p); }
      Pow(Pow(a, p), n);
      { PowMonoBase(Pow(a, p), Pow(b, q), n); }
      Pow(Pow(b, q), n);
      { PowMul(b, q, n); }
      Pow(b, q * n);
      < { PowLess(b, q * n, p * k); }
      Pow(b, p * k);
      { PowMul(b, p, k); }
      Pow(Pow(b, p), k);
      { PowSwap(b, p, k); }
      Pow(Pow(b, k), p);
    }
    PowBaseLess(Pow(a, n), Pow(b, k), p);
  }

  lemma PowBaseLess(x: nat, y: nat, p: nat)
    requires Pow(x, p) < Pow(y, p)
    ensures x < y
  {
    if y <= x {
      PowMonoBase(y, x, p);
    }
  }

  lemma PowSwap(b: nat, m: nat, n: nat)
    ensures Pow(Pow(b, m), n) == Pow(Pow(b, n), m)
  {
    hide Pow;
    PowMul(b, m, n);
    PowMul(b, n, m);
    assert m * n == n * m;
  }

  lemma PowOne(b: nat)
    ensures Pow(b, 0) == 1 && Pow(b, 1) == b
  {
    assert Pow(b, 0) == 1;
  }

  function Pow2(n: nat): (r: nat)
    ensures r >= 1
  {
    if n == 0 then 1 else 2 * Pow2(n - 1)
  }

  lemma Pow2Next(n: nat)
    ensures Pow2(n + 1) == 2 * Pow2(n)
  {
  }

  lemma Pow2Zero()
    ensures Pow2(0) == 1
  {
  }

  lemma {:induction false} Pow2Add(m: nat, n: nat)
    ensures Pow2(m + n) == Pow2(m) * Pow2(n)
  {
    if m > 0 {
      Pow2Add(m - 1, n);
      assert Pow2(m + n) == 2 * Pow2(m - 1 + n);
      assert 2 * (Pow2(m - 1) * Pow2(n)) == (2 * Pow2(m - 1)) * Pow2(n);
    }
  }

  lemma {:induction false} Pow2Mono(m: nat, n: nat)
    requires m <= n
    ensures Pow2(m) <= Pow2(n)
    decreases n - m
  {
    if m < n {
      Pow2Mono(m, n - 1);
    }
  }

  lemma Pow2Values()
    ensures Pow2(1) == 2 && Pow2(4) == 16 && Pow2(7) == 128 && Pow2(8) == 0x100 && Pow2(15) == 0x8000
    ensures Pow2(16) == 0x10000 && Pow2(23) == 0x80_0000 && Pow2(24) == 0x100_0000
    ensures Pow2(31) == 0x8000_0000 && Pow2(32) == 0x1_0000_0000
  {
    assert Pow2(2) == 4 && Pow2(3) == 8 && Pow2(4) == 16;
    Pow2Add(3, 4);
    Pow2Add(4, 4);
    Pow2Add(7, 8);
    Pow2Add(8, 8);
    Pow2Add(15, 8);
    Pow2Add(16, 8);
    Pow2Add(16, 15);
    Pow2Add(16, 16);
  }

  // ----- Bitwise or of unsigned words -----

  function Or(x: nat, y: nat): nat
    decreases x + y
  {
    if x == 0 then y
    else if y == 0 then x
    else (if x % 2 == 1 || y % 2 == 1 then 1 else 0) + 2 * Or(x / 2, y / 2)
  }

  // ----- Bitwise and -----

  function And(x: nat, y: nat): nat {
    if x == 0 || y == 0 then 0 else (x % 2) * (y % 2) + 2 * And(x / 2, y / 2)
  }

  lemma {:induction false} AndBound(x: nat, y: nat)
    ensures And(x, y) <= x && And(x, y) <= y
  {
    if x != 0 && y != 0 {
      AndBound(x / 2, y / 2);
      assert (x % 2) * (y % 2) <= x % 2 && (x % 2) * (y % 2) <= y % 2;
    }
  }

  lemma {:induction false} AndSelf(x: nat)
    ensures And(x, x) == x
  {
    if x != 0 {
      AndSelf(x / 2);
      assert (x % 2) * (x % 2) == x % 2;
    }
  }

  /** A mask of d ones keeps the remainder modulo 2^d. */
  lemma {:induction false} AndLow(x: nat, d: nat)
    ensures And(x, Pow2(d) - 1) == x % Pow2(d)
  {
    if d > 0 && x > 0 {
      var p := Pow2(d - 1);
      AndLow(x / 2, d - 1);
      assert Pow2(d) == 2 * p && (2 * p - 1) / 2 == p - 1 && (2 * p - 1) % 2 == 1;
      HalfModulo(x, p);
    }
  }

  lemma HalfModulo(x: nat, p: nat)
    requires p > 0
    ensures x % (2 * p) == x % 2 + 2 * (x / 2 % p)
  {
    var h := x / 2;
    var q, r := h / p, h % p;
    MulAssoc(q, 2, p);
    assert x == q * (2 * p) + (x % 2 + 2 * r);
    DivModUnique(x, 2 * p, q, x % 2 + 2 * r);
  }

  lemma {:induction false} OrBound(x: nat, y: nat, n: nat)
    requires x < Pow2(n) && y < Pow2(n)
    ensures Or(x, y) < Pow2(n)
    decreases x + y
  {
    if x != 0 && y != 0 {
      OrBound(x / 2, y / 2, n - 1);
    }
  }

  /** Or-ing bits above position s with bits below it adds them. */
  lemma {:induction false} OrDisjoint(high: nat, y: nat, s: nat)
    requires y < Pow2(s)
    ensures Or(high * Pow2(s), y) == high * Pow2(s) + y
    ensures Or(y, high * Pow2(s)) == high * Pow2(s) + y
  {
    var x := high * Pow2(s);
    if s == 0 || x == 0 || y == 0 {
    } else {
      var h := high * Pow2(s - 1);
      assert x == 2 * h;
      OrDisjoint(high, y / 2, s - 1);
      assert x / 2 == h && x % 2 == 0;
    }
  }

  /** Or-ing in a bit that is clear between higher and lower bits adds it. */
  lemma {:induction false} OrMiddle(high: nat, low: nat, s: nat)
    requires low < Pow2(s)
    ensures Or(high * Pow2(s + 1) + low, Pow2(s)) == high * Pow2(s + 1) + low + Pow2(s)
  {
    hide Pow2;
    Pow2Zero();
    Pow2Next(s);
    var x, p := high * Pow2(s + 1) + low, Pow2(s);
    var h := high * p;
    MulAssoc(high, 2, p);
    assert x == 2 * h + low;
    if s > 0 && x != 0 {
      Pow2Next(s - 1);
      OrMiddle(high, low / 2, s - 1);
      assert x / 2 == h + low / 2 && x % 2 == low % 2;
    }
  }

  // ----- Bit length -----

  /** The position of the highest set bit plus one, or zero for zero. */
  function BitLength(x: nat): nat {
    if x == 0 then 0 else 1 + BitLength(x / 2)
  }

  lemma {:induction false} BitLengthBounds(x: nat)
    ensures BitLength(x) == 0 <==> x == 0
    ensures x < Pow2(BitLength(x)) && (x > 0 ==> Pow2(BitLength(x) - 1) <= x)
  {
    if x > 0 {
      BitLengthBounds(x / 2);
    }
  }

  /** The bounds decide the bit length. */
  lemma BitLengthUnique(x: nat, r: nat)
    requires x < Pow2(r) && (r > 0 ==> Pow2(r - 1) <= x)
    ensures r == BitLength(x)
  {
    BitLengthBounds(x);
    var n := BitLength(x);
    if r < n {
      Pow2Mono(r, n - 1);
    } else if n < r {
      Pow2Mono(n, r - 1);
    }
  }

  // ----- Products and quotients -----

  lemma MulAssoc(a: int, b: int, c: int)
    ensures a * (b * c) == (a * b) * c
  {
  }

  lemma MulDistrib(a: int, b: int, c: int)
    ensures (a + b) * c == a * c + b * c
  {
  }

  lemma {:induction false} MulStep(p: nat, q: nat, b: nat)
    ensures p < q ==> p * b + b <= q * b
    decreases q
  {
    if p < q {
      assert q * b == (q - 1) * b + b;
      if p < q - 1 {
        MulStep(p, q - 1, b);
      }
    }
  }

  lemma QuotientUnique(b: nat, q: nat, r: nat, q': nat, r': nat)
    requires q * b + r == q' * b + r' && r < b && r' < b
    ensures q == q' && r == r'
  {
    MulStep(q, q', b);
    MulStep(q', q, b);
  }

  /** Quotient and remainder are the only numbers with this equation and bound. */
  lemma DivModUnique(a: nat, b: nat, q: nat, r: nat)
    requires a == q * b + r && r < b
    ensures a / b == q && a % b == r
  {
    assert a == (a / b) * b + a % b;
    QuotientUnique(b, q, r, a / b, a % b);
  }

  lemma MulGrows(q: nat, b: nat)
    requires b > 0
    ensures q <= q * b
  {
  }

  lemma QuotientBound(a: nat, b: nat, q: nat, r: nat)
    requires b > 0 && a == q * b + r && r < b
    ensures q <= a && q * b <= a < q * b + b
  {
    MulGrows(q, b);
  }

  /** a / b for a shift right: keeps division by a variable out of the proofs that only need its bounds. */
  function Quot(a: nat, b: nat): (q: nat)
    requires b > 0
    ensures q <= a && q * b <= a < q * b + b
  {
    var q, r := a / b, a % b;
    QuotientBound(a, b, q, r);
    q
  }

  lemma QuotSmaller(n: nat, b: nat)
    requires n > 0 && b >= 2
    ensures Quot(n, b) < n
  {
    hide Quot;
    MulMono(2, b, Quot(n, b), Quot(n, b));
    assert b * Quot(n, b) == Quot(n, b) * b;
  }

  lemma QuotUnique(x: nat, p: nat, q: nat)
    requires q * p <= x < q * p + p
    ensures p > 0 && Quot(x, p) == q
  {
    hide Quot;
    var q' := Quot(x, p);
    MulStep(q, q', p);
    MulStep(q', q, p);
  }
}
