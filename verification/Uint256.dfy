/** The unsigned big integers of src/arith_uint256.{h,cpp}: arrays of 32-bit limbs, least significant
    first. Every in-place operator is proved against the integers modulo 2^(32 * width), for any width. */
module Limbs {
  import opened Powers

  const B: nat := 0x1_0000_0000

  /** What a uint64_t cannot hold. */
  const MAX64: nat := 0x1_0000_0000_0000_0000

  /** A uint32_t. */
  type Limb = x: nat | x < B

  /** The weight of limb i. */
  function P(i: nat): (r: nat)
    ensures r >= 1
  {
    if i == 0 then 1 else B * P(i - 1)
  }

  ghost function Val(s: seq<Limb>): nat {
    if s == [] then 0 else Val(s[..|s| - 1]) + s[|s| - 1] * P(|s| - 1)
  }

  lemma {:induction false} PAdd(i: nat, j: nat)
    ensures P(i + j) == P(i) * P(j)
  {
    if i > 0 {
      PAdd(i - 1, j);
      assert B * (P(i - 1) * P(j)) == (B * P(i - 1)) * P(j);
    }
  }

  lemma {:induction false} PIsPow2(i: nat)
    ensures P(i) == Pow2(32 * i)
  {
    if i > 0 {
      PIsPow2(i - 1);
      Pow2Values();
      Pow2Add(32, 32 * (i - 1));
    }
  }

  lemma ValNil()
    ensures P(0) == 1 && P(1) == B && Val([]) == 0
  {
    assert P(1) == B * P(0);
  }

  lemma PNext(i: nat)
    ensures P(i + 1) == B * P(i)
  {
  }

  lemma ValPrefix(s: seq<Limb>, i: nat)
    requires i < |s|
    ensures Val(s[..i + 1]) == Val(s[..i]) + s[i] * P(i)
  {
    assert s[..i + 1][..i] == s[..i];
  }

  lemma {:induction false} ValBound(s: seq<Limb>)
    ensures Val(s) < P(|s|)
  {
    if s != [] {
      var n := |s| - 1;
      ValBound(s[..n]);
      MulStep(s[n], B, P(n));
    }
  }

  lemma {:induction false} ValUpdate(s: seq<Limb>, j: nat, v: Limb)
    requires j < |s|
    ensures Val(s[j := v]) + s[j] * P(j) == Val(s) + v * P(j)
    decreases |s|
  {
    var n := |s| - 1;
    if j < n {
      assert s[j := v][..n] == s[..n][j := v];
      ValUpdate(s[..n], j, v);
    } else {
      assert s[j := v][..n] == s[..n];
    }
  }

  lemma {:induction false} ValZeroTail(s: seq<Limb>, i: nat)
    requires i <= |s| && forall j | i <= j < |s| :: s[j] == 0
    ensures Val(s) == Val(s[..i])
    decreases |s|
  {
    if i == |s| {
      assert s[..i] == s;
    } else {
      var n := |s| - 1;
      assert s[..n][..i] == s[..i];
      ValZeroTail(s[..n], i);
    }
  }

  /** Limbs i and up contribute a multiple of the weight of limb i. */
  lemma {:induction false} ValSplit(s: seq<Limb>, i: nat) returns (high: nat)
    requires i <= |s|
    ensures Val(s) == Val(s[..i]) + high * P(i)
    decreases |s|
  {
    hide P;
    if i == |s| {
      high := 0;
      assert s[..i] == s;
    } else {
      var n := |s| - 1;
      var h := ValSplit(s[..n], i);
      assert s[..n][..i] == s[..i];
      PAdd(n - i, i);
      high := h + s[n] * P(n - i);
      MulAssoc(s[n], P(n - i), P(i));
      MulDistrib(h, s[n] * P(n - i), P(i));
    }
  }
}

module ArithUint256 {
  import opened Powers
  import opened Limbs

  /** Splitting a 64-bit accumulator into limb and carry keeps its value. */
  lemma CarryStep(n: nat, i: nat)
    ensures (n % B) * P(i) + (n / B) * P(i + 1) == n * P(i)
  {
    MulAssoc(n / B, B, P(i));
    MulDistrib(n % B, (n / B) * B, P(i));
  }

  method AddAssign(pn: array<Limb>, b: array<Limb>)
    requires pn.Length == b.Length
    modifies pn
    ensures Val(pn[..]) == (old(Val(pn[..])) + old(Val(b[..]))) % P(pn.Length)
  {
    hide P, Val;
    ghost var x, y := pn[..], b[..];
    var carry: nat := 0;
    ValNil();
    for i := 0 to pn.Length
      invariant carry <= 1
      invariant forall j | i <= j < pn.Length :: pn[j] == x[j] && b[j] == y[j]
      invariant Val(pn[..i]) + carry * P(i) == Val(x[..i]) + Val(y[..i])
    {
      var n := carry + pn[i] + b[i];
      ghost var low := pn[..i];
      pn[i] := n % B;
      assert pn[..i] == low;
      ValPrefix(pn[..], i);
      ValPrefix(x, i);
      ValPrefix(y, i);
      assert pn[..][..i] == low && pn[..][..i + 1] == pn[..i + 1];
      CarryStep(n, i);
      MulDistrib(carry + x[i], y[i], P(i));
      MulDistrib(carry, x[i], P(i));
      carry := n / B;
    }
    assert pn[..pn.Length] == pn[..] && x[..pn.Length] == x && y[..pn.Length] == y;
    ValBound(pn[..]);
    DivModUnique(Val(x) + Val(y), P(pn.Length), carry, Val(pn[..]));
  }

  method Copy(a: array<Limb>) returns (r: array<Limb>)
    ensures fresh(r) && r[..] == a[..]
  {
    r := new Limb[a.Length](i requires 0 <= i < a.Length reads a => a[i]);
  }

  method SetZero(pn: array<Limb>)
    modifies pn
    ensures forall j | 0 <= j < pn.Length :: pn[j] == 0
    ensures Val(pn[..]) == 0
  {
    for i := 0 to pn.Length
      invariant forall j | 0 <= j < i :: pn[j] == 0
    {
      pn[i] := 0;
    }
    ValZeroTail(pn[..], 0);
  }

  /** operator~: the complement to 2^(32 * width) - 1. */
  method Complement(pn: array<Limb>) returns (ret: array<Limb>)
    ensures fresh(ret) && ret.Length == pn.Length
    ensures Val(ret[..]) + Val(pn[..]) == P(pn.Length) - 1
  {
    hide P, Val;
    ret := new Limb[pn.Length](_ => 0);
    ValNil();
    for i := 0 to pn.Length
      invariant Val(ret[..i]) + Val(pn[..i]) == P(i) - 1
    {
      ghost var low := ret[..i];
      ret[i] := B - 1 - pn[i];
      assert ret[..i] == low && ret[..][..i] == low && ret[..][..i + 1] == ret[..i + 1];
      assert pn[..][..i] == pn[..i] && pn[..][..i + 1] == pn[..i + 1];
      ValPrefix(ret[..], i);
      ValPrefix(pn[..], i);
      MulDistrib(ret[i], pn[i], P(i));
      MulDistrib(B - 1, 1, P(i));
      PNext(i);
    }
    assert ret[..pn.Length] == ret[..] && pn[..pn.Length] == pn[..];
  }

  /** operator++: adds one, the carry rippling through limbs that become zero. */
  method Increment(pn: array<Limb>)
    requires pn.Length > 0
    modifies pn
    ensures Val(pn[..]) == (old(Val(pn[..])) + 1) % P(pn.Length)
  {
    hide P, Val;
    ghost var x := pn[..];
    var i := 0;
    ValNil();
    pn[0] := (pn[0] + 1) % B;
    RippleUp(x, pn[..], 0);
    while pn[i] == 0 && i < pn.Length - 1
      invariant 0 <= i < pn.Length
      invariant forall j | i < j < pn.Length :: pn[j] == x[j]
      invariant Val(pn[..]) + (if pn[i] == 0 then P(i + 1) else 0) == Val(x) + 1
    {
      ghost var before := pn[..];
      i := i + 1;
      pn[i] := (pn[i] + 1) % B;
      RippleUp(before, pn[..], i);
    }
    ValBound(pn[..]);
    ValBound(x);
    if pn[i] == 0 {
      DivModUnique(Val(x) + 1, P(pn.Length), 1, Val(pn[..]));
    } else {
      DivModUnique(Val(x) + 1, P(pn.Length), 0, Val(pn[..]));
    }
  }

  lemma RippleUp(before: seq<Limb>, after: seq<Limb>, i: nat)
    requires i < |before| && after == before[i := (before[i] + 1) % B]
    ensures Val(after) + (if after[i] == 0 then P(i + 1) else 0) == Val(before) + P(i)
  {
    hide P, Val;
    ValUpdate(before, i, after[i]);
    PNext(i);
    if after[i] == 0 {
      assert before[i] == B - 1;
      MulDistrib(before[i], 1, P(i));
    } else {
      MulDistrib(before[i], 1, P(i));
    }
  }

  /** operator--: subtracts one, the borrow rippling through limbs that become 2^32 - 1. */
  method Decrement(pn: array<Limb>)
    requires pn.Length > 0
    modifies pn
    ensures Val(pn[..]) == (old(Val(pn[..])) + P(pn.Length) - 1) % P(pn.Length)
  {
    hide P, Val;
    ghost var x := pn[..];
    var i := 0;
    ValNil();
    pn[0] := (pn[0] + B - 1) % B;
    RippleDown(x, pn[..], 0);
    while pn[i] == B - 1 && i < pn.Length - 1
      invariant 0 <= i < pn.Length
      invariant forall j | i < j < pn.Length :: pn[j] == x[j]
      invariant Val(pn[..]) + 1 == Val(x) + (if pn[i] == B - 1 then P(i + 1) else 0)
    {
      ghost var before := pn[..];
      i := i + 1;
      pn[i] := (pn[i] + B - 1) % B;
      RippleDown(before, pn[..], i);
    }
    ValBound(pn[..]);
    ValBound(x);
    if pn[i] == B - 1 {
      DivModUnique(Val(x) + P(pn.Length) - 1, P(pn.Length), 0, Val(pn[..]));
    } else {
      DivModUnique(Val(x) + P(pn.Length) - 1, P(pn.Length), 1, Val(pn[..]));
    }
  }

  lemma RippleDown(before: seq<Limb>, after: seq<Limb>, i: nat)
    requires i < |before| && after == before[i := (before[i] + B - 1) % B]
    ensures Val(after) + P(i) == Val(before) + (if after[i] == B - 1 then P(i + 1) else 0)
  {
    hide P, Val;
    ValUpdate(before, i, after[i]);
    PNext(i);
    if after[i] == B - 1 {
      assert before[i] == 0;
      MulDistrib(B - 1, 1, P(i));
    } else {
      MulDistrib(after[i], 1, P(i));
    }
  }

  /** Unary minus: two's complement negation. */
  method Negate(pn: array<Limb>) returns (ret: array<Limb>)
    requires pn.Length > 0
    ensures fresh(ret) && ret.Length == pn.Length
    ensures Val(ret[..]) == (P(pn.Length) - Val(pn[..])) % P(pn.Length)
  {
    ValBound(pn[..]);
    ret := Complement(pn);
    Increment(ret);
  }

  /** operator-=: subtraction modulo 2^(32 * width), also when both operands are one object. */
  method SubAssign(pn: array<Limb>, b: array<Limb>)
    requires pn.Length == b.Length > 0
    modifies pn
    ensures Val(pn[..]) == (old(Val(pn[..])) + P(pn.Length) - old(Val(b[..]))) % P(pn.Length)
    ensures old(Val(b[..])) <= old(Val(pn[..])) ==> Val(pn[..]) == old(Val(pn[..])) - old(Val(b[..]))
  {
    hide P, Val;
    ghost var x, y, m := Val(pn[..]), Val(b[..]), P(pn.Length);
    ValBound(pn[..]);
    ValBound(b[..]);
    var neg := Negate(b);
    ghost var z := Val(neg[..]);
    AddAssign(pn, neg);
    if y == 0 {
      DivModUnique(m - y, m, 1, 0);
      DivModUnique(x + m - y, m, 1, x);
      DivModUnique(x + z, m, 0, x);
    } else {
      DivModUnique(m - y, m, 0, m - y);
      if y <= x {
        DivModUnique(x + m - y, m, 1, x - y);
      }
    }
  }

  lemma MulLimb(low: nat, carry: nat, seen: nat, limb: nat, b32: nat, i: nat, n: nat)
    requires n == carry + b32 * limb && low + carry * P(i) == seen * b32
    ensures low + (n % B) * P(i) + (n / B) * P(i + 1) == (seen + limb * P(i)) * b32
  {
    hide P;
    CarryStep(n, i);
    MulDistrib(carry, b32 * limb, P(i));
    MulDistrib(seen, limb * P(i), b32);
    MulAssoc(b32, limb, P(i));
  }

  /** operator-= where nothing is borrowed. */
  method SubExact(pn: array<Limb>, b: array<Limb>)
    requires pn.Length == b.Length > 0 && Val(b[..]) <= Val(pn[..])
    modifies pn
    ensures Val(pn[..]) == old(Val(pn[..])) - old(Val(b[..]))
  {
    SubAssign(pn, b);
  }

  method MulAssign32(pn: array<Limb>, b32: Limb)
    modifies pn
    ensures Val(pn[..]) == (old(Val(pn[..])) * b32) % P(pn.Length)
  {
    hide P, Val;
    ghost var x := pn[..];
    var carry: nat := 0;
    ValNil();
    for i := 0 to pn.Length
      invariant carry < B
      invariant forall j | i <= j < pn.Length :: pn[j] == x[j]
      invariant Val(pn[..i]) + carry * P(i) == Val(x[..i]) * b32
    {
      ProductFits(b32, pn[i]);
      var n: nat := carry + b32 * pn[i];
      assert n < MAX64;  // a uint64_t
      ghost var low := pn[..i];
      pn[i] := n % B;
      assert pn[..i] == low && pn[..][..i] == low && pn[..][..i + 1] == pn[..i + 1];
      ValPrefix(pn[..], i);
      ValPrefix(x, i);
      MulLimb(Val(low), carry, Val(x[..i]), x[i], b32, i, n);
      carry := n / B;
    }
    assert pn[..pn.Length] == pn[..] && x[..pn.Length] == x;
    ValBound(pn[..]);
    DivModUnique(Val(x) * b32, P(pn.Length), carry, Val(pn[..]));
  }

  /** Two carries and a product of limbs fit in 64 bits. */
  lemma ProductFits(a: Limb, b: Limb)
    ensures a * b + (B - 1) + (B - 1) < MAX64
  {
    MulStep(a, B, b);
    assert a * b <= (B - 1) * b;
    assert (B - 1) * b <= (B - 1) * (B - 1);
  }

  lemma RowStep(total: int, carry: nat, limb: nat, start: nat, aj: nat, weight: nat, seen: nat, bi: nat,
                i: nat, j: nat, n: nat)
    requires weight == aj * P(j) && n == carry + limb + aj * bi
    requires total + carry * P(i + j) == start + weight * seen
    ensures total - limb * P(i + j) + (n % B) * P(i + j) + (n / B) * P(i + j + 1)
              == start + weight * (seen + bi * P(i))
  {
    hide P;
    var w := P(i + j);
    CarryStep(n, i + j);
    MulDistrib(carry + limb, aj * bi, w);
    MulDistrib(carry, limb, w);
    PAdd(j, i);
    calc {
      (aj * bi) * w;
      (aj * bi) * (P(j) * P(i));
      (aj * P(j)) * (bi * P(i));
    }
    MulDistrib(seen, bi * P(i), aj * P(j));
  }

  /** One row of the schoolbook product: adds a[j] * 2^(32 j) * b, dropping multiples of 2^(32 * width). */
  method MulRow(pn: array<Limb>, b: array<Limb>, aj: Limb, j: nat) returns (ghost dropped: nat)
    requires pn.Length == b.Length && j < pn.Length
    modifies pn
    ensures pn != b ==> Val(pn[..]) + dropped * P(pn.Length) == old(Val(pn[..])) + (aj * P(j)) * Val(b[..])
    ensures pn == b && (forall k | 0 <= k < pn.Length :: old(pn[k]) == 0) ==> forall k | 0 <= k < pn.Length :: pn[k] == 0
  {
    hide P, Val;
    ghost var x, y := pn[..], b[..];
    ghost var weight := aj * P(j);
    ghost var zero := pn == b && forall k | 0 <= k < pn.Length :: pn[k] == 0;
    var carry: nat := 0;
    ValNil();
    for i := 0 to pn.Length - j
      invariant carry < B
      invariant pn != b ==> b[..] == y
      invariant pn != b ==> Val(pn[..]) + carry * P(i + j) == Val(x) + weight * Val(y[..i])
      invariant zero ==> carry == 0 && forall k | 0 <= k < pn.Length :: pn[k] == 0
    {
      ProductFits(aj, b[i]);
      var n: nat := carry + pn[i + j] + aj * b[i];
      assert n < MAX64;  // a uint64_t
      ghost var before := pn[..];
      if pn != b {
        ValPrefix(y, i);
        RowStep(Val(before), carry, before[i + j], Val(x), aj, weight, Val(y[..i]), y[i], i, j, n);
        ValUpdate(before, i + j, n % B);
      }
      pn[i + j] := n % B;
      assert pn[..] == before[i + j := n % B];
      carry := n / B;
    }
    dropped := 0;
    if pn != b {
      var w := pn.Length;
      var h := ValSplit(y, w - j);
      dropped := carry + aj * h;
      RowEnd(carry, aj, h, Val(y[..w - j]), w, j);
    }
  }

  lemma RowEnd(carry: nat, aj: nat, h: nat, low: nat, w: nat, j: nat)
    requires j <= w
    ensures carry * P(w) + (aj * P(j)) * (low + h * P(w - j)) == (aj * P(j)) * low + (carry + aj * h) * P(w)
  {
    hide P;
    PAdd(j, w - j);
    MulDistrib(carry, aj * h, P(w));
    calc {
      (aj * P(j)) * (h * P(w - j));
      (aj * h) * (P(j) * P(w - j));
      (aj * h) * P(w);
    }
    MulDistrib(low, h * P(w - j), aj * P(j));
  }

  /** operator*=: the product modulo 2^(32 * width). When both operands are one object the target is
      zeroed while it is still to be read, and the result is zero. */
  method MulAssign(pn: array<Limb>, b: array<Limb>)
    requires pn.Length == b.Length
    modifies pn
    ensures pn != b ==> Val(pn[..]) == (old(Val(pn[..])) * Val(b[..])) % P(pn.Length)
    ensures pn == b ==> Val(pn[..]) == 0
  {
    hide P, Val;
    var a := Copy(pn);
    ghost var x, y := a[..], b[..];
    SetZero(pn);
    ghost var q: nat := 0;
    ValNil();
    for j := 0 to pn.Length
      invariant a[..] == x && (pn != b ==> b[..] == y)
      invariant pn != b ==> Val(pn[..]) + q * P(pn.Length) == Val(x[..j]) * Val(y)
      invariant pn == b ==> forall k | 0 <= k < pn.Length :: pn[k] == 0
    {
      var dropped := MulRow(pn, b, a[j], j);
      ValPrefix(x, j);
      MulDistrib(Val(x[..j]), x[j] * P(j), Val(y));
      MulDistrib(q, dropped, P(pn.Length));
      q := q + dropped;
    }
    assert x[..pn.Length] == x;
    if pn != b {
      ValBound(pn[..]);
      DivModUnique(Val(x) * Val(y), P(pn.Length), q, Val(pn[..]));
    } else {
      ValZeroTail(pn[..], 0);
    }
  }

  /** x |= y on 32-bit words. */
  function Or32(x: Limb, y: Limb): Limb {
    Pow2Values();
    OrBound(x, y, 32);
    Or(x, y)
  }

  /** a >> n on a 32-bit word. */
  function Shr32(a: Limb, n: nat): Limb {
    Quot(a, Pow2(n))
  }

  /** a << n on a 32-bit word. */
  function Shl32(a: Limb, n: nat): Limb {
    (a * Pow2(n)) % B
  }

  lemma SplitProduct(a: nat, t: nat, h: nat, q: nat, r: nat)
    requires t > 0 && a == q * h + r && r < h && a < t * h
    ensures q < t && a * t == q * (t * h) + r * t && r * t < t * h
  {
    MulStep(q, t, h);
    MulStep(t, q, h);
    MulStep(r, h, t);
    MulDistrib(q * h, r, t);
    MulAssoc(q, h, t);
  }

  /** A limb cut at a power of two: scaling it by t pushes the quotient by h out of the word. */
  lemma CutLimb(a: Limb, t: nat, h: nat, q: nat) returns (r: nat)
    requires t > 0 && t * h == B && q * h <= a < q * h + h
    ensures a == q * h + r && r < h && q < t
    ensures (a * t) % B == r * t && a * t == q * B + r * t
  {
    r := a - q * h;
    SplitProduct(a, t, h, q, r);
    DivModUnique(a * t, B, q, r * t);
  }

  /** The two halves of a limb shifted left by s < 32: what leaves it and what stays. */
  lemma ShiftSplit(a: Limb, s: nat) returns (r: nat)
    requires s < 32
    ensures Shr32(a, 32 - s) < Pow2(s)
    ensures Shl32(a, s) == r * Pow2(s)
    ensures a * Pow2(s) == Shr32(a, 32 - s) * B + Shl32(a, s)
  {
    hide Pow2, Quot;
    Pow2Values();
    Pow2Add(s, 32 - s);
    r := CutLimb(a, Pow2(s), Pow2(32 - s), Shr32(a, 32 - s));
  }

  /** operator<<=: multiplication by 2^shift modulo 2^(32 * width). */
  method ShiftLeft(pn: array<Limb>, shift: nat)
    modifies pn
    ensures Val(pn[..]) == (old(Val(pn[..])) * Pow2(shift)) % P(pn.Length)
  {
    hide P, Val, Pow2, Or32, Shr32, Shl32;
    var a := Copy(pn);
    ghost var x := a[..];
    SetZero(pn);
    var k, s := shift / 32, shift % 32;
    ghost var q: nat := 0;
    ValNil();
    for i := 0 to pn.Length
      invariant a[..] == x
      invariant forall j | i + k < j < pn.Length :: pn[j] == 0
      invariant i + k < pn.Length ==> pn[i + k] < Pow2(s)
      invariant Val(pn[..]) + q * P(pn.Length) == Val(x[..i]) * (Pow2(s) * P(k))
    {
      ghost var before := pn[..];
      if i + k + 1 < pn.Length && s != 0 {
        pn[i + k + 1] := Or32(pn[i + k + 1], Shr32(a[i], 32 - s));
      }
      if i + k < pn.Length {
        pn[i + k] := Or32(pn[i + k], Shl32(a[i], s));
      }
      var drop := ShiftLeftStep(before, pn[..], a[i], i + k, s);
      ValPrefix(x, i);
      ShiftSum(Val(x[..i]), x[i], i, k, Pow2(s));
      MulDistrib(q, drop, P(pn.Length));
      q := q + drop;
    }
    assert x[..pn.Length] == x;
    ValBound(pn[..]);
    PIsPow2(k);
    Pow2Add(s, 32 * k);
    DivModUnique(Val(x) * (Pow2(s) * P(k)), P(pn.Length), q, Val(pn[..]));
  }

  lemma ShiftSum(seen: nat, limb: nat, i: nat, k: nat, t: nat)
    ensures (seen + limb * P(i)) * (t * P(k)) == seen * (t * P(k)) + (limb * t) * P(i + k)
  {
    hide P;
    PAdd(i, k);
    MulDistrib(seen, limb * P(i), t * P(k));
    calc {
      (limb * P(i)) * (t * P(k));
      (limb * t) * (P(i) * P(k));
    }
  }

  lemma LimbMoves(scaled: nat, hi: nat, lo: nat, m: nat)
    requires scaled == hi * B + lo
    ensures scaled * P(m) == hi * P(m + 1) + lo * P(m)
  {
    hide P;
    PNext(m);
    MulAssoc(hi, B, P(m));
    MulDistrib(hi * B, lo, P(m));
  }

  lemma Beyond(scaled: nat, m: nat, w: nat) returns (drop: nat)
    requires w <= m
    ensures scaled * P(m) == drop * P(w)
  {
    hide P;
    PAdd(m - w, w);
    drop := scaled * P(m - w);
    MulAssoc(scaled, P(m - w), P(w));
  }

  lemma LimbGains(s: seq<Limb>, m: nat, more: nat)
    requires m < |s| && s[m] + more < B
    ensures Val(s[m := s[m] + more]) == Val(s) + more * P(m)
  {
    hide P, Val;
    ValUpdate(s, m, s[m] + more);
    MulDistrib(s[m], more, P(m));
  }

  lemma ShiftLeftStep(before: seq<Limb>, after: seq<Limb>, a: Limb, m: nat, s: nat) returns (drop: nat)
    requires s < 32 && |after| == |before|
    requires forall j | m < j < |before| :: before[j] == 0
    requires m < |before| ==> before[m] < Pow2(s)
    requires forall j | 0 <= j < |before| ::
               after[j] == if j == m then Or32(before[m], Shl32(a, s))
                           else if j == m + 1 && s != 0 then Or32(before[j], Shr32(a, 32 - s))
                           else before[j]
    ensures forall j | m + 1 < j < |after| :: after[j] == 0
    ensures m + 1 < |after| ==> after[m + 1] < Pow2(s)
    ensures Val(after) + drop * P(|after|) == Val(before) + (a * Pow2(s)) * P(m)
  {
    hide P, Val, Pow2, Shr32, Shl32;
    var w := |before|;
    var t, hi, lo := Pow2(s), Shr32(a, 32 - s), Shl32(a, s);
    var r := ShiftSplit(a, s);
    if m >= w {
      assert after == before;
      drop := Beyond(a * t, m, w);
    } else {
      OrDisjoint(r, before[m], s);
      var mid := before[m := after[m]];
      LimbGains(before, m, lo);
      LimbMoves(a * t, hi, lo, m);
      if m + 1 < w {
        if s == 0 {
          Pow2Zero();
        }
        assert after[m + 1] == hi;
        LimbGains(mid, m + 1, hi);
        assert after == mid[m + 1 := hi];
        drop := 0;
      } else {
        assert after == mid;
        drop := hi;
      }
    }
  }

  /** The two halves of a limb shifted right by s < 32: what stays and what leaves it. */
  lemma RightSplit(a: Limb, s: nat) returns (r: nat)
    requires s < 32
    ensures Pow2(s) * Pow2(32 - s) == B
    ensures a == Shr32(a, s) * Pow2(s) + r && r < Pow2(s)
    ensures Shr32(a, s) < Pow2(32 - s)
    ensures s != 0 ==> Shl32(a, 32 - s) == r * Pow2(32 - s)
  {
    hide Pow2, Quot;
    Pow2Values();
    Pow2Add(s, 32 - s);
    r := CutLimb(a, Pow2(32 - s), Pow2(s), Shr32(a, s));
  }

  /** How limb i > k moves the equation "value read so far = result * d + rest". */
  lemma AccountAbove(seen: nat, before: nat, rest: nat, q: nat, r: nat, a: nat, t: nat, h: nat, i: nat, k: nat)
    requires k < i && a == q * t + r && t * h == B
    requires seen == before * (t * P(k)) + rest
    ensures seen + a * P(i) == (before + (q * P(i - k) + (r * h) * P(i - k - 1))) * (t * P(k)) + rest
  {
    hide P;
    ShiftRightWeight(q, r, a, t, h, i, k);
    MulDistrib(before, q * P(i - k) + (r * h) * P(i - k - 1), t * P(k));
  }

  /** How limb k does. */
  lemma AccountAt(seen: nat, q: nat, r: nat, a: nat, t: nat, k: nat)
    requires a == q * t + r && r < t && seen < P(k)
    ensures seen + a * P(k) == q * (t * P(k)) + (seen + r * P(k)) && seen + r * P(k) < t * P(k)
  {
    hide P;
    MulDistrib(q * t, r, P(k));
    MulAssoc(q, t, P(k));
    MulStep(r, t, P(k));
  }

  lemma ShiftRightStep(before: seq<Limb>, after: seq<Limb>, a: Limb, i: nat, k: nat, s: nat, r: nat)
    requires s < 32 && |after| == |before| && k <= i < |before|
    requires forall j | i - k <= j < |before| :: before[j] == 0
    requires i > k ==> before[i - k - 1] < Pow2(32 - s)
    requires a == Shr32(a, s) * Pow2(s) + r && (s != 0 ==> Shl32(a, 32 - s) == r * Pow2(32 - s)) && r < Pow2(s)
    requires forall j | 0 <= j < |before| ::
               after[j] == if j == i - k then Or32(before[j], Shr32(a, s))
                           else if j == i - k - 1 && s != 0 then Or32(before[j], Shl32(a, 32 - s))
                           else before[j]
    ensures forall j | i - k < j < |after| :: after[j] == 0
    ensures after[i - k] == Shr32(a, s)
    ensures Val(after) == Val(before) + Shr32(a, s) * P(i - k)
                          + if i > k then (r * Pow2(32 - s)) * P(i - k - 1) else 0
  {
    hide P, Val, Pow2, Shr32, Shl32;
    var m := i - k;
    var mid := before[m := after[m]];
    ValUpdate(before, m, after[m]);
    if m > 0 {
      OrDisjoint(r, before[m - 1], 32 - s);
      if s == 0 {
        Pow2Zero();
        assert r == 0;
      }
      assert after[m - 1] == before[m - 1] + r * Pow2(32 - s);
      ValUpdate(mid, m - 1, after[m - 1]);
      assert after == mid[m - 1 := after[m - 1]];
      MulDistrib(before[m - 1], r * Pow2(32 - s), P(m - 1));
    } else {
      assert after == mid;
    }
  }

  /** A limb's two pieces, put back at their new places and scaled up again, make the limb. */
  lemma ShiftRightWeight(q: nat, r: nat, a: nat, t: nat, h: nat, i: nat, k: nat)
    requires k < i && a == q * t + r && t * h == B
    ensures (q * P(i - k) + (r * h) * P(i - k - 1)) * (t * P(k)) == a * P(i)
  {
    hide P;
    PAdd(i - k, k);
    PAdd(i - k - 1, k);
    PNext(i - 1);
    MulDistrib(q * P(i - k), (r * h) * P(i - k - 1), t * P(k));
    calc {
      (q * P(i - k)) * (t * P(k));
      (q * t) * (P(i - k) * P(k));
      (q * t) * P(i);
    }
    calc {
      ((r * h) * P(i - k - 1)) * (t * P(k));
      (r * (t * h)) * (P(i - k - 1) * P(k));
      (r * B) * P(i - 1);
      r * P(i);
    }
    MulDistrib(q * t, r, P(i));
  }

  /** The state of the shift-right loop after i limbs: the result holds the quotient of what was read. */
  ghost predicate ShiftedRight(x: seq<Limb>, pn: seq<Limb>, i: nat, k: nat, s: nat, rest: nat)
    requires s < 32
  {
    && i <= |x| == |pn|
    && (forall j | 0 <= j < |pn| && i - k <= j :: pn[j] == 0)
    && (i > k ==> pn[i - k - 1] < Pow2(32 - s))
    && (i <= k ==> Val(pn) == 0)
    && Val(x[..i]) == Val(pn) * (Pow2(s) * P(k)) + rest
    && rest < Pow2(s) * P(k)
  }

  lemma ShiftRightLimb(x: seq<Limb>, before: seq<Limb>, after: seq<Limb>, i: nat, k: nat, s: nat, rest: nat)
      returns (rest': nat)
    requires s < 32 && i < |x| && ShiftedRight(x, before, i, k, s, rest) && |after| == |before|
    requires forall j | 0 <= j < |before| ::
               after[j] == if j == i - k then Or32(before[j], Shr32(x[i], s))
                           else if j == i - k - 1 && s != 0 then Or32(before[j], Shl32(x[i], 32 - s))
                           else before[j]
    ensures ShiftedRight(x, after, i + 1, k, s, rest')
  {
    hide P, Val, Pow2, Or32, Shr32, Shl32;
    ValPrefix(x, i);
    if i < k {
      assert after == before;
      rest' := Val(x[..i + 1]);
      ShiftRestSmall(x[..i + 1], k, Pow2(s));
    } else {
      var r := RightSplit(x[i], s);
      ShiftRightStep(before, after, x[i], i, k, s, r);
      if i == k {
        ValBound(x[..i]);
        ValNil();
        AccountAt(rest, Shr32(x[i], s), r, x[i], Pow2(s), k);
        rest' := rest + r * P(k);
      } else {
        AccountAbove(Val(x[..i]), Val(before), rest, Shr32(x[i], s), r, x[i], Pow2(s), Pow2(32 - s), i, k);
        rest' := rest;
      }
    }
  }

  /** operator>>=: division by 2^shift. */
  method ShiftRight(pn: array<Limb>, shift: nat)
    modifies pn
    ensures Val(pn[..]) == old(Val(pn[..])) / Pow2(shift)
  {
    hide P, Val, Pow2, Or32, Shr32, Shl32, ShiftedRight;
    var a := Copy(pn);
    ghost var x := a[..];
    SetZero(pn);
    var k, s := shift / 32, shift % 32;
    ghost var rest: nat := 0;
    ShiftRightStart(x, pn[..], k, s);
    for i := 0 to pn.Length
      invariant a[..] == x
      invariant ShiftedRight(x, pn[..], i, k, s, rest)
    {
      ghost var before := pn[..];
      if i - k - 1 >= 0 && s != 0 {
        pn[i - k - 1] := Or32(pn[i - k - 1], Shl32(a[i], 32 - s));
      }
      if i - k >= 0 {
        pn[i - k] := Or32(pn[i - k], Shr32(a[i], s));
      }
      rest := ShiftRightLimb(x, before, pn[..], i, k, s, rest);
    }
    ShiftRightEnd(x, pn[..], k, s, rest);
  }

  lemma ShiftRightStart(x: seq<Limb>, pn: seq<Limb>, k: nat, s: nat)
    requires s < 32 && |x| == |pn| && Val(pn) == 0 && forall j | 0 <= j < |pn| :: pn[j] == 0
    ensures ShiftedRight(x, pn, 0, k, s, 0)
  {
    hide P, Pow2;
    MulGrows(P(k), Pow2(s));
  }

  lemma ShiftRightEnd(x: seq<Limb>, pn: seq<Limb>, k: nat, s: nat, rest: nat)
    requires s < 32 && ShiftedRight(x, pn, |x|, k, s, rest)
    ensures Val(pn) == Val(x) / Pow2(32 * k + s)
  {
    hide P, Val, Pow2;
    assert x[..|x|] == x;
    PIsPow2(k);
    Pow2Add(s, 32 * k);
    DivModUnique(Val(x), Pow2(32 * k + s), Val(pn), rest);
  }

  lemma ShiftRestSmall(low: seq<Limb>, k: nat, t: nat)
    requires |low| <= k && t >= 1
    ensures Val(low) < t * P(k)
  {
    hide P, Val;
    ValBound(low);
    PAdd(|low|, k - |low|);
    MulGrows(P(|low|), P(k - |low|));
    MulGrows(P(k), t);
  }

  /** The highest differing limb decides. */
  lemma {:induction false} HighestDecides(x: seq<Limb>, y: seq<Limb>, i: nat)
    requires i < |x| == |y| && x[i] < y[i] && forall j | i < j < |x| :: x[j] == y[j]
    ensures Val(x) < Val(y)
    decreases |x|
  {
    var n := |x| - 1;
    if i < n {
      HighestDecides(x[..n], y[..n], i);
    } else {
      ValBound(x[..n]);
      MulStep(x[n], y[n], P(n));
    }
  }

  method CompareTo(pn: array<Limb>, b: array<Limb>) returns (r: int)
    requires pn.Length == b.Length
    ensures r == if Val(pn[..]) < Val(b[..]) then -1 else if Val(pn[..]) > Val(b[..]) then 1 else 0
  {
    hide Val;
    var i := pn.Length - 1;
    while i >= 0
      invariant -1 <= i < pn.Length
      invariant forall j | i < j < pn.Length :: pn[j] == b[j]
    {
      if pn[i] < b[i] {
        HighestDecides(pn[..], b[..], i);
        return -1;
      }
      if pn[i] > b[i] {
        HighestDecides(b[..], pn[..], i);
        return 1;
      }
      i := i - 1;
    }
    assert pn[..] == b[..];
    return 0;
  }

  /** x & (1 << n) != 0 */
  predicate BitSet(x: Limb, n: nat) {
    (x / Pow2(n)) % 2 == 1
  }

  lemma TopBit(x: Limb, n: nat)
    requires x < Pow2(n + 1)
    ensures BitSet(x, n) <==> x >= Pow2(n)
  {
    var p := Pow2(n);
    if x >= p {
      DivModUnique(x, p, 1, x - p);
    } else {
      DivModUnique(x, p, 0, x);
    }
  }

  /** A value whose highest non-zero limb is at `pos` has the bit length of that limb above 32 * pos. */
  lemma BitsFromLimb(s: seq<Limb>, pos: nat, n: nat)
    requires pos < |s| && forall j | pos < j < |s| :: s[j] == 0
    requires Pow2(n) <= s[pos] < Pow2(n + 1)
    ensures BitLength(Val(s)) == 32 * pos + n + 1
  {
    hide P, Val, Pow2;
    ValZeroTail(s, pos + 1);
    ValPrefix(s, pos);
    ValBound(s[..pos]);
    PIsPow2(pos);
    Pow2Add(n, 32 * pos);
    Pow2Add(n + 1, 32 * pos);
    MulStep(s[pos], Pow2(n + 1), P(pos));
    MulStep(Pow2(n), s[pos], P(pos));
    BitLengthUnique(Val(s), 32 * pos + n + 1);
  }

  method Bits(pn: array<Limb>) returns (r: nat)
    ensures r == BitLength(Val(pn[..]))
    ensures r <= 32 * pn.Length
  {
    hide P, Val, Pow2, BitSet;
    var pos := pn.Length - 1;
    Pow2Values();
    Pow2Zero();
    while pos >= 0
      invariant -1 <= pos < pn.Length
      invariant forall j | pos < j < pn.Length :: pn[j] == 0
    {
      if pn[pos] != 0 {
        var nbits := 31;
        while nbits > 0
          invariant 0 <= nbits <= 31
          invariant pn[pos] < Pow2(nbits + 1)
        {
          TopBit(pn[pos], nbits);
          if BitSet(pn[pos], nbits) {
            BitsFromLimb(pn[..], pos, nbits);
            return 32 * pos + nbits + 1;
          }
          nbits := nbits - 1;
        }
        BitsFromLimb(pn[..], pos, 0);
        return 32 * pos + 1;
      }
      pos := pos - 1;
    }
    ValZeroTail(pn[..], 0);
    ValNil();
    return 0;
  }

  /** Every bit below position n is clear. */
  ghost predicate LowClear(s: seq<Limb>, n: nat) {
    forall j | 0 <= j < |s| && 32 * j < n :: s[j] % Pow2(if n - 32 * j < 32 then n - 32 * j else 32) == 0
  }

  lemma ZeroLowClear(s: seq<Limb>, n: nat)
    requires forall j | 0 <= j < |s| :: s[j] == 0
    ensures LowClear(s, n)
  {
    forall j | 0 <= j < |s| && 32 * j < n
      ensures s[j] % Pow2(if n - 32 * j < 32 then n - 32 * j else 32) == 0
    {
      var p := Pow2(if n - 32 * j < 32 then n - 32 * j else 32);
      DivModUnique(0, p, 0, 0);
    }
  }

  lemma MultipleMod(c: nat, p: nat)
    requires p > 0
    ensures (c * p) % p == 0
  {
    DivModUnique(c * p, p, c, 0);
  }

  lemma EvenMultiple(limb: nat, p: nat) returns (c: nat)
    requires p > 0 && limb % (2 * p) == 0
    ensures limb == c * (2 * p) && limb == (2 * c) * p
    ensures limb % p == 0 && (limb + p) % p == 0
  {
    c := limb / (2 * p);
    MulAssoc(c, 2, p);
    MultipleMod(2 * c, p);
    MulDistrib(2 * c, 1, p);
    MultipleMod(2 * c + 1, p);
  }

  lemma BitBelowClear(limb: Limb, s: nat)
    requires s < 32 && limb % Pow2(s + 1) == 0
    ensures limb % Pow2(s) == 0 && Pow2(s) < B
    ensures Or(limb, Pow2(s)) == limb + Pow2(s) && (limb + Pow2(s)) % Pow2(s) == 0
  {
    hide Pow2;
    Pow2Next(s);
    var c := EvenMultiple(limb, Pow2(s));
    OrDisjoint(c, Pow2(s), s + 1);
    Pow2Values();
    Pow2Mono(s, 31);
  }

  /** Setting bit n of a number whose bits up to n are clear adds 2^n. */
  lemma SetBit(s: seq<Limb>, n: nat)
    requires n < 32 * |s| && LowClear(s, n + 1)
    ensures Pow2(n % 32) < B
    ensures LowClear(s, n)
    ensures var t := s[n / 32 := Or32(s[n / 32], Pow2(n % 32))];
            Val(t) == Val(s) + Pow2(n) && LowClear(t, n)
  {
    hide P, Val, Pow2;
    var w, k := n / 32, n % 32;
    BitBelowClear(s[w], k);
    var t := s[w := Or32(s[w], Pow2(k))];
    ValUpdate(s, w, t[w]);
    MulDistrib(s[w], Pow2(k), P(w));
    PIsPow2(w);
    Pow2Add(k, 32 * w);
    assert forall j | 0 <= j < |s| && 32 * j < n && j != w :: n - 32 * j >= 32;
  }

  lemma Halve(y: nat, n: nat)
    requires n > 0
    ensures (y * Pow2(n)) / Pow2(1) == y * Pow2(n - 1)
  {
    Pow2Values();
    MulAssoc(y, 2, Pow2(n - 1));
  }

  lemma DivRound(n: nat, q: nat, y: nat, shift: nat)
    requires n < y * Pow2(shift + 1)
    ensures n - y * Pow2(shift) < y * Pow2(shift)
    ensures n - y * Pow2(shift) + (q + Pow2(shift)) * y == n + q * y
  {
    Pow2Next(shift);
    MulAssoc(y, 2, Pow2(shift));
    MulDistrib(q, Pow2(shift), y);
  }

  /** One round of the division loop: subtract the aligned divisor if it fits, set that bit of the
      quotient, and move the divisor back by one. */
  method DivStep(pn: array<Limb>, num: array<Limb>, div: array<Limb>, shift: nat, ghost y: nat)
    requires pn.Length == num.Length == div.Length > 0 && pn != num && pn != div && num != div
    requires shift < 32 * pn.Length && LowClear(pn[..], shift + 1)
    requires Val(div[..]) == y * Pow2(shift) && Val(num[..]) < y * Pow2(shift + 1)
    modifies pn, num, div
    ensures LowClear(pn[..], shift)
    ensures Val(num[..]) + Val(pn[..]) * y == old(Val(num[..])) + old(Val(pn[..])) * y
    ensures Val(num[..]) < y * Pow2(shift)
    ensures shift > 0 ==> Val(div[..]) == y * Pow2(shift - 1)
  {
    hide P, Val, Pow2, Or32, LowClear;
    ghost var q := pn[..];
    SetBit(q, shift);
    DivRound(Val(num[..]), Val(q), y, shift);
    var order := CompareTo(num, div);
    if order >= 0 {
      SubExact(num, div);
      pn[shift / 32] := Or32(pn[shift / 32], Pow2(shift % 32));
      assert pn[..] == q[shift / 32 := Or32(q[shift / 32], Pow2(shift % 32))];
    }
    ShiftRight(div, 1);
    if shift > 0 {
      Halve(y, shift);
    }
  }

  /** operator/=: shift-subtract division. `num` ends as the remainder. Dividing by zero throws, after
      the target has already been set to zero. */
  method DivAssign(pn: array<Limb>, b: array<Limb>) returns (thrown: bool, num: array<Limb>)
    requires pn.Length == b.Length > 0
    modifies pn
    ensures fresh(num) && num.Length == pn.Length
    ensures thrown <==> old(Val(b[..])) == 0
    ensures thrown ==> Val(pn[..]) == 0
    ensures !thrown ==> Val(pn[..]) == old(Val(pn[..])) / old(Val(b[..]))
    ensures !thrown ==> Val(num[..]) == old(Val(pn[..])) % old(Val(b[..]))
  {
    hide P, Val, Pow2, LowClear, BitLength;
    ghost var x, y, m := Val(pn[..]), Val(b[..]), P(pn.Length);
    var div := Copy(b);
    num := Copy(pn);
    SetZero(pn);
    var numBits := Bits(num);
    var divBits := Bits(div);
    Pow2Zero();
    BitLengthBounds(y);
    if divBits == 0 {
      return true, num;
    }
    thrown := false;
    if divBits > numBits {
      BitLengthBounds(x);
      Pow2Mono(numBits, divBits - 1);
      DivModUnique(x, y, 0, x);
      return;
    }
    var shift: int := numBits - divBits;
    AlignDivisor(x, y, numBits, divBits, pn.Length);
    ShiftLeft(div, shift);
    DivModUnique(y * Pow2(shift), m, 0, y * Pow2(shift));
    ZeroLowClear(pn[..], shift + 1);
    while shift >= 0
      invariant -1 <= shift < 32 * pn.Length
      invariant Val(num[..]) + Val(pn[..]) * y == x
      invariant Val(num[..]) < y * Pow2(shift + 1)
      invariant shift >= 0 ==> Val(div[..]) == y * Pow2(shift)
      invariant LowClear(pn[..], shift + 1)
    {
      DivStep(pn, num, div, shift, y);
      shift := shift - 1;
    }
    Pow2Zero();
    DivModUnique(x, y, Val(pn[..]), Val(num[..]));
  }

  /** Shifting the divisor to the length of the numerator neither overflows nor leaves more than one bit to take. */
  lemma AlignDivisor(x: nat, y: nat, xBits: nat, yBits: nat, width: nat)
    requires xBits == BitLength(x) && yBits == BitLength(y) && 0 < yBits <= xBits <= 32 * width
    ensures var shift := xBits - yBits; x < y * Pow2(shift + 1) && y * Pow2(shift) < P(width)
  {
    hide P, Pow2, BitLength;
    BitLengthBounds(x);
    BitLengthBounds(y);
    var shift := xBits - yBits;
    PIsPow2(width);
    Pow2Mono(xBits, 32 * width);
    Pow2Add(yBits, shift);
    Pow2Add(yBits - 1, shift + 1);
    MulStep(y, Pow2(yBits), Pow2(shift));
    MulStep(Pow2(yBits - 1), y, Pow2(shift + 1));
  }
}
