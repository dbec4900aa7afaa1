/** The compact ("nBits") encoding of difficulty targets (src/arith_uint256.cpp) and the block proof
    computed from it (src/chain.cpp). */
module CompactTarget {
  import opened Powers
  import opened Limbs
  import opened ArithUint256

  /** An arith_uint256 has eight limbs. */
  const WIDTH: nat := 8

  const TWO23: nat := 0x80_0000
  const TWO24: nat := 0x100_0000

  // ----- What a compact word means -----

  function Size(c: nat): nat { c / TWO24 }

  function Mantissa(c: nat): nat { c % TWO23 }

  predicate SignBit(c: nat) { (c / TWO23) % 2 == 1 }

  /** floor(mantissa * 256^(size - 3)) */
  function Magnitude(c: nat): nat {
    if Size(c) <= 3 then Quot(Mantissa(c), Pow2(8 * (3 - Size(c)))) else Mantissa(c) * Pow2(8 * (Size(c) - 3))
  }

  // ----- What the encoder computes -----

  function ByteLength(x: nat): nat { (BitLength(x) + 7) / 8 }

  /** The leading three bytes, before the sign bit is kept free. */
  function LeadingBytes(x: nat): nat {
    var z := ByteLength(x);
    if z <= 3 then x * Pow2(8 * (3 - z)) else Quot(x, Pow2(8 * (z - 3)))
  }

  function Encode(x: nat): nat {
    var m, z := LeadingBytes(x), ByteLength(x);
    if m >= TWO23 then m / 256 + (z + 1) * TWO24 else m + z * TWO24
  }

  // ----- Lemmas -----

  lemma WordParts(m: nat, z: nat)
    requires m < TWO23
    ensures Size(m + z * TWO24) == z && Mantissa(m + z * TWO24) == m && !SignBit(m + z * TWO24)
    ensures Size(m + TWO23 + z * TWO24) == z && Mantissa(m + TWO23 + z * TWO24) == m && SignBit(m + TWO23 + z * TWO24)
  {
    var c := m + z * TWO24;
    DivModUnique(c, TWO24, z, m);
    DivModUnique(c, TWO23, 2 * z, m);
    DivModUnique(c + TWO23, TWO24, z, m + TWO23);
    DivModUnique(c + TWO23, TWO23, 2 * z + 1, m);
  }

  lemma ByteLengthBounds(x: nat)
    ensures x == 0 ==> ByteLength(x) == 0
    ensures x < Pow2(8 * ByteLength(x))
    ensures x > 0 ==> ByteLength(x) > 0 && Pow2(8 * (ByteLength(x) - 1)) <= x
  {
    hide Pow2, BitLength;
    BitLengthBounds(x);
    var b, z := BitLength(x), ByteLength(x);
    Pow2Mono(b, 8 * z);
    if x > 0 {
      Pow2Mono(8 * (z - 1), b - 1);
    }
  }

  lemma QuotLess(x: nat, p: nat, bound: nat)
    requires p > 0 && x < bound * p
    ensures Quot(x, p) < bound
  {
    hide Quot;
    MulStep(bound, Quot(x, p), p);
  }

  lemma QuotAtLeast(x: nat, p: nat, bound: nat)
    requires p > 0 && bound * p <= x
    ensures bound <= Quot(x, p)
  {
    hide Quot;
    MulStep(Quot(x, p), bound, p);
  }

  lemma QuotQuot(x: nat, p: nat, r: nat)
    requires p > 0 && r > 0
    ensures p * r > 0 && Quot(Quot(x, p), r) == Quot(x, p * r)
  {
    hide Quot;
    var q := Quot(x, p);
    var b := Quot(q, r);
    MulGrows(p, r);
    MulStep(q, b * r + r, p);
    MulStep(b * r, q, p);
    MulDistrib(b * r, r, p);
    MulAssoc(b, r, p);
    QuotUnique(x, p * r, b);
  }

  /** The leading bytes fit in 24 bits and the first of them is not zero. */
  lemma LeadingBounds(x: nat)
    ensures LeadingBytes(x) < TWO24
    ensures x > 0 ==> 0x1_0000 <= LeadingBytes(x)
  {
    hide Pow2, BitLength;
    var z := ByteLength(x);
    ByteLengthBounds(x);
    Pow2Values();
    if z <= 3 {
      var u := Pow2(8 * (3 - z));
      Pow2Add(8 * z, 8 * (3 - z));
      MulStep(x, Pow2(8 * z), u);
      if x > 0 {
        Pow2Add(8 * (z - 1), 8 * (3 - z));
        MulStep(Pow2(8 * (z - 1)), x, u);
      }
    } else {
      var d := Pow2(8 * (z - 3));
      Pow2Add(24, 8 * (z - 3));
      QuotLess(x, d, TWO24);
      Pow2Add(16, 8 * (z - 3));
      QuotAtLeast(x, d, 0x1_0000);
    }
  }

  /** Clearing bits below the highest set bit keeps the bit length. */
  lemma TruncationKeepsLength(x: nat, e: nat)
    requires e < BitLength(x)
    ensures BitLength(Quot(x, Pow2(e)) * Pow2(e)) == BitLength(x)
  {
    hide Pow2, BitLength, Quot;
    var b := BitLength(x);
    BitLengthBounds(x);
    Pow2Add(b - 1 - e, e);
    QuotAtLeast(x, Pow2(e), Pow2(b - 1 - e));
    var v := Quot(x, Pow2(e)) * Pow2(e);
    MulStep(Pow2(b - 1 - e), Quot(x, Pow2(e)), Pow2(e));
    BitLengthUnique(v, b);
  }

  /** Whether bits are cut off: more than three bytes, or three bytes whose top bit is needed for the sign. */
  predicate Truncates(x: nat) {
    ByteLength(x) > 3 || (ByteLength(x) == 3 && LeadingBytes(x) >= TWO23)
  }

  lemma EncodeExact(x: nat)
    requires !Truncates(x)
    ensures Size(Encode(x)) <= 3 && Magnitude(Encode(x)) == x && !SignBit(Encode(x))
  {
    hide Pow2, BitLength, Quot;
    var z, m := ByteLength(x), LeadingBytes(x);
    LeadingBounds(x);
    if m < TWO23 {
      WordParts(m, z);
      QuotUnique(m, Pow2(8 * (3 - z)), x);
    } else {
      var u := Pow2(8 * (2 - z));
      Pow2Values();
      Pow2Add(8 * (2 - z), 8);
      MulAssoc(x, u, 256);
      assert m / 256 == x * u;
      WordParts(m / 256, z + 1);
      QuotUnique(x * u, u, x);
    }
  }

  lemma EncodeTruncated(x: nat)
    requires Truncates(x)
    ensures Size(Encode(x)) == ByteLength(x) + (if LeadingBytes(x) >= TWO23 then 1 else 0) > 3
    ensures Mantissa(Encode(x)) == Quot(x, Pow2(8 * (Size(Encode(x)) - 3))) && !SignBit(Encode(x))
  {
    hide Pow2, BitLength;
    var z, m := ByteLength(x), LeadingBytes(x);
    LeadingBounds(x);
    if m < TWO23 {
      WordParts(m, z);
    } else {
      Pow2Values();
      Pow2Zero();
      Pow2Add(8 * (z - 3), 8);
      WordParts(m / 256, z + 1);
      assert m == Quot(x, Pow2(8 * (z - 3)));
      assert m / 256 == Quot(m, 256);
      QuotQuot(x, Pow2(8 * (z - 3)), 256);
    }
  }

  /** The leading bytes of q * 256^n * 2^(8 * (z - 3)), for n = 0 and n = 1. */
  lemma LeadingOfMultiple(v: nat, q: nat, z: nat)
    requires z >= 3 && ByteLength(v) == z
    ensures v == q * Pow2(8 * (z - 3)) ==> LeadingBytes(v) == q
    ensures v == q * Pow2(8 * (z - 2)) ==> LeadingBytes(v) == q * 256
  {
    hide Pow2, BitLength, Quot;
    Pow2Zero();
    Pow2Values();
    var d := Pow2(8 * (z - 3));
    Pow2Add(8, 8 * (z - 3));
    MulAssoc(q, 256, d);
    if v == q * d {
      QuotUnique(v, d, q);
    }
    if v == q * Pow2(8 * (z - 2)) {
      QuotUnique(v, d, q * 256);
    }
  }

  lemma TruncatedReencodes(x: nat)
    requires Truncates(x)
    ensures Encode(Magnitude(Encode(x))) == Encode(x)
  {
    hide Pow2, BitLength, Quot, LeadingBytes;
    var z, m, c := ByteLength(x), LeadingBytes(x), Encode(x);
    EncodeTruncated(x);
    LeadingBounds(x);
    ByteLengthBounds(x);
    BitLengthBounds(x);
    var e := 8 * (Size(c) - 3);
    TruncationKeepsLength(x, e);
    LeadingOfMultiple(Magnitude(c), Mantissa(c), z);
    if m < TWO23 {
      WordParts(m, z);
    } else {
      WordParts(m / 256, z + 1);
    }
  }

  /** Encoding and decoding a target: never negative, never more than the target, off by less than one
      unit of the mantissa's last place (exact up to three bytes), and encoding again gives the same word. */
  lemma CompactRoundTrip(x: nat)
    ensures var c := Encode(x);
            && !SignBit(c)
            && Magnitude(c) <= x
            && (Size(c) <= 3 ==> Magnitude(c) == x)
            && (Size(c) > 3 ==> x - Magnitude(c) < Pow2(8 * (Size(c) - 3)))
            && Encode(Magnitude(c)) == c
  {
    hide Pow2, BitLength, Quot;
    if Truncates(x) {
      EncodeTruncated(x);
      TruncatedReencodes(x);
    } else {
      EncodeExact(x);
    }
  }

  // ----- The operations -----

  lemma LowLimbs(s: seq<Limb>) returns (high: nat)
    requires |s| >= 2
    ensures Val(s) == s[0] + s[1] * B + high * MAX64
  {
    ValNil();
    ValPrefix(s, 0);
    ValPrefix(s, 1);
    PNext(1);
    high := ValSplit(s, 2);
  }

  /** Assignment from a uint64_t. */
  method SetUint64(pn: array<Limb>, b: nat)
    requires pn.Length == WIDTH && b < MAX64
    modifies pn
    ensures Val(pn[..]) == b
  {
    SetZero(pn);
    pn[0], pn[1] := b % B, b / B;
    ValZeroTail(pn[..], 2);
    ValNil();
    ValPrefix(pn[..], 0);
    ValPrefix(pn[..], 1);
    assert pn[..][..0] == [];
  }

  /** Comparison with a uint64_t. */
  method EqualTo(pn: array<Limb>, b: nat) returns (equal: bool)
    requires pn.Length == WIDTH && b < MAX64
    ensures equal <==> Val(pn[..]) == b
  {
    hide P, Val;
    ghost var s := pn[..];
    var i := WIDTH - 1;
    while i >= 2
      invariant 1 <= i < WIDTH && forall j | i < j < WIDTH :: pn[j] == 0
    {
      if pn[i] != 0 {
        LimbAtMost(s, i);
        return false;
      }
      i := i - 1;
    }
    ValZeroTail(s, 2);
    TwoLimbs(s);
    return pn[1] == b / B && pn[0] == b % B;
  }

  lemma TwoLimbs(s: seq<Limb>)
    requires |s| >= 2
    ensures Val(s[..2]) == s[0] + s[1] * B
  {
    ValNil();
    ValPrefix(s, 0);
    ValPrefix(s, 1);
    PNext(1);
  }

  lemma LimbAtMost(s: seq<Limb>, i: nat)
    requires 2 <= i < |s| && s[i] != 0
    ensures MAX64 <= Val(s)
  {
    hide P, Val;
    ValUpdate(s, i, 0);
    MulGrows(P(i), s[i]);
    ValNil();
    PNext(1);
    PAdd(2, i - 2);
    MulGrows(P(2), P(i - 2));
  }

  method GetLow64(pn: array<Limb>) returns (r: nat)
    requires pn.Length == WIDTH
    ensures r == Val(pn[..]) % MAX64
  {
    var s := pn[..];
    var high := LowLimbs(s);
    r := pn[0] + pn[1] * B;
    DivModUnique(Val(s), MAX64, high, r);
  }

  /** The overflow test of SetCompact, which looks only at the size and the (shifted) mantissa. */
  predicate OverflowTest(word: nat, size: nat) {
    word != 0 && (size > 34 || (word > 0xff && size > 33) || (word > 0xffff && size > 32))
  }

  /** The test is exact: it holds just when the value does not fit in 256 bits. */
  lemma OverflowExact(word: nat, size: nat)
    requires 3 < size && word < TWO23
    ensures OverflowTest(word, size) <==> word * Pow2(8 * (size - 3)) >= Pow2(256)
  {
    hide Pow2;
    Pow2Values();
    var p := Pow2(8 * (size - 3));
    if size > 34 {
      Pow2Mono(256, 8 * (size - 3));
      if word > 0 {
        MulGrows(p, word);
      }
    } else if size == 34 {
      Pow2Add(8, 248);
      MulStep(word, 256, p);
      MulStep(256, word, p);
    } else if size == 33 {
      Pow2Add(16, 240);
      MulStep(word, 0x1_0000, p);
      MulStep(0x1_0000, word, p);
    } else {
      Pow2Mono(8 * (size - 3), 232);
      Pow2Add(24, 232);
      MulStep(word, TWO24, p);
      MulStep(p, Pow2(232), TWO24);
    }
  }

  method SetCompact(pn: array<Limb>, nCompact: Limb) returns (negative: bool, overflow: bool)
    requires pn.Length == WIDTH
    modifies pn
    ensures overflow <==> Magnitude(nCompact) >= Pow2(256)
    ensures negative <==> SignBit(nCompact) && Magnitude(nCompact) != 0
    ensures Val(pn[..]) == Magnitude(nCompact) % Pow2(256)
    ensures !overflow ==> Val(pn[..]) == Magnitude(nCompact)
  {
    hide Pow2, P, Val;
    var size := Size(nCompact);
    var word := Mantissa(nCompact);
    PIsPow2(8);
    Pow2Values();
    Pow2Mono(24, 256);
    if size <= 3 {
      word := Quot(word, Pow2(8 * (3 - size)));
      SetUint64(pn, word);
    } else {
      SetUint64(pn, word);
      ShiftLeft(pn, 8 * (size - 3));
      OverflowExact(word, size);
      if word > 0 {
        MulGrows(Pow2(8 * (size - 3)), word);
      }
    }
    negative := word != 0 && SignBit(nCompact);
    overflow := OverflowTest(word, size);
    if !overflow {
      DivModUnique(Magnitude(nCompact), Pow2(256), 0, Magnitude(nCompact));
    }
  }

  /** The leading three bytes of the number, by shifting it into place. */
  method TakeLeading(pn: array<Limb>) returns (m: nat, size: nat)
    requires pn.Length == WIDTH
    ensures m == LeadingBytes(Val(pn[..])) && size == ByteLength(Val(pn[..])) && size <= 32
  {
    hide Pow2, P, Val, BitLength, Quot;
    ghost var x := Val(pn[..]);
    var bits := Bits(pn);
    size := (bits + 7) / 8;
    LeadingBounds(x);
    ByteLengthBounds(x);
    Pow2Values();
    if size <= 3 {
      var low := GetLow64(pn);
      Pow2Mono(8 * size, 24);
      SmallMod(x);
      m := low * Pow2(8 * (3 - size));
      SmallMod(m);
      m := m % MAX64 % B;
    } else {
      var bn := Copy(pn);
      ShiftRight(bn, 8 * (size - 3));
      DivIsQuot(x, Pow2(8 * (size - 3)));
      m := GetLow64(bn);
      SmallMod(LeadingBytes(x));
      m := m % B;
    }
  }

  lemma SmallMod(x: nat)
    requires x < B
    ensures x % MAX64 == x && x % B == x
  {
    DivModUnique(x, MAX64, 0, x);
    DivModUnique(x, B, 0, x);
  }

  lemma DivIsQuot(x: nat, d: nat)
    requires d > 0
    ensures x / d == Quot(x, d)
  {
  }

  /** Puts mantissa, size and sign together with bitwise or. */
  method AssembleWord(m: nat, size: nat, fNegative: bool) returns (nCompact: Limb)
    requires m < TWO23 && size < 256
    ensures nCompact == m + size * TWO24 + if fNegative && m != 0 then TWO23 else 0
  {
    hide Pow2, Or;
    Pow2Values();
    WordParts(m, size);
    OrDisjoint(size, m, 24);
    nCompact := Or32(m, size * TWO24);
    if fNegative && Mantissa(nCompact) != 0 {
      OrMiddle(size, m, 23);
      nCompact := Or32(nCompact, TWO23);
    }
  }

  method GetCompact(pn: array<Limb>, fNegative: bool) returns (nCompact: Limb)
    requires pn.Length == WIDTH
    ensures nCompact == Encode(Val(pn[..])) + if fNegative && Mantissa(Encode(Val(pn[..]))) != 0 then TWO23 else 0
  {
    hide Pow2, P, Val, BitLength, LeadingBytes, Magnitude;
    var m, size := TakeLeading(pn);
    LeadingBounds(Val(pn[..]));
    Pow2Values();
    TopBit(m, 23);
    if BitSet(m, 23) {
      m := m / 256;
      size := size + 1;
    }
    assert m < TWO23 && size < 256;  // the two asserts of the source
    WordParts(m, size);
    nCompact := AssembleWord(m, size, fNegative);
  }

  // ----- Block proof -----

  lemma ProofIdentity(m: nat, t: nat)
    requires t < m
    ensures (m - 1 - t) / (t + 1) + 1 == m / (t + 1)
  {
    var d := t + 1;
    var q, r := (m - 1 - t) / d, (m - 1 - t) % d;
    assert m - 1 - t == q * d + r;
    MulDistrib(q, 1, d);
    DivModUnique(m, d, q + 1, r);
  }

  /** A decoded target is never all ones, so the target plus one fits in 256 bits. */
  lemma NotAllOnes(c: nat)
    requires Magnitude(c) < Pow2(256)
    ensures Magnitude(c) + 1 < Pow2(256)
  {
    hide Pow2, Quot, Size, Mantissa;
    Pow2Values();
    Pow2Next(255);
    Pow2Mono(24, 256);
    if Size(c) > 3 {
      var half := HalfOf(Mantissa(c), 8 * (Size(c) - 3));
      assert Magnitude(c) == 2 * half;
    } else {
      assert Mantissa(c) < TWO23 by { MantissaBound(c); }
    }
  }

  lemma MantissaBound(c: nat)
    ensures Mantissa(c) < TWO23
  {
  }

  lemma HalfOf(m: nat, e: nat) returns (half: nat)
    requires e > 0
    ensures m * Pow2(e) == 2 * half
  {
    half := m * Pow2(e - 1);
    MulAssoc(m, 2, Pow2(e - 1));
  }

  /** floor(2^256 / (target + 1)) for every usable target, zero otherwise; the division never throws. */
  method GetBlockProof(nBits: Limb) returns (proof: array<Limb>)
    ensures proof.Length == WIDTH
    ensures var t := Magnitude(nBits);
            Val(proof[..]) == if SignBit(nBits) || t == 0 || t >= Pow2(256) then 0 else Pow2(256) / (t + 1)
  {
    hide Pow2, P, Val, Magnitude, SignBit;
    ghost var t, m := Magnitude(nBits), Pow2(256);
    PIsPow2(8);
    var target := new Limb[WIDTH](_ => 0);
    var negative, overflow := SetCompact(target, nBits);
    var one := new Limb[WIDTH](_ => 0);
    SetUint64(one, 0);
    var isZero := EqualTo(target, 0);
    if negative || overflow || isZero {
      return one;
    }
    NotAllOnes(nBits);
    proof := Complement(target);
    SetUint64(one, 1);
    AddAssign(target, one);
    DivModUnique(t + 1, m, 0, t + 1);
    var thrown, _ := DivAssign(proof, target);
    assert !thrown;
    ProofIdentity(m, t);
    ProofFits(m, t + 1);
    AddAssign(proof, one);
    DivModUnique(m / (t + 1), m, 0, m / (t + 1));
  }

  lemma ProofFits(m: nat, d: nat)
    requires d >= 2 && m > 0
    ensures m / d < m
  {
    var q, r := m / d, m % d;
    assert m == q * d + r;
    MulStep(1, d, q);
    assert q * d == d * q;
  }
}
