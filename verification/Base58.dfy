/** The Base58 codec of src/base58.cpp: radix conversion in a fixed buffer whose size is a rational
    approximation of a logarithm. */
module Base58 {
  import opened Options
  import opened Powers
  import opened Radix

  type Byte = x: nat | x < 256

  /** n consecutive characters. */
  function Range(first: char, n: nat): (r: string)
    requires first as int + n <= 128
    ensures |r| == n && forall i | 0 <= i < n :: r[i] == (first as int + i) as char
  {
    seq(n, i requires 0 <= i < n => (first as int + i) as char)
  }

  /** The 58 digits: letters and figures without zero, capital I, capital O and small l, which are easily confused. */
  const ALPHABET: string :=
    Range('1', 9) + Range('A', 8) + Range('J', 5) + Range('P', 11) + Range('a', 11) + Range('m', 14)

  // ----- The buffer sizes -----

  /** 58^71 is just below 256^52. */
  lemma Pow58Below256()
    ensures Pow(58, 71) <= Pow(256, 52)
  {
    hide Pow;
    PowOne(58);
    PowOne(256);
    PowAdd(58, 1, 1);
    PowAdd(58, 2, 1);
    PowAdd(58, 2, 2);
    PowAdd(58, 4, 3);
    PowAdd(58, 4, 4);
    PowAdd(58, 8, 8);
    PowAdd(58, 16, 16);
    assert Pow(58, 32) == 0xaf820335d9b3d9cf58b911d87035677fb7f528100000000;
    PowAdd(58, 32, 32);
    PowAdd(58, 64, 7);
    PowAdd(256, 1, 1);
    PowAdd(256, 2, 2);
    PowAdd(256, 4, 4);
    PowAdd(256, 8, 8);
    PowAdd(256, 16, 4);
    PowAdd(256, 16, 16);
    PowAdd(256, 32, 20);
  }

  /** 256^8 is just below 58^11. */
  lemma Pow256Below58()
    ensures Pow(256, 8) <= Pow(58, 11)
  {
    hide Pow;
    PowOne(58);
    PowOne(256);
    PowAdd(58, 1, 1);
    PowAdd(58, 2, 1);
    PowAdd(58, 2, 2);
    PowAdd(58, 4, 4);
    PowAdd(58, 8, 3);
    PowAdd(256, 1, 1);
    PowAdd(256, 2, 2);
    PowAdd(256, 4, 4);
  }

  /** n bytes always fit in n * 138 / 100 + 1 base-58 digits. */
  lemma EncodeSizeSuffices(n: nat)
    ensures Pow(256, n) < Pow(58, n * 138 / 100 + 1)
  {
    Pow256Below58();
    PowCompare(256, 58, 8, 11, n, n * 138 / 100 + 1);
  }

  /** n base-58 digits always fit in n * 733 / 1000 + 1 bytes. */
  lemma DecodeSizeSuffices(n: nat)
    ensures Pow(58, n) < Pow(256, n * 733 / 1000 + 1)
  {
    Pow58Below256();
    PowCompare(58, 256, 71, 52, n, n * 733 / 1000 + 1);
  }

  // ----- One multiply-and-add over the buffer -----

  lemma DigitStep(low: nat, carry: nat, seen: nat, digit: nat, factor: nat, add: nat, base: nat, i: nat, q: nat)
    requires low + carry * Pow(base, i) == seen * factor + add
    requires q * base <= carry + factor * digit
    ensures var c := carry + factor * digit;
            (c - q * base) * Pow(base, i) + low + q * Pow(base, i + 1) == (digit * Pow(base, i) + seen) * factor + add
  {
    var w := Pow(base, i);
    assert Pow(base, i + 1) == base * w;
    hide Pow;
    MulAssoc(q, base, w);
    MulDistrib(carry + factor * digit - q * base, q * base, w);
    MulDistrib(carry, factor * digit, w);
    MulDistrib(digit * w, seen, factor);
    MulAssoc(factor, digit, w);
  }

  /** The last i digits of x have been multiplied and added into the last i digits of s and a carry. */
  ghost predicate Partial(x: seq<nat>, s: seq<nat>, base: nat, factor: nat, add: nat, carry: nat, i: nat) {
    && |s| == |x| && i <= |s| && AllBelow(s, base)
    && s[..|s| - i] == x[..|x| - i]
    && Big(s[|s| - i..], base) + carry * Pow(base, i) == Big(x[|x| - i..], base) * factor + add
  }

  lemma PartialStart(x: seq<nat>, base: nat, factor: nat, add: nat)
    requires AllBelow(x, base)
    ensures Partial(x, x, base, factor, add, add, 0)
  {
    assert x[|x|..] == [];
    PowOne(base);
  }

  lemma PartialStep(x: seq<nat>, s: seq<nat>, base: nat, factor: nat, add: nat, carry: nat, i: nat, q: nat)
    requires Partial(x, s, base, factor, add, carry, i) && i < |s|
    requires var c := carry + factor * s[|s| - i - 1]; q * base <= c < q * base + base
    ensures var k := |s| - i - 1;
            Partial(x, s[k := carry + factor * s[k] - q * base], base, factor, add, q, i + 1)
  {
    hide Big, Pow;
    var k := |s| - i - 1;
    assert s[k] == s[..k + 1][k] == x[k];
    var t := s[k := carry + factor * s[k] - q * base];
    assert t[k..][1..] == s[k + 1..] && x[k..][1..] == x[k + 1..];
    BigHead(t[k..], base);
    BigHead(x[k..], base);
    DigitStep(Big(s[k + 1..], base), carry, Big(x[k + 1..], base), x[k], factor, add, base, i, q);
    assert t[..k] == s[..k + 1][..k] == x[..k];
  }

  lemma PartialEnd(x: seq<nat>, s: seq<nat>, base: nat, factor: nat, add: nat, carry: nat, i: nat)
    requires Partial(x, s, base, factor, add, carry, i)
    requires forall j | 0 <= j < |x| - i :: x[j] == 0
    requires carry == 0 || (i == |s| && Big(x, base) * factor + add < Pow(base, |s|))
    ensures carry == 0 && Big(s, base) == Big(x, base) * factor + add
  {
    hide Big, Pow;
    var k := |s| - i;
    forall j | 0 <= j < k
      ensures s[j] == 0
    {
      assert s[j] == s[..k][j] == x[j];
    }
    BigZeros(x, base, k);
    BigZeros(s, base, k);
    if carry != 0 {
      NoCarry(Big(s, base), carry, Pow(base, i));
    }
  }

  /** "b = b * factor + carry" on the last digits of the buffer, in place. The assertion that nothing is
      carried out of the buffer holds whenever the result fits. */
  method MulAdd(buf: array<nat>, base: nat, factor: nat, add: nat, length: nat) returns (length': nat)
    requires base >= 2 && AllBelow(buf[..], base) && length <= buf.Length
    requires forall j | 0 <= j < buf.Length - length :: buf[j] == 0
    requires Big(buf[..], base) * factor + add < Pow(base, buf.Length)
    modifies buf
    ensures AllBelow(buf[..], base) && length' <= buf.Length
    ensures forall j | 0 <= j < buf.Length - length' :: buf[j] == 0
    ensures Big(buf[..], base) == old(Big(buf[..], base)) * factor + add
  {
    hide Big, Pow, Quot, Partial;
    ghost var x := buf[..];
    var carry: nat := add;
    var i := 0;
    PartialStart(x, base, factor, add);
    while (carry != 0 || i < length) && i < buf.Length
      invariant i <= buf.Length
      invariant Partial(x, buf[..], base, factor, add, carry, i)
      decreases buf.Length - i
    {
      var k := buf.Length - i - 1;
      var c: nat := carry + factor * buf[k];
      var q := Quot(c, base);
      PartialStep(x, buf[..], base, factor, add, carry, i, q);
      ghost var s := buf[..];
      var digit: nat := c - q * base;
      buf[k] := digit;
      assert buf[..] == s[k := digit];
      carry := q;
      i := i + 1;
    }
    PartialEnd(x, buf[..], base, factor, add, carry, i);
    PartialPrefix(x, buf[..], base, factor, add, carry, i);
    assert carry == 0;  // the assert of the source
    length' := i;
  }

  lemma PartialPrefix(x: seq<nat>, s: seq<nat>, base: nat, factor: nat, add: nat, carry: nat, i: nat)
    requires Partial(x, s, base, factor, add, carry, i)
    ensures |s| == |x| && AllBelow(s, base) && forall j | 0 <= j < |s| - i :: s[j] == x[j]
  {
    forall j | 0 <= j < |s| - i
      ensures s[j] == x[j]
    {
      assert s[j] == s[..|s| - i][j];
    }
  }

  lemma NoCarry(v: nat, carry: nat, p: nat)
    requires v + carry * p < p
    ensures carry == 0
  {
    if carry > 0 {
      MulGrows(p, carry);
    }
  }

  // ----- The alphabet -----

  /** strchr: the first position of c, or -1. */
  function Strchr(a: string, c: char): (r: int)
    ensures -1 <= r < |a|
    ensures r >= 0 ==> a[r] == c
    ensures r == -1 ==> c !in a
  {
    if a == [] then -1
    else if a[0] == c then 0
    else
      var r := Strchr(a[1..], c);
      if r < 0 then -1 else r + 1
  }

  /** The alphabet is in ASCII order, so no character occurs twice; none of its characters is white space. */
  lemma AlphabetAscends()
    ensures |ALPHABET| == 58
    ensures forall i, j | 0 <= i < j < 58 :: ALPHABET[i] < ALPHABET[j]
    ensures forall i | 0 <= i < 58 :: ALPHABET[i] >= '1' == ALPHABET[0]
  {
  }

  /** The alphabet is the ASCII figures and letters without 0, I, O and l; white space is what C's isspace says. */
  lemma AlphabetIs(c: char)
    ensures c in ALPHABET <==>
              ('0' <= c <= '9' || 'A' <= c <= 'Z' || 'a' <= c <= 'z') && c !in {'0', 'I', 'O', 'l'}
    ensures IsSpace(c) <==> c as int in {9, 10, 11, 12, 13, 32}
  {
    var n := c as int;
    InRange('1', 9, c);
    InRange('A', 8, c);
    InRange('J', 5, c);
    InRange('P', 11, c);
    InRange('a', 11, c);
    InRange('m', 14, c);
    hide Range;
  }

  lemma InRange(first: char, n: nat, c: char)
    requires first as int + n <= 128
    ensures c in Range(first, n) <==> first as int <= c as int < first as int + n
  {
    if first as int <= c as int < first as int + n {
      assert Range(first, n)[c as int - first as int] == c;
    }
  }

  function CharOf(d: nat): char
    requires d < 58
  {
    AlphabetAscends();
    ALPHABET[d]
  }

  function DigitOf(c: char): (r: int)
    ensures -1 <= r < 58
  {
    AlphabetAscends();
    Strchr(ALPHABET, c)
  }

  /** C's isspace in the default locale. */
  predicate IsSpace(c: char) {
    c == ' ' || 9 <= c as int <= 13
  }

  /** Characters and digits correspond one to one, zero to '1', and white space to no digit. */
  lemma CharDigit(d: nat)
    requires d < 58
    ensures DigitOf(CharOf(d)) == d && !IsSpace(CharOf(d)) && (CharOf(d) == '1' <==> d == 0)
  {
    AlphabetAscends();
    var r := DigitOf(ALPHABET[d]);
    assert ALPHABET[d] in ALPHABET;
    assert ALPHABET[r] == ALPHABET[d];
  }

  lemma DigitChar(c: char)
    requires DigitOf(c) >= 0
    ensures CharOf(DigitOf(c)) == c && !IsSpace(c) && (c == '1' <==> DigitOf(c) == 0)
  {
    AlphabetAscends();
    CharDigit(DigitOf(c));
  }

  // ----- What encoding and decoding mean -----

  function LeadCount<T(==)>(s: seq<T>, x: T): (n: nat)
    ensures n <= |s| && (forall i | 0 <= i < n :: s[i] == x) && (n < |s| ==> s[n] != x)
  {
    if s != [] && s[0] == x then 1 + LeadCount(s[1..], x) else 0
  }

  lemma LeadCountUnique<T>(s: seq<T>, x: T, n: nat)
    requires n <= |s| && (forall i | 0 <= i < n :: s[i] == x) && (n < |s| ==> s[n] != x)
    ensures LeadCount(s, x) == n
  {
  }

  function Repeat<T>(x: T, n: nat): (r: seq<T>)
    ensures |r| == n && forall i | 0 <= i < n :: r[i] == x
  {
    seq(n, _ => x)
  }

  function Chars(digits: seq<nat>): (r: string)
    requires AllBelow(digits, 58)
    ensures |r| == |digits| && forall i | 0 <= i < |r| :: r[i] == CharOf(digits[i])
  {
    seq(|digits|, i requires 0 <= i < |digits| => CharOf(digits[i]))
  }

  ghost predicate InAlphabet(t: string) {
    forall i | 0 <= i < |t| :: DigitOf(t[i]) >= 0
  }

  ghost function Values(t: string): (r: seq<nat>)
    requires InAlphabet(t)
    ensures |r| == |t| && AllBelow(r, 58) && forall i | 0 <= i < |r| :: r[i] == DigitOf(t[i])
  {
    seq(|t|, i requires 0 <= i < |t| => DigitOf(t[i]))
  }

  /** Leading zero bytes become leading '1's, the rest is one big number. */
  ghost function Encode(v: seq<nat>): string {
    var z := LeadCount(v, 0);
    Repeat('1', z) + Chars(Digits(Big(v[z..], 256), 58))
  }

  ghost function TrimLeft(s: string): string {
    if s != [] && IsSpace(s[0]) then TrimLeft(s[1..]) else s
  }

  ghost function TrimRight(s: string): string {
    if s != [] && IsSpace(s[|s| - 1]) then TrimRight(s[..|s| - 1]) else s
  }

  ghost function Trim(s: string): string {
    TrimRight(TrimLeft(s))
  }

  /** The bytes of a trimmed numeral. */
  ghost function Bytes(t: string): seq<nat>
    requires InAlphabet(t)
  {
    var z := LeadCount(t, '1');
    Repeat(0, z) + Digits(Big(Values(t[z..]), 58), 256)
  }

  ghost function Decode(s: string): Option<seq<nat>> {
    if InAlphabet(Trim(s)) then Some(Bytes(Trim(s))) else None
  }

  // ----- Base58 is a bijection -----

  lemma ValuesOfChars(d: seq<nat>)
    requires AllBelow(d, 58)
    ensures InAlphabet(Chars(d)) && Values(Chars(d)) == d
  {
    hide CharOf, DigitOf;
    forall i | 0 <= i < |d|
      ensures DigitOf(Chars(d)[i]) == d[i]
    {
      CharDigit(d[i]);
    }
  }

  lemma EncodeInAlphabet(v: seq<nat>)
    requires AllBelow(v, 256)
    ensures InAlphabet(Encode(v))
    ensures LeadCount(Encode(v), '1') == LeadCount(v, 0)
    ensures var z := LeadCount(v, 0); Values(Encode(v)[z..]) == Digits(Big(v[z..], 256), 58)
  {
    hide Big, Digits, CharOf, DigitOf, Values;
    var z := LeadCount(v, 0);
    var d := Digits(Big(v[z..], 256), 58);
    var ones, t := Repeat('1', z), Encode(v);
    ValuesOfChars(d);
    OneIsZero();
    CharDigit(0);
    if d != [] {
      CharDigit(d[0]);
    }
    assert t[z..] == Chars(d);
    LeadCountUnique(t, '1', z);
  }

  lemma OneIsZero()
    ensures CharOf(0) == '1'
  {
    AlphabetAscends();
  }

  lemma TrimNothing(t: string)
    requires InAlphabet(t)
    ensures Trim(t) == t
  {
    if t != [] {
      DigitChar(t[0]);
      DigitChar(t[|t| - 1]);
    }
  }

  /** Decoding an encoding returns the bytes. */
  lemma DecodeEncode(v: seq<nat>)
    requires AllBelow(v, 256)
    ensures Decode(Encode(v)) == Some(v)
  {
    hide Big, Digits, CharOf, DigitOf, Encode, Values, InAlphabet, Trim;
    var z := LeadCount(v, 0);
    EncodeInAlphabet(v);
    TrimNothing(Encode(v));
    BigOfDigits(Big(v[z..], 256), 58);
    DigitsOfBig(v[z..], 256);
    assert v == Repeat(0, z) + v[z..];
  }

  lemma CharsOfValues(t: string)
    requires InAlphabet(t)
    ensures Chars(Values(t)) == t
  {
    hide CharOf, DigitOf;
    forall i | 0 <= i < |t|
      ensures CharOf(Values(t)[i]) == t[i]
    {
      DigitChar(t[i]);
    }
  }

  lemma EncodeBytes(t: string)
    requires InAlphabet(t)
    ensures AllBelow(Bytes(t), 256) && Encode(Bytes(t)) == t
  {
    hide Big, Digits, CharOf, DigitOf, Chars;
    var z := LeadCount(t, '1');
    var rest := t[z..];
    var digits := Values(rest);
    var bytes := Digits(Big(digits, 58), 256);
    LeadCountUnique(Repeat(0, z) + bytes, 0, z);
    assert (Repeat(0, z) + bytes)[z..] == bytes;
    BigOfDigits(Big(digits, 58), 256);
    if rest != [] {
      DigitChar(t[z]);
    }
    DigitsOfBig(digits, 58);
    CharsOfValues(rest);
    assert t == Repeat('1', z) + rest;
  }

  /** Encoding what a string decodes to returns the string without surrounding white space. */
  lemma EncodeDecode(s: string)
    requires Decode(s).Some?
    ensures AllBelow(Decode(s).value, 256) && Encode(Decode(s).value) == Trim(s)
  {
    hide Bytes, Encode, Trim, InAlphabet;
    EncodeBytes(Trim(s));
  }

  // ----- The two conversions -----

  /** The buffer holds the value of the digits read so far, in its last `length` places. */
  ghost predicate Holds(buf: seq<nat>, base: nat, length: nat, read: seq<nat>, from: nat) {
    && length <= |buf| && AllBelow(buf, base)
    && (forall j | 0 <= j < |buf| - length :: buf[j] == 0)
    && Big(buf, base) == Big(read, from)
  }

  lemma HoldsNothing(buf: seq<nat>, base: nat, from: nat)
    requires base > 0 && forall j | 0 <= j < |buf| :: buf[j] == 0
    ensures Holds(buf, base, 0, [], from)
  {
    BigZeros(buf, base, |buf|);
    assert buf[|buf|..] == [];
  }

  /** One more digit still fits, because all `total` of them do. */
  lemma NextFits(read: seq<nat>, d: nat, from: nat, base: nat, total: nat, size: nat)
    requires from >= 2 && AllBelow(read, from) && d < from && |read| < total && Pow(from, total) < Pow(base, size)
    ensures Big(read + [d], from) == Big(read, from) * from + d < Pow(base, size)
  {
    hide Pow, Big;
    BigAppend(read, d, from);
    BigBound(read + [d], from);
    if |read| + 1 < total {
      PowLess(from, |read| + 1, total);
    }
  }

  /** Skipping the zeros in front leaves the shortest numeral. */
  method SkipZeros(buf: array<nat>, base: nat, length: nat, ghost value: nat) returns (digits: seq<nat>)
    requires base >= 2 && AllBelow(buf[..], base) && length <= buf.Length && Big(buf[..], base) == value
    requires forall j | 0 <= j < buf.Length - length :: buf[j] == 0
    ensures digits == Digits(value, base)
  {
    hide Big, Digits;
    var it := buf.Length - length;
    while it < buf.Length && buf[it] == 0
      invariant buf.Length - length <= it <= buf.Length
      invariant forall j | 0 <= j < it :: buf[j] == 0
    {
      it := it + 1;
    }
    BigZeros(buf[..], base, it);
    digits := buf[it..];
    assert buf[..][it..] == digits;
    DigitsOfBig(digits, base);
  }

  /** The digits of a numeral in base `from`, converted to `base` in a buffer of the given size. */
  method Convert(read: seq<nat>, from: nat, base: nat, size: nat) returns (digits: seq<nat>)
    requires from >= 2 && base >= 2 && AllBelow(read, from) && Pow(from, |read|) < Pow(base, size)
    ensures digits == Digits(Big(read, from), base)
  {
    hide Big, Digits, Pow, Holds;
    var buf := new nat[size](_ => 0);
    var length := 0;
    HoldsNothing(buf[..], base, from);
    assert read[..0] == [];
    for i := 0 to |read|
      invariant Holds(buf[..], base, length, read[..i], from)
    {
      NextFits(read[..i], read[i], from, base, |read|, size);
      assert read[..i + 1] == read[..i] + [read[i]];
      length := Accept(buf, base, from, read[i], length, read[..i]);
    }
    assert read[..|read|] == read;
    HoldsParts(buf[..], base, length, read, from);
    digits := SkipZeros(buf, base, length, Big(read, from));
  }

  method EncodeBase58(v: seq<nat>) returns (str: string)
    requires AllBelow(v, 256)
    ensures str == Encode(v)
  {
    hide Big, Digits, Pow;
    var zeroes := 0;
    while zeroes < |v| && v[zeroes] == 0
      invariant zeroes <= |v| && forall i | 0 <= i < zeroes :: v[i] == 0
    {
      zeroes := zeroes + 1;
    }
    LeadCountUnique(v, 0, zeroes);
    EncodeSizeSuffices(|v| - zeroes);
    var digits := Convert(v[zeroes..], 256, 58, (|v| - zeroes) * 138 / 100 + 1);
    str := Repeat('1', zeroes) + Chars(digits);
  }

  lemma HoldsParts(buf: seq<nat>, base: nat, length: nat, read: seq<nat>, from: nat)
    requires Holds(buf, base, length, read, from)
    ensures length <= |buf| && AllBelow(buf, base) && Big(buf, base) == Big(read, from)
    ensures forall j | 0 <= j < |buf| - length :: buf[j] == 0
  {
  }

  /** One digit is read into the buffer. */
  method Accept(buf: array<nat>, base: nat, from: nat, d: nat, length: nat, ghost read: seq<nat>) returns (length': nat)
    requires base >= 2 && Holds(buf[..], base, length, read, from)
    requires Big(read + [d], from) == Big(read, from) * from + d < Pow(base, buf.Length)
    modifies buf
    ensures Holds(buf[..], base, length', read + [d], from)
  {
    length' := MulAdd(buf, base, from, d, length);
  }

  // ----- White space -----

  lemma {:induction false} TrimLeftIs(s: string, a: nat)
    requires a <= |s| && (forall i | 0 <= i < a :: IsSpace(s[i])) && (a < |s| ==> !IsSpace(s[a]))
    ensures TrimLeft(s) == s[a..]
    decreases a
  {
    if a > 0 {
      TrimLeftIs(s[1..], a - 1);
    }
  }

  lemma {:induction false} TrimRightIs(s: string, b: nat)
    requires b <= |s| && (forall i | b <= i < |s| :: IsSpace(s[i])) && (b > 0 ==> !IsSpace(s[b - 1]))
    ensures TrimRight(s) == s[..b]
    decreases |s|
  {
    if b < |s| {
      TrimRightIs(s[..|s| - 1], b);
      assert s[..|s| - 1][..b] == s[..b];
    } else {
      assert s[..b] == s;
    }
  }

  /** Nothing up to a character that is not white space is cut off on the right. */
  lemma {:induction false} TrimRightKeeps(s: string, j: nat, k: nat)
    requires j <= k < |s| && !IsSpace(s[k])
    ensures s[j] in TrimRight(s)
    decreases |s|
  {
    if IsSpace(s[|s| - 1]) {
      TrimRightKeeps(s[..|s| - 1], j, k);
    }
  }

  lemma TrimIs(s: string, a: nat, b: nat)
    requires a <= b <= |s| && (forall i | 0 <= i < a || b <= i < |s| :: IsSpace(s[i]))
    requires (a < b ==> !IsSpace(s[a]) && !IsSpace(s[b - 1])) && (a == b ==> b == |s|)
    ensures Trim(s) == s[a..b]
  {
    TrimLeftIs(s, a);
    TrimRightIs(s[a..], b - a);
    assert s[a..][..b - a] == s[a..b];
  }

  lemma TrimKeeps(s: string, a: nat, j: nat, k: nat)
    requires a <= j <= k < |s| && (forall i | 0 <= i < a :: IsSpace(s[i])) && !IsSpace(s[a]) && !IsSpace(s[k])
    ensures s[j] in Trim(s)
  {
    TrimLeftIs(s, a);
    TrimRightKeeps(s[a..], j - a, k - a);
  }

  lemma NotInAlphabet(t: string, c: char)
    requires c in t && DigitOf(c) < 0
    ensures !InAlphabet(t)
  {
  }

  lemma SpaceIsNoDigit(c: char)
    requires IsSpace(c)
    ensures DigitOf(c) < 0
  {
    if DigitOf(c) >= 0 {
      DigitChar(c);
    }
  }

  /** A C string: no terminator inside. */
  method DecodeBase58(psz: string) returns (ok: bool, vch: seq<nat>)
    requires '\0' !in psz
    ensures Decode(psz) == if ok then Some(vch) else None
  {
    hide Big, Digits, Pow, Holds, DigitOf, CharOf, Trim, IsSpace;
    vch := [];
    var p := 0;
    while p < |psz| && IsSpace(psz[p])
      invariant p <= |psz| && forall i | 0 <= i < p :: IsSpace(psz[i])
    {
      p := p + 1;
    }
    ghost var start := p;
    var zeroes := 0;
    OneIsZero();
    CharDigit(0);
    while p < |psz| && psz[p] == '1'
      invariant start <= p <= |psz| && zeroes == p - start && forall i | start <= i < p :: psz[i] == '1'
    {
      zeroes, p := zeroes + 1, p + 1;
    }
    ghost var first, total := p, |psz| - p;
    var size := (|psz| - p) * 733 / 1000 + 1;
    DecodeSizeSuffices(total);
    var b256 := new nat[size](_ => 0);
    var length := 0;
    HoldsNothing(b256[..], 256, 58);
    ghost var read: seq<nat> := [];
    while p < |psz| && !IsSpace(psz[p])
      invariant first <= p <= |psz|
      invariant |read| == p - first && AllBelow(read, 58)
      invariant forall i | 0 <= i < |read| :: read[i] == DigitOf(psz[first + i])
      invariant forall i | first <= i < p :: !IsSpace(psz[i])
      invariant Holds(b256[..], 256, length, read, 58)
    {
      var d := DigitOf(psz[p]);
      if d < 0 {
        TrimKeeps(psz, start, p, p);
        NotInAlphabet(Trim(psz), psz[p]);
        return false, [];
      }
      NextFits(read, d, 58, 256, total, size);
      length := Accept(b256, 256, 58, d, length, read);
      read := read + [d];
      p := p + 1;
    }
    ghost var end := p;
    while p < |psz| && IsSpace(psz[p])
      invariant end <= p <= |psz| && forall i | end <= i < p :: IsSpace(psz[i])
    {
      p := p + 1;
    }
    if p != |psz| {
      TrimKeeps(psz, start, end, p);
      SpaceIsNoDigit(psz[end]);
      NotInAlphabet(Trim(psz), psz[end]);
      return false, [];
    }
    TrimIs(psz, start, end);
    BodyParts(psz[start..end], zeroes, read);
    HoldsParts(b256[..], 256, length, read, 58);
    var digits := SkipZeros(b256, 256, length, Big(read, 58));
    return true, Repeat(0, zeroes) + digits;
  }

  /** What the two reading loops have established about the text between the white space. */
  lemma BodyParts(t: string, zeroes: nat, read: seq<nat>)
    requires zeroes <= |t| && |read| == |t| - zeroes && AllBelow(read, 58)
    requires forall i | 0 <= i < zeroes :: t[i] == '1'
    requires zeroes < |t| ==> t[zeroes] != '1'
    requires forall i | 0 <= i < |read| :: read[i] == DigitOf(t[zeroes + i])
    ensures InAlphabet(t) && Bytes(t) == Repeat(0, zeroes) + Digits(Big(read, 58), 256)
  {
    hide Big, Digits, DigitOf, CharOf;
    OneIsZero();
    CharDigit(0);
    LeadCountUnique(t, '1', zeroes);
    forall i | 0 <= i < |t|
      ensures DigitOf(t[i]) >= 0
    {
      if i >= zeroes {
        assert read[i - zeroes] == DigitOf(t[zeroes + (i - zeroes)]);
      }
    }
    assert Values(t[zeroes..]) == read;
  }

  // ----- The variants with a checksum -----

  /** The first four bytes of the double-SHA256 of the payload, left open. */
  ghost predicate IsChecksum(hash: seq<nat> -> seq<nat>) {
    forall v :: |hash(v)| == 4 && AllBelow(hash(v), 256)
  }

  method EncodeBase58Check(v: seq<nat>, hash: seq<nat> -> seq<nat>) returns (str: string)
    requires AllBelow(v, 256) && IsChecksum(hash)
    ensures str == Encode(v + hash(v))
  {
    str := EncodeBase58(v + hash(v));
  }

  ghost function DecodeCheck(s: string, hash: seq<nat> -> seq<nat>): Option<seq<nat>> {
    match Decode(s)
    case None => None
    case Some(w) =>
      if |w| < 4 then None
      else
        var v := w[..|w| - 4];
        if hash(v) == w[|w| - 4..] then Some(v) else None
  }

  method DecodeBase58Check(psz: string, hash: seq<nat> -> seq<nat>) returns (ok: bool, vch: seq<nat>)
    requires '\0' !in psz && IsChecksum(hash)
    ensures DecodeCheck(psz, hash) == if ok then Some(vch) else None
  {
    hide Decode;
    ok, vch := DecodeBase58(psz);
    if !ok || |vch| < 4 {
      return false, [];
    }
    var payload := vch[..|vch| - 4];
    if hash(payload) != vch[|vch| - 4..] {
      return false, [];
    }
    vch := payload;
  }

  /** A checked encoding decodes to its payload, and a string that decodes is, up to surrounding white space,
      the checked encoding of what it decodes to. */
  lemma CheckRoundTrip(v: seq<nat>, hash: seq<nat> -> seq<nat>)
    requires AllBelow(v, 256) && IsChecksum(hash)
    ensures DecodeCheck(Encode(v + hash(v)), hash) == Some(v)
  {
    hide Encode, Decode;
    var w := v + hash(v);
    DecodeEncode(w);
    assert w[..|w| - 4] == v && w[|w| - 4..] == hash(v);
  }

  lemma CheckedStringIsEncoding(s: string, hash: seq<nat> -> seq<nat>)
    requires DecodeCheck(s, hash).Some?
    ensures var v := DecodeCheck(s, hash).value; AllBelow(v, 256) && Encode(v + hash(v)) == Trim(s)
  {
    hide Encode, Decode, Trim;
    EncodeDecode(s);
    var w := Decode(s).value;
    assert w == w[..|w| - 4] + w[|w| - 4..];
  }
}
