/** Positional numerals, most significant digit first. */
module Radix {
  import opened Powers

  ghost predicate AllBelow(s: seq<nat>, b: nat) {
    forall i | 0 <= i < |s| :: s[i] < b
  }

  ghost function Big(s: seq<nat>, b: nat): nat {
    if s == [] then 0 else Big(s[..|s| - 1], b) * b + s[|s| - 1]
  }

  lemma BigAppend(s: seq<nat>, d: nat, b: nat)
    ensures Big(s + [d], b) == Big(s, b) * b + d
  {
    assert (s + [d])[..|s|] == s;
  }

  /** The shortest numeral of n; the empty one for zero. */
  function Digits(n: nat, b: nat): (s: seq<nat>)
    requires b >= 2
    ensures AllBelow(s, b) && (s != [] ==> s[0] != 0)
  {
    if n == 0 then []
    else
      var q := Quot(n, b);
      QuotSmaller(n, b);
      Digits(q, b) + [n - q * b]
  }

  lemma {:induction false} BigOfDigits(n: nat, b: nat)
    requires b >= 2
    ensures Big(Digits(n, b), b) == n
  {
    if n == 0 {
      assert Big([], b) == 0;
    } else {
      hide Big, Quot;
      QuotSmaller(n, b);
      var q := Quot(n, b);
      BigOfDigits(q, b);
      BigAppend(Digits(q, b), n - q * b, b);
    }
  }

  lemma {:induction false} DigitsOfBig(s: seq<nat>, b: nat)
    requires b >= 2 && AllBelow(s, b) && (s != [] ==> s[0] != 0)
    ensures Digits(Big(s, b), b) == s
    ensures s != [] ==> Big(s, b) > 0
  {
    if s != [] {
      hide Quot;
      var n := |s| - 1;
      var high := Big(s[..n], b);
      DigitsOfBig(s[..n], b);
      QuotUnique(Big(s, b), b, high);
      assert s == s[..n] + [s[n]];
      if n == 0 {
        assert s[..n] == [];
      } else {
        MulGrows(high, b);
      }
    }
  }

  lemma {:induction false} BigBound(s: seq<nat>, b: nat)
    requires b >= 1 && AllBelow(s, b)
    ensures Big(s, b) < Pow(b, |s|)
  {
    if s != [] {
      var n := |s| - 1;
      BigBound(s[..n], b);
      MulStep(Big(s[..n], b), Pow(b, n), b);
    }
  }

  /** Peeling off the most significant digit. */
  lemma {:induction false} BigHead(s: seq<nat>, b: nat)
    requires s != []
    ensures Big(s, b) == s[0] * Pow(b, |s| - 1) + Big(s[1..], b)
  {
    var n := |s| - 1;
    if n > 0 {
      assert Pow(b, n) == Pow(b, n - 1) * b;
      hide Pow;
      BigHead(s[..n], b);
      assert s[1..][..n - 1] == s[..n][1..];
      MulDistrib(s[0] * Pow(b, n - 1), Big(s[..n][1..], b), b);
      MulAssoc(s[0], Pow(b, n - 1), b);
    } else {
      assert s[1..] == [] && s[..n] == [];
      PowOne(b);
    }
  }

  lemma {:induction false} BigZeros(s: seq<nat>, b: nat, k: nat)
    requires k <= |s| && forall i | 0 <= i < k :: s[i] == 0
    ensures Big(s, b) == Big(s[k..], b)
    decreases k
  {
    if k > 0 {
      BigHead(s, b);
      BigZeros(s[1..], b, k - 1);
      assert s[1..][k - 1..] == s[k..];
    } else {
      assert s[0..] == s;
    }
  }
}
