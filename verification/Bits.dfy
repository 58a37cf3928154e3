/** Powers of two and the masking of natural numbers. */
module Bits {

  function Pow2(k: nat): (r: nat)
    ensures r > 0
  {
    if k == 0 then 1 else 2 * Pow2(k - 1)
  }

  predicate IsPow2(n: nat) {
    n == 1 || (n > 1 && n % 2 == 0 && IsPow2(n / 2))
  }

  lemma {:induction false} Pow2Scales(n: nat, k: nat)
    requires IsPow2(n)
    ensures IsPow2(n * Pow2(k)) && n * Pow2(k) >= n
    ensures k > 0 ==> n * Pow2(k) >= 2 * n
    decreases k
  {
    if k > 0 {
      Pow2Scales(2 * n, k - 1);
      assert n * Pow2(k) == (2 * n) * Pow2(k - 1) by {
        Regroup(n, Pow2(k - 1));
      }
    } else {
      assert n * Pow2(k) == n;
    }
  }

  lemma Regroup(n: nat, p: nat)
    ensures n * (2 * p) == (2 * n) * p
  {
  }

  /** Bitwise "and" of natural numbers. */
  function And(x: nat, y: nat): nat {
    if x == 0 || y == 0 then 0 else (x % 2) * (y % 2) + 2 * And(x / 2, y / 2)
  }

  /** Masking with a power of two minus one is the remainder. */
  lemma {:induction false} MaskIsRemainder(x: nat, n: nat)
    requires IsPow2(n)
    ensures And(x, n - 1) == x % n
  {
    if n == 1 {
      assert x % 1 == 0;
    } else {
      var m := n / 2;
      assert n == 2 * m;
      AndStep(x, m);
      HalfRemainder(x, m);
      MaskIsRemainder(x / 2, m);
    }
  }

  lemma AndStep(x: nat, m: nat)
    requires m > 0
    ensures And(x, 2 * m - 1) == x % 2 + 2 * And(x / 2, m - 1)
  {
    var y := 2 * m - 1;
    assert y / 2 == m - 1 && y % 2 == 1;
    assert (x % 2) * 1 == x % 2;
  }

  lemma HalfRemainder(x: nat, m: nat)
    requires m > 0
    ensures x % (2 * m) == x % 2 + 2 * ((x / 2) % m)
  {
    var q, r := (x / 2) / m, (x / 2) % m;
    assert x / 2 == q * m + r;
    assert q * (2 * m) == 2 * (q * m);
    RemainderUnique(x, 2 * m, q, x % 2 + 2 * r);
  }

  lemma RemainderUnique(x: nat, n: nat, q: nat, s: nat)
    requires n > 0 && s < n && x == q * n + s
    ensures x % n == s
  {
    DivMod(x, n);
    SmallMultiple(q - x / n, n, x % n - s) by {
      assert (q - x / n) * n == q * n - (x / n) * n;
    }
  }

  lemma DivMod(x: nat, n: nat)
    requires n > 0
    ensures x == (x / n) * n + x % n
  {
  }

  lemma SmallMultiple(d: int, n: int, r: int)
    requires d * n == r && -n < r < n
    ensures r == 0
  {
    if d > 0 {
      AtLeastOnce(d, n);
    } else if d < 0 {
      AtLeastOnce(-d, n);
    }
  }

  lemma AtLeastOnce(d: int, n: int)
    requires d > 0 && n > 0
    ensures d * n >= n
  {
    assert (d - 1) * n >= 0;
    assert (d - 1) * n == d * n - n;
  }

  /** The byte with these halves. */
  function Byte(high: nat, low: nat): bv8
    requires high < 16 && low < 16
  {
    high as bv8 * 16 + low as bv8
  }

  lemma NibbleAsNat(n: nat)
    requires n < 16
    ensures n as bv8 < 16 && (n as bv8) as nat == n
  {
  }

  lemma JoinNibbles(h: bv8, l: bv8)
    requires h < 16 && l < 16
    ensures (h * 16 + l) as nat == 16 * h as nat + l as nat
  {
  }

  lemma ByteIs(high: nat, low: nat)
    requires high < 16 && low < 16
    ensures Byte(high, low) as nat == 16 * high + low
  {
    NibbleAsNat(high);
    NibbleAsNat(low);
    JoinNibbles(high as bv8, low as bv8);
  }

  lemma SameByte(a: bv8, b: bv8)
    requires a as nat == b as nat
    ensures a == b
  {
    assert (a as nat) as bv8 == a && (b as nat) as bv8 == b;
  }
}
