/** Fixed-width unsigned arithmetic on natural numbers: powers of two and the
    bitwise AND and OR of the program's unsigned types, each defined digit by
    digit and characterised by its bits. */
module Bits {

  function Pow2(n: nat): (r: nat)
    ensures r >= 1
  {
    if n == 0 then 1 else 2 * Pow2(n - 1)
  }

  predicate Bit(x: nat, i: nat) {
    if i == 0 then x % 2 == 1 else Bit(x / 2, i - 1)
  }

  function And(x: nat, y: nat): nat {
    if x == 0 || y == 0 then 0
    else 2 * And(x / 2, y / 2) + (if x % 2 == 1 && y % 2 == 1 then 1 else 0)
  }

  function Or(x: nat, y: nat): nat {
    if x == 0 then y
    else if y == 0 then x
    else 2 * Or(x / 2, y / 2) + (if x % 2 == 1 || y % 2 == 1 then 1 else 0)
  }

  lemma {:induction false} ZeroBits(i: nat)
    ensures !Bit(0, i)
  {
    if i > 0 { ZeroBits(i - 1); }
  }

  lemma {:induction false} AndBits(x: nat, y: nat, i: nat)
    ensures Bit(And(x, y), i) <==> Bit(x, i) && Bit(y, i)
  {
    if x == 0 || y == 0 {
      ZeroBits(i);
    } else if i > 0 {
      AndBits(x / 2, y / 2, i - 1);
    }
  }

  lemma {:induction false} OrBits(x: nat, y: nat, i: nat)
    ensures Bit(Or(x, y), i) <==> Bit(x, i) || Bit(y, i)
  {
    if x == 0 || y == 0 {
      ZeroBits(i);
    } else if i > 0 {
      OrBits(x / 2, y / 2, i - 1);
    }
  }

  /** Two numbers with the same bits are equal. */
  lemma {:induction false} SameBits(x: nat, y: nat)
    requires forall i: nat :: Bit(x, i) <==> Bit(y, i)
    ensures x == y
    decreases x + y
  {
    assert Bit(x, 0) <==> Bit(y, 0);
    if x + y > 0 {
      forall i: nat ensures Bit(x / 2, i) <==> Bit(y / 2, i) {
        assert Bit(x, i + 1) <==> Bit(y, i + 1);
      }
      SameBits(x / 2, y / 2);
    }
  }

  lemma {:induction false} Pow2Add(m: nat, n: nat)
    ensures Pow2(m + n) == Pow2(m) * Pow2(n)
  {
    if m > 0 { Pow2Add(m - 1, n); }
  }

  lemma {:induction false} Pow2Mono(m: nat, n: nat)
    requires m <= n
    ensures Pow2(m) <= Pow2(n)
  {
    if m < n { Pow2Mono(m, n - 1); }
  }

  lemma Pow2Zero()
    ensures Pow2(0) == 1
  {
  }

  lemma Pow2Step(n: nat)
    requires n > 0
    ensures Pow2(n) == 2 * Pow2(n - 1)
  {
  }

  /** AND with the complement of the low k bits of a w-bit word clears exactly those bits. */
  lemma {:induction false} AndTopMask(x: nat, w: nat, k: nat)
    requires k <= w && x < Pow2(w)
    ensures Pow2(k) <= Pow2(w)
    ensures And(x, Pow2(w) - Pow2(k)) == x - x % Pow2(k)
  {
    hide And, Pow2;
    Pow2Mono(k, w);
    if k == 0 {
      Pow2Zero();
      AndAllOnes(x, w);
    } else {
      var h, q := Pow2(k - 1), Pow2(w - 1);
      Pow2Step(k);
      Pow2Step(w);
      AndTopMask(x / 2, w - 1, k - 1);
      TopMaskStep(x, h, q, Pow2(k), Pow2(w));
    }
  }

  lemma TopMaskStep(x: nat, h: nat, q: nat, p: nat, v: nat)
    requires 1 <= h <= q && p == 2 * h && v == 2 * q && And(x / 2, q - h) == x / 2 - (x / 2) % h
    ensures And(x, v - p) == x - x % p
  {
    hide And;
    HalfMod(x, h);
    AndStep(x, v - p);
    HalfOf(q - h, 0);
  }

  lemma {:induction false} AndAllOnes(x: nat, w: nat)
    requires x < Pow2(w)
    ensures And(x, Pow2(w) - 1) == x
  {
    if x > 0 {
      AndAllOnes(x / 2, w - 1);
      assert (Pow2(w) - 1) / 2 == Pow2(w - 1) - 1;
    }
  }

  /** The lowest bit apart. */
  lemma AndStep(x: nat, y: nat)
    ensures And(x, y) == 2 * And(x / 2, y / 2) + (if x % 2 == 1 && y % 2 == 1 then 1 else 0)
  {
  }

  /** A number of k bits meets only the low k bits of the other. */
  lemma {:induction false} AndLow(x: nat, m: nat, k: nat)
    requires x < Pow2(k)
    ensures And(x, m) == And(x, m % Pow2(k))
  {
    if x > 0 {
      hide And;
      var h := Pow2(k - 1);
      AndLow(x / 2, m / 2, k - 1);
      HalfMod(m, h);
      AndStep(x, m);
      AndStep(x, m % (2 * h));
      HalfOf((m / 2) % h, m % 2);
    }
  }

  lemma HalfOf(a: nat, b: nat)
    requires b < 2
    ensures (2 * a + b) / 2 == a && (2 * a + b) % 2 == b
  {
  }

  lemma {:induction false} HalfMod(x: nat, h: nat)
    requires h >= 1
    ensures x % (2 * h) == 2 * ((x / 2) % h) + x % 2
  {
    var q, r := (x / 2) / h, (x / 2) % h;
    assert x == (2 * h) * q + (2 * r + x % 2);
    assert 0 <= 2 * r + x % 2 < 2 * h;
    ModUnique(x, 2 * h, q, 2 * r + x % 2);
  }

  lemma {:induction false} ModUnique(x: int, d: nat, q: int, r: int)
    requires d >= 1 && 0 <= r < d && x == d * q + r
    ensures x % d == r && x / d == q
  {
    assert d * (q - x / d) == d * q - d * (x / d) == x % d - r;
    var k := q - x / d;
    NonzeroMultiple(d, k);
  }

  lemma NonzeroMultiple(d: int, k: int)
    requires d >= 1
    ensures k >= 1 ==> d * k >= d
    ensures k <= -1 ==> d * k <= -d
  {
    assert k >= 1 ==> d * (k - 1) >= 0;
    assert k <= -1 ==> d * (-k - 1) >= 0;
  }
}
