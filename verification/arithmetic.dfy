// Arithmetic on unsigned numbers, unfolded one step at a time so that proofs
// about its users stay linear.
module Arithmetic {

  // Product, quotient and remainder of unsigned numbers, one addition or
  // subtraction at a time.
  function Product(a: nat, b: nat): (p: nat)
    ensures a > 0 && b > 0 ==> p > 0
  {
    if a == 0 then 0 else Product(a - 1, b) + b
  }

  lemma {:induction false} ProductIsTimes(a: nat, b: nat)
    ensures Product(a, b) == a * b
  {
    if a > 0 {
      ProductIsTimes(a - 1, b);
      assert (a - 1) * b + b == a * b;
    }
  }

  function Quotient(a: nat, d: nat): nat
    requires d > 0
  {
    if a < d then 0 else Quotient(a - d, d) + 1
  }

  function Remainder(a: nat, d: nat): (r: nat)
    requires d > 0
    ensures r < d
  {
    if a < d then a else Remainder(a - d, d)
  }

  // x steps of size d, one at a time.
  lemma {:induction false} StepsUp(a: int, x: nat, d: int)
    requires d > 0
    ensures a * d <= (a + x) * d
    decreases x
  {
    if x > 0 {
      StepsUp(a, x - 1, d);
      OneStep(a + x - 1, d);
    }
  }

  lemma OneStep(a: int, d: int)
    ensures (a + 1) * d == a * d + d
  {
  }

  lemma MulStrict(a: int, b: int, d: int)
    requires d > 0
    ensures a < b ==> a * d + d <= b * d
    ensures a * d < b * d ==> a < b
  {
    if a < b {
      StepsUp(a + 1, b - a - 1, d);
      OneStep(a, d);
    } else {
      StepsUp(b, a - b, d);
    }
  }

  lemma DivModUnique(a: int, d: int, q: int, r: int)
    requires d > 0 && a == q * d + r && 0 <= r < d
    ensures a / d == q && a % d == r
  {
    var q' := a / d;
    assert a == q' * d + a % d;
    MulStrict(q, q', d);
    MulStrict(q', q, d);
  }

  lemma {:induction false} QuotientRemainder(a: nat, d: nat)
    requires d > 0
    ensures a == Quotient(a, d) * d + Remainder(a, d)
  {
    if a >= d {
      QuotientRemainder(a - d, d);
      assert (Quotient(a - d, d) + 1) * d == Quotient(a - d, d) * d + d;
    }
  }

  // They are division and remainder.
  lemma {:induction false} QuotientIsDivision(a: nat, d: nat)
    requires d > 0
    ensures Quotient(a, d) == a / d && Remainder(a, d) == a % d
  {
    QuotientRemainder(a, d);
    DivModUnique(a, d, Quotient(a, d), Remainder(a, d));
  }

  lemma {:induction false} QuotientUnique(a: nat, d: nat, q: nat, r: nat)
    requires d > 0 && a == q * d + r && r < d
    ensures Quotient(a, d) == q && Remainder(a, d) == r
  {
    QuotientRemainder(a, d);
    MulStrict(q, Quotient(a, d), d);
    MulStrict(Quotient(a, d), q, d);
  }

  // A remainder modulo 2^32 from any quotient that fits.
  lemma RemainderIs(x: int, q: int, r: int)
    requires x == q * 0x1_0000_0000 + r && 0 <= r < 0x1_0000_0000
    ensures x % 0x1_0000_0000 == r
  {
  }

  // ------------------------------------------------------------------------
  // Bits of a number, least significant first; a negative number in two's
  // complement.

  function Pow2(k: nat): (p: nat)
    ensures p > 0
  {
    if k == 0 then 1 else 2 * Pow2(k - 1)
  }

  lemma Pow2Four(k: nat, p: nat)
    requires Pow2(k) == p
    ensures Pow2(k + 4) == 16 * p
  {
    assert Pow2(k + 1) == 2 * p;
    assert Pow2(k + 2) == 4 * p;
    assert Pow2(k + 3) == 8 * p;
  }

  lemma Pow2Of28()
    ensures Pow2(28) == 0x1000_0000
  {
    assert Pow2(0) == 1;
    Pow2Four(0, 1);
    Pow2Four(4, 0x10);
    Pow2Four(8, 0x100);
    Pow2Four(12, 0x1000);
    Pow2Four(16, 0x1_0000);
    Pow2Four(20, 0x10_0000);
    Pow2Four(24, 0x100_0000);
  }

  function Bits(n: int, width: nat): (w: seq<bool>)
    ensures |w| == width
    decreases width, n
  {
    if width == 0 then [] else [n % 2 == 1] + Bits(n / 2, width - 1)
  }

  function Value(w: seq<bool>): nat {
    if w == [] then 0 else (if w[0] then 1 else 0) + 2 * Value(w[1..])
  }

  // What is left of a number when its low bits are dropped.
  function Rest(n: int, width: nat): int
    decreases width
  {
    if width == 0 then n else Rest(n / 2, width - 1)
  }

  lemma {:induction false} BitsAndRest(n: int, width: nat)
    ensures Value(Bits(n, width)) < Pow2(width)
    ensures n == Value(Bits(n, width)) + Pow2(width) * Rest(n, width)
    decreases width
  {
    if width > 0 {
      BitsAndRest(n / 2, width - 1);
      assert Bits(n, width)[1..] == Bits(n / 2, width - 1);
      var v, p, r := Value(Bits(n / 2, width - 1)), Pow2(width - 1), Rest(n / 2, width - 1);
      DoubleProduct(n / 2, v, p, r);
    }
  }

  lemma DoubleProduct(h: int, v: int, p: int, r: int)
    requires h == v + p * r
    ensures 2 * h == 2 * v + 2 * p * r
  {
  }

  lemma {:induction false} BitsInjective(a: nat, b: nat, width: nat)
    requires a < Pow2(width) && b < Pow2(width) && Bits(a, width) == Bits(b, width)
    ensures a == b
  {
    if width > 0 {
      assert Bits(a, width)[0] == Bits(b, width)[0];
      assert Bits(a, width)[1..] == Bits(b, width)[1..];
      BitsInjective(a / 2, b / 2, width - 1);
    }
  }

  lemma {:induction false} BitsOfValue(w: seq<bool>)
    ensures Value(w) < Pow2(|w|) && Bits(Value(w), |w|) == w
  {
    if w != [] {
      BitsOfValue(w[1..]);
      assert [w[0]] + w[1..] == w;
    }
  }

  lemma HalfThenRest(n: nat, p: nat)
    requires p > 0
    ensures n / 2 / p == n / (2 * p)
  {
    var q, r := n / 2 / p, n / 2 % p;
    assert n == 2 * (q * p + r) + n % 2;
    assert 2 * (q * p) == q * (2 * p);
    DivModUnique(n, 2 * p, q, 2 * r + n % 2);
  }

  // Bit i of a number.
  lemma {:induction false} BitAt(n: nat, width: nat, i: nat)
    requires i < width
    ensures Bits(n, width)[i] <==> n / Pow2(i) % 2 == 1
    decreases width
  {
    if i > 0 {
      BitAt(n / 2, width - 1, i - 1);
      HalfThenRest(n, Pow2(i - 1));
    }
  }

  // The bits of a byte with others above it.
  lemma {:induction false} LowerBits(b: nat, x: nat, width: nat, more: nat)
    ensures Bits(b + Pow2(width) * x, width + more) == Bits(b % Pow2(width), width) + Bits(b / Pow2(width) + x, more)
    decreases width
  {
    if width == 0 {
      assert Bits(b + x, more) == [] + Bits(b + x, more);
    } else {
      var p := Pow2(width - 1);
      LowerStep(b, x, p);
      LowerBits(b / 2, x, width - 1, more);
    }
  }

  lemma {:induction false} LowerAt(b: nat, x: nat, width: nat, more: nat, i: nat)
    requires b < Pow2(width) && i < width + more
    ensures Bits(b + Pow2(width) * x, width + more)[i] ==
            if i < width then Bits(b, width)[i] else Bits(x, more)[i - width]
  {
    DivModUnique(b, Pow2(width), 0, b);
    LowerBits(b, x, width, more);
  }

  lemma LowerStep(b: nat, x: nat, p: nat)
    requires p > 0
    ensures (b + 2 * p * x) / 2 == b / 2 + p * x && (b + 2 * p * x) % 2 == b % 2
    ensures b % (2 * p) / 2 == b / 2 % p && b % (2 * p) % 2 == b % 2 && b / (2 * p) == b / 2 / p
  {
    HalfThenRest(b, p);
    var q, r := b / 2 / p, b / 2 % p;
    assert b == q * (2 * p) + (2 * r + b % 2) by {
      assert b == 2 * (q * p + r) + b % 2;
      assert 2 * (q * p) == q * (2 * p);
    }
    DivModUnique(b, 2 * p, q, 2 * r + b % 2);
    assert 2 * p * x == 2 * (p * x);
  }

  // A number with one bit set.
  lemma {:induction false} OneBit(k: nat, width: nat, i: nat)
    requires k < width && i < width
    ensures Bits(Pow2(k), width)[i] <==> i == k
    decreases width
  {
    if k == 0 {
      if i > 0 {
        NoBits(width - 1, i - 1);
      }
    } else if i > 0 {
      OneBit(k - 1, width - 1, i - 1);
    }
  }

  lemma {:induction false} NoBits(width: nat, i: nat)
    requires i < width
    ensures !Bits(0, width)[i]
    decreases width
  {
    if i > 0 {
      NoBits(width - 1, i - 1);
    }
  }
}
