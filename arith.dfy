/** Integer facts behind the address arithmetic: powers of two, Python's
    floor division on positive divisors (Dafny's `/` and `%` agree with it
    there), the non-negative bitwise AND `&`, and the zero-padded binary
    rendering used by `'{0:032b}'.format(...)`. */
module Arith {

  function Pow2(k: nat): (r: nat)
    ensures r >= 1
  {
    if k == 0 then 1 else 2 * Pow2(k - 1)
  }

  lemma MulAtLeast(d: int, m: int)
    requires d >= 1 && m > 0
    ensures d * m >= m
  {
    assert d * m == (d - 1) * m + m;
  }

  /** Quotient and remainder are determined by the division equation. */
  lemma DivModUnique(x: int, m: int, q: int, r: int)
    requires m > 0 && x == q * m + r && 0 <= r < m
    ensures x / m == q && x % m == r
  {
    var q', r' := x / m, x % m;
    assert x == q' * m + r';
    assert (q - q') * m == r' - r;
    if q > q' {
      MulAtLeast(q - q', m);
    } else if q < q' {
      MulAtLeast(q' - q, m);
    }
  }

  /** Dividing twice is dividing by the product (floor division, any sign of x). */
  lemma DivDiv(x: int, a: int, b: int)
    requires a > 0 && b > 0
    ensures (x / a) / b == x / (a * b)
    ensures x % (a * b) == x % a + a * ((x / a) % b)
  {
    var q1, r1 := x / a, x % a;
    var q2, r2 := q1 / b, q1 % b;
    assert x == (a * b) * q2 + (a * r2 + r1) by {
      assert q1 == b * q2 + r2;
      assert x == a * q1 + r1;
      assert a * q1 == a * (b * q2) + a * r2;
    }
    assert a * r2 <= a * (b - 1) by { MulMono(a, r2, b - 1); }
    assert a * (b - 1) == a * b - a;
    DivModUnique(x, a * b, q2, a * r2 + r1);
  }

  lemma MulMono(a: int, x: int, y: int)
    requires a >= 0 && x <= y
    ensures a * x <= a * y
  {
    assert a * y - a * x == a * (y - x);
  }

  lemma Pow2Add(a: nat, b: nat)
    ensures Pow2(a + b) == Pow2(a) * Pow2(b)
  {
    if a > 0 {
      Pow2Add(a - 1, b);
    }
  }

  lemma Pow2Mono(a: nat, b: nat)
    requires a <= b
    ensures Pow2(a) <= Pow2(b)
  {
    if a < b {
      Pow2Mono(a, b - 1);
    }
  }

  /** `v` rounded down to a multiple of `m`. */
  function AlignedDown(v: nat, m: nat): (r: nat)
    requires m > 0
    ensures r % m == 0 && r <= v < r + m
  {
    DivModUnique(v - v % m, m, v / m, 0);
    v - v % m
  }

  lemma AlignedFits(x: int, m: int, p: int)
    requires m > 0 && p > 0 && x % m == 0 && 0 <= x < m * p
    ensures x + m <= m * p
  {
    var q := x / m;
    assert x == m * q;
    if q >= p {
      MulMono(m, p, q);
    }
    MulMono(m, q + 1, p);
  }

  lemma SmallMod(x: int, m: int)
    requires 0 <= x < m
    ensures x % m == x
  {
    DivModUnique(x, m, 0, x);
  }

  lemma MultipleOfFactor(x: int, m: int, f: int)
    requires m > 0 && f > 0 && x % (m * f) == 0
    ensures x % m == 0 && (x + m * f) % m == 0
  {
    var d := m * f;
    var q := x / d;
    assert x == d * q + x % d;
    assert d * q == m * (f * q);
    DivModUnique(x, m, f * q, 0);
    assert m * (f * q) + m * f == m * (f * q + f);
    DivModUnique(x + m * f, m, f * q + f, 0);
  }

  /** A multiple of a larger power of two is a multiple of a smaller one,
      and so is the next multiple. */
  lemma AlignCoarser(x: int, a: nat, b: nat)
    requires a <= b && x % Pow2(b) == 0
    ensures x % Pow2(a) == 0 && (x + Pow2(b)) % Pow2(a) == 0
  {
    Pow2Add(a, b - a);
    assert a + (b - a) == b;
    MultipleOfFactor(x, Pow2(a), Pow2(b - a));
  }

  /** Python's `a & b` on non-negative integers, bit by bit from the bottom. */
  function BitAnd(a: nat, b: nat): (r: nat)
    decreases a
  {
    if a == 0 || b == 0 then 0
    else 2 * BitAnd(a / 2, b / 2) + (if a % 2 == 1 && b % 2 == 1 then 1 else 0)
  }

  lemma AndOddStep(a: nat, h: nat)
    requires a > 0 && h >= 1
    ensures BitAnd(a, 2 * h - 1) == 2 * BitAnd(a / 2, h - 1) + a % 2
  {
    var b := 2 * h - 1;
    assert b % 2 == 1 && b / 2 == h - 1;
  }

  lemma AndEvenStep(a: nat, d: nat)
    requires a > 0 && d >= 1
    ensures BitAnd(a, 2 * d) == 2 * BitAnd(a / 2, d)
  {
    var b := 2 * d;
    assert b % 2 == 0 && b / 2 == d;
  }

  /** AND with a single power of two isolates that bit. */
  lemma {:induction false} AndSingleBit(a: nat, j: nat)
    ensures BitAnd(a, Pow2(j)) == Pow2(j) * ((a / Pow2(j)) % 2)
  {
    if a == 0 {
    } else if j == 0 {
      assert BitAnd(a, 1) == 2 * BitAnd(a / 2, 0) + a % 2;
    } else {
      var h := Pow2(j - 1);
      assert Pow2(j) == 2 * h;
      AndEvenStep(a, h);
      AndSingleBit(a / 2, j - 1);
      DivDiv(a, 2, h);
      ScaleStep(BitAnd(a, Pow2(j)), BitAnd(a / 2, h), h, ((a / 2) / h) % 2);
    }
  }

  lemma ScaleStep(x: int, y: int, h: int, t: int)
    requires x == 2 * y && y == h * t
    ensures x == (2 * h) * t
  {
  }

  /** AND with k low one-bits keeps the low k bits. */
  lemma {:induction false} AndLowOnes(a: nat, k: nat)
    ensures BitAnd(a, Pow2(k) - 1) == a % Pow2(k)
  {
    if k == 0 {
      assert Pow2(k) - 1 == 0;
    } else if a == 0 {
      assert BitAnd(a, Pow2(k) - 1) == 0;
    } else {
      var h := Pow2(k - 1);
      assert 2 * h == Pow2(k);
      AndOddStep(a, h);
      AndLowOnes(a / 2, k - 1);
      DivDiv(a, 2, h);
    }
  }

  /** AND with the ones from bit w up to bit k-1 (the mask `m`) clears the
      low w bits of a k-bit value. */
  lemma {:induction false} AndHighMask(a: nat, k: nat, w: nat, m: nat)
    requires w <= k && a < Pow2(k) && m == Pow2(k) - Pow2(w)
    ensures BitAnd(a, m) == a - a % Pow2(w)
    decreases k, 1
  {
    if w == 0 {
      HighMaskAllOnes(a, k, m);
    } else if w == k {
      DivModUnique(a, Pow2(k), 0, a);
      assert m == 0;
    } else if a > 0 {
      HighMaskStep(a, k, w, m);
    } else {
      DivModUnique(0, Pow2(w), 0, 0);
    }
  }

  lemma HalfBelow(a: nat, h: nat)
    requires a < 2 * h
    ensures a / 2 < h
  {
  }

  lemma HighMaskAllOnes(a: nat, k: nat, m: nat)
    requires a < Pow2(k) && m == Pow2(k) - Pow2(0)
    ensures BitAnd(a, m) == a - a % Pow2(0)
  {
    assert Pow2(0) == 1;
    AndLowOnes(a, k);
    DivModUnique(a, Pow2(k), 0, a);
  }

  /** The inductive step of `AndHighMask`: drop the lowest bit of both sides. */
  lemma {:induction false} HighMaskStep(a: nat, k: nat, w: nat, m: nat)
    requires 0 < w < k && 0 < a < Pow2(k) && m == Pow2(k) - Pow2(w)
    ensures BitAnd(a, m) == a - a % Pow2(w)
    decreases k, 0
  {
    var h, g := Pow2(k - 1), Pow2(w - 1);
    assert Pow2(k) == 2 * h && Pow2(w) == 2 * g;
    Pow2Mono(w, k - 1);
    HalfBelow(a, h);
    var d := h - g;
    AndHighMask(a / 2, k - 1, w - 1, d);
    HighMaskHalves(a, d, g, m);
  }

  /** One bit more: the mask `b` is twice the mask `d` that works on `a / 2`. */
  lemma HighMaskHalves(a: nat, d: nat, g: nat, b: nat)
    requires 0 < a && 1 <= g <= d && b == 2 * d
    requires BitAnd(a / 2, d) == a / 2 - (a / 2) % g
    ensures BitAnd(a, b) == a - a % (2 * g)
  {
    AndEvenStep(a, d);
    LowBitsOfDouble(a, g);
    HighMaskCombine(a, a / 2, a % 2, (a / 2) % g, BitAnd(a / 2, d), BitAnd(a, b), a % (2 * g));
  }

  /** The low bits below 2g: the lowest bit, then the bits of a / 2 below g. */
  lemma LowBitsOfDouble(a: nat, g: nat)
    requires g >= 1
    ensures a % (2 * g) == a % 2 + 2 * ((a / 2) % g)
  {
    DivDiv(a, 2, g);
  }

  lemma HighMaskCombine(a: int, x: int, r: int, y: int, res: int, and2: int, m2: int)
    requires a == 2 * x + r && res == x - y && and2 == 2 * res && m2 == r + 2 * y
    ensures and2 == a - m2
  {
  }

  /** `s` repeated n times. */
  function Repeat(c: char, n: nat): (r: seq<char>)
    ensures |r| == n && forall i :: 0 <= i < n ==> r[i] == c
  {
    if n == 0 then [] else Repeat(c, n - 1) + [c]
  }

  /** The low k bits of m as k binary digits, most significant first. */
  function Bin(m: nat, k: nat): (r: seq<char>)
    ensures |r| == k
  {
    if k == 0 then [] else Bin(m / 2, k - 1) + [if m % 2 == 1 then '1' else '0']
  }

  /** The k-bit value whose top k-w bits are one and whose low w bits are zero. */
  lemma {:induction false} BinOfHighMask(k: nat, w: nat, m: nat)
    requires w <= k && m == Pow2(k) - Pow2(w)
    ensures Bin(m, k) == Repeat('1', k - w) + Repeat('0', w)
  {
    if w == k {
      BinOfZero(k);
      assert Repeat('1', 0) == [];
    } else {
      var h := Pow2(k - 1);
      assert Pow2(k) == 2 * h;
      Pow2Mono(w, k - 1);
      if w == 0 {
        DivModUnique(m, 2, h - 1, 1);
        BinOfHighMask(k - 1, 0, h - 1);
        assert Bin(m, k) == Bin(h - 1, k - 1) + ['1'];
        assert Repeat('0', 0) == [];
      } else {
        var g := Pow2(w - 1);
        assert Pow2(w) == 2 * g;
        var d := h - g;
        DivModUnique(m, 2, d, 0);
        BinOfHighMask(k - 1, w - 1, d);
        assert Bin(m, k) == Bin(d, k - 1) + ['0'];
        var ones, zeros := Repeat('1', k - w), Repeat('0', w - 1);
        assert Repeat('0', w) == zeros + ['0'];
        assert (ones + zeros) + ['0'] == ones + (zeros + ['0']);
      }
    }
  }

  lemma {:induction false} BinOfZero(k: nat)
    ensures Bin(0, k) == Repeat('0', k)
  {
    if k > 0 {
      BinOfZero(k - 1);
    }
  }

  /** Distinct k-bit values have distinct k-digit renderings. */
  lemma {:induction false} BinInjective(a: nat, b: nat, k: nat)
    requires a < Pow2(k) && b < Pow2(k) && Bin(a, k) == Bin(b, k)
    ensures a == b
  {
    if k > 0 {
      assert Bin(a, k)[k - 1] == Bin(b, k)[k - 1];
      assert Bin(a / 2, k - 1) == Bin(a, k)[..k - 1] == Bin(b, k)[..k - 1] == Bin(b / 2, k - 1);
      BinInjective(a / 2, b / 2, k - 1);
    }
  }
}
