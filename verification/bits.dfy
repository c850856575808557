/** Swift's `>>` and `&` on `Int`, written bit by bit, and the arithmetic they amount to.

    Swift's `Int` is two's complement; `x >> k` is an arithmetic shift (the sign bit is copied in)
    and `x & m` combines the two's-complement bit strings. Both are modelled over unbounded `int`:
    the low bit of `x` is `x % 2` and "drop the low bit" is `x / 2` (Dafny's `/` and `%` are
    Euclidean, which for divisor 2 is exactly floor division and a non-negative remainder). The
    lemmas show that shifting by k is floor division by 2^k and that masking with 2^k - 1 is the
    non-negative remainder modulo 2^k, for negative `x` as well. */
module Bits {

  /** 2^k */
  function Pow2(k: nat): (p: int)
    ensures p >= 1
  {
    if k == 0 then 1 else 2 * Pow2(k - 1)
  }

  /** `x >> k`: k arithmetic shifts right by one place. The sign is kept, and a non-negative value
      never grows. */
  function Shr(x: int, k: nat): (r: int)
    ensures r < 0 <==> x < 0
    ensures 0 <= x ==> r <= x
    decreases k
  {
    if k == 0 then x else Shr(x / 2, k - 1)
  }

  /** `x & m` for a non-negative mask `m`: the low bits of both operands are combined one at a time.
      Masking can only clear bits of `m`, so the result lies between 0 and `m`. */
  function And(x: int, m: nat): (r: int)
    ensures 0 <= r <= m
    decreases m
  {
    if m == 0 then 0
    else (if x % 2 == 1 && m % 2 == 1 then 1 else 0) + 2 * And(x / 2, m / 2)
  }

  /** Bit `i` of the two's-complement representation of `x`. */
  function Bit(x: int, i: nat): int
  {
    (x / Pow2(i)) % 2
  }

  lemma Pow2Add(a: nat, b: nat)
    ensures Pow2(a + b) == Pow2(a) * Pow2(b)
    decreases a
  {
    if a > 0 {
      Pow2Add(a - 1, b);
    }
  }

  lemma MulAtLeastOne(n: int, d: int)
    requires n >= 1 && d > 0
    ensures n * d >= d
  {
    assert n * d == (n - 1) * d + d;
    assert (n - 1) * d >= 0;
  }

  /** Euclidean division is unique: a quotient and remainder that fit are THE quotient and remainder. */
  lemma DivModUnique(x: int, d: int, q: int, r: int)
    requires d > 0 && 0 <= r < d && x == q * d + r
    ensures x / d == q && x % d == r
  {
    var q', r' := x / d, x % d;
    assert x == q' * d + r';
    assert (q - q') * d == r' - r;
    if q - q' >= 1 {
      MulAtLeastOne(q - q', d);
      assert false;
    } else if q' - q >= 1 {
      MulAtLeastOne(q' - q, d);
      assert false;
    }
  }

  /** Adding a multiple of the divisor leaves the remainder unchanged. */
  lemma ModAddMultiple(x: int, k: int, d: int)
    requires d > 0
    ensures (x + k * d) % d == x % d
  {
    var q, r := x / d, x % d;
    assert x + k * d == (q + k) * d + r by {
      assert x == q * d + r;
      assert (q + k) * d == q * d + k * d;
    }
    DivModUnique(x + k * d, d, q + k, r);
  }

  /** Regrouping a two-level quotient: (q2 * b + r2) * a + r1 with digits r1 < a and r2 < b is
      q2 * (a * b) plus a remainder below a * b. */
  lemma Regroup(a: int, b: int, q2: int, r1: int, r2: int)
    requires a > 0 && b > 0 && 0 <= r1 < a && 0 <= r2 < b
    ensures (q2 * b + r2) * a + r1 == q2 * (a * b) + (r2 * a + r1)
    ensures 0 <= r2 * a + r1 < a * b
  {
    assert (q2 * b + r2) * a == q2 * b * a + r2 * a;
    assert q2 * b * a == q2 * (a * b);
    assert r2 * a <= (b - 1) * a by {
      assert (b - 1 - r2) * a >= 0;
    }
    assert (b - 1) * a == a * b - a;
  }

  /** Dividing twice is dividing by the product. */
  lemma DivDiv(x: int, a: int, b: int)
    requires a > 0 && b > 0
    ensures x / a / b == x / (a * b)
  {
    var q1, r1 := x / a, x % a;
    var q2, r2 := q1 / b, q1 % b;
    Regroup(a, b, q2, r1, r2);
    assert x == (q2 * b + r2) * a + r1 by {
      assert x == q1 * a + r1;
      assert q1 == q2 * b + r2;
    }
    DivModUnique(x, a * b, q2, r2 * a + r1);
  }

  /** The remainder modulo 2m splits into the low bit and the remainder of the rest modulo m. */
  lemma ModDouble(x: int, m: int)
    requires m > 0
    ensures x % (2 * m) == x % 2 + 2 * ((x / 2) % m)
  {
    var q1, r1 := x / 2, x % 2;
    var q2, r2 := q1 / m, q1 % m;
    assert x == q2 * (2 * m) + (2 * r2 + r1);
    DivModUnique(x, 2 * m, q2, 2 * r2 + r1);
  }

  /** Taking the remainder modulo a*b, then dividing by a, is dividing by a, then taking the remainder modulo b. */
  lemma ModThenDiv(x: int, a: int, b: int)
    requires a > 0 && b > 0
    ensures (x % (a * b)) / a == (x / a) % b
  {
    var q1, r1 := x / a, x % a;
    var q2, r2 := q1 / b, q1 % b;
    var rest := r2 * a + r1;
    Regroup(a, b, q2, r1, r2);
    assert x == (q2 * b + r2) * a + r1 by {
      assert x == q1 * a + r1;
      assert q1 == q2 * b + r2;
    }
    DivModUnique(x, a * b, q2, rest);
    DivModUnique(rest, a, r2, r1);
  }

  /** A remainder modulo an even number keeps the low bit. */
  lemma ModEvenKeepsParity(x: int, m: int)
    requires m > 0
    ensures (x % (2 * m)) % 2 == x % 2
  {
    ModDouble(x, m);
    var t := (x / 2) % m;
    DivModUnique(x % 2 + 2 * t, 2, t, x % 2);
  }

  /** Shifting right by k places is floor division by 2^k. */
  lemma {:induction false} ShrIsDiv(x: int, k: nat)
    ensures Shr(x, k) == x / Pow2(k)
    decreases k
  {
    if k > 0 {
      ShrIsDiv(x / 2, k - 1);
      DivDiv(x, 2, Pow2(k - 1));
    }
  }

  /** Masking with k one-bits is the non-negative remainder modulo 2^k. */
  lemma {:induction false} AndLowMaskIsMod(x: int, k: nat)
    ensures And(x, Pow2(k) - 1) == x % Pow2(k)
    decreases k
  {
    if k > 0 {
      var m := Pow2(k - 1);
      assert (Pow2(k) - 1) / 2 == m - 1;
      assert (Pow2(k) - 1) % 2 == 1;
      AndLowMaskIsMod(x / 2, k - 1);
      ModDouble(x, m);
    }
  }

  /** Bit j of the field `(x >> s) & (2^w - 1)` is bit s + j of x, for every j below the field width w. */
  lemma {:induction false} FieldBit(x: int, s: nat, w: nat, j: nat)
    requires j < w
    ensures Bit((x / Pow2(s)) % Pow2(w), j) == Bit(x, s + j)
  {
    var y := x / Pow2(s);
    Pow2Add(j, w - j);
    ModThenDiv(y, Pow2(j), Pow2(w - j));
    assert Pow2(w - j) == 2 * Pow2(w - j - 1);
    ModEvenKeepsParity(y / Pow2(j), Pow2(w - j - 1));
    DivDiv(x, Pow2(s), Pow2(j));
    Pow2Add(s, j);
  }
}
