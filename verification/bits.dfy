/**
 Bit arithmetic on Python's unbounded integers, as the ARINC 429 code uses it:
 `<<` and `>>` by a non-negative count, `&` and `|` on non-negative integers,
 and counting the one-bits among the low bits of a word. Bits are numbered
 from 0 here; ARINC 429 numbers them from 1, so word bit `n` is `Bit(w, n - 1)`.
 */
module Bits {

  /** 2^n */
  function Pow2(n: nat): (r: nat)
    ensures r >= 1
  {
    if n == 0 then 1 else 2 * Pow2(n - 1)
  }

  /** Python's `v << n` for n >= 0 */
  function Shl(v: int, n: nat): (r: int)
  {
    v * Pow2(n)
  }

  /** Python's `v >> n` for n >= 0: floor division by 2^n (Dafny's `/` floors for a positive divisor) */
  function Shr(v: int, n: nat): (r: int)
    ensures v >= 0 ==> r >= 0
  {
    if v >= 0 then DivOfNonNegative(v, Pow2(n)); v / Pow2(n) else v / Pow2(n)
  }

  /** Bit i (counted from 0) of w */
  predicate Bit(w: nat, i: nat)
  {
    if i == 0 then w % 2 == 1 else Bit(w / 2, i - 1)
  }

  /** Python's `a & b` on non-negative integers */
  function And(a: nat, b: nat): (r: nat)
  {
    if a == 0 || b == 0 then 0
    else 2 * And(a / 2, b / 2) + (if a % 2 == 1 && b % 2 == 1 then 1 else 0)
  }

  /** Python's `a | b` on non-negative integers */
  function Or(a: nat, b: nat): (r: nat)
    decreases a + b
  {
    if a == 0 then b
    else if b == 0 then a
    else 2 * Or(a / 2, b / 2) + (if a % 2 == 1 || b % 2 == 1 then 1 else 0)
  }

  /** The number of one-bits among bits 0 .. n-1 of w (two's complement for a negative w) */
  function CountOnes(w: int, n: nat): nat
    decreases n
  {
    if n == 0 then 0 else w % 2 + CountOnes(w / 2, n - 1)
  }

  // ---------------------------------------------------------------------------
  // Powers of two and Euclidean division

  lemma {:induction false} Pow2Add(m: nat, n: nat)
    ensures Pow2(m + n) == Pow2(m) * Pow2(n)
  {
    if m > 0 {
      Pow2Add(m - 1, n);
      assert Pow2(m + n) == 2 * Pow2(m - 1 + n);
    }
  }

  lemma {:induction false} Pow2Monotone(m: nat, n: nat)
    requires m <= n
    ensures Pow2(m) <= Pow2(n)
  {
    if m < n {
      Pow2Monotone(m, n - 1);
    }
  }

  lemma Pow2At31And32()
    ensures Pow2(31) == 0x8000_0000
    ensures Pow2(32) == 0x1_0000_0000
  {
    assert Pow2(4) == 16;
    Pow2Add(4, 4);
    Pow2Add(8, 8);
    Pow2Add(16, 15);
    assert Pow2(15) == Pow2(16) / 2;
  }

  /** Quotient and remainder are determined by the defining equation */
  lemma DivModUnique(a: int, d: int, q: int, r: int)
    requires d > 0 && 0 <= r < d && a == d * q + r
    ensures a / d == q && a % d == r
  {
    var q0, r0 := a / d, a % d;
    assert d * (q - q0) == r0 - r;
    if q != q0 {
      var t := if q > q0 then q - q0 else q0 - q;
      MulAtLeast(d, t);
      assert false;
    }
  }

  /** Stated apart so that the solver sees this fact in a small context when it checks `Shr` */
  lemma DivOfNonNegative(v: nat, d: int)
    requires d > 0
    ensures v / d >= 0
  {
  }

  lemma {:induction false} MulAtLeast(d: nat, t: nat)
    requires t >= 1
    ensures d * t >= d
  {
    if t > 1 {
      MulAtLeast(d, t - 1);
      assert d * t == d * (t - 1) + d;
    }
  }

  /** Dividing by 2P is halving, then dividing by P; the remainder splits likewise */
  lemma DivModByDouble(a: int, p: int)
    requires p > 0
    ensures a / (2 * p) == (a / 2) / p
    ensures a % (2 * p) == 2 * ((a / 2) % p) + a % 2
  {
    var h := a / 2;
    var q, r := h / p, h % p;
    assert a == 2 * h + a % 2;
    assert h == p * q + r;
    assert a == (2 * p) * q + (2 * r + a % 2);
    DivModUnique(a, 2 * p, q, 2 * r + a % 2);
  }

  lemma ShrStep(a: int, k: nat)
    requires k > 0
    ensures Shr(a, k) == Shr(a / 2, k - 1)
  {
    DivModByDouble(a, Pow2(k - 1));
  }

  /** `(y << k) >> k == y` */
  lemma ShlThenShr(y: int, k: nat)
    ensures Shr(Shl(y, k), k) == y
  {
    DivModUnique(y * Pow2(k), Pow2(k), y, 0);
  }

  lemma MulMonotone(x: int, y: int, p: nat)
    requires x <= y
    ensures x * p <= y * p
  {
    assert y * p - x * p == (y - x) * p;
  }

  // ---------------------------------------------------------------------------
  // Bits

  lemma {:induction false} BitOfZero(i: nat)
    ensures !Bit(0, i)
  {
    if i > 0 {
      BitOfZero(i - 1);
    }
  }

  /** `&` is the bitwise conjunction */
  lemma {:induction false} BitOfAnd(a: nat, b: nat, i: nat)
    ensures Bit(And(a, b), i) <==> Bit(a, i) && Bit(b, i)
  {
    if a == 0 || b == 0 {
      BitOfZero(i);
    } else if i > 0 {
      var low := if a % 2 == 1 && b % 2 == 1 then 1 else 0;
      assert And(a, b) / 2 == And(a / 2, b / 2) by {
        assert And(a, b) == 2 * And(a / 2, b / 2) + low;
      }
      BitOfAnd(a / 2, b / 2, i - 1);
    }
  }

  /** `|` is the bitwise disjunction */
  lemma {:induction false} BitOfOr(a: nat, b: nat, i: nat)
    ensures Bit(Or(a, b), i) <==> Bit(a, i) || Bit(b, i)
    decreases a + b
  {
    if a == 0 {
      BitOfZero(i);
    } else if b == 0 {
      BitOfZero(i);
    } else if i > 0 {
      var low := if a % 2 == 1 || b % 2 == 1 then 1 else 0;
      assert Or(a, b) / 2 == Or(a / 2, b / 2) by {
        assert Or(a, b) == 2 * Or(a / 2, b / 2) + low;
      }
      BitOfOr(a / 2, b / 2, i - 1);
    }
  }

  /** Bit i of `x << k` is bit i - k of x, and the low k bits are clear */
  lemma {:induction false} BitOfShl(x: nat, k: nat, i: nat)
    ensures Bit(Shl(x, k), i) <==> k <= i && Bit(x, i - k)
  {
    if k > 0 {
      var c := x * Pow2(k - 1);
      assert Shl(x, k) == 2 * c;
      if i > 0 {
        assert (2 * c) / 2 == c;
        BitOfShl(x, k - 1, i - 1);
      }
    }
  }

  /** Bit i of `x >> k` is bit i + k of x */
  lemma {:induction false} BitOfShr(x: nat, k: nat, i: nat)
    ensures Bit(Shr(x, k), i) <==> Bit(x, i + k)
  {
    if k > 0 {
      ShrStep(x, k);
      BitOfShr(x / 2, k - 1, i);
    }
  }

  /** 2^s - 1 has exactly bits 0 .. s-1 set */
  lemma {:induction false} BitOfLowOnes(s: nat, i: nat)
    ensures Bit(Pow2(s) - 1, i) <==> i < s
  {
    if s == 0 {
      BitOfZero(i);
    } else {
      var m := Pow2(s - 1) - 1;
      assert Pow2(s) - 1 == 2 * m + 1;
      if i > 0 {
        BitOfLowOnes(s - 1, i - 1);
      }
    }
  }

  // ---------------------------------------------------------------------------
  // Masks

  /** One step of `&` holds also when an operand is zero */
  lemma AndStep(a: nat, b: nat)
    ensures And(a, b) == 2 * And(a / 2, b / 2) + (if a % 2 == 1 && b % 2 == 1 then 1 else 0)
  {
    if b == 0 {
      assert And(a / 2, 0) == 0;
    }
  }

  lemma {:induction false} AndCommutes(a: nat, b: nat)
    ensures And(a, b) == And(b, a)
  {
    if a != 0 && b != 0 {
      AndCommutes(a / 2, b / 2);
    }
  }

  /** The lowest bit of an even mask clears the lowest bit of the word */
  lemma AndEven(a: nat, c: nat)
    ensures And(a, 2 * c) == 2 * And(a / 2, c)
  {
    AndStep(a, 2 * c);
    assert (2 * c) / 2 == c && (2 * c) % 2 == 0;
  }

  lemma ShlStep(y: int, k: nat)
    requires k > 0
    ensures Shl(y, k) == 2 * Shl(y, k - 1)
  {
    assert y * (2 * Pow2(k - 1)) == 2 * (y * Pow2(k - 1));
  }

  /** Masking with a shifted mask is masking the shifted word: `a & (y << k) == ((a >> k) & y) << k` */
  lemma {:induction false} AndShifted(a: nat, y: nat, k: nat)
    ensures And(a, Shl(y, k)) == Shl(And(Shr(a, k), y), k)
  {
    if k > 0 {
      ShlStep(y, k);
      AndEven(a, Shl(y, k - 1));
      AndShifted(a / 2, y, k - 1);
      ShrStep(a, k);
      ShlStep(And(Shr(a, k), y), k);
    }
  }

  /** `a & (2^s - 1)` keeps the low s bits: it is `a mod 2^s` */
  lemma {:induction false} AndLowOnes(a: nat, s: nat)
    ensures And(a, Pow2(s) - 1) == a % Pow2(s)
  {
    if s > 0 {
      var p := Pow2(s - 1);
      var m := p - 1;
      assert Pow2(s) - 1 == 2 * m + 1;
      assert (2 * m + 1) / 2 == m && (2 * m + 1) % 2 == 1;
      AndStep(a, 2 * m + 1);
      assert And(a, 2 * m + 1) == 2 * And(a / 2, m) + a % 2;
      AndLowOnes(a / 2, s - 1);
      assert And(a / 2, m) == (a / 2) % p;
      DivModByDouble(a, p);
      assert a % Pow2(s) == 2 * ((a / 2) % p) + a % 2;
    }
  }

  /** `(x mod 2^s) << k` lies below 2^(s+k) */
  lemma ShiftedBelow(x: nat, s: nat, k: nat)
    requires x < Pow2(s)
    ensures Shl(x, k) <= Shl(Pow2(s) - 1, k) < Pow2(s + k)
  {
    MulMonotone(x, Pow2(s) - 1, Pow2(k));
    Pow2Add(s, k);
  }

  // ---------------------------------------------------------------------------
  // Disjoint high bit

  /** Setting bit n above a value below 2^n: `p | (b << n) == p + (b << n)` */
  lemma {:induction false} OrHighBit(p: nat, n: nat, b: nat)
    requires p < Pow2(n) && b <= 1
    ensures Or(p, Shl(b, n)) == p + Shl(b, n)
  {
    if b == 0 {
      assert Shl(b, n) == 0;
    } else if p == 0 {
    } else {
      assert n > 0;
      var h := Pow2(n - 1);
      assert Shl(b, n) == 2 * h;
      assert Or(p, 2 * h) == 2 * Or(p / 2, h) + p % 2;
      assert Shl(1, n - 1) == h;
      OrHighBit(p / 2, n - 1, 1);
    }
  }

  lemma {:induction false} CountOnesOfZero(n: nat)
    ensures CountOnes(0, n) == 0
  {
    if n > 0 {
      CountOnesOfZero(n - 1);
    }
  }

  /** 2^n - 1 has n one-bits among its n low bits */
  lemma {:induction false} CountOnesOfLowOnes(n: nat)
    ensures CountOnes(Pow2(n) - 1, n) == n
  {
    if n > 0 {
      var m := Pow2(n - 1) - 1;
      assert Pow2(n) - 1 == 2 * m + 1;
      CountOnesOfLowOnes(n - 1);
    }
  }

  /** Counting beyond the highest one-bit adds nothing */
  lemma {:induction false} CountOnesBeyond(x: nat, m: nat, j: nat)
    requires x < Pow2(m)
    ensures CountOnes(x, m + j) == CountOnes(x, m)
  {
    if m == 0 {
      assert x == 0;
      CountOnesOfZero(j);
    } else {
      CountOnesBeyond(x / 2, m - 1, j);
    }
  }

  /** Setting bit n above a value below 2^n adds b one-bits among the n + 1 low bits */
  lemma CountOnesOrHighBit(p: nat, n: nat, b: nat)
    requires p < Pow2(n) && b <= 1
    ensures CountOnes(Or(p, Shl(b, n)), n + 1) == CountOnes(p, n) + b
  {
    OrHighBit(p, n, b);
    CountOnesHighBit(p, n, b);
  }

  /** The one-bits of `p + (b << n)` among its n + 1 low bits are those of p plus b */
  lemma {:induction false} CountOnesHighBit(p: nat, n: nat, b: nat)
    requires p < Pow2(n) && b <= 1
    ensures CountOnes(p + Shl(b, n), n + 1) == CountOnes(p, n) + b
  {
    if n == 0 {
      assert p == 0;
      assert Shl(b, 0) == b;
    } else {
      var h := Pow2(n - 1);
      assert Shl(b, n) == 2 * (b * h);
      assert (p + Shl(b, n)) % 2 == p % 2;
      assert (p + Shl(b, n)) / 2 == p / 2 + Shl(b, n - 1);
      CountOnesHighBit(p / 2, n - 1, b);
    }
  }
}
