/** Powers of two, and the masks and shifts built on them. */
module Bits {
  function Pow2(k: nat): (p: nat)
    ensures p >= 1
  {
    if k == 0 then 1 else 2 * Pow2(k - 1)
  }

  function Div(x: nat, d: nat): nat
    requires d > 0
  {
    x / d
  }

  /** A right shift. */
  function Shr(x: nat, k: nat): nat {
    Div(x, Pow2(k))
  }

  /** Bitwise and. */
  function And(x: nat, y: nat): nat {
    if x == 0 || y == 0 then 0 else 2 * And(x / 2, y / 2) + (x % 2) * (y % 2)
  }

  /** `x & (2^k - 1)` is `x % 2^k`. */
  lemma {:induction false} AndMask(x: nat, k: nat)
    ensures And(x, Pow2(k) - 1) == x % Pow2(k)
  {
    if k > 0 {
      var p := Pow2(k - 1);
      AndMask(x / 2, k - 1);
      ModOfDouble(x, p);
      assert (2 * p - 1) / 2 == p - 1 && (2 * p - 1) % 2 == 1;
      if x == 0 {
        assert 0 % (2 * p) == 0;
      } else if p == 1 {
        assert And(x / 2, 0) == 0;
      }
    }
  }

  lemma ModOfDouble(x: nat, p: nat)
    requires p >= 1
    ensures x % (2 * p) == 2 * (x / 2 % p) + x % 2
  {
    var q := x / 2 / p;
    assert x / 2 == q * p + x / 2 % p;
    var r := 2 * (x / 2 % p) + x % 2;
    assert x == q * (2 * p) + r;
    QuotientIsUnique(x, 2 * p, q, r);
  }

  lemma MulMonotone(a: nat, b: nat, d: nat)
    requires a <= b
    ensures a * d <= b * d
  {
  }

  lemma DivBounds(x: nat, d: nat)
    requires d > 0
    ensures x / d * d <= x < x / d * d + d
  {
    assert x == x / d * d + x % d;
  }

  lemma QuotientIsUnique(x: nat, d: nat, q: nat, r: nat)
    requires d > 0 && r < d && x == q * d + r
    ensures x / d == q && x % d == r
  {
    var p := x / d;
    DivBounds(x, d);
    assert (p + 1) * d == p * d + d && (q + 1) * d == q * d + d;
    if p < q {
      MulMonotone(p + 1, q, d);
    } else if q < p {
      MulMonotone(q + 1, p, d);
    }
    assert x == p * d + x % d;
  }

  lemma {:induction false} Pow2Sum(a: nat, b: nat)
    ensures Pow2(a + b) == Pow2(a) * Pow2(b)
  {
    if a > 0 {
      Pow2Sum(a - 1, b);
      assert 2 * (Pow2(a - 1) * Pow2(b)) == (2 * Pow2(a - 1)) * Pow2(b);
    }
  }

  lemma {:induction false} Pow2Monotone(a: nat, b: nat)
    requires a <= b
    ensures Pow2(a) <= Pow2(b)
    decreases b - a
  {
    if a < b {
      Pow2Monotone(a, b - 1);
    }
  }

  lemma Pow2Values()
    ensures Pow2(4) == 16 && Pow2(7) == 128
    ensures Pow2(57) == 0x200_0000_0000_0000 && Pow2(62) == 0x4000_0000_0000_0000
    ensures Pow2(63) == 0x8000_0000_0000_0000 && Pow2(64) == 0x1_0000_0000_0000_0000
  {
    hide Pow2;
    Pow2Small();
    Pow2Sum(4, 3);
    Pow2Sum(4, 4);
    Pow2Sum(8, 8);
    Pow2Sum(16, 16);
    Pow2Sum(32, 32);
    Pow2Sum(63, 1);
    Pow2Sum(62, 1);
    Pow2Sum(57, 4);
    Pow2Sum(61, 1);
  }

  lemma Pow2Small()
    ensures Pow2(1) == 2 && Pow2(3) == 8 && Pow2(4) == 16
  {
  }

  /** A shifted 64-bit word fits in the bits that are left. */
  lemma ShiftFits(x: nat, k: nat, shift: nat)
    requires x < Pow2(k + shift)
    ensures Shr(x, shift) < Pow2(k)
  {
    Pow2Sum(k, shift);
    var d, q := Pow2(shift), x / Pow2(shift);
    DivBounds(x, d);
    if Pow2(k) <= q {
      MulMonotone(Pow2(k), q, d);
    }
  }

  // ---- Counters that wrap ----

  const WORD: nat := 0x1_0000_0000_0000_0000

  /** 64-bit subtraction. */
  function Sub64(a: nat, b: nat): (d: int)
    requires a < WORD && b < WORD
    ensures 0 <= d < WORD
  {
    if a >= b then a - b else a - b + WORD
  }

  /** Two numbers less than `n` apart have different remainders. */
  lemma ModDistinct(a: nat, b: nat, n: nat)
    requires a < b < a + n
    ensures a % n != b % n
  {
    DivBounds(a, n);
    DivBounds(b, n);
    var p, q := a / n, b / n;
    assert a == p * n + a % n && b == q * n + b % n;
    assert (p + 1) * n == p * n + n;
    if q <= p {
      MulMonotone(q, p, n);
    } else {
      MulMonotone(p + 1, q, n);
    }
  }

  /** Counters stored modulo 2^64 keep their difference, as long as it fits. */
  lemma WrappedDifference(a: nat, b: nat)
    requires b <= a < b + WORD
    ensures Sub64(a % WORD, b % WORD) == a - b
  {
  }

  lemma WrappedIncrement(a: nat)
    ensures (a % WORD + 1) % WORD == (a + 1) % WORD
  {
  }

  /** A power-of-two size in 64 bits. */
  lemma SizeFits(bits: nat)
    requires bits <= 63
    ensures 1 <= Pow2(bits) <= 0x8000_0000_0000_0000
  {
    hide Pow2;
    Pow2Values();
    Pow2Monotone(bits, 63);
  }

  /** Wrapped counters less than 2^64 apart are equal only if the counters are. */
  lemma SameRemainder(a: nat, b: nat, size: nat)
    requires a <= b <= a + size && size < WORD
    ensures a % WORD == b % WORD <==> a == b
  {
    if a < b {
      ModDistinct(a, b, WORD);
    }
  }

  /** A remainder by a multiple of `n` has the same remainder by `n`. */
  lemma ModOfMod(x: nat, n: nat, m: nat)
    requires n > 0 && m > 0
    ensures n * m > 0 && x % (n * m) % n == x % n
  {
    var w := n * m;
    var q, r := x / w, x % w;
    assert x == q * w + r;
    var p, t := r / n, r % n;
    assert r == p * n + t;
    Regroup(q, n, m, p);
    QuotientIsUnique(x, n, q * m + p, t);
  }

  lemma Regroup(q: nat, n: nat, m: nat, p: nat)
    ensures q * (n * m) + p * n == (q * m + p) * n
  {
    assert q * (n * m) == (q * m) * n;
  }

  /** The slot of a wrapped counter is the slot of the counter. */
  lemma SlotOfWrapped(x: nat, bits: nat)
    requires bits <= 64
    ensures And(x % WORD, Pow2(bits) - 1) == x % Pow2(bits)
  {
    hide Pow2, And;
    Pow2Values();
    Pow2Sum(bits, 64 - bits);
    ModOfMod(x, Pow2(bits), Pow2(64 - bits));
    AndMask(x % WORD, bits);
  }
}
