/** Fixed-width unsigned words as natural numbers, with the bitwise operators defined bit by bit.

    A shift by `n` is a multiplication or division by `Pow2(n)`; `|`, `&` and `~` are defined by
    recursion on the bits, and the lemmas below give what the rest of the project needs of them. */
module Bits {

  function Pow2(n: nat): (p: nat)
    ensures p >= 1
  {
    if n == 0 then 1 else 2 * Pow2(n - 1)
  }

  const TWO_8: nat := 0x100
  const TWO_16: nat := 0x1_0000
  const TWO_32: nat := 0x1_0000_0000
  const TWO_64: nat := 0x1_0000_0000_0000_0000

  /** A 64-bit machine word. */
  type Word = w: nat | w < 0x1_0000_0000_0000_0000

  /** Bit `i` of `w`. */
  predicate Bit(w: nat, i: nat) {
    if i == 0 then w % 2 == 1 else Bit(w / 2, i - 1)
  }

  function BitAnd(a: nat, b: nat): nat {
    if a == 0 || b == 0 then 0
    else (if a % 2 == 1 && b % 2 == 1 then 1 else 0) + 2 * BitAnd(a / 2, b / 2)
  }

  function BitOr(a: nat, b: nat): nat {
    if a == 0 then b
    else if b == 0 then a
    else (if a % 2 == 1 || b % 2 == 1 then 1 else 0) + 2 * BitOr(a / 2, b / 2)
  }

  /** The complement of the low `n` bits of `a`. */
  function BitNot(a: nat, n: nat): nat {
    if n == 0 then 0 else (1 - a % 2) + 2 * BitNot(a / 2, n - 1)
  }

  /** std::bit_width: one more than the position of the highest set bit, 0 for 0. */
  function BitWidth(w: nat): nat {
    if w == 0 then 0 else 1 + BitWidth(w / 2)
  }

  /** std::countr_zero on a non-zero word: the position of the lowest set bit. */
  function CountrZero(w: nat): nat
    requires w != 0
  {
    if w % 2 == 1 then 0 else 1 + CountrZero(w / 2)
  }

  /** std::countl_zero on a 64-bit word. */
  function CountlZero(w: Word): nat {
    BitWidthOfWord(w);
    64 - BitWidth(w)
  }

  lemma Pow2Values()
    ensures Pow2(8) == TWO_8 && Pow2(10) == 1024 && Pow2(11) == 2048
    ensures Pow2(16) == TWO_16 && Pow2(24) == 0x100_0000
    ensures Pow2(32) == TWO_32 && Pow2(64) == TWO_64
  {
    Pow2Add(8, 8);
    Pow2Add(16, 8);
    Pow2Add(16, 16);
    Pow2Add(32, 32);
  }

  lemma {:induction false} Pow2Add(m: nat, n: nat)
    ensures Pow2(m + n) == Pow2(m) * Pow2(n)
  {
    if m == 0 {
    } else {
      Pow2Add(m - 1, n);
      assert 2 * (Pow2(m - 1) * Pow2(n)) == (2 * Pow2(m - 1)) * Pow2(n);
    }
  }

  lemma {:induction false} Pow2Monotone(m: nat, n: int)
    ensures 0 <= n < m ==> 2 * Pow2(n) <= Pow2(m)
    ensures 0 <= n && m <= n ==> Pow2(m) <= Pow2(n)
  {
    if m < n {
      Pow2Monotone(m, n - 1);
    } else if 0 <= n < m - 1 {
      Pow2Monotone(m - 1, n);
    }
  }

  /** The highest set bit of `w` is worth more than all the others together. */
  lemma {:induction false} BitWidthBounds(w: nat)
    ensures w != 0 ==> Pow2(BitWidth(w) - 1) <= w
    ensures w < Pow2(BitWidth(w))
  {
    if w != 0 {
      BitWidthBounds(w / 2);
    }
  }

  /** BitWidth is the only width with those bounds. */
  lemma BitWidthUnique(w: nat, n: nat)
    requires 0 < n && Pow2(n - 1) <= w < Pow2(n)
    ensures BitWidth(w) == n
  {
    BitWidthBounds(w);
    Pow2Monotone(n, BitWidth(w) - 1);
    Pow2Monotone(BitWidth(w), n - 1);
  }

  lemma {:induction false} BitOfAnd(a: nat, b: nat, i: nat)
    ensures Bit(BitAnd(a, b), i) <==> Bit(a, i) && Bit(b, i)
  {
    if a == 0 || b == 0 {
      NoBitsInZero(i);
    } else if i > 0 {
      BitOfAnd(a / 2, b / 2, i - 1);
    }
  }

  lemma {:induction false} BitOfOr(a: nat, b: nat, i: nat)
    ensures Bit(BitOr(a, b), i) <==> Bit(a, i) || Bit(b, i)
  {
    if a == 0 || b == 0 {
      NoBitsInZero(i);
    } else if i > 0 {
      BitOfOr(a / 2, b / 2, i - 1);
    }
  }

  lemma Halves(low: nat, high: nat)
    requires low < 2
    ensures (low + 2 * high) / 2 == high && (low + 2 * high) % 2 == low
  {
  }

  lemma {:induction false} BitOfNot(a: nat, n: nat, i: nat)
    ensures Bit(BitNot(a, n), i) <==> i < n && !Bit(a, i)
  {
    if n == 0 {
      NoBitsInZero(i);
    } else {
      var r := BitNot(a / 2, n - 1);
      assert BitNot(a, n) == (1 - a % 2) + 2 * r;
      Halves(1 - a % 2, r);
      if i > 0 {
        BitOfNot(a / 2, n - 1, i - 1);
      }
    }
  }

  lemma {:induction false} BitOfPow2(n: nat, i: nat)
    ensures Bit(Pow2(n), i) <==> i == n
  {
    if n == 0 {
      if i > 0 {
        NoBitsInZero(i - 1);
      }
    } else if i > 0 {
      BitOfPow2(n - 1, i - 1);
    }
  }

  lemma {:induction false} NoBitsInZero(i: nat)
    ensures !Bit(0, i)
  {
    if i > 0 {
      NoBitsInZero(i - 1);
    }
  }

  lemma {:induction false} AndBound(a: nat, b: nat)
    ensures BitAnd(a, b) <= a && BitAnd(a, b) <= b
  {
    if a != 0 && b != 0 {
      AndBound(a / 2, b / 2);
    }
  }

  lemma {:induction false} OrBound(a: nat, b: nat, n: nat)
    requires a < Pow2(n) && b < Pow2(n)
    ensures BitOr(a, b) < Pow2(n)
    ensures BitOr(a, b) == 0 <==> a == 0 && b == 0
  {
    if a != 0 && b != 0 {
      OrBound(a / 2, b / 2, n - 1);
    }
  }

  /** countr_zero is the lowest set bit. */
  lemma {:induction false} CountrZeroIsLowest(w: nat)
    requires w != 0
    ensures Bit(w, CountrZero(w))
    ensures forall i: nat :: i < CountrZero(w) ==> !Bit(w, i)
    ensures CountrZero(w) < BitWidth(w)
  {
    if w % 2 == 0 {
      CountrZeroIsLowest(w / 2);
      forall i: nat | i < CountrZero(w)
        ensures !Bit(w, i)
      {
        assert i > 0 ==> !Bit(w / 2, i - 1);
      }
    }
  }

  /** bit_width - 1 is the highest set bit. */
  lemma {:induction false} BitWidthIsHighest(w: nat)
    requires w != 0
    ensures Bit(w, BitWidth(w) - 1)
    ensures forall i: nat :: Bit(w, i) ==> i < BitWidth(w)
  {
    if w == 1 {
      forall i: nat | Bit(w, i)
        ensures i < 1
      {
        if i > 0 {
          NoBitsInZero(i - 1);
        }
      }
    } else {
      BitWidthIsHighest(w / 2);
      forall i: nat | Bit(w, i)
        ensures i < BitWidth(w)
      {
        assert i > 0 ==> Bit(w / 2, i - 1);
      }
    }
  }

  lemma BitWidthOfWord(w: Word)
    ensures BitWidth(w) <= 64
  {
    BitWidthBounds(w);
    Pow2Values();
    Pow2Monotone(64, BitWidth(w) - 1);
  }

  /** Masking with `2^k - 1` keeps the remainder modulo `2^k`. */
  lemma {:induction false} AndLowMask(x: nat, k: nat)
    ensures BitAnd(x, Pow2(k) - 1) == x % Pow2(k)
  {
    if k != 0 {
      var m := Pow2(k - 1);
      assert (Pow2(k) - 1) / 2 == m - 1;
      AndLowMask(x / 2, k - 1);
      HalfMod(x, m);
    }
  }

  lemma HalfMod(x: nat, m: nat)
    requires m > 0
    ensures x % (2 * m) == x % 2 + 2 * ((x / 2) % m)
  {
    var q, r := (x / 2) / m, (x / 2) % m;
    assert x / 2 == q * m + r;
    var y := x % 2 + 2 * r;
    assert x == (2 * m) * q + y;
    DivModUnique(x, 2 * m, q, y);
  }

  lemma DivModUnique(x: nat, d: nat, q: nat, r: nat)
    requires 0 < d && r < d && x == d * q + r
    ensures x / d == q && x % d == r
  {
    var q' := x / d;
    if q < q' {
      MulMonotone(d, q + 1, q');
    } else if q' < q {
      MulMonotone(d, q' + 1, q);
    }
  }

  lemma {:induction false} MulMonotone(d: nat, a: int, b: int)
    requires a <= b
    ensures d * a <= d * b
  {
    if d > 0 {
      MulMonotone(d - 1, a, b);
    }
  }

  /** Or-ing a value into the low bits that a left shift vacated is addition. */
  lemma {:induction false} OrDisjoint(a: nat, b: nat, k: nat)
    requires b < Pow2(k)
    ensures BitOr(a * Pow2(k), b) == a * Pow2(k) + b
  {
    if k != 0 {
      var m := Pow2(k - 1);
      assert a * Pow2(k) == 2 * (a * m);
      assert (2 * (a * m)) / 2 == a * m;
      OrDisjoint(a, b / 2, k - 1);
    }
  }

  lemma EvenTest(h: nat)
    requires h > 0
    ensures BitAnd(2 * h, 2 * h - 1) == 2 * BitAnd(h, h - 1) && BitWidth(2 * h) == 1 + BitWidth(h) > 1
  {
    Halves(1, h - 1);
    assert (2 * h) / 2 == h;
  }

  lemma OddTest(h: nat)
    requires h > 0
    ensures BitAnd(2 * h + 1, 2 * h) == 2 * h && BitWidth(2 * h + 1) == 1 + BitWidth(h) > 1
  {
    Halves(0, h);
    Halves(1, h);
    AndSelf(h);
  }

  /** The test `(c & (c - 1)) == 0` on a non-zero `c` accepts exactly the powers of two. */
  lemma {:induction false} PowerOfTwoTest(c: nat)
    requires c > 0
    ensures BitAnd(c, c - 1) == 0 <==> c == Pow2(BitWidth(c) - 1)
  {
    hide BitAnd, BitWidth;
    var h := c / 2;
    if c == 1 {
      OneTest();
    } else if c % 2 == 0 {
      EvenTest(h);
      PowerOfTwoTest(h);
    } else {
      OddTest(h);
    }
  }

  lemma OneTest()
    ensures BitAnd(1, 0) == 0 && BitWidth(1) == 1
  {
  }

  lemma {:induction false} AndSelf(a: nat)
    ensures BitAnd(a, a) == a
  {
    if a != 0 {
      AndSelf(a / 2);
    }
  }
}
