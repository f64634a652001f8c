/** Bitwise operations on unsigned machine words, as functions on naturals. */
module Bits {

  /** 2^32: the range of a DWORD. */
  const WORD_RANGE: nat := 0x1_0000_0000

  function Pow2(k: nat): (r: nat)
    ensures r >= 1
  {
    if k == 0 then 1 else 2 * Pow2(k - 1)
  }

  /** Bitwise `&`. */
  function And(a: nat, b: nat): nat {
    if a == 0 || b == 0 then 0
    else 2 * And(a / 2, b / 2) + (if a % 2 == 1 && b % 2 == 1 then 1 else 0)
  }

  /** Bitwise `|`. */
  function Or(a: nat, b: nat): nat {
    if a == 0 && b == 0 then 0
    else 2 * Or(a / 2, b / 2) + (if a % 2 == 1 || b % 2 == 1 then 1 else 0)
  }

  /** `a >> k`. */
  function ShiftRight(a: nat, k: nat): nat
    decreases k
  {
    if k == 0 then a else ShiftRight(a / 2, k - 1)
  }

  /** `(mask << 1) | 1` in 32-bit arithmetic. */
  function ExtendMask(mask: nat): nat {
    Or((2 * mask) % WORD_RANGE, 1)
  }

  ghost predicate IsPowerOfTwo(n: nat) {
    exists k: nat :: n == Pow2(k)
  }

  lemma {:induction false} OrOne(m: nat)
    ensures Or(2 * m, 1) == 2 * m + 1
  {
    OrZero(m);
    if m > 0 { assert (2 * m) / 2 == m; }
  }

  lemma {:induction false} OrZero(m: nat)
    ensures Or(m, 0) == m && Or(0, m) == m
  {
    if m > 0 { OrZero(m / 2); }
  }

  /** Extending the all-ones mask of k bits gives the all-ones mask of k + 1 bits. */
  lemma {:induction false} ExtendMaskIsNextMask(k: nat)
    requires k <= 31
    ensures ExtendMask(Pow2(k) - 1) == Pow2(k + 1) - 1
  {
    Pow2Monotone(k + 1, 32);
    assert Pow2(32) == WORD_RANGE by { Pow2Word(); }
    var m := Pow2(k) - 1;
    assert 2 * m < WORD_RANGE;
    OrOne(m);
  }

  lemma Pow2Word()
    ensures Pow2(8) == 256 && Pow2(16) == 65536 && Pow2(32) == WORD_RANGE
  {
    assert Pow2(8) == 256;
    Pow2Add(8, 8);
    Pow2Add(16, 16);
  }

  lemma {:induction false} Pow2Add(a: nat, b: nat)
    ensures Pow2(a + b) == Pow2(a) * Pow2(b)
  {
    if a > 0 {
      Pow2Add(a - 1, b);
      assert 2 * (Pow2(a - 1) * Pow2(b)) == (2 * Pow2(a - 1)) * Pow2(b);
    }
  }

  lemma {:induction false} Pow2Monotone(a: nat, b: nat)
    requires a <= b
    ensures Pow2(a) <= Pow2(b)
  {
    if a < b { Pow2Monotone(a, b - 1); }
  }

  lemma Pow2Strict(a: nat, b: nat)
    requires a < b
    ensures 2 * Pow2(a) <= Pow2(b)
  {
    Pow2Monotone(a + 1, b);
  }

  /** Masking with k ones is remainder by 2^k. */
  lemma {:induction false} AndMask(a: nat, k: nat)
    ensures And(a, Pow2(k) - 1) == a % Pow2(k)
  {
    var p := Pow2(k);
    if a == 0 {
      hide Pow2;
      ZeroRemainder(p);
    } else if k == 0 {
      assert p == 1;
    } else {
      AndMask(a / 2, k - 1);
      HalveRemainder(a, Pow2(k - 1));
      AndMaskStep(a, Pow2(k - 1), (a / 2) % Pow2(k - 1));
    }
  }

  lemma AndMaskStep(a: nat, h: nat, r: nat)
    requires a > 0 && h > 0 && And(a / 2, h - 1) == r
    ensures And(a, 2 * h - 1) == 2 * r + a % 2
  {
    hide *;
    AndOdd(a, h - 1);
  }

  lemma ZeroRemainder(p: nat)
    requires p > 0
    ensures 0 % p == 0
  {}

  lemma AndOdd(a: nat, m: nat)
    requires a > 0
    ensures And(a, 2 * m + 1) == 2 * And(a / 2, m) + a % 2
  {
    assert (2 * m + 1) / 2 == m && (2 * m + 1) % 2 == 1;
  }

  lemma HalveRemainder(a: nat, p: nat)
    requires p > 0
    ensures a % (2 * p) == 2 * ((a / 2) % p) + a % 2
  {
    var q, r := (a / 2) / p, (a / 2) % p;
    assert a == 2 * (q * p + r) + a % 2;
    assert a == q * (2 * p) + (2 * r + a % 2);
    RemainderUnique(a, 2 * p, q, 2 * r + a % 2);
  }

  lemma RemainderUnique(a: nat, m: nat, q: nat, r: nat)
    requires m > 0 && r < m && a == q * m + r
    ensures a % m == r && a / m == q
  {
    var q', r' := a / m, a % m;
    assert a == q' * m + r' by { DivMod(a, m); }
    assert (q - q') * m == r' - r;
    SmallMultiple(q - q', m);
  }

  lemma DivMod(a: nat, m: nat)
    requires m > 0
    ensures a == (a / m) * m + a % m
  {}

  lemma SmallMultiple(d: int, m: int)
    requires m > 0
    ensures d >= 1 ==> d * m >= m
    ensures d <= -1 ==> d * m <= -m
  {}

  /** Setting bit k of a number below 2^k adds 2^k. */
  lemma {:induction false} OrHighBit(k: nat, x: nat)
    requires x < Pow2(k)
    ensures Or(Pow2(k), x) == Pow2(k) + x
  {
    if k == 0 {
      OrZero(1);
    } else {
      OrHighBit(k - 1, x / 2);
      assert Pow2(k) / 2 == Pow2(k - 1);
    }
  }

  /** One more mask bit keeps the old remainder or adds 2^k to it. */
  lemma {:induction false} NextRemainder(a: nat, k: nat)
    ensures a % Pow2(k + 1) == a % Pow2(k) || a % Pow2(k + 1) == a % Pow2(k) + Pow2(k)
  {
    if k == 0 {
      assert Pow2(1) == 2 && Pow2(0) == 1;
    } else {
      NextRemainder(a / 2, k - 1);
      HalveRemainder(a, Pow2(k));
      HalveRemainder(a, Pow2(k - 1));
    }
  }

  /** The source's power-of-two test, `n & (n - 1)`. */
  lemma {:induction false} PowerOfTwoTest(n: nat)
    requires n > 0
    ensures And(n - 1, n) == 0 <==> IsPowerOfTwo(n)
  {
    if n == 1 {
      assert n == Pow2(0);
    } else if n % 2 == 1 {
      // the lower bits of n - 1 are those of n with bit 0 cleared
      AndSelf(n / 2);
      assert (n - 1) / 2 == n / 2;
      assert And(n - 1, n) == 2 * (n / 2);
    } else {
      PowerOfTwoTest(n / 2);
      assert (n - 1) / 2 == n / 2 - 1;
      if k: nat :| n == Pow2(k) { assert k > 0 && n / 2 == Pow2(k - 1); }
      if k: nat :| n / 2 == Pow2(k) { assert n == Pow2(k + 1); }
    }
  }

  lemma {:induction false} AndSelf(n: nat)
    ensures And(n, n) == n
  {
    if n > 0 { AndSelf(n / 2); }
  }

  /** Shifted-out and remaining bits make up the number. */
  lemma {:induction false} ShiftRemainder(a: nat, k: nat)
    ensures a == ShiftRight(a, k) * Pow2(k) + a % Pow2(k)
    decreases k
  {
    if k == 0 {
      assert Pow2(0) == 1;
    } else {
      ShiftRemainder(a / 2, k - 1);
      HalveRemainder(a, Pow2(k - 1));
      TimesTwice(ShiftRight(a, k), Pow2(k - 1));
    }
  }

  lemma TimesTwice(s: nat, p: nat)
    ensures s * (2 * p) == 2 * (s * p)
  {}

  lemma {:induction false} ShiftBelow(a: nat, n: nat, k: nat)
    ensures a < n * Pow2(k) <==> ShiftRight(a, k) < n
    decreases k
  {
    if k == 0 {
      assert Pow2(0) == 1;
    } else {
      ShiftBelow(a / 2, n, k - 1);
      TimesTwice(n, Pow2(k - 1));
    }
  }
}
