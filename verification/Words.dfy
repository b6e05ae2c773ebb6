/**
 Fixed-width unsigned arithmetic over unbounded integers, and the facts about
 remainders that every ring and every sequence-number window below rests on.
 */
module Words {

  datatype Option<+T> = None | Some(value: T)

  const UINT16_SIZE := 0x1_0000
  const UINT16_HALF := 0x8000

  type Uint16 = n: int | 0 <= n < 0x1_0000

  /** The conversion to a 16-bit unsigned integer. */
  function Wrap16(n: int): Uint16 {
    n % 0x1_0000
  }

  /** 16-bit subtraction, which wraps around. */
  function Sub16(a: int, b: int): Uint16 {
    (a - b) % 0x1_0000
  }

  lemma WrapIdentity(n: Uint16)
    ensures Wrap16(n) == n
  {
  }

  lemma WrapSum(a: int, b: int)
    ensures Wrap16(Wrap16(a) + b) == Wrap16(a + b)
  {
  }

  /** Counting b up to a, with wrap-around. */
  lemma CountUp(a: Uint16, b: Uint16)
    ensures a == b <==> Sub16(a, b) == 0
    ensures a != b ==> Sub16(a, Wrap16(b + 1)) == Sub16(a, b) - 1
  {
  }

  /** Wrapped numbers less than 65536 apart differ by their true distance. */
  lemma WrapDifference(a: int, b: int)
    requires 0 <= a - b < UINT16_SIZE
    ensures Sub16(Wrap16(a), Wrap16(b)) == a - b
  {
  }

  function Max(a: int, b: int): int {
    if a < b then b else a
  }

  function Min(a: int, b: int): int {
    if a < b then a else b
  }

  /** Division as the source language does it: the quotient is truncated toward zero. */
  function TruncatedQuotient(a: int, b: int): int
    requires b > 0
  {
    if a >= 0 then a / b else -((-a) / b)
  }

  /** A multiple of m that lies strictly between -m and m is zero. */
  lemma OnlyZeroMultiple(k: int, m: int)
    requires m > 0 && -m < k * m < m
    ensures k == 0
  {
    assert k >= 1 ==> k * m >= m;
    assert k <= -1 ==> k * m <= -m;
  }

  /** A remainder is settled by any decomposition whose rest lies in [0, m). */
  lemma RemainderIs(n: int, q: int, r: int, m: int)
    requires 0 <= r < m && n == q * m + r
    ensures n % m == r && n / m == q
  {
    var d := n / m;
    assert n == d * m + n % m;
    assert (q - d) * m == q * m - d * m;
    OnlyZeroMultiple(q - d, m);
  }

  /** Numbers less than m apart use different slots of a ring of m slots. */
  lemma SameSlot(a: int, b: int, m: int)
    requires m > 0 && a % m == b % m && -m < a - b < m
    ensures a == b
  {
    var p, q := a / m, b / m;
    assert a == p * m + a % m && b == q * m + b % m;
    assert (p - q) * m == p * m - q * m;
    OnlyZeroMultiple(p - q, m);
  }

  /** Shifting by the modulus does not change a remainder. */
  lemma AddModulus(n: int, k: int, m: int)
    requires m > 0
    ensures (n + k * m) % m == n % m
  {
    assert n + k * m == (n / m + k) * m + n % m;
    RemainderIs(n + k * m, n / m + k, n % m, m);
  }

  // -- Bitwise "and" on two's-complement integers

  /** The bitwise "and" of a signed integer of any width with a non-negative mask. */
  function BitAnd(x: int, mask: nat): nat
    decreases mask
  {
    if mask == 0 then 0
    else (if x % 2 == 1 && mask % 2 == 1 then 1 else 0) + 2 * BitAnd(x / 2, mask / 2)
  }

  predicate IsPow2(n: int) {
    n == 1 || (n > 1 && n % 2 == 0 && IsPow2(n / 2))
  }

  /** The next power of two is at least twice as large. */
  lemma {:induction false} Pow2Gap(a: int, b: int)
    requires IsPow2(a) && IsPow2(b) && a < b
    ensures 2 * a <= b
    decreases a
  {
    if a > 1 {
      Pow2Gap(a / 2, b / 2);
    }
  }

  lemma RemainderByDouble(x: int, h: int)
    requires h > 0
    ensures x % (2 * h) == 2 * ((x / 2) % h) + x % 2
  {
    var y := x / 2;
    var q, r := y / h, y % h;
    assert q * (2 * h) == 2 * (q * h);
    RemainderIs(x, q, 2 * r + x % 2, 2 * h);
  }

  /** For a ring whose length is a power of two, masking by the length less one is the remainder. */
  lemma {:induction false} MaskIsRemainder(x: int, m: int)
    requires IsPow2(m)
    ensures BitAnd(x, m - 1) == x % m
    decreases m
  {
    if m > 1 {
      assert (m - 1) / 2 == m / 2 - 1 && m == 2 * (m / 2);
      MaskIsRemainder(x / 2, m / 2);
      RemainderByDouble(x, m / 2);
    }
  }

  lemma {:induction false} AndSelf(x: nat)
    ensures BitAnd(x, x) == x
  {
    if x > 0 {
      AndSelf(x / 2);
    }
  }

  /** The usual test: a positive number is a power of two when it shares no bit with its predecessor. */
  lemma {:induction false} PowerOfTwoTest(n: int)
    requires n > 0
    ensures BitAnd(n, n - 1) == 0 <==> IsPow2(n)
  {
    if n % 2 == 1 {
      assert (n - 1) / 2 == n / 2;
      AndSelf(n / 2);
    } else {
      assert (n - 1) / 2 == n / 2 - 1;
      PowerOfTwoTest(n / 2);
    }
  }
}
