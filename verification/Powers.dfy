/** Powers of two, halving and doubling, as the allocators use them. Everything is
    defined by recursion so that proofs stay linear. */
module Powers {

  /** 1 << n. */
  function Pow2(n: nat): (p: nat)
    ensures p >= 1
  {
    if n == 0 then 1 else 2 * Pow2(n - 1)
  }

  /** j >> n. */
  function Up(j: nat, n: nat): (r: nat)
    ensures r <= j
  {
    if n == 0 then j else Up(j, n - 1) / 2
  }

  /** j << k. */
  function Shift(k: nat, j: nat): (r: nat)
    ensures r >= j
  {
    if k == 0 then j else 2 * Shift(k - 1, j)
  }

  /** Unsigned division. */
  function Quotient(x: nat, y: nat): nat
    requires y > 0
  {
    if x < y then 0 else 1 + Quotient(x - y, y)
  }

  /** Bitwise exclusive or. */
  function Xor(a: nat, b: nat): nat
    decreases a + b
  {
    if a == 0 && b == 0 then 0
    else (a + b) % 2 + 2 * Xor(a / 2, b / 2)
  }

  /** Number of significant bits: 32 - clz(v) for a 32-bit v. */
  function BitLength(v: nat): nat {
    if v == 0 then 0 else 1 + BitLength(v / 2)
  }

  lemma {:induction false} Pow2Monotone(a: nat, b: nat)
    requires a <= b
    ensures Pow2(a) <= Pow2(b)
    ensures a < b ==> 2 * Pow2(a) <= Pow2(b)
  {
    if a >= b {
    } else {
      Pow2Monotone(a, b - 1);
    }
  }

  /** Halving can also be peeled off at the low end. */
  lemma {:induction false} UpHead(j: nat, n: nat)
    requires n > 0
    ensures Up(j, n) == Up(j / 2, n - 1)
  {
    if n <= 1 {
    } else {
      UpHead(j, n - 1);
    }
  }

  lemma {:induction false} UpCompose(j: nat, m: nat, n: nat)
    ensures Up(Up(j, m), n) == Up(j, m + n)
  {
    if n == 0 {
    } else {
      UpCompose(j, m, n - 1);
    }
  }

  lemma {:induction false} UpZero(j: nat, n: nat)
    ensures Up(j, n) == 0 <==> j < Pow2(n)
  {
    if n == 0 {
    } else {
      UpHead(j, n);
      UpZero(j / 2, n - 1);
    }
  }

  lemma {:induction false} UpShift(k: nat, j: nat)
    ensures Up(Shift(k, j), k) == j
  {
    if k == 0 {
    } else {
      UpHead(Shift(k, j), k);
      UpShift(k - 1, j);
    }
  }

  lemma {:induction false} ShiftIsMul(k: nat, j: nat)
    ensures Shift(k, j) == j * Pow2(k)
  {
    if k == 0 {
    } else {
      ShiftIsMul(k - 1, j);
    }
  }

  /** x >> k is division: the aligned run [j << k, (j + 1) << k) holds exactly the x with x >> k == j. */
  lemma {:induction false} UpRange(x: nat, k: nat, j: nat)
    ensures Up(x, k) == j <==> Shift(k, j) <= x < Shift(k, j + 1)
  {
    if k == 0 {
    } else {
      UpHead(x, k);
      UpRange(x / 2, k - 1, j);
    }
  }

  lemma {:induction false} ShiftCompose(m: nat, n: nat, j: nat)
    ensures Shift(m, Shift(n, j)) == Shift(m + n, j)
  {
    if m == 0 {
    } else {
      ShiftCompose(m - 1, n, j);
    }
  }

  lemma {:induction false} ShiftMonotone(k: nat, a: nat, b: nat)
    ensures a < b <==> Shift(k, a) < Shift(k, b)
    ensures a == b <==> Shift(k, a) == Shift(k, b)
  {
    if k == 0 {
    } else {
      ShiftMonotone(k - 1, a, b);
    }
  }

  lemma {:induction false} ShiftNext(k: nat, j: nat)
    ensures Shift(k, j + 1) == Shift(k, j) + Pow2(k)
  {
    if k == 0 {
    } else {
      ShiftNext(k - 1, j);
    }
  }

  /** Division by a power of two is a shift. */
  lemma {:induction false} QuotientUp(x: nat, n: nat, u: nat)
    requires Shift(n, u) <= x < Shift(n, u + 1)
    ensures Quotient(x, Pow2(n)) == u
    decreases u
  {
    ShiftNext(n, u);
    if u > 0 {
      ShiftNext(n, u - 1);
      QuotientUp(x - Pow2(n), n, u - 1);
    } else {
      ShiftOne(n);
    }
  }

  lemma {:induction false} ShiftOne(k: nat)
    ensures Shift(k, 1) == Pow2(k)
    ensures Shift(k, 0) == 0
  {
    if k == 0 {
    } else {
      ShiftOne(k - 1);
    }
  }

  lemma {:induction false} XorDouble(a: nat, b: nat)
    ensures Xor(2 * a, 2 * b) == 2 * Xor(a, b)
  {
    var x, y := 2 * a, 2 * b;
    assert x / 2 == a && y / 2 == b && (x + y) % 2 == 0;
  }

  lemma {:induction false} XorShift(k: nat, a: nat, b: nat)
    ensures Xor(Shift(k, a), Shift(k, b)) == Shift(k, Xor(a, b))
  {
    if k == 0 {
    } else {
      XorShift(k - 1, a, b);
      XorDouble(Shift(k - 1, a), Shift(k - 1, b));
    }
  }

  lemma {:induction false} XorZero(a: nat)
    ensures Xor(a, 0) == a
  {
    if a == 0 {
    } else {
      XorZero(a / 2);
    }
  }

  /** The bit length of p - 1 is the least k with p <= 2^k. */
  lemma {:induction false} BitLengthLeast(v: nat, k: nat)
    ensures BitLength(v) <= k <==> v < Pow2(k)
  {
    if v == 0 || k == 0 {
    } else {
      BitLengthLeast(v / 2, k - 1);
    }
  }
}
