/** Powers of two, and division where it cannot be read off: laws for divisors that are not constants. */
module Numbers {
  import opened Words

  lemma InWord(n: nat)
    requires n < WORD64
    ensures n % WORD64 == n
  {
  }

  function Pow2(n: nat): (r: nat)
    ensures r >= 1
  {
    if n == 0 then 1 else 2 * Pow2(n - 1)
  }

  lemma {:induction false} Pow2Add(a: nat, b: nat)
    ensures Pow2(a + b) == Pow2(a) * Pow2(b)
    decreases b
  {
    if b > 0 {
      Pow2Add(a, b - 1);
      Shuffle(Pow2(a), Pow2(b - 1));
    }
  }

  lemma Shuffle(x: nat, y: nat)
    ensures 2 * (x * y) == x * (2 * y)
  {
  }

  lemma SmallerQuotient(d: nat, q: nat, r: nat, q': nat, r': nat)
    requires q * d + r == q' * d + r' && r < d && r' < d
    ensures q >= q'
  {
    if q < q' {
      Times(q + 1, q', d);
    }
  }

  lemma Times(a: nat, b: nat, d: nat)
    requires a <= b
    ensures a * d <= b * d
  {
  }

  lemma DivUnique(n: nat, d: nat, q: nat, r: nat)
    requires d > 0 && n == q * d + r && r < d
    ensures n / d == q && n % d == r
  {
    var q', r' := n / d, n % d;
    assert n == q' * d + r';
    SmallerQuotient(d, q, r, q', r');
    SmallerQuotient(d, q', r', q, r);
  }

  /** Multiples of the divisor pass through. */
  lemma DivModAdd(a: nat, b: nat, d: nat)
    requires d > 0
    ensures (a + b * d) / d == a / d + b && (a + b * d) % d == a % d
  {
    assert a + b * d == (a / d + b) * d + a % d;
    DivUnique(a + b * d, d, a / d + b, a % d);
  }

  lemma DivDiv(n: nat, a: nat, b: nat)
    requires a > 0 && b > 0
    ensures a * b > 0 && n / (a * b) == n / a / b
  {
    var q, r := n / a, n % a;
    var q', r' := q / b, q % b;
    Split(n, a, q, r);
    Split(q, b, q', r');
    Regroup(q', b, r', a, r);
    Below(r', b, a, r);
    Positive(a, b);
    DivUnique(n, a * b, q', r' * a + r);
  }

  lemma Split(n: nat, d: nat, q: nat, r: nat)
    requires d > 0 && q == n / d && r == n % d
    ensures n == q * d + r && r < d
  {
  }

  lemma Positive(a: nat, b: nat)
    requires a > 0 && b > 0
    ensures a * b > 0
  {
  }

  lemma Regroup(q: nat, b: nat, r': nat, a: nat, r: nat)
    ensures (q * b + r') * a + r == q * (a * b) + (r' * a + r)
  {
  }

  lemma Below(r': nat, b: nat, a: nat, r: nat)
    requires r' < b && r < a
    ensures r' * a + r < a * b
  {
    assert r' * a <= (b - 1) * a;
    assert (b - 1) * a + a == a * b;
  }

  lemma Commute(a: nat, b: nat)
    ensures a * b == b * a
  {
  }

  /** Bitwise or. */
  function Or(a: nat, b: nat): nat
    decreases a + b
  {
    if a == 0 && b == 0 then 0
    else (if a % 2 == 1 || b % 2 == 1 then 1 else 0) + 2 * Or(a / 2, b / 2)
  }

  lemma {:induction false} OrZero(b: nat)
    ensures Or(0, b) == b
    decreases b
  {
    if b > 0 {
      OrZero(b / 2);
    }
  }

  /** ORing in a number shifted beyond the bits there are adds it. */
  lemma {:induction false} OrAdds(a: nat, x: nat, s: nat)
    requires a < Pow2(s)
    ensures Or(a, x * Pow2(s)) == a + x * Pow2(s)
    decreases s
  {
    if s == 0 {
      OrZero(x);
      assert x * Pow2(0) == x;
    } else {
      OrAdds(a / 2, x, s - 1);
      Shuffle(x, Pow2(s - 1));
      OrStep(a, x * Pow2(s - 1));
    }
  }

  lemma OrStep(a: nat, half': nat)
    ensures Or(a, 2 * half') == a % 2 + 2 * Or(a / 2, half')
  {
  }

  lemma {:induction false} OrBound(a: nat, b: nat, s: nat)
    requires a < Pow2(s) && b < Pow2(s)
    ensures Or(a, b) < Pow2(s)
    decreases s
  {
    if s > 0 {
      OrBound(a / 2, b / 2, s - 1);
    }
  }

  lemma PowersOfTwo()
    ensures Pow2(8) == 256 && Pow2(16) == WORD16 && Pow2(32) == WORD32
  {
    Pow2Eight();
    Pow2Add(8, 8);
    Pow2Add(16, 16);
  }

  lemma Pow2Eight()
    ensures Pow2(8) == 256
  {
    assert Pow2(4) == 16;
  }
}
