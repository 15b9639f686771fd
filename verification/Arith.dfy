/** Powers of two, division and the bitwise operators on natural numbers that the
    C sources apply to unsigned words. Shifts are products and quotients by powers of
    two, masks are remainders, and `^` and `|` are defined bit by bit. */
module Arith {

  function Pow2(n: nat): (p: nat)
    ensures p >= 1
    ensures n >= 1 ==> p % 2 == 0
  {
    if n == 0 then 1 else 2 * Pow2(n - 1)
  }

  function Min(a: int, b: int): int { if a <= b then a else b }

  function Max(a: int, b: int): int { if a >= b then a else b }

  lemma {:induction false} Pow2Add(a: nat, b: nat)
    ensures Pow2(a + b) == Pow2(a) * Pow2(b)
  {
    if b > 0 {
      var x, y := Pow2(a), Pow2(b - 1);
      Pow2Add(a, b - 1);
      hide Pow2;
      Pow2Step(a + b); Pow2Step(b);
      Twice(x, y);
    }
  }

  lemma Pow2None()
    ensures Pow2(0) == 1
  {
  }

  lemma Pow2Positive(n: nat)
    ensures Pow2(n) > 0
  {
  }

  lemma Pow2Step(n: nat)
    requires n > 0
    ensures Pow2(n) == 2 * Pow2(n - 1)
  {
  }

  lemma Twice(x: int, y: int)
    ensures x * (2 * y) == 2 * (x * y)
  {
  }

  lemma {:induction false} Pow2Mono(a: nat, b: nat)
    requires a <= b
    ensures Pow2(a) <= Pow2(b)
    ensures a < b ==> 2 * Pow2(a) <= Pow2(b)
    decreases b
  {
    if a < b { Pow2Mono(a, b - 1); }
  }

  /** Quotient and remainder are determined by their defining equation. */
  lemma DivModUnique(x: int, d: int, q: int, r: int)
    requires d > 0 && 0 <= r < d && x == q * d + r
    ensures x / d == q && x % d == r
  {
    SameMultiple(d, q, r, x / d, x % d);
  }

  lemma SameMultiple(d: int, q: int, r: int, q': int, r': int)
    requires d > 0 && 0 <= r < d && 0 <= r' < d
    requires q * d + r == q' * d + r'
    ensures q == q' && r == r'
  {
    if q > q' { MulMono(q' + 1, q, d); }
    if q < q' { MulMono(q + 1, q', d); }
  }

  lemma MulMono(a: int, b: int, c: int)
    requires a <= b && 0 <= c
    ensures a * c <= b * c
  {
  }

  lemma ModPlusMultiple(x: int, d: int, k: int)
    requires d > 0
    ensures (x + k * d) % d == x % d
    ensures (x + k * d) / d == x / d + k
  {
    var q, r := x / d, x % d;
    assert x + k * d == (q + k) * d + r;
    DivModUnique(x + k * d, d, q + k, r);
  }

  /** Dividing twice is dividing by the product. */
  lemma DivDiv(x: nat, a: nat, b: nat)
    requires a > 0 && b > 0
    ensures a * b > 0 && (x / a) / b == x / (a * b)
    ensures x % (a * b) == x % a + a * ((x / a) % b)
  {
    var q, r := x / a, x % a;
    var q2, r2 := q / b, q % b;
    assert x == q * a + r && q == q2 * b + r2;
    assert q * a == (q2 * b) * a + r2 * a;
    assert (q2 * b) * a == q2 * (a * b);
    assert r2 * a <= (b - 1) * a by { MulMono(r2, b - 1, a); }
    assert (b - 1) * a == a * b - a;
    assert a * b > 0 by { MulMono(1, b, a); }
    DivModUnique(x, a * b, q2, r2 * a + r);
  }

  /** `x ^ y` on unsigned words. */
  function Xor(x: nat, y: nat): (r: nat)
    decreases x + y
  {
    if x == 0 then y else if y == 0 then x
    else (if x % 2 == y % 2 then 0 else 1) + 2 * Xor(x / 2, y / 2)
  }

  lemma BitAndRest(b: nat, r: nat)
    requires b < 2
    ensures (b + 2 * r) % 2 == b && (b + 2 * r) / 2 == r
  {
  }

  lemma SameHalves(a: nat, c: nat)
    requires a % 2 == c % 2 && a / 2 == c / 2
    ensures a == c
  {
  }

  lemma XorStep(x: nat, y: nat)
    ensures Xor(x, y) % 2 == (if x % 2 == y % 2 then 0 else 1)
    ensures Xor(x, y) / 2 == Xor(x / 2, y / 2)
  {
    if x != 0 && y != 0 { BitAndRest(if x % 2 == y % 2 then 0 else 1, Xor(x / 2, y / 2)); }
  }

  lemma {:induction false} XorAssoc(x: nat, y: nat, z: nat)
    ensures Xor(Xor(x, y), z) == Xor(x, Xor(y, z))
    decreases x + y + z
  {
    if x != 0 && y != 0 && z != 0 {
      hide Xor;
      XorStep(x, y); XorStep(y, z);
      XorStep(Xor(x, y), z); XorStep(x, Xor(y, z));
      XorAssoc(x / 2, y / 2, z / 2);
      SameHalves(Xor(Xor(x, y), z), Xor(x, Xor(y, z)));
    }
  }

  /** `x << s` on unbounded words. */
  function Shl(x: nat, s: nat): (r: nat) {
    if s == 0 then x else 2 * Shl(x, s - 1)
  }

  /** `x & ((1 << b) - 1)`. */
  function Low(x: nat, b: nat): (r: nat)
    ensures r < Pow2(b)
    decreases b
  {
    if b == 0 then 0 else x % 2 + 2 * Low(x / 2, b - 1)
  }

  lemma {:induction false} ShlIsProduct(x: nat, s: nat)
    ensures Shl(x, s) == x * Pow2(s)
    decreases s
  {
    if s > 0 { ShlIsProduct(x, s - 1); }
  }

  lemma {:induction false} LowIsRemainder(x: nat, b: nat)
    ensures Low(x, b) == x % Pow2(b)
    decreases b
  {
    if b > 0 {
      LowIsRemainder(x / 2, b - 1);
      DivDiv(x, 2, Pow2(b - 1));
    }
  }

  lemma {:induction false} ShlZero(s: nat)
    ensures Shl(0, s) == 0
  {
    if s > 0 { ShlZero(s - 1); }
  }

  lemma {:induction false} ShlShl(x: nat, s: nat, t: nat)
    ensures Shl(Shl(x, s), t) == Shl(x, s + t)
    decreases t
  {
    if t > 0 { ShlShl(x, s, t - 1); }
  }

  lemma LowStep(x: nat, b: nat)
    requires b > 0
    ensures Low(x, b) % 2 == x % 2 && Low(x, b) / 2 == Low(x / 2, b - 1)
  {
    BitAndRest(x % 2, Low(x / 2, b - 1));
  }

  lemma ShlStep(x: nat, s: nat)
    requires s > 0
    ensures Shl(x, s) % 2 == 0 && Shl(x, s) / 2 == Shl(x, s - 1)
  {
    BitAndRest(0, Shl(x, s - 1));
  }

  lemma LowShlNone(x: nat)
    ensures Low(x, 0) == 0 && Shl(x, 0) == x
  {
  }

  lemma {:induction false} LowShlZero(x: nat, s: nat, b: nat)
    requires s >= b
    ensures Low(Shl(x, s), b) == 0
    decreases b
  {
    hide Low, Shl;
    if b > 0 {
      LowStep(Shl(x, s), b);
      ShlStep(x, s);
      LowShlZero(x, s - 1, b - 1);
    } else {
      LowShlNone(Shl(x, s));
    }
  }

  /** Masking with at least as many bits before a shift changes nothing. */
  lemma {:induction false} LowShlLow(x: nat, c: nat, s: nat, b: nat)
    requires b <= c + s
    ensures Low(Shl(Low(x, c), s), b) == Low(Shl(x, s), b)
    decreases b
  {
    hide Low, Shl;
    if b > 0 {
      LowStep(Shl(Low(x, c), s), b); LowStep(Shl(x, s), b);
      if s > 0 {
        ShlStep(Low(x, c), s); ShlStep(x, s);
        LowShlLow(x, c, s - 1, b - 1);
      } else {
        LowShlNone(x); LowShlNone(Low(x, c)); LowShlNone(Low(x / 2, c - 1)); LowShlNone(x / 2);
        LowStep(x, c);
        LowShlLow(x / 2, c - 1, 0, b - 1);
      }
      SameHalves(Low(Shl(Low(x, c), s), b), Low(Shl(x, s), b));
    } else {
      LowShlNone(Shl(Low(x, c), s)); LowShlNone(Shl(x, s));
    }
  }

  lemma {:induction false} LowBelow(x: nat, b: nat)
    requires x < Pow2(b)
    ensures Low(x, b) == x
    decreases b
  {
    if b > 0 { LowBelow(x / 2, b - 1); }
  }

  lemma {:induction false} XorShl(x: nat, y: nat, s: nat)
    ensures Shl(Xor(x, y), s) == Xor(Shl(x, s), Shl(y, s))
    decreases s
  {
    hide Shl, Xor;
    if s > 0 {
      XorShl(x, y, s - 1);
      XorStep(Shl(x, s), Shl(y, s));
      ShlStep(x, s); ShlStep(y, s); ShlStep(Xor(x, y), s);
      SameHalves(Shl(Xor(x, y), s), Xor(Shl(x, s), Shl(y, s)));
    } else {
      LowShlNone(x); LowShlNone(y); LowShlNone(Xor(x, y));
    }
  }

  lemma {:induction false} XorLow(x: nat, y: nat, b: nat)
    ensures Low(Xor(x, y), b) == Xor(Low(x, b), Low(y, b))
    decreases b
  {
    if b > 0 {
      hide Low, Xor;
      XorStep(x, y);
      XorLow(x / 2, y / 2, b - 1);
      XorStep(Low(x, b), Low(y, b));
      LowStep(x, b); LowStep(y, b); LowStep(Xor(x, y), b);
      SameHalves(Low(Xor(x, y), b), Xor(Low(x, b), Low(y, b)));
    }
  }

  lemma {:induction false} XorCancel(x: nat, y: nat, z: nat)
    requires Xor(x, y) == Xor(x, z)
    ensures y == z
    decreases x + y + z
  {
    if x != 0 {
      hide Xor;
      XorStep(x, y); XorStep(x, z);
      XorCancel(x / 2, y / 2, z / 2);
      SameHalves(y, z);
    }
  }

  /** `x >> s`. */
  function Shr(x: nat, s: nat): (r: nat)
    decreases s
  {
    if s == 0 then x else Shr(x / 2, s - 1)
  }

  lemma {:induction false} ShrShr(x: nat, a: nat, b: nat)
    ensures Shr(Shr(x, a), b) == Shr(x, a + b)
    decreases a
  {
    if a > 0 { ShrShr(x / 2, a - 1, b); }
  }

  /** A word is its high part shifted up plus its low part. */
  lemma {:induction false} SplitAt(x: nat, s: nat)
    ensures x == Shl(Shr(x, s), s) + Low(x, s)
    decreases s
  {
    if s > 0 { SplitAt(x / 2, s - 1); }
  }

  lemma {:induction false} JoinParts(hi: nat, lo: nat, s: nat)
    requires lo < Pow2(s)
    ensures Shr(Shl(hi, s) + lo, s) == hi && Low(Shl(hi, s) + lo, s) == lo
    decreases s
  {
    if s > 0 {
      assert (Shl(hi, s) + lo) / 2 == Shl(hi, s - 1) + lo / 2;
      JoinParts(hi, lo / 2, s - 1);
    }
  }

  lemma {:induction false} ShlBound(x: nat, a: nat, s: nat)
    requires x < Pow2(a)
    ensures Shl(x, s) + Pow2(s) <= Pow2(a + s)
    decreases s
  {
    if s > 0 { ShlBound(x, a, s - 1); }
  }

  lemma ShlNone(x: nat)
    ensures Shl(x, 0) == x
  {
  }

  lemma ShlTwice(x: nat)
    ensures Shl(x, 1) == 2 * x
  {
  }

  lemma {:induction false} StrictShl(x: nat, y: nat, s: nat)
    requires x < y
    ensures Shl(x, s) < Shl(y, s)
    decreases s
  {
    if s > 0 { StrictShl(x, y, s - 1); }
  }

  lemma {:induction false} ShlMono(x: nat, y: nat, s: nat)
    requires x <= y
    ensures Shl(x, s) <= Shl(y, s)
    decreases s
  {
    if s > 0 { ShlMono(x, y, s - 1); }
  }

  lemma {:induction false} ShlOne(s: nat)
    ensures Shl(1, s) == Pow2(s)
  {
    if s > 0 { ShlOne(s - 1); }
  }

  lemma {:induction false} ShlAdd(x: nat, y: nat, s: nat)
    ensures Shl(x + y, s) == Shl(x, s) + Shl(y, s)
    decreases s
  {
    if s > 0 { ShlAdd(x, y, s - 1); }
  }

  lemma {:induction false} ShrBound(x: nat, a: nat, s: nat)
    requires x < Pow2(a + s)
    ensures Shr(x, s) < Pow2(a)
    decreases s
  {
    if s > 0 { ShrBound(x / 2, a, s - 1); }
  }

  lemma {:induction false} LowOfLow(x: nat, a: nat, b: nat)
    requires a <= b
    ensures Low(Low(x, b), a) == Low(x, a)
    decreases a
  {
    hide Low;
    if a > 0 {
      LowStep(x, b); LowStep(x, a); LowStep(Low(x, b), a);
      LowOfLow(x / 2, a - 1, b - 1);
      SameHalves(Low(Low(x, b), a), Low(x, a));
    } else {
      LowShlNone(Low(x, b)); LowShlNone(x);
    }
  }

  /** The k low bits of c in reverse order (bi_reverse). */
  function Rev(c: nat, k: nat): (r: nat)
    ensures r < Pow2(k)
    decreases k
  {
    if k == 0 then 0 else
      ShlBound(c % 2, 1, k - 1);
      Shl(c % 2, k - 1) + Rev(c / 2, k - 1)
  }
}
