/** Products, quotients and remainders as functions with laws, so that proofs about limbs are
    linear in them. */
module LimbArith {

  function Mul(x: int, y: int): int { x * y }

  function Quot(n: int, d: int): int
    requires d > 0
  {
    n / d
  }

  function Rem(n: int, d: int): (r: int)
    requires d > 0
    ensures 0 <= r < d
  {
    n % d
  }

  lemma QuotRem(n: int, d: int)
    requires d > 0
    ensures n == Mul(Quot(n, d), d) + Rem(n, d)
  {
  }

  lemma MulAdd(x: int, y: int, z: int)
    ensures Mul(x + y, z) == Mul(x, z) + Mul(y, z)
  {
  }

  lemma MulComm(x: int, y: int)
    ensures Mul(x, y) == Mul(y, x)
  {
  }

  lemma MulAssoc(x: int, y: int, z: int)
    ensures Mul(Mul(x, y), z) == Mul(x, Mul(y, z))
  {
  }

  lemma MulOne(x: int)
    ensures Mul(1, x) == x && Mul(0, x) == 0 && Mul(-1, x) == -x && Mul(2, x) == 2 * x
  {
  }

  lemma MulMono(x: int, y: int, z: int)
    requires x <= y && z >= 0
    ensures Mul(x, z) <= Mul(y, z)
  {
  }

  /** A quotient and remainder are determined by what they make. */
  lemma QuotRemIs(n: int, d: int, q: int, r: int)
    requires d > 0 && n == Mul(q, d) + r && 0 <= r < d
    ensures Quot(n, d) == q && Rem(n, d) == r
  {
    hide Mul, Quot, Rem;
    var k, s := Quot(n, d), Rem(n, d);
    QuotRem(n, d);
    MulAdd(q, k - q, d);
    MulOne(d);
    if k > q { MulMono(1, k - q, d); }
    if k < q { MulMono(k - q, -1, d); }
    if k == q { assert Mul(k - q, d) == 0; }
  }

  /** Within one wrap around. */
  lemma RemIs(x: int, b: int, r: int)
    requires b > 0 && 0 <= r < b && (x == r || x == r + b || x == r - b)
    ensures Rem(x, b) == r
  {
    hide Mul, Quot, Rem;
    MulOne(b);
    QuotRemIs(x, b, if x == r then 0 else if x == r + b then 1 else -1, r);
  }
}

/** Division of two limbs by one with a precomputed reciprocal (gmp/gmp-impl.h), down to half
    limbs (gmp/longlong.h). A limb is a number below b = h * h for an even h; limb arithmetic is
    modulo b. */
module LimbDivision {
  import opened LimbArith

  /** The limb size. */
  datatype Base = Base(h: nat, b: nat) {

    ghost predicate Ok() { h >= 2 && Rem(h, 2) == 0 && b == Mul(h, h) }

    /** A limb whose top bit is set. */
    ghost predicate Normal(d: nat) { Ok() && b <= 2 * d && d < b }
  }

  lemma HalvesOf(base: Base, d: nat)
    requires base.Normal(d)
    ensures var d1, d0 := Quot(d, base.h), Rem(d, base.h);
            d == Mul(d1, base.h) + d0 && base.h <= 2 * d1 && 1 <= d1 < base.h && base.h < base.b
  {
    hide Mul, Quot, Rem;
    var h := base.h;
    var d1, d0 := Quot(d, h), Rem(d, h);
    QuotRem(d, h);
    QuotRem(h, 2);
    if d1 >= h { MulMono(h, d1, h); }
    MulAdd(d1, 1, h); MulOne(h); MulAdd(d1, d1, h); MulAdd(d1 + d1, 1, h);
    MulComm(Quot(h, 2), 2); MulOne(Quot(h, 2));
    if 2 * d1 < h { MulMono(d1 + d1 + 2, h, h); MulAdd(d1 + d1, 2, h); }
    MulMono(2, h, h);
  }

  /** One half limb of the quotient in __udiv_qrnnd_c: the estimate from the high half of d is
      too large by at most two; it is corrected in limb arithmetic. */
  function HalfQuotient(base: Base, n1: nat, x: nat, d: nat): (r: (int, int))
    requires base.h > 0 && base.b > 0 && Quot(d, base.h) > 0
  {
    var d1, d0 := Quot(d, base.h), Rem(d, base.h);
    var q := Quot(n1, d1);
    var m := Mul(q, d0);
    var r1 := Mul(n1 - Mul(q, d1), base.h) + x;
    if r1 >= m then (q, Rem(r1 - m, base.b))
    else
      var r2 := Rem(r1 + d, base.b);
      if r2 >= d && r2 < m then (q - 2, Rem(Rem(r2 + d, base.b) - m, base.b)) else (q - 1, Rem(r2 - m, base.b))
  }

  /** The estimate, and its product with the low half of d. */
  lemma Estimate(base: Base, n1: nat, x: nat, d: nat)
    requires base.Normal(d) && n1 < d && x < base.h
    ensures Quot(d, base.h) > 0
    ensures var h, d1, d0 := base.h, Quot(d, base.h), Rem(d, base.h);
            var q := Quot(n1, d1);
            var r1, m := Mul(n1 - Mul(q, d1), h) + x, Mul(q, d0);
            0 <= m < base.b && 0 <= r1 < d && Mul(n1, h) + x == Mul(q, d) + (r1 - m)
  {
    hide Mul, Quot, Rem;
    HalvesOf(base, d);
    var h, d1, d0 := base.h, Quot(d, base.h), Rem(d, base.h);
    var q := Quot(n1, d1);
    QuotRem(n1, d1);
    var s := n1 - Mul(q, d1);
    // q is at most h + 1
    MulAdd(h, 2, d1); MulOne(d1); MulComm(h, d1);
    if q >= h + 2 { MulMono(h + 2, q, d1); }
    if q < 0 { MulMono(q, -1, d1); }
    // m is below b
    MulMono(q, h + 1, d0); MulMono(0, q, d0); MulOne(d0);
    MulComm(h + 1, d0); MulMono(d0, h - 1, h + 1); MulComm(h - 1, h + 1);
    MulAdd(h, 1, h - 1); MulOne(h - 1); MulComm(h, h - 1); MulAdd(h, -1, h); MulOne(h);
    // r1 is below d
    MulMono(0, s, h); MulMono(s, d1 - 1, h); MulAdd(d1, -1, h); MulMono(d1, h, h);
    // what is left
    MulComm(q, d); MulAdd(Mul(d1, h), d0, q); MulComm(d0, q); MulComm(Mul(d1, h), q); MulAssoc(q, d1, h);
    MulAdd(n1 - Mul(q, d1), Mul(q, d1), h);
  }

  /** __udiv_qrnnd_c, one half: exact quotient and remainder. */
  lemma HalfIsExact(base: Base, n1: nat, x: nat, d: nat)
    requires base.Normal(d) && n1 < d && x < base.h
    ensures Quot(d, base.h) > 0
    ensures var r := HalfQuotient(base, n1, x, d);
            Mul(n1, base.h) + x == Mul(r.0, d) + r.1 && 0 <= r.1 < d && 0 <= r.0 < base.h
  {
    hide Mul, Quot, Rem;
    Estimate(base, n1, x, d);
    var h, b, d1, d0 := base.h, base.b, Quot(d, base.h), Rem(d, base.h);
    var q := Quot(n1, d1);
    var r1, m := Mul(n1 - Mul(q, d1), h) + x, Mul(q, d0);
    var r := HalfQuotient(base, n1, x, d);
    MulAdd(q, -1, d); MulAdd(q, -2, d); MulAdd(-1, -1, d); MulOne(d);
    var k, t := q, r1 - m;
    if r1 >= m {
      RemIs(r1 - m, b, r1 - m);
    } else {
      RemIs(r1 + d, b, if r1 + d < b then r1 + d else r1 + d - b);
      var r2 := Rem(r1 + d, b);
      if r2 >= d && r2 < m {
        RemIs(r2 + d, b, if r2 + d < b then r2 + d else r2 + d - b);
        k, t := q - 2, r1 + 2 * d - m;
        RemIs(Rem(r2 + d, b) - m, b, t);
      } else {
        k, t := q - 1, r1 + d - m;
        RemIs(r2 - m, b, t);
      }
    }
    QuotientFits(n1, x, d, h, k, t);
  }

  /** A quotient of less than d half limbs is a half limb. */
  lemma QuotientFits(n1: nat, x: nat, d: nat, h: nat, q: int, r: int)
    requires n1 < d && x < h && Mul(n1, h) + x == Mul(q, d) + r && r >= 0
    ensures q < h && (r < d ==> q >= 0)
  {
    hide Mul, Quot, Rem;
    MulOne(d); MulOne(h);
    if q < 0 {
      MulMono(q, -1, d);
      MulMono(0, n1, h);
    }
    if q >= h {
      MulMono(h, q, d); MulComm(h, d);
      MulMono(n1, d - 1, h); MulAdd(d, -1, h);
    }
  }

  /** __udiv_qrnnd_c: the quotient of two limbs by a normalized limb, in two halves. */
  function UdivQrnnd(base: Base, n1: nat, n0: nat, d: nat): (r: (int, int))
    requires base.Normal(d) && n1 < d && n0 < base.b
  {
    hide Mul, Quot, Rem, HalfQuotient;
    HalvesOf(base, d);
    var x1, x0 := Quot(n0, base.h), Rem(n0, base.h);
    LimbHalves(base, n0);
    HalfIsExact(base, n1, x1, d);
    var first := HalfQuotient(base, n1, x1, d);
    var second := HalfQuotient(base, first.1, x0, d);
    (Mul(first.0, base.h) + second.0, second.1)
  }

  lemma LimbHalves(base: Base, n: nat)
    requires base.Ok() && n < base.b
    ensures n == Mul(Quot(n, base.h), base.h) + Rem(n, base.h) && 0 <= Quot(n, base.h) < base.h
  {
    hide Mul, Quot, Rem;
    var h := base.h;
    QuotRem(n, h);
    MulOne(h);
    if Quot(n, h) >= h { MulMono(h, Quot(n, h), h); }
    if Quot(n, h) < 0 { MulMono(Quot(n, h), -1, h); }
  }

  /** Exact for every normalized d and every n1 < d. */
  lemma UdivIsExact(base: Base, n1: nat, n0: nat, d: nat)
    requires base.Normal(d) && n1 < d && n0 < base.b
    ensures var r := UdivQrnnd(base, n1, n0, d);
            Mul(n1, base.b) + n0 == Mul(r.0, d) + r.1 && 0 <= r.1 < d && 0 <= r.0 < base.b
  {
    hide Mul, Quot, Rem, HalfQuotient;
    var h := base.h;
    var x1, x0 := Quot(n0, h), Rem(n0, h);
    LimbHalves(base, n0);
    HalvesOf(base, d);
    HalfIsExact(base, n1, x1, d);
    var (q1, r1) := HalfQuotient(base, n1, x1, d);
    HalfIsExact(base, r1, x0, d);
    var (q0, r0) := HalfQuotient(base, r1, x0, d);
    MulAssoc(n1, h, h); MulAdd(Mul(n1, h), x1, h); MulAdd(Mul(q1, d), r1, h);
    MulAssoc(q1, d, h); MulComm(d, h); MulAssoc(q1, h, d); MulAdd(Mul(q1, h), q0, d);
    MulMono(0, q1, h); MulOne(h); MulMono(q1, h - 1, h); MulAdd(h, -1, h);
  }

  /** umul_ppmm in plain C: the product of two limbs from products of half limbs. */
  function UmulPpmm(base: Base, u: nat, v: nat): (w: (int, int))
    requires base.h > 0 && base.b > 0
  {
    var h, b := base.h, base.b;
    var ul, uh, vl, vh := Rem(u, h), Quot(u, h), Rem(v, h), Quot(v, h);
    var x0, x1, x2, x3 := Mul(ul, vl), Mul(ul, vh), Mul(uh, vl), Mul(uh, vh);
    var y1 := Rem(x1 + Quot(x0, h) + x2, b);
    var y3 := if y1 < x2 then Rem(x3 + h, b) else x3;
    (Rem(y3 + Quot(y1, h), b), Rem(Rem(Mul(y1, h), b) + Rem(x0, h), b))
  }

  /** The product of two half limbs, with room for two more. */
  lemma HalfProduct(base: Base, x: int, y: int)
    requires base.Ok() && 0 <= x < base.h && 0 <= y < base.h
    ensures 0 <= Mul(x, y) && Mul(x, y) + 2 * base.h <= base.b + 1
  {
    hide Mul, Quot, Rem;
    var h := base.h;
    MulMono(0, x, y); MulOne(y); MulMono(x, h - 1, y);
    MulComm(h - 1, y); MulMono(y, h - 1, h - 1); MulAdd(h, -1, h - 1); MulOne(h - 1);
    MulComm(h, h - 1); MulAdd(h, -1, h); MulOne(h);
  }

  /** The product of the halves, multiplied out. */
  lemma MultipliedOut(h: int, ul: int, uh: int, vl: int, vh: int)
    ensures Mul(Mul(uh, h) + ul, Mul(vh, h) + vl) ==
            Mul(Mul(uh, vh), Mul(h, h)) + Mul(Mul(ul, vh) + Mul(uh, vl), h) + Mul(ul, vl)
  {
    hide Mul;
    var v := Mul(vh, h) + vl;
    MulAdd(Mul(uh, h), ul, v);
    MulComm(Mul(uh, h), v); MulAdd(Mul(vh, h), vl, Mul(uh, h));
    MulComm(vl, Mul(uh, h)); MulAssoc(uh, h, vl); MulComm(h, vl); MulAssoc(uh, vl, h);
    MulComm(Mul(vh, h), Mul(uh, h)); MulAssoc(uh, h, Mul(vh, h)); MulComm(vh, h); MulAssoc(h, h, vh);
    MulComm(Mul(h, h), vh); MulAssoc(uh, vh, Mul(h, h));
    MulComm(ul, v); MulAdd(Mul(vh, h), vl, ul); MulComm(vl, ul); MulComm(Mul(vh, h), ul); MulAssoc(ul, vh, h);
    MulAdd(Mul(ul, vh), Mul(uh, vl), h);
    MulComm(h, vh);
  }

  /** umul_ppmm is the full product. */
  lemma UmulIsProduct(base: Base, u: nat, v: nat)
    requires base.Ok() && u < base.b && v < base.b && base.b > 0
    ensures var w := UmulPpmm(base, u, v); Mul(u, v) == Mul(w.0, base.b) + w.1 && 0 <= w.0 < base.b && 0 <= w.1 < base.b
  {
    hide Mul, Quot, Rem;
    var h, b := base.h, base.b;
    var ul, uh, vl, vh := Rem(u, h), Quot(u, h), Rem(v, h), Quot(v, h);
    LimbHalves(base, u); LimbHalves(base, v);
    var x0, x1, x2, x3 := Mul(ul, vl), Mul(ul, vh), Mul(uh, vl), Mul(uh, vh);
    HalfProduct(base, ul, vl); HalfProduct(base, ul, vh); HalfProduct(base, uh, vl); HalfProduct(base, uh, vh);
    MultipliedOut(h, ul, uh, vl, vh);
    LimbHalves(base, x0);
    var t := x1 + Quot(x0, h) + x2;
    RemIs(t, b, t - (if t >= b then b else 0));
    var y1 := Rem(t, b);
    LimbHalves(base, y1);
    var y3 := x3 + (if t >= b then h else 0);
    if t >= b { RemIs(x3 + h, b, x3 + h); }
    // the sum of all parts
    MulAdd(x1 + x2, Quot(x0, h), h); MulAdd(y1, if t >= b then b else 0, h); MulOne(h);
    MulAdd(Mul(Quot(y1, h), h), Rem(y1, h), h); MulAssoc(Quot(y1, h), h, h);
    MulAdd(x3, if t >= b then h else 0, b); MulOne(b); MulComm(b, h);
    LowHalf(base, y1, x0);
    MulAdd(y3, Quot(y1, h), b);
    HighFits(base, u, v, y3 + Quot(y1, h), Mul(Rem(y1, h), h) + Rem(x0, h));
  }

  /** The low limb: the low half of y1 above the low half of x0. */
  lemma LowHalf(base: Base, y1: int, x0: int)
    requires base.Ok() && base.b > 0 && y1 == Mul(Quot(y1, base.h), base.h) + Rem(y1, base.h)
    ensures 0 <= Mul(Rem(y1, base.h), base.h) + Rem(x0, base.h) < base.b
    ensures Rem(Rem(Mul(y1, base.h), base.b) + Rem(x0, base.h), base.b) ==
            Mul(Rem(y1, base.h), base.h) + Rem(x0, base.h)
  {
    hide Mul, Quot, Rem;
    var h, b := base.h, base.b;
    var l := Rem(y1, h);
    MulMono(0, l, h); MulOne(h); MulMono(l, h - 1, h); MulAdd(h, -1, h);
    MulAdd(Mul(Quot(y1, h), h), l, h); MulAssoc(Quot(y1, h), h, h);
    QuotRemIs(Mul(y1, h), b, Quot(y1, h), Mul(l, h));
    RemIs(Mul(l, h) + Rem(x0, h), b, Mul(l, h) + Rem(x0, h));
  }

  /** The high limb of a product is a limb. */
  lemma HighFits(base: Base, u: nat, v: nat, hi: int, lo: int)
    requires base.b > 0 && u < base.b && v < base.b && Mul(u, v) == Mul(hi, base.b) + lo && 0 <= lo < base.b
    ensures 0 <= hi < base.b && Rem(hi, base.b) == hi
  {
    hide Mul, Quot, Rem;
    var b := base.b;
    MulMono(0, u, v); MulOne(v); MulOne(b);
    MulMono(u, b - 1, v); MulComm(b - 1, v); MulMono(v, b - 1, b - 1); MulAdd(b, -1, b - 1); MulOne(b - 1);
    MulComm(b, b - 1); MulAdd(b, -1, b);
    if hi < 0 { MulMono(hi, -1, b); }
    if hi >= b { MulMono(b, hi, b); }
    RemIs(hi, b, hi);
  }

  /** sub_ddmmss and add_ssaaaa: two limbs, modulo the square of b. */
  function SubDdmmss(b: nat, ah: int, al: int, bh: int, bl: int): (int, int)
    requires b > 0
  {
    (Rem(ah - bh - (if al < bl then 1 else 0), b), Rem(al - bl, b))
  }

  function AddSsaaaa(b: nat, ah: int, al: int, bh: int, bl: int): (int, int)
    requires b > 0
  {
    (Rem(ah + bh + (if al + bl >= b then 1 else 0), b), Rem(al + bl, b))
  }

  lemma SubIs(b: nat, ah: int, al: int, bh: int, bl: int)
    requires b > 0 && 0 <= ah < b && 0 <= al < b && 0 <= bh < b && 0 <= bl < b && 0 <= Mul(ah - bh, b) + (al - bl)
    ensures var (h, l) := SubDdmmss(b, ah, al, bh, bl);
            Mul(h, b) + l == Mul(ah - bh, b) + (al - bl) && 0 <= h < b && 0 <= l < b
  {
    hide Mul, Quot, Rem;
    MulOne(b); MulAdd(ah - bh, -1, b);
    RemIs(al - bl, b, if al < bl then al - bl + b else al - bl);
    var h := ah - bh - (if al < bl then 1 else 0);
    if h < 0 { MulMono(h, -1, b); }
    RemIs(h, b, h);
  }

  lemma AddIs(b: nat, ah: int, al: int, bh: int, bl: int)
    requires b > 0 && 0 <= ah < b && 0 <= al < b && 0 <= bh < b && 0 <= bl < b &&
             Mul(ah + bh, b) + (al + bl) < Mul(b, b)
    ensures var (h, l) := AddSsaaaa(b, ah, al, bh, bl);
            Mul(h, b) + l == Mul(ah + bh, b) + (al + bl) && 0 <= h < b && 0 <= l < b
  {
    hide Mul, Quot, Rem;
    MulOne(b); MulAdd(ah + bh, 1, b);
    RemIs(al + bl, b, if al + bl >= b then al + bl - b else al + bl);
    var h := ah + bh + (if al + bl >= b then 1 else 0);
    if h >= b { MulMono(b, h, b); }
    RemIs(h, b, h);
  }

  /** invert_limb: all ones if d is the least normalized limb. */
  function InvertLimb(base: Base, d: nat): (r: int)
    requires base.Normal(d)
  {
    hide Mul, Quot, Rem, UdivQrnnd;
    HalvesOf(base, d);
    assert Rem(2 * d, base.b) != 0 ==> base.b < 2 * d by { RemIs(2 * d, base.b, 2 * d - base.b); }
    assert 0 <= Rem(0 - d, base.b) == base.b - d by { RemIs(0 - d, base.b, base.b - d); }
    if Rem(2 * d, base.b) == 0 then base.b - 1 else UdivQrnnd(base, Rem(0 - d, base.b), 0, d).0
  }

  /** b + di is the reciprocal of d, too small by at most one in the last place. */
  ghost predicate Reciprocal(base: Base, d: nat, di: int) {
    base.Normal(d) && 0 <= di < base.b && 0 <= Mul(base.b, base.b) - Mul(base.b + di, d) <= d
  }

  lemma InvertIsReciprocal(base: Base, d: nat)
    requires base.Normal(d)
    ensures Reciprocal(base, d, InvertLimb(base, d))
  {
    hide Mul, Quot, Rem, UdivQrnnd;
    var b, di := base.b, InvertLimb(base, d);
    HalvesOf(base, d);
    RemIs(0 - d, b, b - d);
    MulAdd(b, di, d); MulComm(b, d); MulAdd(b - d, d, b);
    RemIs(2 * d, b, 2 * d - b);
    if Rem(2 * d, b) == 0 {
      MulAdd(b, -1, d); MulOne(d); MulAdd(d, d, b);
    } else {
      UdivIsExact(base, b - d, 0, d);
    }
  }

  /** udiv_qrnnd_preinv: the quotient from the reciprocal, with at most three corrections. */
  function UdivPreinv(base: Base, nh: nat, nl: nat, d: nat, di: nat): (int, int)
    requires base.h > 0 && base.b > 0
  {
    var b := base.b;
    var q0 := Rem(UmulPpmm(base, nh, di).0 + nh, b);
    var x := UmulPpmm(base, q0, d);
    var r0 := SubDdmmss(b, nh, nl, x.0, x.1);
    var r1 := if r0.0 != 0 then SubDdmmss(b, r0.0, r0.1, 0, d) else r0;
    var q1 := if r0.0 != 0 then Rem(q0 + 1, b) else q0;
    var again := r0.0 != 0 && r1.0 != 0;
    var r2 := if again then SubDdmmss(b, r1.0, r1.1, 0, d) else r1;
    var q2 := if again then Rem(q1 + 1, b) else q1;
    if r2.1 >= d then (Rem(q2 + 1, b), Rem(r2.1 - d, b)) else (q2, r2.1)
  }

  /** What is left after the first estimate q0, times b. */
  lemma Remainder(b: nat, d: nat, di: int, nh: int, nl: int, q: int, ql: int)
    requires Mul(nh, di) == Mul(q, b) + ql
    ensures var q0 := q + nh;
            Mul(Mul(nh, b) + nl - Mul(q0, d), b) == Mul(nl, b) + Mul(nh, Mul(b, b) - Mul(b + di, d)) + Mul(ql, d)
  {
    hide Mul;
    var q0 := q + nh;
    MulAdd(Mul(nh, b), nl - Mul(q0, d), b); MulAdd(nl, 0 - Mul(q0, d), b); MulAdd(Mul(q0, d), 0 - Mul(q0, d), b);
    MulOne(b);
    MulAssoc(nh, b, b);
    // Mul(q0, d) * b == (nh * (b + di) - ql) * d
    MulAssoc(q0, d, b); MulComm(d, b); MulAssoc(q0, b, d);
    MulAdd(q, nh, b);
    MulComm(nh, b + di); MulAdd(b, di, nh); MulComm(di, nh); MulComm(b, nh);
    MulAdd(Mul(nh, b + di), 0 - ql, d); MulAdd(ql, 0 - ql, d); MulOne(d);
    MulAssoc(nh, b + di, d);
    MulComm(nh, Mul(b, b) - Mul(b + di, d)); MulAdd(Mul(b, b), 0 - Mul(b + di, d), nh);
    MulAdd(Mul(b + di, d), 0 - Mul(b + di, d), nh); MulOne(nh);
    MulComm(Mul(b, b), nh); MulComm(Mul(b + di, d), nh);
  }

  /** The first estimate of udiv_qrnnd_preinv is not too large, and leaves less than b + 2 * d. */
  lemma FirstEstimate(base: Base, nh: nat, nl: nat, d: nat, di: nat)
    requires Reciprocal(base, d, di) && nh < d && nl < base.b
    ensures var q0 := UmulPpmm(base, nh, di).0 + nh;
            var left := Mul(nh, base.b) + nl - Mul(q0, d);
            0 <= left < base.b + 2 * d && 0 <= q0 < base.b
  {
    hide Mul, Quot, Rem, UmulPpmm;
    var b, e := base.b, Mul(base.b, base.b) - Mul(base.b + di, d);
    UmulIsProduct(base, nh, di);
    var (q, ql) := UmulPpmm(base, nh, di);
    var q0 := q + nh;
    var left := Mul(nh, b) + nl - Mul(q0, d);
    Remainder(b, d, di, nh, nl, q, ql);
    MulOne(b); MulOne(d); MulOne(e);
    MulMono(0, nl, b); MulMono(nl, b - 1, b); MulAdd(b, -1, b);
    MulMono(0, nh, e); MulMono(nh, b, e); MulComm(b, e); MulMono(e, d, b); MulComm(d, b);
    MulMono(0, ql, d); MulMono(ql, b - 1, d); MulAdd(b, -1, d);
    if left < 0 { MulMono(left, -1, b); }
    MulAdd(b, d + d, b); MulAdd(d, d, b);
    if left >= b + 2 * d { MulMono(b + (d + d), left, b); }
    MulMono(nh, d - 1, b); MulAdd(d, -1, b);
    if q0 >= b { MulMono(b, q0, d); }
  }

  /** Division by reciprocal: exact, whatever the dividend. */
  lemma PreinvIsExact(base: Base, nh: nat, nl: nat, d: nat, di: nat)
    requires Reciprocal(base, d, di) && nh < d && nl < base.b
    ensures var (q, r) := UdivPreinv(base, nh, nl, d, di);
            Mul(nh, base.b) + nl == Mul(q, d) + r && 0 <= r < d && 0 <= q < base.b
  {
    hide Mul, Quot, Rem, UmulPpmm, SubDdmmss;
    var b := base.b;
    FirstEstimate(base, nh, nl, d, di);
    var q0 := UmulPpmm(base, nh, di).0 + nh;
    RemIs(q0, b, q0);
    var left := Mul(nh, b) + nl - Mul(q0, d);
    UmulIsProduct(base, q0, d);
    var x := UmulPpmm(base, q0, d);
    MulAdd(nh - x.0, x.0, b); MulOne(b); MulOne(d);
    SubIs(b, nh, nl, x.0, x.1);
    var r0 := SubDdmmss(b, nh, nl, x.0, x.1);
    var k, r := q0, r0;
    HighLimb(b, r0.0, r0.1, left);
    if r0.0 != 0 {
      SubIs(b, r0.0, r0.1, 0, d);
      var r1 := SubDdmmss(b, r0.0, r0.1, 0, d);
      HighLimb(b, r1.0, r1.1, left - d);
      MulAdd(q0, 1, d);
      Below(base, nh, nl, d, q0 + 1, left - d);
      RemIs(q0 + 1, b, q0 + 1);
      k, r := q0 + 1, r1;
      if r1.0 != 0 {
        SubIs(b, r1.0, r1.1, 0, d);
        r := SubDdmmss(b, r1.0, r1.1, 0, d);
        HighLimb(b, r.0, r.1, left - 2 * d);
        MulAdd(q0 + 1, 1, d);
        Below(base, nh, nl, d, q0 + 2, left - 2 * d);
        RemIs(q0 + 2, b, q0 + 2);
        k := q0 + 2;
      }
    }
    assert r.0 == 0 && Mul(nh, b) + nl == Mul(k, d) + r.1;
    MulAdd(k, 1, d);
    if r.1 >= d {
      Below(base, nh, nl, d, k + 1, r.1 - d);
      RemIs(k + 1, b, k + 1);
      RemIs(r.1 - d, b, r.1 - d);
    }
  }

  /** The high limb is zero exactly for what fits into one limb. */
  lemma HighLimb(b: nat, h: int, l: int, v: int)
    requires b > 0 && 0 <= h && 0 <= l < b && Mul(h, b) + l == v
    ensures h == 0 <==> v < b
  {
    hide Mul;
    MulOne(b);
    if h >= 1 { MulMono(1, h, b); }
  }

  /** A quotient with a remainder is a limb. */
  lemma Below(base: Base, nh: nat, nl: nat, d: nat, q: int, r: int)
    requires nh < d && nl < base.b && Mul(nh, base.b) + nl == Mul(q, d) + r && r >= 0
    ensures q < base.b
  {
    hide Mul;
    var b := base.b;
    MulMono(nh, d - 1, b); MulAdd(d, -1, b); MulOne(b); MulComm(d, b);
    if q >= b { MulMono(b, q, d); }
  }

  /** A limb under a mask of all zeros or all ones. */
  function Masked(x: int, mask: int): int { if mask == 0 then 0 else x }

  /** All ones if the top bit of x is set. */
  function TopMask(b: nat, x: nat): int { if 2 * x >= b then b - 1 else 0 }

  /** udiv_qrnnd_preinv2norm: the same without branches. */
  function UdivPreinv2Norm(base: Base, nh: nat, nl: nat, d: nat, di: nat): (int, int)
    requires base.h > 0 && base.b > 0
  {
    var b := base.b;
    var n1 := TopMask(b, nl);
    var nadj := Rem(nl + Masked(d, n1), b);
    var p := UmulPpmm(base, di, Rem(nh - n1, b));
    var x := AddSsaaaa(b, p.0, p.1, 0, nadj);
    var q1 := b - 1 - Rem(nh + x.0, b);
    var y := UmulPpmm(base, q1, d);
    var z := AddSsaaaa(b, y.0, y.1, nh, nl);
    var xh := Rem(z.0 - d, b);
    (Rem(xh - q1, b), Rem(z.1 + Masked(d, xh), b))
  }

  /** What is left after the adjusted estimate, times b; t is the top bit of nl. */
  lemma AdjustedRemainder(b: int, d: int, di: int, nh: int, nl: int, t: int, nadj: int, xh: int, xl: int)
    requires (t == 0 || t == 1) && Mul(di, nh + t) + nadj == Mul(xh, b) + xl
    ensures var e := Mul(b, b) - Mul(b + di, d);
            Mul(Mul(nh, b) + nl - Mul(nh + xh, d), b) ==
              Mul(nl, b) + Mul(nh, e) - Mul(t, Mul(di, d)) - Mul(nadj, d) + Mul(xl, d)
  {
    hide Mul;
    var e, q := Mul(b, b) - Mul(b + di, d), nh + xh;
    MulAdd(Mul(nh, b), nl - Mul(q, d), b); MulAdd(nl, 0 - Mul(q, d), b); MulAdd(Mul(q, d), 0 - Mul(q, d), b); MulOne(b);
    MulAssoc(nh, b, b);
    MulAssoc(q, d, b); MulComm(d, b); MulAssoc(q, b, d); MulAdd(nh, xh, b);
    MulComm(di, nh + t); MulAdd(nh, t, di); MulComm(nh, b + di); MulAdd(b, di, nh); MulComm(b, nh); MulComm(di, nh);
    // Mul(q, b) == Mul(nh, b + di) + Mul(t, di) + nadj - xl, times d
    MulAdd(Mul(nh, b + di), Mul(t, di) + nadj - xl, d); MulAdd(Mul(t, di), nadj - xl, d); MulAdd(nadj, 0 - xl, d);
    MulAdd(xl, 0 - xl, d); MulOne(d);
    MulAssoc(t, di, d); MulAssoc(nh, b + di, d);
    MulComm(nh, e); MulAdd(Mul(b, b), 0 - Mul(b + di, d), nh); MulAdd(Mul(b + di, d), 0 - Mul(b + di, d), nh);
    MulOne(nh);
    MulComm(Mul(b, b), nh); MulComm(Mul(b + di, d), nh);
  }

  /** The adjusted estimate is right or one too small. */
  lemma AdjustedEstimate(base: Base, nh: nat, nl: nat, d: nat, di: nat, t: int, xh: int, xl: int)
    requires Reciprocal(base, d, di) && nh < d && nl < base.b && t == (if 2 * nl >= base.b then 1 else 0)
    requires var nadj := nl + (if t == 1 then d - base.b else 0);
             Mul(di, nh + t) + nadj == Mul(xh, base.b) + xl && 0 <= xl < base.b
    ensures 0 <= Mul(nh, base.b) + nl - Mul(nh + xh, d) < 2 * d
  {
    hide Mul;
    var b, e := base.b, Mul(base.b, base.b) - Mul(base.b + di, d);
    var nadj := nl + (if t == 1 then d - b else 0);
    var left := Mul(nh, b) + nl - Mul(nh + xh, d);
    AdjustedRemainder(b, d, di, nh, nl, t, nadj, xh, xl);
    MulOne(b); MulOne(d); MulOne(e); MulOne(Mul(di, d)); MulOne(b - d);
    MulMono(0, xl, d); MulMono(xl, b - 1, d); MulAdd(b, -1, d);
    MulMono(0, nh, e); MulAdd(nh, 1, e); MulMono(nh + 1, d, e); MulComm(d, e); MulMono(e, d, d);
    MulAdd(b, di, d); MulAdd(b - d, d, d); MulAdd(b - d, d, nl); MulComm(b, nl); MulComm(d, nl); MulComm(b - d, nl);
    MulAdd(b - d, d, b); MulComm(d, b); MulAdd(b - d, d, b - d); MulComm(b - d, b); MulComm(b - d, d);
    if t == 0 {
      MulMono(0, nl, b - d); MulMono(nl, d, b - d);
    } else {
      MulAdd(nl, d - b, d); MulAdd(d - b, b, d);
      MulAdd(nl - (b - d), b - d, b - d); MulMono(0, nl - (b - d), b - d); MulMono(nl - (b - d), d - 1, b - d);
      MulAdd(d, -1, b - d);
    }
    assert 0 <= Mul(left, b) < 2 * Mul(d, b);
    if left < 0 { MulMono(left, -1, b); }
    MulAdd(d, d, b);
    if left >= 2 * d { MulMono(d + d, left, b); }
  }

  /** The product of two limbs and one more limb fit into two limbs. */
  lemma ProductAndMore(b: nat, x: int, y: int, z: int)
    requires b > 0 && 0 <= x < b && 0 <= y < b && 0 <= z < b
    ensures 0 <= Mul(x, y) && Mul(x, y) + z < Mul(b, b)
  {
    hide Mul;
    MulMono(0, x, y); MulOne(y); MulMono(x, b - 1, y); MulComm(b - 1, y); MulMono(y, b - 1, b - 1);
    MulAdd(b, -1, b - 1); MulOne(b - 1); MulComm(b, b - 1); MulAdd(b, -1, b); MulOne(b);
  }

  /** The adjusted estimate as preinv2norm computes it: right, or one too small. */
  lemma AdjustedIs(base: Base, nh: nat, nl: nat, d: nat, di: nat)
    requires Reciprocal(base, d, di) && nh < d && nl < base.b
    ensures var b := base.b;
            var nadj := Rem(nl + Masked(d, TopMask(b, nl)), b);
            var p := UmulPpmm(base, di, Rem(nh - TopMask(b, nl), b));
            var x := AddSsaaaa(b, p.0, p.1, 0, nadj);
            0 <= nh + x.0 < b && 0 <= Mul(nh, b) + nl - Mul(nh + x.0, d) < 2 * d
  {
    hide Mul, Quot, Rem, UmulPpmm, AddSsaaaa;
    var b, t := base.b, if 2 * nl >= base.b then 1 else 0;
    var nadj := nl + (if t == 1 then d - b else 0);
    RemIs(nl + Masked(d, TopMask(b, nl)), b, nadj);
    RemIs(nh - TopMask(b, nl), b, nh + t);
    UmulIsProduct(base, di, nh + t);
    var p := UmulPpmm(base, di, nh + t);
    ProductAndMore(b, di, nh + t, nadj);
    AddIs(b, p.0, p.1, 0, nadj);
    var x := AddSsaaaa(b, p.0, p.1, 0, nadj);
    AdjustedEstimate(base, nh, nl, d, di, t, x.0, x.1);
    Below(base, nh, nl, d, nh + x.0, Mul(nh, b) + nl - Mul(nh + x.0, d));
  }

  /** Branch-free division by reciprocal is exact as well. */
  lemma Preinv2NormIsExact(base: Base, nh: nat, nl: nat, d: nat, di: nat)
    requires Reciprocal(base, d, di) && nh < d && nl < base.b
    ensures var (q, r) := UdivPreinv2Norm(base, nh, nl, d, di);
            Mul(nh, base.b) + nl == Mul(q, d) + r && 0 <= r < d && 0 <= q < base.b
  {
    hide Mul, Quot, Rem, UmulPpmm, AddSsaaaa, TopMask;
    var b := base.b;
    AdjustedIs(base, nh, nl, d, di);
    var nadj := Rem(nl + Masked(d, TopMask(b, nl)), b);
    var p := UmulPpmm(base, di, Rem(nh - TopMask(b, nl), b));
    var k := nh + AddSsaaaa(b, p.0, p.1, 0, nadj).0;
    RemIs(k, b, k);
    var q1, rho := b - 1 - k, Mul(nh, b) + nl - Mul(k, d) - d;
    UmulIsProduct(base, q1, d);
    var y := UmulPpmm(base, q1, d);
    // q1 * d + n == b * d + rho
    MulAdd(b, -1 - k, d); MulAdd(-1, 0 - k, d); MulAdd(k, 0 - k, d); MulOne(d); MulComm(b, d);
    MulAdd(y.0, nh, b); MulOne(b); MulMono(d, b - 1, b); MulAdd(b, -1, b);
    AddIs(b, y.0, y.1, nh, nl);
    var z := AddSsaaaa(b, y.0, y.1, nh, nl);
    assert Mul(z.0, b) + z.1 == Mul(d, b) + rho;
    MulAdd(d, -1, b); MulAdd(k, 1, d);
    if rho >= 0 {
      SameLimbs(b, z.0, z.1, d, rho);
      RemIs(0, b, 0);
      Below(base, nh, nl, d, k + 1, rho);
      RemIs(0 - q1, b, k + 1);
      RemIs(rho, b, rho);
    } else {
      SameLimbs(b, z.0, z.1, d - 1, b + rho);
      RemIs(-1, b, b - 1);
      RemIs(b - 1 - q1, b, k);
      RemIs(b + rho + d, b, rho + d);
    }
  }

  /** Two limbs are determined by their value. */
  lemma SameLimbs(b: nat, h: int, l: int, h': int, l': int)
    requires b > 0 && 0 <= l < b && 0 <= l' < b && Mul(h, b) + l == Mul(h', b) + l'
    ensures h == h' && l == l'
  {
    hide Mul, Quot, Rem;
    QuotRemIs(Mul(h, b) + l, b, h, l);
    QuotRemIs(Mul(h, b) + l, b, h', l');
  }

  /** Both ways of dividing with the reciprocal of invert_limb agree with true division. */
  lemma DivisionByReciprocal(base: Base, nh: nat, nl: nat, d: nat)
    requires base.Normal(d) && nh < d && nl < base.b
    ensures InvertLimb(base, d) >= 0
    ensures var n, di := nh * base.b + nl, InvertLimb(base, d);
            UdivPreinv(base, nh, nl, d, di) == UdivPreinv2Norm(base, nh, nl, d, di) == (n / d, n % d)
  {
    hide Mul, Quot, Rem, UdivPreinv, UdivPreinv2Norm, InvertLimb;
    InvertIsReciprocal(base, d);
    var n, di := Mul(nh, base.b) + nl, InvertLimb(base, d);
    PreinvIsExact(base, nh, nl, d, di);
    Preinv2NormIsExact(base, nh, nl, d, di);
    var a, c := UdivPreinv(base, nh, nl, d, di), UdivPreinv2Norm(base, nh, nl, d, di);
    QuotRemIs(n, d, a.0, a.1);
    QuotRemIs(n, d, c.0, c.1);
    PlainDivision(nh, base.b, nl, d);
  }

  lemma PlainDivision(nh: nat, b: nat, nl: nat, d: nat)
    requires d > 0
    ensures Quot(Mul(nh, b) + nl, d) == (nh * b + nl) / d && Rem(Mul(nh, b) + nl, d) == (nh * b + nl) % d
  {
  }
}
