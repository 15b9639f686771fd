/** The fixed codes of section 3.2.6 of RFC 1951 fit; those for literals and lengths are complete. */
module StaticCodes {
  import opened Arith
  import opened Canonical
  import opened SymbolCodes
  import opened CopyCodes

  /** How many numbers below n are at least lo and below hi. */
  function Within(n: nat, lo: nat, hi: nat): nat
    requires lo <= hi
  {
    if n <= lo then 0 else if n < hi then n - lo else hi - lo
  }

  /** How many of the first n literal codes have k bits. */
  function StaticCount(n: nat, k: nat): nat {
    if k == 7 then Within(n, 256, 280)
    else if k == 8 then Within(n, 0, 144) + Within(n, 280, 288)
    else if k == 9 then Within(n, 144, 256)
    else 0
  }

  lemma {:induction false} CountStatic(n: nat, k: nat)
    requires n <= 288
    ensures CountOf(StaticL()[..n], k) == StaticCount(n, k)
    decreases n
  {
    if n > 0 {
      assert StaticL()[..n][..n - 1] == StaticL()[..n - 1];
      CountStatic(n - 1, k);
    }
  }

  lemma FullCounts(bl: Counts)
    requires bl[7] == 24 && bl[8] == 152 && bl[9] == 112
    requires forall k :: 0 <= k <= MAX_BITS && k != 7 && k != 8 && k != 9 ==> bl[k] == 0
    ensures End(bl, MAX_BITS) == Pow2(MAX_BITS) && Fits(bl, MAX_BITS)
  {
    hide Fits, Pow2, Shl;
    FirstIsZero(bl, 7);
    assert First(bl, 8) == 48 && First(bl, 9) == 400 && End(bl, 9) == 512;
    NinePowers();
    EndBehind(bl, 9, MAX_BITS);
    Pow2Shl(9, MAX_BITS);
    KraftSays(bl, MAX_BITS);
  }

  lemma NinePowers()
    ensures Pow2(9) == 512
  {
  }

  lemma StaticLFits()
    ensures Kraft(StaticL()) == Pow2(MAX_BITS)
  {
    hide CountOf, First, Pow2, Fits;
    var b := StaticL();
    assert b[..288] == b;
    forall k | 0 <= k <= MAX_BITS ensures CountsOf(b)[k] == StaticCount(288, k) { CountStatic(288, k); }
    FullCounts(CountsOf(b));
  }

  lemma {:induction false} CountFives(b: seq<nat>, k: nat)
    requires forall i :: 0 <= i < |b| ==> b[i] == 5
    ensures CountOf(b, k) == if k == 5 then |b| else 0
  {
    if b != [] { CountFives(b[..|b| - 1], k); }
  }

  lemma StaticDFits()
    ensures Kraft(StaticD()) <= Pow2(MAX_BITS)
  {
    hide CountOf, Pow2, Shl;
    var c := CountsOf(StaticD());
    forall k | 1 <= k <= MAX_BITS ensures c[k] == if k == 5 then 30 else 0 { CountFives(StaticD(), k); }
    FirstIsZero(c, 5);
    assert End(c, 5) == 30;
    FivePowers();
    EndBehind(c, 5, MAX_BITS);
    Pow2Shl(5, MAX_BITS);
    ShlMono(30, 32, MAX_BITS - 5);
  }

  lemma FivePowers()
    ensures Pow2(5) == 32
  {
  }
}
