/** Bit strings and their two readings as numbers: Huffman codes are packed most
    significant bit first, everything else least significant bit first (section 3.1.1
    of RFC 1951). */
module BitStrings {
  import opened Arith

  type Bits = seq<bool>

  function Bit(b: bool): (r: nat) ensures r < 2 { if b then 1 else 0 }

  /** Most significant bit first. */
  function Be(s: Bits): (r: nat)
    ensures r < Pow2(|s|)
  {
    if s == [] then 0 else 2 * Be(s[..|s| - 1]) + Bit(s[|s| - 1])
  }

  /** Least significant bit first. */
  function Le(s: Bits): (r: nat)
    ensures r < Pow2(|s|)
  {
    if s == [] then 0 else Bit(s[0]) + 2 * Le(s[1..])
  }

  lemma {:induction false} BeConcat(a: Bits, b: Bits)
    ensures Be(a + b) == Shl(Be(a), |b|) + Be(b)
    decreases |b|
  {
    if b == [] {
      assert a + b == a;
    } else {
      assert (a + b)[..|a + b| - 1] == a + b[..|b| - 1];
      BeConcat(a, b[..|b| - 1]);
    }
  }

  lemma {:induction false} LeConcat(a: Bits, b: Bits)
    ensures Le(a + b) == Le(a) + Shl(Le(b), |a|)
    decreases |a|
  {
    if a == [] {
      assert a + b == b;
    } else {
      assert (a + b)[1..] == a[1..] + b;
      LeConcat(a[1..], b);
    }
  }

  lemma {:induction false} LeIsRevBe(s: Bits)
    ensures Le(s) == Rev(Be(s), |s|)
  {
    if s != [] {
      var n := |s| - 1;
      assert s == s[..n] + [s[n]];
      LeConcat(s[..n], [s[n]]);
      assert Le([s[n]]) == Bit(s[n]);
      LeIsRevBe(s[..n]);
      RevStep(Be(s[..n]), Bit(s[n]), n);
    }
  }

  lemma DropBit(n: nat, d: nat)
    ensures n == 2 * (n / 2) + n % 2
    ensures Low(n, d + 1) == 2 * Low(n / 2, d) + n % 2 && Shr(n, d + 1) == Shr(n / 2, d)
  {
  }

  lemma RevStep(n: nat, b: nat, k: nat)
    requires b < 2
    ensures Rev(2 * n + b, k + 1) == Shl(b, k) + Rev(n, k)
  {
  }

  lemma {:induction false} AddAbove(b: nat, t: nat, x: nat, w: nat)
    requires w <= t
    ensures Low(Shl(b, t) + x, w) == Low(x, w)
    ensures Shr(Shl(b, t) + x, w) == Shl(b, t - w) + Shr(x, w)
    decreases w
  {
    if w > 0 {
      assert (Shl(b, t) + x) / 2 == Shl(b, t - 1) + x / 2;
      AddAbove(b, t - 1, x / 2, w - 1);
    }
  }

  /** The first w bits of a code are the low bits of its reversal, the rest the others. */
  lemma {:induction false} RevSplit(n: nat, k: nat, w: nat)
    requires w <= k
    ensures Low(Rev(n, k), w) == Rev(Shr(n, k - w), w)
    ensures Shr(Rev(n, k), w) == Rev(Low(n, k - w), k - w)
    decreases k
  {
    hide *;
    if w == k {
      RevSplitWhole(n, k);
    } else {
      var b, m, d := n % 2, n / 2, k - 1 - w;
      RevSplit(m, k - 1, w);
      AddAbove(b, k - 1, Rev(m, k - 1), w);
      RevStep(m, b, k - 1);
      RevStep(Low(m, d), b, d);
      DropBit(n, d);
    }
  }

  lemma RevSplitWhole(n: nat, k: nat)
    ensures Low(Rev(n, k), k) == Rev(Shr(n, 0), k) && Shr(Rev(n, k), k) == Rev(Low(n, 0), 0)
  {
    LowBelow(Rev(n, k), k);
    JoinParts(0, Rev(n, k), k);
    ShlZero(k);
  }

  lemma {:induction false} RevRev(n: nat, k: nat)
    ensures Rev(Rev(n, k), k) == Low(n, k)
    decreases k
  {
    if k > 0 {
      RevRevStep(n, k);
      RevRev(Low(n, k - 1), k - 1);
      LowOfLow(n, k - 1, k - 1);
      LowTop(n, k);
    }
  }

  lemma RevRevStep(n: nat, k: nat)
    requires k > 0
    ensures Rev(Rev(n, k), k) == Shl(Rev(Shr(n, k - 1), 1), k - 1) + Rev(Rev(Low(n, k - 1), k - 1), k - 1)
  {
    hide *;
    var m := Rev(n, k);
    RevSplit(n, k, 1);
    DropBit(m, 0);
    LowShrZero(m / 2);
    RevStep(m / 2, m % 2, k - 1);
  }

  lemma LowShrZero(x: nat)
    ensures Low(x, 0) == 0 && Shr(x, 0) == x
  {
  }

  lemma {:induction false} LowTop(n: nat, k: nat)
    requires k > 0
    ensures Low(n, k) == Shl(Rev(Shr(n, k - 1), 1), k - 1) + Low(n, k - 1)
    decreases k
  {
    if k > 1 { LowTop(n / 2, k - 1); }
  }

  lemma RevInjective(a: nat, b: nat, k: nat)
    requires a < Pow2(k) && b < Pow2(k) && Rev(a, k) == Rev(b, k)
    ensures a == b
  {
    RevRev(a, k); RevRev(b, k);
    LowBelow(a, k); LowBelow(b, k);
  }

  /** Zeros appended to a code do not show in its reversal. */
  lemma {:induction false} RevShl(n: nat, k: nat, d: nat)
    ensures Rev(Shl(n, d), k + d) == Rev(n, k)
    decreases d
  {
    if d > 0 {
      RevShl(n, k, d - 1);
      RevStep(Shl(n, d - 1), 0, k + d - 1);
      ShlZero(k + d - 1);
    }
  }

  lemma {:induction false} LowShl(x: nat, d: nat, s: nat)
    ensures Low(Shl(x, d), s + d) == Shl(Low(x, s), d)
    decreases d
  {
    if d > 0 { LowShl(x, d - 1, s); }
  }
}

/** Canonical Huffman codes (section 3.2.2 of RFC 1951): within one length the codes of
    the symbols are consecutive numbers, and shorter codes precede longer ones. */
module Canonical {
  import opened Arith
  import opened BitStrings

  const MAX_BITS := 15

  /** How many codes there are of every length up to MAX_BITS; entry 0 is not used. */
  type Counts = c: seq<nat> | |c| == MAX_BITS + 1 witness seq(MAX_BITS + 1, _ => 0)

  /** next_code of gen_codes: the first code of length k. */
  function First(cnt: Counts, k: nat): (n: nat)
    requires k <= MAX_BITS + 1
    decreases k, 0
  {
    if k <= 1 then 0 else 2 * End(cnt, k - 1)
  }

  /** One past the last code of length k. */
  function End(cnt: Counts, k: nat): (n: nat)
    requires 1 <= k <= MAX_BITS
    decreases k, 1
  {
    First(cnt, k) + cnt[k]
  }

  /** No length up to g has more codes than bit strings are left for it. */
  ghost predicate Fits(cnt: Counts, g: nat)
    requires g <= MAX_BITS
  {
    forall k {:trigger End(cnt, k)} :: 1 <= k <= g ==> End(cnt, k) <= Pow2(k)
  }

  /** The codes of length g end at the last bit string: every bit string of length g
      starts with a code. */
  ghost predicate Complete(cnt: Counts, g: nat) {
    1 <= g <= MAX_BITS && Fits(cnt, g) && End(cnt, g) == Pow2(g)
  }

  /** Codes of length m start behind all codes of a shorter length k. */
  lemma {:induction false} FirstBehind(cnt: Counts, k: nat, m: nat)
    requires 1 <= k < m <= MAX_BITS + 1
    ensures First(cnt, m) >= Shl(End(cnt, k), m - k)
    decreases m
  {
    if m > k + 1 { FirstBehind(cnt, k, m - 1); }
  }

  /** Code n of length k is a prefix of code c of length m. */
  ghost predicate PrefixOf(n: nat, k: nat, c: nat, m: nat) {
    k <= m && Shr(c, m - k) == n
  }

  lemma {:induction false} ShrAtLeast(x: nat, y: nat, s: nat)
    requires x >= Shl(y, s)
    ensures Shr(x, s) >= y
    decreases s
  {
    if s > 0 { ShrAtLeast(x / 2, y, s - 1); }
  }

  lemma {:induction false} ShrBelow(x: nat, y: nat, s: nat)
    requires x < Shl(y, s)
    ensures Shr(x, s) < y
    decreases s
  {
    if s > 0 { ShrBelow(x / 2, y, s - 1); }
  }

  /** No code is a prefix of another. */
  lemma PrefixFree(cnt: Counts, k: nat, r: nat, m: nat, q: nat)
    requires 1 <= k <= m <= MAX_BITS && r < cnt[k]
    requires PrefixOf(First(cnt, k) + r, k, First(cnt, m) + q, m)
    ensures k == m && r == q
  {
    if k < m {
      FirstBehind(cnt, k, m);
      ShrAtLeast(First(cnt, m) + q, End(cnt, k), m - k);
    }
  }

  /** Every bit string of length g starts with a code, when the codes are complete. */
  lemma {:induction false} Covered(cnt: Counts, s: nat, k: nat) returns (m: nat, r: nat)
    requires 1 <= k <= MAX_BITS && s < End(cnt, k) && Fits(cnt, k)
    ensures 1 <= m <= k && r < cnt[m] && PrefixOf(First(cnt, m) + r, m, s, k)
    decreases k
  {
    if s >= First(cnt, k) {
      m, r := k, s - First(cnt, k);
    } else {
      m, r := Covered(cnt, s / 2, k - 1);
    }
  }

  lemma {:induction false} FirstGrows(cnt: Counts, j: nat, k: nat)
    requires j <= k <= MAX_BITS + 1
    ensures First(cnt, k) >= Shl(First(cnt, j), k - j)
    decreases k
  {
    if 1 < k && j < k { FirstGrows(cnt, j, k - 1); }
    else if j < k { ShlZero(k - j); }
  }

  /** Two prefixes of one string: the shorter is a prefix of the longer. */
  lemma PrefixChain(a: nat, j: nat, b: nat, k: nat, c: nat, m: nat)
    requires j <= k && PrefixOf(a, j, c, m) && PrefixOf(b, k, c, m)
    ensures PrefixOf(a, j, b, k)
  {
    ShrShr(c, m - k, k - j);
  }

  lemma PrefixTrans(a: nat, j: nat, b: nat, k: nat, c: nat, m: nat)
    requires PrefixOf(a, j, b, k) && PrefixOf(b, k, c, m)
    ensures PrefixOf(a, j, c, m)
  {
    ShrShr(c, m - k, k - j);
  }

  /** Where the strings of length m with prefix p lie. */
  lemma PrefixRange(p: nat, w: nat, n: nat, m: nat)
    requires w <= m
    ensures PrefixOf(p, w, n, m) <==> Shl(p, m - w) <= n < Shl(p + 1, m - w)
  {
    if PrefixOf(p, w, n, m) {
      SplitAt(n, m - w);
      ShlAdd(p, 1, m - w);
      ShlOne(m - w);
    } else {
      if Shr(n, m - w) < p {
        SplitAt(n, m - w);
        ShlAdd(Shr(n, m - w), 1, m - w);
        ShlOne(m - w);
        ShlMono(Shr(n, m - w) + 1, p, m - w);
      } else {
        SplitAt(n, m - w);
        ShlMono(p + 1, Shr(n, m - w), m - w);
      }
    }
  }

  /** The first code of a length depends only on the counts of shorter codes. */
  lemma {:induction false} FirstSame(a: Counts, b: Counts, k: nat)
    requires k <= MAX_BITS + 1 && forall j :: 1 <= j < k ==> a[j] == b[j]
    ensures First(a, k) == First(b, k)
    decreases k
  {
    if k > 1 { FirstSame(a, b, k - 1); }
  }

  lemma {:induction false} FirstIsZero(cnt: Counts, k: nat)
    requires k <= MAX_BITS + 1 && forall j :: 1 <= j < k ==> cnt[j] == 0
    ensures First(cnt, k) == 0
    decreases k
  {
    if k > 1 { FirstIsZero(cnt, k - 1); }
  }

  /** How many codes have a length from k to g. */
  ghost function CodesFrom(cnt: Counts, k: nat, g: nat): nat
    requires g <= MAX_BITS
    decreases g + 1 - k
  {
    if k > g then 0 else cnt[k] + CodesFrom(cnt, k + 1, g)
  }

  lemma {:induction false} CodesFromMono(cnt: Counts, j: nat, k: nat, g: nat)
    requires g <= MAX_BITS && j <= k
    ensures CodesFrom(cnt, k, g) <= CodesFrom(cnt, j, g)
    decreases k - j
  {
    if j < k { CodesFromMono(cnt, j + 1, k, g); }
  }

  lemma {:induction false} CodesAppend(c: Counts, c': Counts, k: nat, n: nat, g: nat)
    requires g <= MAX_BITS && 1 <= n <= MAX_BITS && c' == c[n := c[n] + 1]
    ensures CodesFrom(c', k, g) == CodesFrom(c, k, g) + (if k <= n <= g then 1 else 0)
    decreases g + 1 - k
  {
    if k <= g { CodesAppend(c, c', k + 1, n, g); }
  }

  lemma {:induction false} CodesSame(c: Counts, c': Counts, k: nat, g: nat)
    requires g <= MAX_BITS && forall j :: k <= j <= g ==> c[j] == c'[j]
    ensures CodesFrom(c', k, g) == CodesFrom(c, k, g)
    decreases g + 1 - k
  {
    if k <= g { CodesSame(c, c', k + 1, g); }
  }

  lemma {:induction false} NoCodes(c: Counts, k: nat, g: nat)
    requires g <= MAX_BITS && forall j :: k <= j <= g ==> c[j] == 0
    ensures CodesFrom(c, k, g) == 0
    decreases g + 1 - k
  {
    if k <= g { NoCodes(c, k + 1, g); }
  }

  /** To complete the codes from length k on takes at least one code per string of length k
      that is left. */
  lemma {:induction false} StringsLeft(cnt: Counts, k: nat, g: nat)
    requires Complete(cnt, g) && 1 <= k <= g
    ensures CodesFrom(cnt, k, g) + First(cnt, k) >= Pow2(k)
    decreases g - k
  {
    if k < g {
      StringsLeft(cnt, k + 1, g);
      assert End(cnt, k) <= Pow2(k);
    }
  }

  /** The bits at the front of s are code n of length k. */
  ghost predicate StartsWith(s: Bits, n: nat, k: nat) {
    k <= |s| && Be(s[..k]) == n
  }

  lemma PrefixOfStream(s: Bits, j: nat, m: nat)
    requires j <= m <= |s|
    ensures PrefixOf(Be(s[..j]), j, Be(s[..m]), m)
  {
    assert s[..m] == s[..j] + s[j..m];
    BeConcat(s[..j], s[j..m]);
    JoinParts(Be(s[..j]), Be(s[j..m]), m - j);
  }
}

/** Lengths given symbol by symbol: how many codes each length has, the code of every
    symbol, and whether the lengths make a complete set of codes. */
module SymbolCodes {
  import opened Arith
  import opened BitStrings
  import opened Canonical

  /** How many of the lengths are k. */
  function CountOf(b: seq<nat>, k: nat): (n: nat)
    ensures n <= |b|
  {
    if b == [] then 0 else CountOf(b[..|b| - 1], k) + (if b[|b| - 1] == k then 1 else 0)
  }

  /** bl_count: the number of codes of every length. */
  ghost function CountsOf(b: seq<nat>): Counts {
    seq(MAX_BITS + 1, (k: nat) => CountOf(b, k))
  }

  /** The place of a symbol among those with a code of its length. */
  ghost function RankOf(b: seq<nat>, sym: nat): (r: nat)
    requires sym < |b|
  {
    CountOf(b[..sym], b[sym])
  }

  /** The canonical code of a symbol, as a number of b[sym] bits. */
  ghost function CodeOf(b: seq<nat>, sym: nat): nat
    requires sym < |b| && b[sym] <= MAX_BITS
  {
    First(CountsOf(b), b[sym]) + RankOf(b, sym)
  }

  lemma {:induction false} CountMono(b: seq<nat>, i: nat, j: nat, k: nat)
    requires i <= j <= |b|
    ensures CountOf(b[..i], k) <= CountOf(b[..j], k)
    ensures i < j && b[i] == k ==> CountOf(b[..i], k) < CountOf(b[..j], k)
    decreases j
  {
    if i < j {
      assert b[..j][..j - 1] == b[..j - 1];
      CountMono(b, i, j - 1, k);
    }
  }

  /** A symbol's rank is below the number of codes of its length. */
  lemma RankBelowCount(b: seq<nat>, sym: nat)
    requires sym < |b|
    ensures RankOf(b, sym) < CountOf(b, b[sym])
  {
    CountMono(b, sym, |b|, b[sym]);
    assert b[..|b|] == b;
  }

  /** Two symbols with codes of the same length and rank are the same. */
  lemma RankInjective(b: seq<nat>, i: nat, j: nat)
    requires i < |b| && j < |b| && b[i] == b[j] && RankOf(b, i) == RankOf(b, j)
    ensures i == j
  {
    if i < j { CountMono(b, i, j, b[i]); }
    if j < i { CountMono(b, j, i, b[i]); }
  }

  lemma {:induction false} RankSurjective(b: seq<nat>, k: nat, r: nat) returns (sym: nat)
    requires r < CountOf(b, k)
    ensures sym < |b| && b[sym] == k && RankOf(b, sym) == r
    decreases |b|
  {
    var n := |b| - 1;
    if r < CountOf(b[..n], k) {
      sym := RankSurjective(b[..n], k, r);
      assert b[..n][..sym] == b[..sym];
    } else {
      sym := n;
    }
  }

  lemma CountNone()
    ensures forall k: nat :: CountOf([], k) == 0
  {
  }

  lemma CountNext(b: seq<nat>, i: nat)
    requires i < |b|
    ensures forall k: nat :: CountOf(b[..i + 1], k) == CountOf(b[..i], k) + (if b[i] == k then 1 else 0)
  {
    assert b[..i + 1][..i] == b[..i];
  }

  lemma LengthUsed(b: seq<nat>, sym: nat, g: nat)
    requires sym < |b| && 1 <= b[sym] <= MAX_BITS
    requires forall k :: g < k <= MAX_BITS ==> CountsOf(b)[k] == 0
    ensures b[sym] <= g
  {
    RankBelowCount(b, sym);
    assert CountsOf(b)[b[sym]] > 0;
  }

  /** The strings of 15 bits that start with a code, if no two codes share one. */
  ghost function Kraft(b: seq<nat>): nat {
    End(CountsOf(b), MAX_BITS)
  }

  /** The codes use up every string of bits. */
  ghost predicate Full(b: seq<nat>) { Kraft(b) == Pow2(MAX_BITS) }

  /** Lengths as huft_build assumes them. */
  ghost predicate Lengths(b: seq<nat>) {
    forall i :: 0 <= i < |b| ==> b[i] <= MAX_BITS
  }

  /** Behind the greatest length nothing is added. */
  lemma {:induction false} EndBehind(c: Counts, g: nat, k: nat)
    requires 1 <= g <= k <= MAX_BITS && forall j :: g < j <= MAX_BITS ==> c[j] == 0
    ensures End(c, k) == Shl(End(c, g), k - g)
    decreases k
  {
    if g < k { EndBehind(c, g, k - 1); }
  }

  lemma EndGrows(c: Counts, j: nat)
    requires 1 <= j <= MAX_BITS
    ensures End(c, MAX_BITS) >= Shl(End(c, j), MAX_BITS - j)
  {
    if j < MAX_BITS { FirstBehind(c, j, MAX_BITS); }
  }

  lemma Pow2Shl(g: nat, k: nat)
    requires g <= k
    ensures Pow2(k) == Shl(Pow2(g), k - g)
  {
    ShlOne(g); ShlOne(k); ShlShl(1, g, k - g);
  }

  /** Whether the codes fit, and whether they are complete, shows in the Kraft sum. */
  lemma KraftSays(c: Counts, g: nat)
    requires 1 <= g <= MAX_BITS && forall j :: g < j <= MAX_BITS ==> c[j] == 0
    ensures Fits(c, g) <==> End(c, MAX_BITS) <= Pow2(MAX_BITS)
    ensures Fits(c, g) ==> (End(c, g) == Pow2(g) <==> End(c, MAX_BITS) == Pow2(MAX_BITS))
  {
    hide First, Shl, Pow2, End;
    EndBehind(c, g, MAX_BITS);
    Pow2Shl(g, MAX_BITS);
    if End(c, g) < Pow2(g) { StrictShl(End(c, g), Pow2(g), MAX_BITS - g); }
    if !Fits(c, g) {
      var k :| 1 <= k <= g && End(c, k) > Pow2(k);
      EndGrows(c, k);
      Pow2Shl(k, MAX_BITS);
      StrictShl(Pow2(k), End(c, k), MAX_BITS - k);
    }
  }

  lemma UsedLength(b: seq<nat>, g: nat)
    requires 1 <= g <= MAX_BITS && CountsOf(b)[g] > 0
    ensures exists i :: 0 <= i < |b| && b[i] == g
  {
    var sym := RankSurjective(b, g, 0);
  }

  lemma NullKraft(b: seq<nat>)
    requires forall i :: 0 <= i < |b| ==> b[i] == 0
    ensures Kraft(b) == 0
  {
    hide CountOf;
    var c := CountsOf(b);
    forall k | 1 <= k <= MAX_BITS ensures c[k] == 0 {
      if c[k] > 0 { UsedLength(b, k); }
    }
    FirstIsZero(c, MAX_BITS);
  }

  /** There are no more codes than lengths. */
  lemma {:induction false} CodesAtMost(b: seq<nat>, g: nat)
    requires Lengths(b) && g <= MAX_BITS
    ensures CodesFrom(CountsOf(b), 1, g) <= |b|
  {
    hide CodesFrom;
    if b == [] {
      NoCodes(CountsOf(b), 1, g);
    } else {
      var n := |b| - 1;
      var c, c' := CountsOf(b[..n]), CountsOf(b);
      CodesAtMost(b[..n], g);
      if b[n] == 0 {
        CodesSame(c, c', 1, g);
      } else {
        assert c' == c[b[n] := c[b[n]] + 1];
        CodesAppend(c, c', 1, b[n], g);
      }
    }
  }

  /** A set of lengths that can be decoded: complete, or at most one code, of one bit. */
  ghost predicate Usable(b: seq<nat>) {
    Kraft(b) == Pow2(MAX_BITS) || (Kraft(b) < Pow2(MAX_BITS) && forall i :: 0 <= i < |b| ==> b[i] <= 1)
  }

  ghost predicate SomeCode(b: seq<nat>) { exists i :: 0 <= i < |b| && b[i] > 0 }

  /** The code of symbol sym is at the front of s. */
  ghost predicate Front(b: seq<nat>, sym: nat, s: Bits)
    requires Lengths(b)
  {
    sym < |b| && b[sym] > 0 && StartsWith(s, CodeOf(b, sym), b[sym])
  }

  /** No symbol's code is at the front of bits. */
  ghost predicate NoCode(b: seq<nat>, bits: Bits)
    requires Lengths(b)
  {
    forall sym: nat :: !Front(b, sym, bits)
  }

  /** The only symbol with a code, of one bit. The other bit is an invalid code with the base
      of this symbol. */
  ghost predicate Only(b: seq<nat>, sym: nat) {
    sym < |b| && b[sym] == 1 && forall i :: 0 <= i < |b| && i != sym ==> b[i] == 0
  }
}
