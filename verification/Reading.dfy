/** Reading a symbol off a bit stream by its canonical code, without any tables (section 3.2.2
    of RFC 1951). */
module CodeReading {
  import opened Arith
  import opened Options
  import opened BitStrings
  import opened Canonical
  import opened SymbolCodes

  function Zeros15(): (s: Bits)
    ensures |s| == MAX_BITS
  {
    [false, false, false, false, false, false, false, false, false, false, false, false, false, false, false]
  }

  /** The bits from pos on, with zeros behind the end. */
  function Ahead(bits: Bits, pos: nat): (s: Bits)
    requires pos <= |bits|
    ensures |s| == |bits| - pos + MAX_BITS
  {
    bits[pos..] + Zeros15()
  }

  /** The symbol whose code comes next, if there is one. */
  ghost function SymbolAt(b: seq<nat>, bits: Bits, pos: nat): (r: Option<nat>)
    requires Lengths(b) && pos <= |bits|
    ensures r.Some? ==> Front(b, r.value, Ahead(bits, pos))
    ensures r.None? <==> NoCode(b, Ahead(bits, pos))
  {
    if exists sym :: Front(b, sym, Ahead(bits, pos)) then Some(var sym :| Front(b, sym, Ahead(bits, pos)); sym)
      else None
  }

  /** At most one symbol's code is at the front: no code is a prefix of another. */
  lemma FrontIsUnique(b: seq<nat>, i: nat, j: nat, s: Bits)
    requires Lengths(b) && Front(b, i, s) && Front(b, j, s)
    ensures i == j
  {
    hide CountOf, First, End, Be;
    if b[i] <= b[j] { SamePrefix(b, i, j, s); } else { SamePrefix(b, j, i, s); }
  }

  lemma SamePrefix(b: seq<nat>, i: nat, j: nat, s: Bits)
    requires Lengths(b) && Front(b, i, s) && Front(b, j, s) && b[i] <= b[j]
    ensures i == j
  {
    hide CountOf, First, End, Be;
    PrefixOfStream(s, b[i], b[j]);
    RankBelowCount(b, i);
    PrefixFree(CountsOf(b), b[i], RankOf(b, i), b[j], RankOf(b, j));
    RankInjective(b, i, j);
  }

  /** A complete set of codes reads every string. */
  lemma CompleteReads(b: seq<nat>, s: Bits)
    requires Lengths(b) && Kraft(b) == Pow2(MAX_BITS) && |s| >= MAX_BITS
    ensures exists sym :: Front(b, sym, s)
  {
    hide CountOf, First, Be, Pow2;
    var c := CountsOf(b);
    KraftSays(c, MAX_BITS);
    var m, r := Covered(c, Be(s[..MAX_BITS]), MAX_BITS);
    PrefixOfStream(s, m, MAX_BITS);
    var sym := RankSurjective(b, m, r);
    assert Front(b, sym, s);
  }

  /** A set that can be decoded is complete or has one symbol only. */
  lemma UsableIs(b: seq<nat>)
    requires Lengths(b) && Usable(b) && SomeCode(b) && Kraft(b) != Pow2(MAX_BITS)
    ensures exists sym :: Only(b, sym)
  {
    hide CountOf, First, Pow2;
    var sym :| 0 <= sym < |b| && b[sym] > 0;
    forall i | 0 <= i < |b| && i != sym ensures b[i] == 0 {
      if b[i] != 0 { TwoOnes(b, if i < sym then i else sym, if i < sym then sym else i); }
    }
    assert Only(b, sym);
  }

  lemma TwoOnes(b: seq<nat>, i: nat, j: nat)
    requires i < j < |b| && b[i] == b[j] == 1
    ensures Kraft(b) >= Pow2(MAX_BITS)
  {
    hide Pow2;
    CountMono(b, i, j, 1); CountMono(b, j, |b|, 1);
    assert b[..|b|] == b;
    assert CountsOf(b)[1] >= 2;
    EndGrows(CountsOf(b), 1);
    ShlMono(2, End(CountsOf(b), 1), MAX_BITS - 1);
    OnePower();
    Pow2Shl(1, MAX_BITS);
  }

  lemma OnePower()
    ensures Pow2(1) == 2
  {
  }

  lemma OnlyIsThere(bl: seq<nat>, bits: Bits, pos: nat)
    requires Lengths(bl) && Usable(bl) && SomeCode(bl) && pos <= |bits| && SymbolAt(bl, bits, pos).None?
    ensures exists sym :: Only(bl, sym)
  {
    hide Kraft, Pow2, CountOf, First, StartsWith, CodeOf;
    if Kraft(bl) == Pow2(MAX_BITS) { CompleteReads(bl, Ahead(bits, pos)); } else { UsableIs(bl); }
  }

  /** The bit length code that comes next, and its length. With one symbol only, the invalid
      code counts as this symbol too. */
  ghost function BlCode(bl: seq<nat>, bits: Bits, pos: nat): (r: (nat, nat))
    requires Lengths(bl) && Usable(bl) && SomeCode(bl) && pos <= |bits|
    ensures r.0 < |bl| && bl[r.0] == r.1 >= 1
  {
    if SymbolAt(bl, bits, pos).Some? then (SymbolAt(bl, bits, pos).value, bl[SymbolAt(bl, bits, pos).value])
    else
      OnlyIsThere(bl, bits, pos);
      (var sym :| Only(bl, sym); sym, 1)
  }
}
