/** The callers' view of zlib/inftrees.c: huft_build as a whole, and the tables for a
    dynamic block. */
module InflateTrees {
  import opened Arith
  import opened BitStrings
  import opened Canonical
  import opened SymbolCodes
  import opened Huft
  import opened HuftBuild
  import opened InfTrees
  import opened CopyCodes
  import opened StaticCodes
  import opened TableSpace
  import opened Lookups
  import opened TablesFit

  /** What is found in the tables below hn is found whatever lies behind them. */
  lemma {:induction false} WalkExtends(hp: seq<Entry>, hp': seq<Entry>, t: nat, need: nat, s: Bits)
    requires hp <= hp' && Walk(hp, t, need, s).Found?
    ensures Walk(hp', t, need, s) == Walk(hp, t, need, s)
    decreases |s|
  {
    var at := t + Le(s[..need]);
    var e := hp[at];
    if e.IsLink() { WalkExtends(hp, hp', at + e.base, e.exop, s[e.bits..]); }
  }

  lemma DecodesExtends(hp: seq<Entry>, hp': seq<Entry>, t: nat, m: nat, b: seq<nat>, s: nat, d: seq<nat>, e: seq<nat>)
    requires Lengths(b) && |b| <= s + |d| && |b| <= s + |e| && hp <= hp' && Decodes(hp, t, m, b, s, d, e)
    ensures Decodes(hp', t, m, b, s, d, e)
  {
    hide Walk, OpOf, CodeOf, StartsWith;
    forall bits: Bits | Walk(hp, t, m, bits).Found? ensures Walk(hp', t, m, bits) == Walk(hp, t, m, bits) {
      WalkExtends(hp, hp', t, m, bits);
    }
  }

  /** The tables lie below hn. */
  lemma BuiltBelow(sp: Spec, hp: seq<Entry>, tabs: set<Tab>, m: nat, c: nat, hn: nat)
    requires Built(sp, hp, tabs, m, c) && hn <= |hp| && forall t :: t in tabs ==> t.addr + Pow2(t.bits) <= hn
    ensures Built(sp, hp[..hn], tabs, m, c)
  {
    hide Pow2, First, PrefixOf, Tab.Cover;
    forall t: Tab, idx: nat, k: nat, r: nat {:trigger EntryOk(sp, hp[..hn], tabs, t, idx, k, r)}
      | t in tabs && idx < Pow2(t.bits) && sp.Done(k, r, m, c)
      ensures EntryOk(sp, hp[..hn], tabs, t, idx, k, r)
    {
      assert EntryOk(sp, hp, tabs, t, idx, k, r);
    }
  }

  /** Tables laid out for all codes decode them. */
  lemma AllDecoded(sp: Spec, hp: seq<Entry>, tabs: set<Tab>, b: seq<nat>, v: seq<nat>, s: nat, d: seq<nat>, e: seq<nat>)
    requires Lengths(b) && |b| <= s + |d| && |b| <= s + |e| && LaidOut(sp, hp, tabs, b, v, s, d, e)
    ensures Decodes(hp, sp.root, sp.l, b, s, d, e)
  {
    hide LaidOut, Walk, NoCode, OpOf, CodeOf, StartsWith;
    forall sym, bits: Bits | 0 <= sym < |b| && b[sym] > 0 && |bits| >= MAX_BITS &&
    StartsWith(bits, CodeOf(b, sym), b[sym])
      ensures Walk(hp, sp.root, sp.l, bits) == Found(OpOf(sym, s, d, e).0, OpOf(sym, s, d, e).1, b[sym])
    {
      DecodesSymbol(sp, hp, tabs, b, v, s, d, e, sym, bits);
    }
    forall bits: Bits | |bits| >= MAX_BITS && NoCode(b, bits)
      ensures Walk(hp, sp.root, sp.l, bits).Found? && Walk(hp, sp.root, sp.l, bits).exop == 128 + 64
    {
      var m := RejectsRest(sp, hp, tabs, b, v, s, d, e, bits);
    }
    forall sym, bits: Bits | 0 <= sym < |b| && Only(b, sym) && |bits| >= MAX_BITS && NoCode(b, bits)
      ensures Walk(hp, sp.root, sp.l, bits) == Found(128 + 64, OpOf(sym, s, d, e).1, 1)
    {
      var m := RejectsRest(sp, hp, tabs, b, v, s, d, e, bits);
      OnlyBase(sp, hp, tabs, b, v, s, d, e, sym);
    }
  }

  /** What the Builder has made, as LaidOut puts it. */
  lemma BuilderDone(t: Builder, b: seq<nat>, v: seq<nat>, s: nat, d: seq<nat>, e: seq<nat>)
    requires Lengths(b) && t.Shape() && t.Right(t.g, t.cnt[t.g]) && t.Rooted() && t.Sound()
    requires Padded(t.cnt, CountsOf(b), t.g)
    requires |v| == Offset(CountsOf(b), t.g) + CountsOf(b)[t.g] && forall j :: 0 <= j < |v| ==> v[j] < |b|
    requires forall sym :: 0 <= sym < |b| && b[sym] > 0 ==> PlaceOf(b, sym) < |v| && v[PlaceOf(b, sym)] == sym
    requires forall k: nat, c: nat {:trigger t.sp.leaf(k, c)} :: 1 <= k <= t.g ==>
               t.sp.leaf(k, c) == LeafFor(v, s, d, e, Offset(CountsOf(b), k) + c, k)
    ensures LaidOut(t.sp, t.hp[..t.hn], t.tabs, b, v, s, d, e)
  {
    hide Built, LeafFor, PlaceOf, Offset, CountOf, First, Pow2, Padded, Roomy, Fits, End, LinksOk;
    var u :| u in t.tabs && u.addr == t.sp.root && u.p == 0 && u.w == 0;
    RootBits(t.sp, u);
    assert t.hp[..t.hp.Length] == t.hp[..];
    assert t.hp[..][..t.hn] == t.hp[..t.hn];
    BuiltBelow(t.sp, t.hp[..], t.tabs, t.g, t.cnt[t.g], t.hn);
  }

  /** Tables that decode, and that are safe to follow for lengths or distances. */
  ghost predicate Good(hp: seq<Entry>, t: nat, m: nat, b: seq<nat>, s: nat, d: seq<nat>, e: seq<nat>)
    requires Lengths(b) && |b| <= s + |d| && |b| <= s + |e|
  {
    && Decodes(hp, t, m, b, s, d, e)
    && (m <= LOOKAHEAD ==> forall kind: Kind :: ListFits(kind, |b|, s, d, e) ==> TableFits(kind, hp, t, m, 15))
    && (1 <= |b| <= s && (forall i :: 0 <= i < |b| ==> b[i] <= m) ==> Flat(hp, t, m, |b|))
  }

  lemma BuilderGood(t: Builder, b: seq<nat>, v: seq<nat>, s: nat, d: seq<nat>, e: seq<nat>)
    requires Lengths(b) && |b| <= s + |d| && |b| <= s + |e|
    requires t.Shape() && t.Right(t.g, t.cnt[t.g]) && t.Rooted() && t.Sound()
    requires Padded(t.cnt, CountsOf(b), t.g)
    requires |v| == Offset(CountsOf(b), t.g) + CountsOf(b)[t.g] && forall j :: 0 <= j < |v| ==> v[j] < |b|
    requires forall sym :: 0 <= sym < |b| && b[sym] > 0 ==> PlaceOf(b, sym) < |v| && v[PlaceOf(b, sym)] == sym
    requires forall k: nat, c: nat {:trigger t.sp.leaf(k, c)} :: 1 <= k <= t.g ==>
               t.sp.leaf(k, c) == LeafFor(v, s, d, e, Offset(CountsOf(b), k) + c, k)
    ensures Good(t.hp[..t.hn], t.sp.root, t.sp.l, b, s, d, e)
  {
    hide LaidOut, Decodes, TableFits, ListFits, LeafFor, PlaceOf, Offset, CountOf, Padded, Builder.Right;
    BuilderDone(t, b, v, s, d, e);
    AllDecoded(t.sp, t.hp[..t.hn], t.tabs, b, v, s, d, e);
    var root := Tab(t.sp.root, 0, 0, t.sp.l);
    RootIn(t.sp, t.hp[..t.hn], t.tabs, b, v, s, d, e);
    forall kind: Kind | t.sp.l <= LOOKAHEAD && ListFits(kind, |b|, s, d, e)
      ensures TableFits(kind, t.hp[..t.hn], t.sp.root, t.sp.l, 15)
    {
      TabFits(kind, t.sp, t.hp[..t.hn], t.tabs, b, v, s, d, e, root);
    }
    if 1 <= |b| <= s && (forall i :: 0 <= i < |b| ==> b[i] <= t.sp.l) {
      GreatestIsUsed(t.cnt, b, t.g, t.sp.l);
      RootIsFlat(t.sp, t.hp[..t.hn], t.tabs, b, v, s, d, e);
    }
  }

  lemma GreatestIsUsed(cnt: Counts, b: seq<nat>, g: nat, l: nat)
    requires Padded(cnt, CountsOf(b), g) && l <= g && forall i :: 0 <= i < |b| ==> b[i] <= l
    ensures l == g
  {
    hide CountOf, Fits, End;
    if l < g { UsedLength(b, g); }
  }

  lemma RootIn(sp: Spec, hp: seq<Entry>, tabs: set<Tab>, b: seq<nat>, v: seq<nat>, s: nat, d: seq<nat>, e: seq<nat>)
    requires Lengths(b) && LaidOut(sp, hp, tabs, b, v, s, d, e)
    ensures Tab(sp.root, 0, 0, sp.l) in tabs && Pow2(0) == 1
  {
  }

  lemma FillsUp(c: Counts, cnt: Counts, g: nat, y: nat)
    requires 1 <= g <= MAX_BITS && c[g] > 0 && Fits(c, g) && y == Pow2(g) - End(c, g) && cnt == c[g := c[g] + y]
    requires forall k :: g < k <= MAX_BITS ==> c[k] == 0
    ensures Padded(cnt, c, g)
  {
    hide Pow2, First;
    FirstSame(c, cnt, g);
    forall k {:trigger End(cnt, k)} | 1 <= k <= g ensures End(cnt, k) <= Pow2(k) {
      FirstSame(c, cnt, k);
      assert End(c, k) <= Pow2(k);
    }
  }

  lemma {:induction false} NothingBelow(c: Counts, k: nat)
    requires 1 <= k <= MAX_BITS && forall j :: 1 <= j < k ==> c[j] == 0
    ensures Offset(c, k) == 0
    decreases k
  {
    if k > 1 { NothingBelow(c, k - 1); }
  }

  /** The specification of the tables, but for the entries. */
  function SizesOf(c: Counts, y: nat, g: nat, l: nat, root: nat): Spec
    requires g <= MAX_BITS
  {
    Spec(c[g := c[g] + y], g, l, root, (k: nat, n: nat) => Entry(0, 0, 0))
  }

  /** No code is so long that the tables would skip a level. */
  ghost predicate Unskipped(c: Counts, y: nat, g: nat, l: nat)
    requires g <= MAX_BITS
  {
    NoSkip(SizesOf(c, y, g, l, 0))
  }

  lemma ShortUnskipped(c: Counts, y: nat, g: nat, l: nat)
    requires 1 <= l <= g <= MAX_BITS && c[g] > 0 && Fits(c, g) && y == Pow2(g) - End(c, g)
    requires forall k :: g < k <= MAX_BITS ==> c[k] == 0
    requires ShortOrFew(SizesOf(c, y, g, l, 0))
    ensures Unskipped(c, y, g, l)
  {
    hide NoSkip, ShortOrFew, First, Pow2, Fits, End;
    FillsUp(c, c[g := c[g] + y], g, y);
    ShortSkipsNone(SizesOf(c, y, g, l, 0));
  }

  lemma AnyRoot(c: Counts, y: nat, g: nat, l: nat, sp: Spec)
    requires g <= MAX_BITS && sp.cnt == c[g := c[g] + y] && sp.g == g && sp.l == l
    ensures Unskipped(c, y, g, l) <==> NoSkip(sp)
  {
    hide NoSkip;
    var sizes := SizesOf(c, y, g, l, 0);
    if NoSkip(sizes) { SameSkips(sizes, sp); }
    if NoSkip(sp) { SameSkips(sp, sizes); }
  }

  lemma SameCost(sp: Spec, sizes: Spec, many: nat)
    requires 1 <= sp.l == sizes.l && sp.g == sizes.g <= MAX_BITS && sp.cnt == sizes.cnt && sp.root == sizes.root
    ensures Affordable(sp, many) <==> Affordable(sizes, many)
  {
  }

  /** The second half of huft_build: the values in order and the tables, for counts filled
      out with y codes. */
  method Tables(b: seq<nat>, c: Counts, least: nat, g: nat, l: nat, y: nat, s: nat, d: seq<nat>, e: seq<nat>,
                hp: array<Entry>, hn0: nat) returns (ok: bool, hn: nat)
    requires b != [] && Lengths(b) && |b| <= s + |d| && |b| <= s + |e| && hn0 <= MANY <= hp.Length
    requires c == CountsOf(b) && 1 <= least <= l <= g <= MAX_BITS && c[least] > 0 && c[g] > 0
    requires forall k :: 1 <= k < least || g < k <= MAX_BITS ==> c[k] == 0
    requires Fits(c, g) && y == Pow2(g) - End(c, g)
    modifies hp
    ensures forall a :: 0 <= a < hn0 ==> hp[a] == old(hp[a])
    ensures ok ==> hn0 <= hn <= MANY
    ensures ok && Unskipped(c, y, g, l) ==> Good(hp[..hn], hn0, l, b, s, d, e)
    ensures Unskipped(c, y, g, l) && Affordable(SizesOf(c, y, g, l, hn0), MANY) ==> ok
    ensures hn0 + Pow2(least) > MANY ==> !ok
    ensures ok && Unskipped(c, y, g, l) ==>
              forall many: nat {:trigger Affordable(SizesOf(c, y, g, l, hn0), many)} ::
              Affordable(SizesOf(c, y, g, l, hn0), many) ==> hn <= many
  {
    hide Good, Decodes, First, Pow2, CountOf, CodesFrom, LeafFor, LastBase, Offset, PlaceOf, LaidOut, Fits, End,
         BudgetOk, Builder.Right, Builder.ZerosBehind, Builder.CurrentTable, Core, StackVars, Roomy, Unskipped, NoSkip,
         Affordable;
    forall i | 0 <= i < |b| ensures b[i] <= g { if b[i] > 0 { LengthUsed(b, i, g); } }
    var v := SortByLength(b, c, g);
    SomeValue(c, g);
    var cnt: Counts := c[g := c[g] + y];
    FillsUp(c, cnt, g, y);
    ghost var leaf := (k: nat, n: nat) =>
      if 1 <= k <= MAX_BITS then LeafFor(v, s, d, e, Offset(c, k) + n, k) else Entry(0, 0, 0);
    FirstIsZero(cnt, least);
    NothingBelow(c, least);
    var t := new Builder(cnt, g, l, MANY, hp, hn0, least, leaf);
    ok := LayOut(t, least, v, s, d, e, c);
    hn := t.hn;
    AnyRoot(c, y, g, l, t.sp);
    SameCost(t.sp, SizesOf(c, y, g, l, hn0), MANY);
    if ok && NoSkip(t.sp) {
      BuilderGood(t, b, v, s, d, e);
      BuilderPaid(t, SizesOf(c, y, g, l, hn0));
    }
  }

  lemma SomeValue(c: Counts, g: nat)
    requires 1 <= g <= MAX_BITS && c[g] > 0
    ensures Offset(c, g) + c[g] > 0
  {
  }

  /** The tables take no more than they may. */
  lemma BuilderPaid(t: Builder, sp: Spec)
    requires t.Shape() && t.Sound() && t.Budget() && sp.cnt == t.sp.cnt && sp.g == t.sp.g && sp.l == t.sp.l &&
             sp.root == t.sp.root
    ensures sp.Ok() && forall many: nat {:trigger Affordable(sp, many)} :: Affordable(sp, many) ==> t.hn <= many
  {
    hide BudgetOk, Pow2;
    forall many: nat {:trigger Affordable(sp, many)} | Affordable(sp, many) ensures t.hn <= many {
      BudgetFits(t.sp, t.tabs, t.lev, t.hn, many);
    }
  }

  /** Some length is used. */
  lemma {:induction false} SomeUsed(b: seq<nat>)
    requires Lengths(b) && CountOf(b, 0) < |b|
    ensures exists k :: 1 <= k <= MAX_BITS && CountsOf(b)[k] > 0
    decreases |b|
  {
    var n := |b| - 1;
    if b[n] > 0 {
      assert CountsOf(b)[b[n]] > 0;
    } else {
      SomeUsed(b[..n]);
      var k :| 1 <= k <= MAX_BITS && CountsOf(b[..n])[k] > 0;
      assert CountsOf(b)[k] > 0;
    }
  }

  lemma {:induction false} NoneUsed(b: seq<nat>)
    ensures CountOf(b, 0) == |b| <==> forall i :: 0 <= i < |b| ==> b[i] == 0
  {
    if b != [] { NoneUsed(b[..|b| - 1]); }
  }

  /** The least and the greatest length in use. */
  ghost predicate Range(b: seq<nat>, least: nat, g: nat) {
    && 1 <= least <= g <= MAX_BITS && CountsOf(b)[least] > 0 && CountsOf(b)[g] > 0
    && forall k :: 1 <= k < least || g < k <= MAX_BITS ==> CountsOf(b)[k] == 0
  }

  /** Tables of at most m0 bits, or of the least length, skip no level: this is what huft_build
      needs of lengths and table size to lay the tables out, but does not look at. */
  ghost predicate NoLevelSkipped(b: seq<nat>, m0: nat) {
    forall least: nat, g: nat {:trigger Range(b, least, g)} :: Range(b, least, g) && Fits(CountsOf(b), g) ==>
      Unskipped(CountsOf(b), Pow2(g) - End(CountsOf(b), g), g, Min(Max(m0, least), g))
  }

  /** Tables of m0 bits reach every code in two levels, or the set is complete and has too few
      codes for a table of more than m0 bits. */
  ghost predicate Reach(b: seq<nat>, m0: nat) {
    || (forall i :: 0 <= i < |b| ==> b[i] <= 2 * m0)
    || (Kraft(b) == Pow2(MAX_BITS) && |b| < Pow2(m0 + 1))
    || (forall i :: 0 <= i < |b| ==> b[i] <= 1)
  }

  lemma ReachSkipsNone(b: seq<nat>, m0: nat)
    requires Lengths(b) && Reach(b, m0) && m0 >= 1
    ensures NoLevelSkipped(b, m0)
  {
    hide CountOf, Pow2, End, First, Unskipped, Reach;
    forall least: nat, g: nat {:trigger Range(b, least, g)} | Range(b, least, g) && Fits(CountsOf(b), g)
      ensures Unskipped(CountsOf(b), Pow2(g) - End(CountsOf(b), g), g, Min(Max(m0, least), g))
    {
      UsedLength(b, g);
      ReachIsEnough(b, m0, g, Min(Max(m0, least), g), Pow2(g) - End(CountsOf(b), g));
    }
  }

  lemma ReachIsEnough(b: seq<nat>, m0: nat, g: nat, l: nat, y: nat)
    requires Lengths(b) && Reach(b, m0) && 1 <= l <= g <= MAX_BITS && (l >= m0 || l == g)
    requires exists i :: 0 <= i < |b| && b[i] == g
    requires forall k :: g < k <= MAX_BITS ==> CountsOf(b)[k] == 0
    requires CountsOf(b)[g] > 0 && Fits(CountsOf(b), g) && y == Pow2(g) - End(CountsOf(b), g)
    ensures Unskipped(CountsOf(b), y, g, l)
  {
    hide CodesFrom, Pow2, First, End, CountOf, Unskipped, ShortOrFew, SizesOf;
    ReachIsShort(b, m0, g, l, y);
    ShortUnskipped(CountsOf(b), y, g, l);
  }

  lemma ReachIsShort(b: seq<nat>, m0: nat, g: nat, l: nat, y: nat)
    requires Lengths(b) && Reach(b, m0) && 1 <= l <= g <= MAX_BITS && (l >= m0 || l == g)
    requires exists i :: 0 <= i < |b| && b[i] == g
    requires forall k :: g < k <= MAX_BITS ==> CountsOf(b)[k] == 0
    requires Fits(CountsOf(b), g) && y == Pow2(g) - End(CountsOf(b), g)
    ensures ShortOrFew(SizesOf(CountsOf(b), y, g, l, 0))
  {
    hide CodesFrom, Pow2, First, End, CountOf;
    if Kraft(b) == Pow2(MAX_BITS) && |b| < Pow2(m0 + 1) && l < g {
      KraftSays(CountsOf(b), g);
      assert CountsOf(b)[g := CountsOf(b)[g] + 0] == CountsOf(b);
      CodesAtMost(b, g);
      Pow2Mono(m0 + 1, l + 1);
    }
  }

  lemma CountAppend(b: seq<nat>, x: nat, k: nat)
    ensures CountOf(b + [x], k) == CountOf(b, k) + (if x == k then 1 else 0)
  {
    assert (b + [x])[..|b|] == b;
  }

  const ONE_AND_FOUR: seq<nat> := [1, 3, 3, 3, 3]

  lemma OneAndFour(k: nat)
    ensures CountOf(ONE_AND_FOUR, k) == if k == 1 then 1 else if k == 3 then 4 else 0
  {
    CountAppend([], 1, k);
    CountAppend([1], 3, k);
    CountAppend([1, 3], 3, k);
    CountAppend([1, 3, 3], 3, k);
    CountAppend([1, 3, 3, 3], 3, k);
    assert [] + [1] == [1] && [1] + [3] == [1, 3] && [1, 3] + [3] == [1, 3, 3];
    assert [1, 3, 3] + [3] == [1, 3, 3, 3] && [1, 3, 3, 3] + [3] == ONE_AND_FOUR;
  }

  lemma FirstsOf(c: Counts)
    requires c[1] == 1 && c[2] == 0 && c[3] == 4
    ensures First(c, 3) == 4 && End(c, 3) == 8 && Fits(c, 3)
  {
    assert First(c, 1) == 0 && End(c, 1) == 1 && First(c, 2) == 2 && End(c, 2) == 2;
    assert Pow2(1) == 2 && Pow2(2) == 4 && Pow2(3) == 8;
  }

  /** The lengths 1, 3, 3, 3, 3 are complete, but with tables of one bit a level is skipped: the
      table behind the first one gets two bits, and its codes end in tables below it. */
  lemma SkippedLevel()
    ensures Lengths(ONE_AND_FOUR) && Full(ONE_AND_FOUR) && !NoLevelSkipped(ONE_AND_FOUR, 1)
  {
    hide CountOf, First, End, Fits, NoSkip;
    var c := CountsOf(ONE_AND_FOUR);
    forall k: nat ensures CountOf(ONE_AND_FOUR, k) == if k == 1 then 1 else if k == 3 then 4 else 0 { OneAndFour(k); }
    FirstsOf(c);
    assert Pow2(3) == 8;
    KraftSays(c, 3);
    SkipsBehindOne(c);
    assert Range(ONE_AND_FOUR, 1, 3);
  }

  lemma SkipsBehindOne(c: Counts)
    requires c[3] == 4 && First(c, 3) == 4
    ensures !Unskipped(c, 0, 3, 1)
  {
    hide First, End;
    var sizes := SizesOf(c, 0, 3, 1, 0);
    assert c[3 := c[3] + 0] == c;
    assert Shr(4, 2) == 1 && Shl(1, 2) == 4 && AtLevel(1, 1);
    assert StartsTable(sizes, 3, 0, 1);
  }

  lemma OnlyOneBit(b: seq<nat>, g: nat)
    requires Lengths(b) && 1 <= g <= MAX_BITS && CountsOf(b)[g] > 0
    requires forall k :: g < k <= MAX_BITS ==> CountsOf(b)[k] == 0
    ensures g == 1 <==> forall i :: 0 <= i < |b| ==> b[i] <= 1
  {
    hide CountOf;
    if g == 1 {
      forall i | 0 <= i < |b| ensures b[i] <= 1 { if b[i] > 0 { LengthUsed(b, i, g); } }
    } else {
      UsedLength(b, g);
    }
  }

  /** There is room for the tables of b up to many: one level suffices, or the set is complete
      and small. */
  ghost predicate RoomFor(b: seq<nat>, m0: nat, root: nat, many: nat)
    requires 1 <= m0
  {
    || ((forall i :: 0 <= i < |b| ==> b[i] <= m0) && root + Pow2(m0) <= many)
    || (Kraft(b) == Pow2(MAX_BITS) && |b| < Pow2(m0 + 1) && root + Pow2(m0) + Space(|b|, m0, m0, MAX_BITS) <= many)
  }

  /** A complete set has a code of at most m0 bits, if it is small. */
  lemma LeastIsShort(b: seq<nat>, least: nat, g: nat, m0: nat)
    requires Lengths(b) && 1 <= least <= g <= MAX_BITS && Complete(CountsOf(b), g) && |b| < Pow2(m0 + 1)
    requires forall k :: 1 <= k < least ==> CountsOf(b)[k] == 0
    ensures least <= m0
  {
    hide CodesFrom, Pow2, First, CountOf;
    var c := CountsOf(b);
    StringsLeft(c, least, g);
    FirstIsZero(c, least);
    CodesFromMono(c, 1, least, g);
    CodesAtMost(b, g);
    if least > m0 { Pow2Mono(m0 + 1, least); }
  }

  lemma LengthInUse(b: seq<nat>, g: nat)
    requires Lengths(b) && 1 <= g <= MAX_BITS && exists i :: 0 <= i < |b| && b[i] == g
    ensures CountsOf(b)[g] > 0
  {
    var i :| 0 <= i < |b| && b[i] == g;
    RankBelowCount(b, i);
  }

  lemma RoomIsEnough(b: seq<nat>, least: nat, g: nat, y: nat, m0: nat, root: nat, many: nat)
    requires Lengths(b) && 1 <= m0 && 1 <= least <= g <= MAX_BITS && exists i :: 0 <= i < |b| && b[i] == g
    requires forall k :: 1 <= k < least || g < k <= MAX_BITS ==> CountsOf(b)[k] == 0
    requires Fits(CountsOf(b), g) && y == Pow2(g) - End(CountsOf(b), g) && RoomFor(b, m0, root, many)
    ensures var l := Min(Max(m0, least), g);
            Unskipped(CountsOf(b), y, g, l) && Affordable(SizesOf(CountsOf(b), y, g, l, root), many) && l <= m0
  {
    hide CodesFrom, Pow2, First, End, CountOf, Unskipped;
    var c, l := CountsOf(b), Min(Max(m0, least), g);
    LengthInUse(b, g);
    ReachIsEnough(b, m0, g, l, y);
    if g <= m0 {
      Pow2Mono(l, m0);
      assert Space(CodesFrom(c[g := c[g] + y], 1, g), l, l, g) == 0;
    } else {
      KraftSays(c, g);
      assert c[g := c[g] + 0] == c;
      LeastIsShort(b, least, g, m0);
      CodesAtMost(b, g);
      Pow2Mono(m0 + 1, l + 1);
      SpaceMono(CodesFrom(c, 1, g), |b|, l, l, g, MAX_BITS);
    }
  }

  /** No length is greater than k. */
  predicate AtMost(b: seq<nat>, k: nat) { forall i :: 0 <= i < |b| ==> b[i] <= k }

  /** No code is shorter than k. */
  predicate AtLeast(b: seq<nat>, k: nat) { forall i :: 0 <= i < |b| ==> b[i] == 0 || b[i] >= k }

  /** The root table is for the m0 bits that were asked for; but for those of the longest code if
      that is shorter, and of the shortest code if that is longer. */
  predicate RootSize(b: seq<nat>, m0: nat, m: nat) {
    if AtMost(b, m0) then AtMost(b, m) && m in b
    else if AtLeast(b, m0) then AtLeast(b, m) && m in b
    else m == m0
  }

  lemma RootIs(b: seq<nat>, least: nat, g: nat, m0: nat)
    requires Range(b, least, g) && Lengths(b)
    ensures RootSize(b, m0, Min(Max(m0, least), g))
  {
    hide CountOf;
    UsedLength(b, least);
    UsedLength(b, g);
    assert least in b && g in b;
    forall i | 0 <= i < |b| && b[i] > 0 ensures least <= b[i] <= g {
      RankBelowCount(b, i);
      assert CountsOf(b)[b[i]] > 0;
    }
  }

  /** Not even the last table of any length fits behind root. */
  predicate NoRoom(b: seq<nat>, root: nat) { forall i :: 0 <= i < |b| ==> b[i] == 0 || root + Pow2(b[i]) > MANY }

  /** huft_build. The tables begin at t == hn0, the first has m bits. Sets of lengths that are
      oversubscribed are refused; so are those whose tables do not fit. */
  method BuildTables(b: seq<nat>, s: nat, d: seq<nat>, e: seq<nat>, m0: nat, hp: array<Entry>, hn0: nat)
    returns (st: Status, t: nat, m: nat, hn: nat)
    requires b != [] && Lengths(b) && |b| <= s + |d| && |b| <= s + |e| && 1 <= m0 && hn0 <= MANY <= hp.Length
    modifies hp
    ensures forall a :: 0 <= a < hn0 ==> hp[a] == old(hp[a])
    ensures st != DataError ==> Kraft(b) <= Pow2(MAX_BITS) && hn0 <= hn <= MANY
    ensures st != DataError ==> (m == 0 <==> AtMost(b, 0))
    ensures st == Ok ==> Kraft(b) == Pow2(MAX_BITS) || AtMost(b, 1)
    ensures st == BufError ==> m > 0 && Kraft(b) < Pow2(MAX_BITS) && !AtMost(b, 1)
    ensures Kraft(b) <= Pow2(MAX_BITS) && RoomFor(b, m0, hn0, MANY) ==> st != DataError
    ensures !AtMost(b, 0) && NoRoom(b, hn0) ==> st == DataError
    ensures st != DataError ==> forall many: nat {:trigger RoomFor(b, m0, hn0, many)} :: RoomFor(b, m0, hn0, many) ==>
              hn <= many
    ensures st != DataError && m > 0 ==> RootSize(b, m0, m)
    ensures st != DataError && m > 0 && RoomFor(b, m0, hn0, MANY) ==> m <= m0
    ensures st != DataError && m > 0 && NoLevelSkipped(b, m0) ==> Good(hp[..hn], t, m, b, s, d, e)
  {
    hide Good, First, Pow2, CountOf, End, Unskipped, RoomFor, Affordable, SizesOf, RootSize;
    var c := CountLengths(b);
    t, m, hn := hn0, 0, hn0;
    NoneUsed(b);
    if c[0] == |b| {
      NullKraft(b);
      RootInside(b, m0, hn0);
      return Ok, t, m, hn;
    }
    SomeUsed(b);
    var least, g := LengthRange(c);
    var l := Min(Max(m0, least), g);
    m := l;
    var y := FillOut(c, least, g);
    KraftSays(c, g);
    if y < 0 { return DataError, t, m, hn; }
    UsedLength(b, g);
    UsedLength(b, least);
    AllRooms(b, least, g, y, m0, hn0);
    var ok;
    ok, hn := Tables(b, c, least, g, l, y, s, d, e, hp, hn0);
    if !ok { return DataError, t, m, hn; }
    OnlyOneBit(b, g);
    forall i | 0 <= i < |b| ensures b[i] <= g { if b[i] > 0 { LengthUsed(b, i, g); } }
    assert Range(b, least, g);
    RootIs(b, least, g, m0);
    st := if y != 0 && g != 1 then BufError else Ok;
  }

  /** A single code of 15 bits is incomplete, not oversubscribed, and yet DataError: the tables
      do not fit. */
  lemma LongCodeAlone(root: nat)
    ensures Kraft([15]) < Pow2(MAX_BITS) && !AtMost([15], 1) && NoRoom([15], root)
  {
    hide First, Pow2, CountOf;
    forall k: nat ensures CountOf([15], k) == if k == 15 then 1 else 0 { OnlyLong(k); }
    FirstIsZero(CountsOf([15]), 15);
    Rooms();
    Pow2Step(11);
    Pow2Mono(11, 15);
    assert [15][0] > 1;
    assert CountsOf([15])[15] == 1;
  }

  lemma OnlyLong(k: nat)
    ensures CountOf([15], k) == if k == 15 then 1 else 0
  {
    CountAppend([], 15, k);
    assert [] + [15] == [15];
  }

  lemma RootInside(b: seq<nat>, m0: nat, root: nat)
    requires 1 <= m0
    ensures forall many: nat {:trigger RoomFor(b, m0, root, many)} :: RoomFor(b, m0, root, many) ==> root <= many
  {
  }

  lemma AllRooms(b: seq<nat>, least: nat, g: nat, y: nat, m0: nat, root: nat)
    requires Lengths(b) && 1 <= m0 && 1 <= least <= g <= MAX_BITS && exists i :: 0 <= i < |b| && b[i] == g
    requires forall k :: 1 <= k < least || g < k <= MAX_BITS ==> CountsOf(b)[k] == 0
    requires Fits(CountsOf(b), g) && y == Pow2(g) - End(CountsOf(b), g)
    ensures var l := Min(Max(m0, least), g);
            forall many: nat {:trigger RoomFor(b, m0, root, many)} :: RoomFor(b, m0, root, many) ==>
              Unskipped(CountsOf(b), y, g, l) && Affordable(SizesOf(CountsOf(b), y, g, l, root), many) && l <= m0
  {
    hide RoomFor, Unskipped, Affordable, Fits, End, Pow2;
    forall many: nat {:trigger RoomFor(b, m0, root, many)} | RoomFor(b, m0, root, many)
      ensures var l := Min(Max(m0, least), g);
              Unskipped(CountsOf(b), y, g, l) && Affordable(SizesOf(CountsOf(b), y, g, l, root), many) && l <= m0
    {
      RoomIsEnough(b, least, g, y, m0, root, many);
    }
  }


  lemma Rooms()
    ensures Pow2(5) == 32 && Pow2(6) == 64 && Pow2(7) == 128 && Pow2(8) == 256 && Pow2(9) == 512 && Pow2(10) == 1024
    ensures Space(288, 9, 9, MAX_BITS) == 416 && Space(30, 6, 6, MAX_BITS) == 204
  {
    assert Pow2(4) == 16;
    assert Space(30, 6, 12, MAX_BITS) == 46;
  }

  /** inflate_trees_bits: the tables for the code length codes, for all usable sets. */
  method InflateTreesBits(c: seq<nat>, bb: nat, hp: array<Entry>) returns (ok: bool, tb: nat, m: nat)
    requires |c| == BITS_LENGTHS && (forall i :: 0 <= i < |c| ==> c[i] <= 7) && bb == 7 && MANY <= hp.Length
    modifies hp
    ensures ok <==> Usable(c) && SomeCode(c)
    ensures ok ==> 0 < m <= 7 && RootSize(c, bb, m) && Decodes(hp[..], tb, m, c, BITS_LENGTHS, [], [])
    ensures ok ==> BitsFit(BitsTree(hp[..], m, tb))
  {
    hide Decodes, Kraft, Pow2, TableFits, ListFits, Flat, BitsFit, NoLevelSkipped;
    var st, hn;
    Rooms();
    ReachSkipsNone(c, bb);
    st, tb, m, hn := BuildTables(c, BITS_LENGTHS, [], [], bb, hp, 0);
    ok := st == Ok && m != 0;
    if ok {
      assert hp[..hn] <= hp[..];
      DecodesExtends(hp[..hn], hp[..], tb, m, c, BITS_LENGTHS, [], []);
      FlatExtends(hp[..hn], hp[..], tb, m, BITS_LENGTHS);
      FlatFits(hp[..], tb, m);
    }
  }

  lemma FlatFits(hp: seq<Entry>, tb: nat, m: nat)
    requires Flat(hp, tb, m, BITS_LENGTHS) && m <= 7
    ensures BitsFit(BitsTree(hp, m, tb))
  {
  }

  lemma LengthsFit(n: nat, lens: bool)
    requires n <= MAX_LITERAL_CODES && (n > LITERALS ==> lens)
    ensures ListFits(Literals(lens), n, LITERALS, cplens, cplext)
  {
    forall j | 0 <= j < n - LITERALS
      ensures cplext[j] == 112 || (lens && cplext[j] <= 5 && 3 <= cplens[j] && cplens[j] + Pow2(cplext[j]) <= 259)
    {
      LengthEntry(j);
    }
  }

  lemma DistancesFit(n: nat)
    requires n <= MAX_DISTANCE_CODES
    ensures ListFits(Distances, n, 0, cpdist, cpdext)
  {
    forall j | 0 <= j < n ensures cpdext[j] <= 15 && cpdist[j] >= 1 { DistanceEntry(j); }
  }

  ghost predicate DecodesLengths(hp: seq<Entry>, t: nat, m: nat, b: seq<nat>) {
    Lengths(b) && |b| <= MAX_LITERAL_CODES && Decodes(hp, t, m, b, LITERALS, cplens, cplext)
  }

  ghost predicate DecodesDistances(hp: seq<Entry>, t: nat, m: nat, b: seq<nat>) {
    Lengths(b) && |b| <= MAX_DISTANCE_CODES && Decodes(hp, t, m, b, 0, cpdist, cpdext)
  }

  /** The tables c decode literals, lengths and distances, and are safe to follow. Without
      distance codes there are no length codes. */
  ghost predicate Matching(c: Codes, ll: seq<nat>, dl: seq<nat>) {
    && DecodesLengths(c.hp, c.ltree, c.lbits, ll) && CodesFit(c)
    && if c.dbits > 0 then DecodesDistances(c.hp, c.dtree, c.dbits, dl) else |ll| <= LITERALS
  }

  /** inflate_trees_dynamic: the tables for literals and lengths, and for distances, for all
      usable sets; there may be no distance codes if there are no length codes. */
  method InflateTreesDynamic(nl: nat, nd: nat, c: seq<nat>, hp: array<Entry>)
    returns (ok: bool, bl: nat, tl: nat, bd: nat, td: nat)
    requires LITERALS <= nl <= MAX_LITERAL_CODES && 1 <= nd <= MAX_DISTANCE_CODES && |c| == nl + nd
    requires Lengths(c) && MANY <= hp.Length
    modifies hp
    ensures ok <==> Usable(c[..nl]) && SomeCode(c[..nl]) && Usable(c[nl..]) && (SomeCode(c[nl..]) || nl == LITERALS)
    ensures ok ==> bl > 0 && (bd > 0 <==> SomeCode(c[nl..]))
    ensures ok ==> RootSize(c[..nl], 9, bl) && (bd > 0 ==> RootSize(c[nl..], 6, bd))
    ensures ok ==> Matching(Codes(hp[..], bl, bd, tl, td), c[..nl], c[nl..])
  {
    hide Decodes, Kraft, Pow2, TableFits, ListFits, Flat, RoomFor, NoLevelSkipped;
    var st, hn, hn';
    td, bd := 0, 0;
    var ll, dl := c[..nl], c[nl..];
    st, tl, bl, hn := BuildTables(ll, LITERALS, cplens, cplext, 9, hp, 0);
    if Usable(ll) { LiteralRoom(ll); }
    LiteralReach(ll);
    if st != Ok || bl == 0 { return false, bl, tl, bd, td; }
    ghost var lit := hp[..hn];
    st, td, bd, hn' := BuildTables(dl, 0, cpdist, cpdext, 6, hp, hn);
    if Usable(dl) { DistanceRoom(dl, hn); }
    if st != Ok || (bd == 0 && nl > LITERALS) { return false, bl, tl, bd, td; }
    ok := true;
    assert lit <= hp[..];
    DecodesExtends(lit, hp[..], tl, bl, ll, LITERALS, cplens, cplext);
    LengthsFit(nl, bd > 0);
    FitsExtends(Literals(bd > 0), lit, hp[..], tl, bl, 15);
    if bd > 0 {
      DistanceReach(dl);
      assert hp[..hn'] <= hp[..];
      DecodesExtends(hp[..hn'], hp[..], td, bd, dl, 0, cpdist, cpdext);
      DistancesFit(nd);
      FitsExtends(Distances, hp[..hn'], hp[..], td, bd, 15);
    }
  }

  const FIXEDH := 544

  lemma FixedUsable(root: nat)
    ensures Lengths(StaticL()) && Lengths(StaticD()) && Kraft(StaticL()) == Pow2(MAX_BITS) &&
            Kraft(StaticD()) <= Pow2(MAX_BITS)
    ensures NoLevelSkipped(StaticL(), 9) && NoLevelSkipped(StaticD(), 5)
    ensures RoomFor(StaticL(), 9, root, root + 512) && RoomFor(StaticD(), 5, root, root + 32)
    ensures root <= 512 ==> RoomFor(StaticL(), 9, 0, MANY) && RoomFor(StaticD(), 5, root, MANY)
  {
    hide Kraft, Space;
    StaticLFits();
    StaticDFits();
    ReachSkipsNone(StaticL(), 9);
    ReachSkipsNone(StaticD(), 5);
    Rooms();
  }

  /** inflate_trees_fixed: the tables for the fixed codes; that the distance codes are incomplete
      does not matter. */
  method InflateTreesFixed(hp: array<Entry>) returns (bl: nat, bd: nat, tl: nat, td: nat)
    requires MANY <= hp.Length
    modifies hp
    ensures bl == 9 && bd == 5 && Matching(Codes(hp[..FIXEDH], bl, bd, tl, td), StaticL(), StaticD())
  {
    hide Decodes, Kraft, Pow2, TableFits, ListFits, Flat, RoomFor, NoLevelSkipped;
    var st, hn, hn';
    FixedUsable(0);
    assert StaticL()[144] == 9 && StaticD()[0] == 5;
    st, tl, bl, hn := BuildTables(StaticL(), LITERALS, cplens, cplext, 9, hp, 0);
    ghost var lit := hp[..hn];
    FixedUsable(hn);
    st, td, bd, hn' := BuildTables(StaticD(), 0, cpdist, cpdext, 5, hp, hn);
    ghost var all := hp[..FIXEDH];
    assert lit <= all && hp[..hn'] <= all;
    DecodesExtends(lit, all, tl, bl, StaticL(), LITERALS, cplens, cplext);
    LengthsFit(288, true);
    FitsExtends(Literals(true), lit, all, tl, bl, 15);
    DecodesExtends(hp[..hn'], all, td, bd, StaticD(), 0, cpdist, cpdext);
    DistancesFit(30);
    FitsExtends(Distances, hp[..hn'], all, td, bd, 15);
  }

  /** The tables for literals and lengths take at most 928 entries. */
  lemma LiteralRoom(b: seq<nat>)
    requires |b| <= MAX_LITERAL_CODES && Usable(b)
    ensures RoomFor(b, 9, 0, 928) && RoomFor(b, 9, 0, MANY)
  {
    hide Kraft, Pow2;
    Rooms();
    SpaceMono(|b|, 288, 9, 9, MAX_BITS, MAX_BITS);
  }

  /** Those for distances take at most 268 more. */
  lemma DistanceRoom(b: seq<nat>, root: nat)
    requires |b| <= MAX_DISTANCE_CODES && Usable(b) && root <= 928
    ensures RoomFor(b, 6, root, root + 268) && RoomFor(b, 6, root, MANY)
  {
    hide Kraft, Pow2;
    Rooms();
    SpaceMono(|b|, 30, 6, 6, MAX_BITS, MAX_BITS);
  }

  lemma LiteralReach(b: seq<nat>)
    requires Lengths(b)
    ensures NoLevelSkipped(b, 9)
  {
    ReachSkipsNone(b, 9);
  }

  lemma DistanceReach(b: seq<nat>)
    requires Lengths(b) && |b| <= MAX_DISTANCE_CODES && Usable(b)
    ensures NoLevelSkipped(b, 6)
  {
    hide Kraft, NoLevelSkipped;
    assert Pow2(7) == 128;
    ReachSkipsNone(b, 6);
  }
}
