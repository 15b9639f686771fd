/** How much space the tables of huft_build take. At one level, a table whose codes all have the
    length it was made for has no more entries than codes; the other tables at that level get
    larger and larger. */
module TableSpace {
  import opened Arith
  import opened Canonical
  import opened Huft

  /** How many of the numbers from lo to hi are also from a to b. */
  function Overlap(lo: nat, hi: nat, a: nat, b: nat): nat {
    if Max(lo, a) < Min(hi, b) then Min(hi, b) - Max(lo, a) else 0
  }

  /** How many codes of length k to g lie below the strings of length k from lo to hi. */
  ghost function Between(cnt: Counts, lo: nat, hi: nat, k: nat, g: nat): nat
    requires g <= MAX_BITS
    decreases g + 1 - k
  {
    if k > g || k == 0 then 0 else Overlap(lo, hi, First(cnt, k), End(cnt, k)) + Between(cnt, 2 * lo, 2 * hi, k + 1, g)
  }

  lemma {:induction false} BetweenParts(cnt: Counts, lo: nat, mid: nat, hi: nat, k: nat, g: nat)
    requires lo <= mid <= hi && g <= MAX_BITS
    ensures Between(cnt, lo, hi, k, g) == Between(cnt, lo, mid, k, g) + Between(cnt, mid, hi, k, g)
    decreases g + 1 - k
  {
    hide First, End;
    if 0 < k <= g { BetweenParts(cnt, 2 * lo, 2 * mid, 2 * hi, k + 1, g); }
  }

  lemma {:induction false} BetweenAtMost(cnt: Counts, lo: nat, hi: nat, k: nat, g: nat)
    requires g <= MAX_BITS
    ensures Between(cnt, lo, hi, k, g) <= CodesFrom(cnt, k, g)
    decreases g + 1 - k
  {
    hide First;
    if 0 < k <= g { BetweenAtMost(cnt, 2 * lo, 2 * hi, k + 1, g); }
  }

  /** Every string that no shorter code covers has a code at or below it. */
  lemma {:induction false} OneEach(cnt: Counts, lo: nat, hi: nat, k: nat, g: nat)
    requires Complete(cnt, g) && 1 <= k <= g && First(cnt, k) <= lo <= hi <= Pow2(k)
    ensures Between(cnt, lo, hi, k, g) >= hi - lo
    decreases g - k
  {
    hide First, Pow2;
    if k < g {
      var mid := Min(hi, Max(lo, End(cnt, k)));
      BetweenParts(cnt, 2 * lo, 2 * mid, 2 * hi, k + 1, g);
      NextFirst(cnt, k, 1, k);
      Pow2Step(k + 1);
      if mid < hi { OneEach(cnt, 2 * mid, 2 * hi, k + 1, g); }
    }
  }

  /** The codes of length k and more are among those of length w and more. */
  lemma {:induction false} Longer(cnt: Counts, lo: nat, hi: nat, w: nat, k: nat, g: nat)
    requires 1 <= w <= k <= g <= MAX_BITS
    ensures Between(cnt, lo, hi, w, g) >= Between(cnt, Shl(lo, k - w), Shl(hi, k - w), k, g)
    decreases k - w
  {
    hide First, End;
    if w < k {
      Longer(cnt, 2 * lo, 2 * hi, w + 1, k, g);
      ShlShl(lo, 1, k - w - 1); ShlShl(hi, 1, k - w - 1);
      ShlTwice(lo); ShlTwice(hi);
    } else {
      ShlNone(lo); ShlNone(hi);
    }
  }

  /** The tables at one level: the end of the last one, the bits of the last one with codes of
      several lengths (1 if there is none), and their size. */
  datatype Level = Level(end: nat, top: nat, size: nat)

  ghost predicate LevelOk(sp: Spec, w: nat, lv: Level)
    requires sp.g <= MAX_BITS
  {
    && lv.end <= Pow2(w) && 1 <= lv.top && (lv.top > 1 ==> w + lv.top <= sp.g && lv.top <= sp.l)
    && lv.size + 4 <= Between(sp.cnt, 0, lv.end, w, sp.g) + Pow2(lv.top + 1)
    && (lv.top > 1 ==> First(sp.cnt, w + lv.top) <= Shl(lv.end, lv.top))
  }

  lemma NoTables(sp: Spec, w: nat)
    requires sp.g <= MAX_BITS
    ensures LevelOk(sp, w, Level(0, 1, 0))
  {
    assert Pow2(2) == 4;
  }

  /** A new table for the r-th code of length k, which is p and zeros. */
  ghost predicate Opens(sp: Spec, w: nat, lv: Level, k: nat, r: nat, p: nat, bits: nat) {
    && sp.Ok() && 1 <= w < k <= sp.g && r < sp.cnt[k] && lv.end <= p && sp.Num(k, r) == Shl(p, k - w)
    && k - w <= bits <= sp.l && w + bits <= sp.g
    && (bits > k - w ==> First(sp.cnt, w + bits) <= Shl(p + 1, bits))
  }

  /** The prefix of a code is a string. */
  lemma PrefixBound(sp: Spec, w: nat, k: nat, r: nat, p: nat)
    requires sp.Ok() && w < k <= sp.g && 1 <= k && r < sp.cnt[k] && sp.Num(k, r) == Shl(p, k - w)
    ensures p < Pow2(w)
  {
    hide First, Shl, Pow2;
    assert End(sp.cnt, k) <= Pow2(k);
    if p >= Pow2(w) {
      ShlMono(Pow2(w), p, k - w);
      ShlOne(w); ShlShl(1, w, k - w); ShlOne(k);
    }
  }

  /** A table with codes of one length only has a code for every entry. */
  lemma EqualTable(sp: Spec, w: nat, lv: Level, k: nat, r: nat, p: nat)
    requires w < k && Opens(sp, w, lv, k, r, p, k - w)
    ensures Between(sp.cnt, 0, p + 1, w, sp.g) >= Between(sp.cnt, 0, lv.end, w, sp.g) + Pow2(k - w)
  {
    hide First, Shl, Pow2, Between;
    PrefixBound(sp, w, k, r, p);
    BetweenParts(sp.cnt, 0, lv.end, p + 1, w, sp.g);
    BetweenParts(sp.cnt, lv.end, p, p + 1, w, sp.g);
    Longer(sp.cnt, p, p + 1, w, k, sp.g);
    ShlAdd(p, 1, k - w); ShlOne(k - w);
    ShlMono(p + 1, Pow2(w), k - w); ShlOne(w); ShlShl(1, w, k - w); ShlOne(k);
    OneEach(sp.cnt, Shl(p, k - w), Shl(p + 1, k - w), k, sp.g);
  }

  /** A table with codes of several lengths is larger than all before it at its level. */
  lemma MixedTable(sp: Spec, w: nat, lv: Level, k: nat, r: nat, p: nat, bits: nat)
    requires Opens(sp, w, lv, k, r, p, bits) && LevelOk(sp, w, lv) && bits > k - w
    ensures bits > lv.top
  {
    hide First, Shl, Pow2, Between;
    var m := lv.top;
    if m > 1 && k < w + m {
      FirstBehind(sp.cnt, k, w + m);
      ShlMono(lv.end, p, m);
      ShlShl(p, k - w, w + m - k);
      StrictShl(Shl(p, k - w), End(sp.cnt, k), w + m - k);
    }
  }

  ghost function Opened(lv: Level, w: nat, k: nat, p: nat, bits: nat): Level {
    Level(p + 1, if w + bits > k then bits else lv.top, lv.size + Pow2(bits))
  }

  /** One more table at a level. */
  lemma LevelStep(sp: Spec, w: nat, lv: Level, k: nat, r: nat, p: nat, bits: nat)
    requires Opens(sp, w, lv, k, r, p, bits) && LevelOk(sp, w, lv)
    ensures LevelOk(sp, w, Opened(lv, w, k, p, bits))
  {
    hide First, Shl, Pow2, Between;
    PrefixBound(sp, w, k, r, p);
    if bits == k - w {
      EqualTable(sp, w, lv, k, r, p);
      if lv.top > 1 { ShlMono(lv.end, p + 1, lv.top); }
    } else {
      MixedTable(sp, w, lv, k, r, p, bits);
      BetweenParts(sp.cnt, 0, lv.end, p + 1, w, sp.g);
      Pow2Mono(lv.top + 1, bits);
      Pow2Step(bits + 1);
    }
  }

  /** The sizes of the levels from w on, every l bits. */
  ghost function Used(lev: seq<Level>, l: nat, w: nat, g: nat): nat
    requires 1 <= l && g <= |lev|
    decreases if w < g then g - w else 0
  {
    if w >= g then 0 else lev[w].size + Used(lev, l, w + l, g)
  }

  /** What n codes can take at the levels from w on. */
  function Space(n: nat, l: nat, w: nat, g: nat): nat
    requires 1 <= l
    decreases if w < g then g - w else 0
  {
    if w >= g then 0 else n + Pow2(Min(l, g - w) + 1) + Space(n, l, w + l, g)
  }

  /** w' is some levels below w. */
  predicate BelowBy(l: nat, w: nat, w': nat)
    requires 1 <= l
    decreases if w <= w' then w' - w else 0
  {
    w == w' || (w < w' && BelowBy(l, w + l, w'))
  }

  lemma {:induction false} UsedUpdate(lev: seq<Level>, l: nat, w: nat, g: nat, w': nat, lv: Level)
    requires 1 <= l && g <= |lev| && w' < g && BelowBy(l, w, w')
    ensures Used(lev[w' := lv], l, w, g) + lev[w'].size == Used(lev, l, w, g) + lv.size
    decreases g - w
  {
    if w == w' {
      UsedSame(lev, lev[w' := lv], l, w + l, g);
    } else {
      UsedUpdate(lev, l, w + l, g, w', lv);
    }
  }

  lemma {:induction false} UsedSame(lev: seq<Level>, lev': seq<Level>, l: nat, w: nat, g: nat)
    requires 1 <= l && g <= |lev| == |lev'| && forall i :: w <= i < g ==> lev[i] == lev'[i]
    ensures Used(lev, l, w, g) == Used(lev', l, w, g)
    decreases if w < g then g - w else 0
  {
    if w < g { UsedSame(lev, lev', l, w + l, g); }
  }

  lemma {:induction false} UsedFits(sp: Spec, lev: seq<Level>, w: nat)
    requires 1 <= sp.l && sp.g <= MAX_BITS <= |lev| && w >= 1
    requires forall i :: w <= i < sp.g ==> LevelOk(sp, i, lev[i])
    ensures Used(lev, sp.l, w, sp.g) <= Space(CodesFrom(sp.cnt, 1, sp.g), sp.l, w, sp.g)
    decreases if w < sp.g then sp.g - w else 0
  {
    hide Pow2, First, Shl, Between;
    if w < sp.g {
      var lv := lev[w];
      BetweenAtMost(sp.cnt, 0, lv.end, w, sp.g);
      CodesFromMono(sp.cnt, 1, w, sp.g);
      Pow2Mono(lv.top + 1, Min(sp.l, sp.g - w) + 1);
      UsedFits(sp, lev, w + sp.l);
    }
  }

  /** The tables made so far, level by level. */
  ghost predicate BudgetOk(sp: Spec, tabs: set<Tab>, lev: seq<Level>, hn: nat) {
    && 1 <= sp.l && sp.g <= MAX_BITS == |lev|
    && hn == sp.root + lev[0].size + Used(lev, sp.l, sp.l, sp.g) && lev[0].size <= Pow2(sp.l)
    && (tabs == {} ==> lev[0].size == 0)
    && (forall w :: 1 <= w < sp.g ==> LevelOk(sp, w, lev[w]))
    && (forall w :: 1 <= w < sp.g && lev[w].end > 0 ==> exists t :: t in tabs && t.w == w && t.p + 1 == lev[w].end)
  }

  /** There is room for all tables. */
  ghost predicate Affordable(sp: Spec, many: nat)
    requires 1 <= sp.l && sp.g <= MAX_BITS
  {
    sp.root + Pow2(sp.l) + Space(CodesFrom(sp.cnt, 1, sp.g), sp.l, sp.l, sp.g) <= many
  }

  lemma BudgetStart(sp: Spec, lev: seq<Level>)
    requires sp.Ok() && |lev| == MAX_BITS && forall i :: 0 <= i < |lev| ==> lev[i] == Level(0, 1, 0)
    ensures BudgetOk(sp, {}, lev, sp.root)
  {
    hide LevelOk, Pow2;
    UsedNone(lev, sp.l, sp.l, sp.g);
    forall w | 1 <= w < sp.g ensures LevelOk(sp, w, lev[w]) { NoTables(sp, w); }
  }

  lemma {:induction false} UsedNone(lev: seq<Level>, l: nat, w: nat, g: nat)
    requires 1 <= l && g <= |lev| && forall i :: 0 <= i < |lev| ==> lev[i].size == 0
    ensures Used(lev, l, w, g) == 0
    decreases if w < g then g - w else 0
  {
    if w < g { UsedNone(lev, l, w + l, g); }
  }

  lemma {:induction false} StackLevels(sp: Spec, tabs: set<Tab>, stack: seq<Tab>, n: nat, k: nat, j: nat)
    requires StackOk(sp, tabs, stack, n, k) && sp.l >= 1 && j < |stack| && stack[0].w == 0
    ensures BelowBy(sp.l, sp.l, stack[j].w + sp.l)
    ensures forall i :: 0 <= i <= j ==> stack[i].w <= stack[j].w
    decreases j
  {
    if j > 0 {
      StackLevels(sp, tabs, stack, n, k, j - 1);
      assert stack[(j - 1) + 1].w == stack[j - 1].w + sp.l;
      OneBelow(sp.l, sp.l, stack[j - 1].w + sp.l);
    }
  }

  lemma {:induction false} OneBelow(l: nat, w: nat, w': nat)
    requires 1 <= l && BelowBy(l, w, w')
    ensures BelowBy(l, w, w' + l)
    decreases if w <= w' then w' - w else 0
  {
    if w != w' { OneBelow(l, w + l, w'); }
  }

  /** The table at the next level starts behind all others at that level. */
  lemma BehindLast(sp: Spec, tabs: set<Tab>, lev: seq<Level>, stack: seq<Tab>, hn: nat, k: nat, c: nat, t: Tab)
    requires k <= MAX_BITS && Core(sp, tabs, stack, hn, sp.Num(k, c), k) && BudgetOk(sp, tabs, lev, hn)
    requires NextTable(sp, stack, hn, k, c, t) && stack != [] && t.w < sp.g
    ensures lev[t.w].end <= t.p
  {
    hide First, Shl, Pow2, Roomy, LevelOk, PrefixOf;
    if lev[t.w].end > 0 {
      StackLevels(sp, tabs, stack, sp.Num(k, c), k, |stack| - 1);
      var u :| u in tabs && u.w == t.w && u.p + 1 == lev[t.w].end;
      assert Passed(u, sp.Num(k, c), k);
      if t.p < u.p + 1 { StrictShl(t.p, u.p + 1, k - t.w); }
    }
  }

  /** One more table at level w. */
  lemma BudgetMore(sp: Spec, tabs: set<Tab>, lev: seq<Level>, hn: nat, t: Tab, lv: Level)
    requires BudgetOk(sp, tabs, lev, hn) && 1 <= t.w < sp.g && BelowBy(sp.l, sp.l, t.w) && tabs != {}
    requires LevelOk(sp, t.w, lv) && lv.end == t.p + 1 && lv.size == lev[t.w].size + Pow2(t.bits)
    ensures BudgetOk(sp, tabs + {t}, lev[t.w := lv], hn + Pow2(t.bits))
  {
    hide LevelOk, Pow2;
    UsedUpdate(lev, sp.l, sp.l, sp.g, t.w, lv);
    assert t in tabs + {t};
  }

  lemma BudgetRoot(sp: Spec, lev: seq<Level>, hn: nat, t: Tab)
    requires BudgetOk(sp, {}, lev, hn) && t.bits <= sp.l
    ensures BudgetOk(sp, {t}, lev[0 := lev[0].(size := Pow2(t.bits))], hn + Pow2(t.bits))
  {
    hide LevelOk, Pow2;
    Pow2Mono(t.bits, sp.l);
    UsedSame(lev, lev[0 := lev[0].(size := Pow2(t.bits))], sp.l, sp.l, sp.g);
  }

  /** One more table: it is paid for. */
  lemma BudgetStep(sp: Spec, tabs: set<Tab>, lev: seq<Level>, stack: seq<Tab>, hn: nat, k: nat, c: nat, t: Tab)
    returns (lev': seq<Level>)
    requires sp.Ok() && 1 <= k <= sp.g && Core(sp, tabs, stack, hn, sp.Num(k, c), k) && BudgetOk(sp, tabs, lev, hn)
    requires NextTable(sp, stack, hn, k, c, t) && c < sp.cnt[k] && t.bits <= sp.l && k - t.w <= t.bits
    requires t.bits > k - t.w ==> First(sp.cnt, t.w + t.bits) <= Shl(t.p + 1, t.bits)
    requires stack == [] ==> tabs == {}
    ensures BudgetOk(sp, tabs + {t}, lev', hn + Pow2(t.bits))
  {
    hide First, Shl, Pow2, Roomy, LevelOk, Used, Disjoint, Opened;
    if stack == [] {
      BudgetRoot(sp, lev, hn, t);
      lev' := lev[0 := lev[0].(size := Pow2(t.bits))];
      assert tabs + {t} == {t};
    } else {
      BehindLast(sp, tabs, lev, stack, hn, k, c, t);
      StackLevels(sp, tabs, stack, sp.Num(k, c), k, |stack| - 1);
      assert stack[0] in tabs;
      var lv := Opened(lev[t.w], t.w, k, t.p, t.bits);
      OpenedIs(lev[t.w], t.w, k, t.p, t.bits);
      LevelStep(sp, t.w, lev[t.w], k, c, t.p, t.bits);
      lev' := lev[t.w := lv];
      BudgetMore(sp, tabs, lev, hn, t, lv);
    }
  }

  lemma OpenedIs(lv: Level, w: nat, k: nat, p: nat, bits: nat)
    ensures Opened(lv, w, k, p, bits).end == p + 1 && Opened(lv, w, k, p, bits).size == lv.size + Pow2(bits)
  {
  }

  /** What is paid for fits. */
  lemma BudgetFits(sp: Spec, tabs: set<Tab>, lev: seq<Level>, hn: nat, many: nat)
    requires BudgetOk(sp, tabs, lev, hn) && Affordable(sp, many)
    ensures hn <= many
  {
    hide LevelOk, Pow2;
    UsedFits(sp, lev, sp.l);
  }

  lemma {:induction false} SpaceMono(n: nat, n': nat, l: nat, w: nat, g: nat, g': nat)
    requires 1 <= l && n <= n' && g <= g'
    ensures Space(n, l, w, g) <= Space(n', l, w, g')
    decreases if w < g then g - w else 0
  {
    hide Pow2;
    if w < g {
      Pow2Mono(Min(l, g - w) + 1, Min(l, g' - w) + 1);
      SpaceMono(n, n', l, w + l, g, g');
    }
  }
}
