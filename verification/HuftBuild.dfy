/** huft_build of zlib/inftrees.c: the loops that lay out the tables. */
module HuftBuild {
  import opened Arith
  import opened BitStrings
  import opened Canonical
  import opened Huft
  import opened TableSpace

  lemma LowPeriod(i: nat, j: nat, d: nat)
    requires i < j < i + Pow2(d)
    ensures Low(i, d) != Low(j, d)
  {
    SplitAt(i, d); SplitAt(j, d);
    if Low(i, d) == Low(j, d) {
      var a, b := Shr(i, d), Shr(j, d);
      if b <= a {
        ShlMono(b, a, d);
      } else {
        ShlMono(a + 1, b, d);
        ShlAdd(a, 1, d); ShlOne(d);
      }
    }
  }

  lemma LowStep(i: nat, d: nat)
    ensures Low(i + Pow2(d), d) == Low(i, d)
  {
    ShlOne(d);
    AddAbove(1, d, i, d);
  }

  /** `for (j = i >> w; j < z; j += f) q[j] = r` with f == 1 << d. */
  method FillEntries(hp: array<Entry>, q: nat, z: nat, start: nat, d: nat, e: Entry)
    requires q + z <= hp.Length && start < Pow2(d)
    modifies hp
    ensures forall a :: 0 <= a < hp.Length && !(q <= a < q + z) ==> hp[a] == old(hp[a])
    ensures forall idx :: 0 <= idx < z ==>
              hp[q + idx] == if Low(idx, d) == start then e else old(hp[q + idx])
  {
    hide Low, Pow2;
    var j := start;
    LowBelow(start, d);
    forall idx | 0 <= idx < start ensures Low(idx, d) != start {
      LowPeriod(idx, start, d);
    }
    while j < z
      invariant start <= j && Low(j, d) == start
      invariant forall a :: 0 <= a < hp.Length && !(q <= a < q + z && a < q + j) ==> hp[a] == old(hp[a])
      invariant forall idx :: 0 <= idx < z && idx < j ==>
                  hp[q + idx] == if Low(idx, d) == start then e else old(hp[q + idx])
    {
      hp[q + j] := e;
      forall idx | j < idx < j + Pow2(d) ensures Low(idx, d) != start {
        LowPeriod(j, idx, d);
      }
      LowStep(j, d);
      j := j + Pow2(d);
    }
  }

  /** `for (j = 1 << (k - 1); i & j; j >>= 1) i ^= j; i ^= j`: the reversed code of length k
      goes on to the reversal of the next number. */
  method BackwardsIncrement(i: nat, k: nat, ghost n: nat) returns (r: nat)
    requires i == Rev(n, k)
    ensures r == Rev(n + 1, k)
  {
    hide Rev, Shl, Shr, Pow2;
    r := i;
    var m: nat := k;
    ghost var c: nat := n;
    LowShrZero(n); ShlNone(n + 1);
    while m > 0 && Shr(r, m - 1) % 2 == 1
      invariant 0 <= m <= k && r == Rev(c, m) && n + 1 == Shl(c + 1, k - m)
    {
      TopBit(c, m);
      ShlShl(c / 2 + 1, 1, k - m);
      r := r - Pow2(m - 1);
      c := c / 2;
      m := m - 1;
    }
    RevShl(c + 1, m, k - m);
    if m > 0 {
      TopBit(c, m);
      r := r + Pow2(m - 1);
    } else {
      RevNone(c); RevNone(c + 1);
    }
  }

  lemma RevNone(x: nat)
    ensures Rev(x, 0) == 0
  {
  }

  /** The top bit of a reversed code is its last bit. */
  lemma TopBit(c: nat, m: nat)
    requires m > 0
    ensures Shr(Rev(c, m), m - 1) % 2 == c % 2
    ensures c % 2 == 1 ==> Rev(c, m) == Pow2(m - 1) + Rev(c / 2, m - 1) && Shl(c / 2 + 1, 1) == c + 1
    ensures c % 2 == 0 ==> Rev(c + 1, m) == Pow2(m - 1) + Rev(c, m)
  {
    hide Rev, Shr, Pow2;
    var a, b := c / 2, c % 2;
    RevStep(a, b, m - 1);
    RevStep(a, 1, m - 1);
    JoinParts(b, Rev(a, m - 1), m - 1);
    ShlOne(m - 1); ShlZero(m - 1);
  }

  /** `while ((i & mask) != x[h])`: back up over the tables that code n does not share. If n
      is past the last string, this ends at the first table. */
  method BackUp(x: seq<nat>, i: nat, l: nat, h0: nat, w0: nat, ghost stack: seq<Tab>, ghost n: nat, ghost k: nat)
    returns (h: nat, w: nat)
    requires h0 == |stack| - 1 < |x| && w0 == stack[h0].w && i == Rev(n, k)
    requires forall j :: 0 <= j < |stack| - 1 ==> stack[j + 1].w == stack[j].w + l
    requires forall j :: 0 <= j < |stack| ==>
               x[j] == Rev(stack[j].p, stack[j].w) && stack[j].w <= k && stack[j].p < Pow2(stack[j].w)
    requires stack[0].w == 0
    ensures h <= h0 && w == stack[h].w
    ensures n < Pow2(k) ==>
              && PrefixOf(stack[h].p, stack[h].w, n, k)
              && forall j :: h < j < |stack| ==> !PrefixOf(stack[j].p, stack[j].w, n, k)
  {
    hide Shr, Rev, Low, Pow2, PrefixOf;
    h, w := h0, w0;
    LowShrZero(i); RevNone(stack[0].p);
    assert x[0] == 0;
    while Low(i, w) != x[h]
      invariant 0 <= h <= h0 && w == stack[h].w
      invariant n < Pow2(k) ==> forall j :: h < j < |stack| ==> !PrefixOf(stack[j].p, stack[j].w, n, k)
      decreases h
    {
      if n < Pow2(k) { SameFront(stack[h], n, k); }
      assert stack[(h - 1) + 1].w == stack[h - 1].w + l;
      h, w := h - 1, w - l;
    }
    if n < Pow2(k) { SameFront(stack[h], n, k); }
  }

  lemma {:induction false} StackIsShort(sp: Spec, tabs: set<Tab>, stack: seq<Tab>, n: nat, k: nat, j: nat)
    requires StackOk(sp, tabs, stack, n, k) && sp.l >= 1 && j < |stack|
    ensures stack[j].w >= j
    decreases j
  {
    if j > 0 { StackIsShort(sp, tabs, stack, n, k, j - 1); }
  }

  /** The first table has exactly l bits. */
  lemma RootBits(sp: Spec, t: Tab)
    requires sp.Ok() && Roomy(sp, t) && t.w == 0 && t.p == 0 && t.bits <= sp.l
    ensures t.bits == sp.l
  {
    hide First, Shl, Pow2;
    if t.bits < sp.l {
      FirstGrows(sp.cnt, t.bits + 1, sp.g);
      ShlMono(Shl(1, t.bits + 1), First(sp.cnt, t.bits + 1), sp.g - t.bits - 1);
      ShlShl(1, t.bits + 1, sp.g - t.bits - 1);
      ShlOne(sp.g);
    }
  }

  /** The table stack u and the code stack x hold the open tables, h is the innermost. */
  ghost predicate StackVars(sp: Spec, u: seq<nat>, x: seq<nat>, h: int, w: int, stack: seq<Tab>) {
    && |u| == MAX_BITS && |x| == MAX_BITS + 1 && |stack| <= MAX_BITS
    && h == |stack| - 1 && (if stack == [] then w + sp.l == 0 else w == stack[h].w)
    && x[0] == 0
    && (forall j :: 0 <= j < |stack| ==> u[j] == stack[j].addr && x[j] == Rev(stack[j].p, stack[j].w))
    && (stack != [] ==> stack[0].addr == sp.root && stack[0].p == 0 && stack[0].w == 0)
  }

  lemma PushVars(sp: Spec, u: seq<nat>, x: seq<nat>, h: int, w: int, stack: seq<Tab>, t: Tab, i: nat)
    requires StackVars(sp, u, x, h, w, stack) && |stack| < MAX_BITS
    requires t.w == w + sp.l && i == Rev(t.p, t.w)
    requires stack == [] ==> t.addr == sp.root && t.p == 0 && i == 0
    ensures StackVars(sp, u[h + 1 := t.addr], x[h + 1 := i], h + 1, w + sp.l, stack + [t])
  {
  }

  lemma ShortenVars(sp: Spec, u: seq<nat>, x: seq<nat>, h: int, w: int, stack: seq<Tab>, h': nat, w': nat)
    requires StackVars(sp, u, x, h, w, stack) && h' < |stack| && w' == stack[h'].w
    ensures StackVars(sp, u, x, h', w', stack[..h' + 1])
  {
    hide Rev;
  }

  /** What the open tables guarantee to the loop that leaves them. */
  lemma StackFacts(sp: Spec, tabs: set<Tab>, stack: seq<Tab>, hn: nat, n: nat, k: nat)
    requires Core(sp, tabs, stack, hn, n, k) && n < Pow2(k) && stack != []
    ensures forall j :: 0 <= j < |stack| - 1 ==> stack[j + 1].w == stack[j].w + sp.l
    ensures forall j :: 0 <= j < |stack| ==> stack[j].w < k && stack[j].p < Pow2(stack[j].w)
    ensures stack[0].w == 0
  {
    hide Shr, Pow2, Roomy, Passed, Disjoint;
    forall j | 0 <= j < |stack| ensures stack[j].p < Pow2(stack[j].w) {
      ShrBound(n, stack[j].w, k - stack[j].w);
    }
  }

  lemma StackVarsGive(sp: Spec, u: seq<nat>, x: seq<nat>, h: int, w: int, stack: seq<Tab>)
    requires StackVars(sp, u, x, h, w, stack) && stack != []
    ensures 0 <= h == |stack| - 1 < |x| && w == stack[h].w
    ensures forall j :: 0 <= j < |stack| ==> x[j] == Rev(stack[j].p, stack[j].w)
  {
  }

  /** The local variables of huft_build while it lays out the tables; k and the index c of
      the current code among those of length k are the loop counters. */
  class Builder {
    const cnt: Counts
    const g: nat
    const l: nat
    const many: nat
    const hp: array<Entry>
    ghost const sp: Spec
    var hn: nat
    var u: seq<nat>
    var x: seq<nat>
    var h: int
    var w: int
    var q: nat
    var z: nat
    var i: nat
    ghost var tabs: set<Tab>
    ghost var stack: seq<Tab>
    ghost var lev: seq<Level>

    ghost predicate Shape()
      reads this`u, this`x, this`hn
    {
      && sp.Ok() && sp.cnt == cnt && sp.g == g && sp.l == l
      && |u| == MAX_BITS && |x| == MAX_BITS + 1 && hn <= many <= hp.Length
    }

    /** Code c of length k comes next. */
    ghost predicate At(k: nat, c: nat)
      reads this`u, this`x, this`hn, this`h, this`w, this`i, this`tabs, this`stack
    {
      && Shape() && StackVars(sp, u, x, h, w, stack)
      && 1 <= k <= g && sp.Num(k, c) < Pow2(k)
      && Core(sp, tabs, stack, hn, sp.Num(k, c), k)
      && i == Rev(sp.Num(k, c), k)
      && (stack == [] ==> hn == sp.root && k <= l)
    }

    /** Behind the current level, the next code has only zeros. */
    ghost predicate ZerosBehind(k: nat, c: nat)
      reads this`w
    {
      0 <= w + l < k <= MAX_BITS ==>
        sp.Num(k, c) == Shl(Shr(sp.Num(k, c), k - (w + l)), k - (w + l))
    }

    /** q and z describe the innermost open table, unless the next code needs another. */
    ghost predicate CurrentTable(k: nat)
      reads this`w, this`h, this`q, this`z, this`stack
    {
      k <= w + l ==> 0 <= h == |stack| - 1 && q == stack[h].addr && z == Pow2(stack[h].bits)
    }

    /** There is a first table at the root, and all tables are within their bounds. */
    ghost predicate Rooted()
      reads this`tabs, this`hn
    {
      && sp.root <= hn
      && (exists t :: t in tabs && t.addr == sp.root && t.p == 0 && t.w == 0)
      && forall t :: t in tabs ==> t.addr + Pow2(t.bits) <= hn && Roomy(sp, t) && t.Len() <= g && 1 <= t.bits
    }

    /** No table was made larger than l bits. */
    ghost predicate Sound()
      reads this`tabs
    {
      forall t :: t in tabs ==> t.bits <= l
    }

    /** As long as no table is larger than l bits, all of them are paid for. */
    ghost predicate Budget()
      reads this`tabs, this`lev, this`hn
    {
      Sound() ==> BudgetOk(sp, tabs, lev, hn)
    }

    /** There is room for all tables of up to l bits. */
    ghost predicate Enough() {
      1 <= sp.l && sp.g <= MAX_BITS && Affordable(sp, many)
    }

    /** The entries are right for all codes before code c of length k. */
    ghost predicate Right(k: nat, c: nat)
      reads this`tabs, this`stack, hp
    {
      Sound() ==> Built(sp, hp[..], tabs, k, c) && LinksOk(sp, hp[..], stack)
    }

    lemma StackHasRoom(k: nat, c: nat)
      requires At(k, c) && k > w + l
      ensures |stack| < MAX_BITS
    {
      hide First, End, Shl, Shr, Rev, Low, Pow2, Roomy;
      if stack != [] { StackIsShort(sp, tabs, stack, sp.Num(k, c), k, |stack| - 1); }
    }

    lemma NextTableIs(k: nat, c: nat, t: Tab)
      requires At(k, c) && c < cnt[k] && k > w + l && ZerosBehind(k, c)
      requires t == Tab(hn, Shr(sp.Num(k, c), k - (w + l)), w + l, t.bits)
      requires k - (w + l) <= t.bits <= Max(k - (w + l), Min(l, g - (w + l)))
      requires t.bits >= Min(l, g - (w + l)) || First(cnt, w + l + t.bits + 1) >= Shl(t.p + 1, t.bits + 1)
      ensures NextTable(sp, stack, hn, k, c, t)
      ensures stack == [] ==> t.p == 0 && Rev(t.p, t.w) == 0
    {
      hide First, End, Shl, Shr, Rev, Low, Pow2, Core;
      if stack == [] {
        ShrBound(sp.Num(k, c), 0, k);
        RevNone(t.p);
        Pow2None();
      }
    }

    /** The entry of the last table that leads to the new table t at hn. */
    method LinkLast(k: nat, c: nat, j: nat, ghost t: Tab)
      requires At(k, c) && Right(k, c) && NextTable(sp, stack, hn, k, c, t) && t.bits == j
      requires hn + Pow2(j) <= many
      modifies hp
      ensures Sound() ==> Built(sp, hp[..], tabs + {t}, k, c) && LinksOk(sp, hp[..], stack + [t])
      ensures forall a :: 0 <= a < sp.root && a < hp.Length ==> hp[a] == old(hp[a])
    {
      hide First, End, Shl, Shr, Rev, Low, Pow2, Core, Built, LinksOk;
      ghost var before := hp[..];
      NextTableFits(sp, tabs, stack, hn, k, c, t);
      if h >= 0 {
        var at := u[h] + Shr(i, w);
        hp[at] := Entry(j, l, hn - at);
      }
      if Sound() { NextTableRight(sp, before, hp[..], tabs, stack, hn, k, c, t); }
    }

    /** Makes the new table t at hn the innermost open table. */
    method EnterTable(k: nat, c: nat, j: nat, ghost t: Tab)
      requires At(k, c) && |stack| < MAX_BITS && h == |stack| - 1 && |x| == MAX_BITS + 1 && x[0] == 0
      requires NextTable(sp, stack, hn, k, c, t) && t.addr == hn && t.bits == j && t.w == w + l
      requires stack == [] ==> t.p == 0 && Rev(t.p, t.w) == 0
      requires hn + Pow2(j) <= many
      modifies this`hn, this`u, this`x, this`h, this`w, this`q, this`z, this`tabs, this`stack
      ensures At(k, c) && CurrentTable(k)
      ensures w == old(w) + l && stack == old(stack) + [t] && tabs == old(tabs) + {t} && hn == old(hn) + Pow2(j)
    {
      hide First, End, Shl, Shr, Rev, Low, Pow2, Core, Roomy, StackVars, NextTable, Spec.Ok;
      NextTableFits(sp, tabs, stack, hn, k, c, t);
      PushVars(sp, u, x, h, w, stack, t, if h >= 0 then i else 0);
      if h >= 0 { x := x[h + 1 := i]; } else { assert x[0 := 0] == x; }
      u := u[h + 1 := hn];
      h, w, q, z := h + 1, w + l, hn, Pow2(j);
      hn := hn + z;
      tabs, stack := tabs + {t}, stack + [t];
    }

    /** The bits of the table for code c of length k one level down. */
    method NextBits(k: nat, c: nat) returns (j: nat, ghost t: Tab, ghost lev': seq<Level>)
      requires At(k, c) && c < cnt[k] && k > w + l && ZerosBehind(k, c) && Budget()
      ensures NextTable(sp, stack, hn, k, c, t) && t.addr == hn && t.bits == j && t.w == w + l
      ensures stack == [] ==> t.p == 0 && Rev(t.p, t.w) == 0 && w + l == 0
      ensures j <= Max(k - (w + l), l) && k - (w + l) <= j
      ensures Sound() && k - (w + l) <= l ==>
                BudgetOk(sp, tabs + {t}, lev', hn + Pow2(j)) && (Enough() ==> hn + Pow2(j) <= many)
    {
      hide First, End, Shl, Shr, Rev, Low, Pow2, Core, Roomy, NextTable, BudgetOk, Affordable;
      ghost var p := Shr(sp.Num(k, c), k - (w + l));
      j := ChooseBits(cnt, g, l, k, w + l, cnt[k] - c, p);
      t := Tab(hn, p, w + l, j);
      NextTableIs(k, c, t);
      LevelIs(k, c);
      lev' := lev;
      if Sound() && k - (w + l) <= l { lev' := PaidFor(k, c, t); }
    }

    /** One round of `while (k > w + l)`: a new table one level down. */
    method NewTable(k: nat, c: nat) returns (ok: bool)
      requires At(k, c) && c < cnt[k] && k > w + l && ZerosBehind(k, c) && Right(k, c) && Budget()
      modifies this`hn, this`u, this`x, this`h, this`w, this`q, this`z, this`tabs, this`stack, this`lev, hp
      ensures ok ==> At(k, c) && CurrentTable(k) && Right(k, c) && stack != [] && Budget()
      ensures ok ==> w == old(w) + l && (old(Sound()) && k - w <= l ==> Sound())
      ensures old(Sound()) && k - (old(w) + l) <= l && Enough() ==> ok
      ensures old(stack) == [] && old(hn) + Pow2(k) > many ==> !ok
      ensures forall a :: 0 <= a < sp.root && a < hp.Length ==> hp[a] == old(hp[a])
    {
      hide First, End, Shl, Shr, Rev, Low, Pow2, Core, Built, LinksOk, Roomy, NextTable, BudgetOk, Affordable,
           StackVars;
      var j;
      ghost var t, lev';
      j, t, lev' := NextBits(k, c);
      if stack == [] { Pow2Mono(k, j); }
      if hn + Pow2(j) > many { return false; }
      StackHasRoom(k, c);
      StackTop(k, c);
      LinkLast(k, c, j, t);
      EnterTable(k, c, j, t);
      lev := lev';
      assert t in tabs && (Sound() ==> old(Sound()));
      return true;
    }

    lemma StackTop(k: nat, c: nat)
      requires At(k, c)
      ensures h == |stack| - 1 && x[0] == 0
    {
    }

    /** The next table is paid for, and there is room for it. */
    lemma PaidFor(k: nat, c: nat, t: Tab) returns (lev': seq<Level>)
      requires At(k, c) && c < cnt[k] && Sound() && Budget() && NextTable(sp, stack, hn, k, c, t)
      requires k - t.w <= t.bits <= l && (t.bits > k - t.w ==> First(sp.cnt, t.w + t.bits) <= Shl(t.p + 1, t.bits))
      ensures BudgetOk(sp, tabs + {t}, lev', hn + Pow2(t.bits))
      ensures Enough() ==> hn + Pow2(t.bits) <= many
    {
      hide First, End, Shl, Shr, Rev, Low, Pow2, Built, LinksOk, Roomy, NextTable, BudgetOk, Affordable, StackOk,
           Disjoint;
      if stack == [] { NoTabs(sp, tabs, stack, hn, sp.Num(k, c), k); }
      lev' := BudgetStep(sp, tabs, lev, stack, hn, k, c, t);
      if Enough() { BudgetFits(sp, tabs + {t}, lev', hn + Pow2(t.bits), many); }
    }

    lemma StillZeros(k: nat, n: nat, d: nat, e: nat)
      requires n == Shl(Shr(n, d), d) && e <= d
      ensures n == Shl(Shr(n, e), e)
    {
      hide Shl, Shr;
      ShlShl(Shr(n, d), d - e, e);
      ShlPrefix(Shl(Shr(n, d), d - e), e);
    }

    /** `while (k > w + l)`: tables down to the level where code c of length k ends. */
    method MakeTables(k: nat, c: nat) returns (ok: bool)
      requires At(k, c) && c < cnt[k] && ZerosBehind(k, c) && CurrentTable(k) && Right(k, c) && Budget()
      modifies this`hn, this`u, this`x, this`h, this`w, this`q, this`z, this`tabs, this`stack, this`lev, hp
      ensures ok ==> At(k, c) && CurrentTable(k) && Right(k, c) && w < k <= w + l && stack != [] && Budget()
      ensures ok && NoSkip(sp) && old(Sound()) ==> Sound()
      ensures NoSkip(sp) && old(Sound()) && Enough() ==> ok
      ensures old(stack) == [] && old(hn) + Pow2(k) > many ==> !ok
      ensures forall a :: 0 <= a < sp.root && a < hp.Length ==> hp[a] == old(hp[a])
    {
      hide First, End, Shl, Shr, Rev, Low, Pow2, Core, Built, LinksOk, NoSkip, StackVars, Builder.Right, Builder.Budget,
           Builder.Enough;
      ok := true;
      LevelIs(k, c);
      while k > w + l
        invariant At(k, c) && ZerosBehind(k, c) && CurrentTable(k) && Right(k, c) && Budget()
        invariant NoSkip(sp) && old(Sound()) ==> Sound()
        invariant old(stack) == [] && stack != [] ==> old(hn) + Pow2(k) <= many
        invariant stack == [] ==> hn == old(hn) && old(stack) == []
        invariant forall a :: 0 <= a < sp.root && a < hp.Length ==> hp[a] == old(hp[a])
        decreases k - w
      {
        ghost var n, d := sp.Num(k, c), k - (w + l);
        LevelIs(k, c);
        if NoSkip(sp) && stack != [] { EndsInNext(k, c); }
        ok := NewTable(k, c);
        if !ok { return; }
        if k > w + l { StillZeros(k, n, d, k - (w + l)); }
      }
      TopTable(k, c);
    }

    /** No level is skipped: the code ends in the table that it opens. */
    lemma EndsInNext(k: nat, c: nat)
      requires At(k, c) && c < cnt[k] && ZerosBehind(k, c) && NoSkip(sp) && stack != [] && k > w + l
      ensures k - (w + l) <= l
    {
      hide First, End, Shl, Shr, Rev, Pow2, Core;
      StackLevel(sp, tabs, stack, hn, sp.Num(k, c), k, h);
      assert StartsTable(sp, k, c, w + l);
    }

    lemma LevelIs(k: nat, c: nat)
      requires At(k, c)
      ensures w + l >= 0 && (stack != [] ==> w >= 0) && (stack == [] ==> w + l == 0)
    {
    }

    /** The fill loop of huft_build for code c of length k. */
    method FillCode(k: nat, c: nat, e: Entry)
      requires At(k, c) && c < cnt[k] && CurrentTable(k) && k <= w + l && Right(k, c)
      requires e == sp.leaf(k, c).(bits := k - w)
      modifies hp
      ensures Sound() ==> Built(sp, hp[..], tabs, k, c + 1) && LinksOk(sp, hp[..], stack)
      ensures forall a :: 0 <= a < sp.root && a < hp.Length ==> hp[a] == old(hp[a])
    {
      hide First, End, Shl, Shr, Rev, Low, Pow2, Built, LinksOk, Roomy, Tab.Cover, PrefixOf;
      ghost var t, n, before := stack[h], sp.Num(k, c), hp[..];
      TopTable(k, c);
      FillEntries(hp, q, z, Shr(i, w), k - w, e);
      forall idx: nat {:trigger t.Cover(idx)} | idx < Pow2(t.bits)
        ensures PrefixOf(n, k, t.Cover(idx), t.Len()) <==> Low(idx, k - w) == Shr(i, w)
      {
        FillMatch(t, n, k, idx);
      }
      assert Filled(before, hp[..], t, n, k, e);
      if Sound() { FillBuilt(sp, before, hp[..], tabs, stack, k, c); }
    }

    lemma TopTable(k: nat, c: nat)
      requires At(k, c) && stack != [] && k <= w + l
      ensures stack[h] in tabs && PrefixOf(stack[h].p, stack[h].w, sp.Num(k, c), k) &&
              w == stack[h].w < k <= stack[h].Len()
      ensures sp.root <= stack[h].addr && stack[h].addr + Pow2(stack[h].bits) <= hn
      ensures Shr(i, w) < Pow2(k - w)
    {
      hide First, End, Shl, Shr, Rev, Low, Pow2, Roomy;
      RoomyFits(sp, stack[h], k, c);
      RevSplit(sp.Num(k, c), k, w);
    }

    /** Behind a code: on to the next one of the same length, out of finished tables. If the
        code was the last string of its length, no code is left. */
    method NextCode(k: nat, c: nat)
      requires At(k, c) && c < cnt[k] && k <= w + l && CurrentTable(k)
      requires Sound() ==> Built(sp, hp[..], tabs, k, c + 1) && LinksOk(sp, hp[..], stack)
      modifies this`i, this`h, this`w, this`stack
      ensures Shape() && stack != [] && Right(k, c + 1)
      ensures sp.Num(k, c) + 1 < Pow2(k) ==> At(k, c + 1) && ZerosBehind(k, c + 1) && CurrentTable(k)
    {
      hide First, End, Shl, Shr, Rev, Low, Pow2, Built, Core, LinksOk, Roomy, StackVars, PrefixOf;
      ghost var n, all := sp.Num(k, c), stack;
      StackFacts(sp, tabs, stack, hn, n, k);
      StackVarsGive(sp, u, x, h, w, stack);
      i := BackwardsIncrement(i, k, n);
      var h', w' := BackUp(x, i, l, h, w, stack, n + 1, k);
      ShortenVars(sp, u, x, h, w, stack, h', w');
      FewerLinks(sp, hp[..], all, h' + 1);
      h, w, stack := h', w', stack[..h' + 1];
      if n + 1 < Pow2(k) { Stepped(k, c, all, h'); }
    }

    /** The state behind code c of length k, with the tables behind h' closed. */
    lemma Stepped(k: nat, c: nat, all: seq<Tab>, h': nat)
      requires Shape() && 1 <= k <= g && Core(sp, tabs, all, hn, sp.Num(k, c), k) && h' < |all|
      requires StackVars(sp, u, x, h', all[h'].w, all[..h' + 1])
      requires h == h' && w == all[h'].w && stack == all[..h' + 1]
      requires i == Rev(sp.Num(k, c) + 1, k) && sp.Num(k, c) + 1 < Pow2(k)
      requires PrefixOf(all[h'].p, all[h'].w, sp.Num(k, c) + 1, k)
      requires forall j :: h' < j < |all| ==> !PrefixOf(all[j].p, all[j].w, sp.Num(k, c) + 1, k)
      requires k <= all[|all| - 1].w + l && q == all[|all| - 1].addr && z == Pow2(all[|all| - 1].bits)
      ensures At(k, c + 1) && ZerosBehind(k, c + 1) && CurrentTable(k)
    {
      hide First, End, Shl, Shr, Rev, Low, Pow2, Core, Roomy, StackVars, PrefixOf;
      StepCore(sp, tabs, all, hn, sp.Num(k, c), k, h');
      if h' < |all| - 1 { ClosedLevel(all, k, sp.Num(k, c), h'); }
    }

    lemma IsRooted(k: nat, c: nat)
      requires At(k, c) && stack != []
      ensures Rooted()
    {
      hide First, End, Shl, Shr, Rev, Low, Pow2, Roomy;
      assert stack[0] in tabs;
    }

    constructor (cnt: Counts, g: nat, l: nat, many: nat, hp: array<Entry>, hn: nat, kmin: nat,
                 ghost leaf: (nat, nat) -> Entry)
      requires Complete(cnt, g) && 1 <= l <= g && cnt[g] > 0 && hn <= many <= hp.Length
      requires 1 <= kmin <= l && First(cnt, kmin) == 0
      ensures this.cnt == cnt && this.g == g && this.l == l && this.many == many && this.hp == hp
      ensures sp == Spec(cnt, g, l, hn, leaf) && this.hn == hn
      ensures At(kmin, 0) && ZerosBehind(kmin, 0) && CurrentTable(kmin) && Right(kmin, 0)
      ensures Sound() && stack == [] && Budget()
    {
      this.cnt, this.g, this.l, this.many, this.hp, this.hn := cnt, g, l, many, hp, hn;
      sp := Spec(cnt, g, l, hn, leaf);
      u, x := seq(MAX_BITS, _ => 0), seq(MAX_BITS + 1, _ => 0);
      h, w, q, z, i := -1, 0 - l, 0, 0, 0;
      tabs, stack, lev := {}, [], seq(MAX_BITS, _ => Level(0, 1, 0));
      new;
      BudgetStart(sp, lev);
      hide First, End, Shl, Shr, Rev, Low, Pow2, Roomy, BudgetOk;
      ZeroCode(kmin);
    }

    /** The loop over k: the codes of the next length start behind twice the last number. */
    lemma LongerCodes(k: nat)
      requires 1 <= k < g <= MAX_BITS && At(k, cnt[k]) && ZerosBehind(k, cnt[k]) && CurrentTable(k) &&
               Right(k, cnt[k]) && stack != []
      ensures At(k + 1, 0) && ZerosBehind(k + 1, 0) && CurrentTable(k + 1) && Right(k + 1, 0)
    {
      hide First, End, Shl, Shr, Rev, Low, Pow2, Roomy, Core, StackVars, LinksOk, EntryOk;
      ghost var n := sp.Num(k, cnt[k]);
      LongerNumber(sp, k);
      LongerCode(sp, tabs, stack, hn, n, k);
      RevShlOne(n, k);
      LevelIs(k, cnt[k]);
      if w + l <= k { ZerosLonger(n, k - (w + l)); }
    }

    /** Behind closed tables the next code has only zeros, and it is longer than a level. */
    lemma ClosedLevel(all: seq<Tab>, k: nat, n: nat, h: nat)
      requires h + 1 < |all| && Shape() && Core(sp, tabs, all, hn, n, k) && k <= MAX_BITS
      requires !PrefixOf(all[h + 1].p, all[h + 1].w, n + 1, k)
      ensures all[h].w + l < k && n + 1 == Shl(Shr(n + 1, k - (all[h].w + l)), k - (all[h].w + l))
    {
      hide First, End, Shl, Shr, Pow2, Roomy, PrefixOf;
      LeftTable(all[h + 1], n, k);
      ShlPrefix(all[h + 1].p + 1, k - all[h + 1].w);
    }
  }

  lemma FewerLinks(sp: Spec, hp: seq<Entry>, stack: seq<Tab>, m: nat)
    requires m <= |stack|
    ensures LinksOk(sp, hp, stack) ==> LinksOk(sp, hp, stack[..m])
  {
    hide Linked;
    var s := stack[..m];
    assert forall j :: 0 <= j < |s| ==> s[j] == stack[j];
  }

  /** The number of the first code is zero. */
  lemma ZeroCode(k: nat)
    ensures Rev(0, k) == 0 && Shr(0, k) == 0 && Shl(0, k) == 0 && 0 < Pow2(k)
  {
    ShlZero(k);
    JoinParts(0, 0, k);
    RevRev(0, k);
    RevShl(0, 0, k);
  }

  lemma LongerNumber(sp: Spec, k: nat)
    requires sp.Ok() && 1 <= k < sp.g
    ensures sp.Num(k + 1, 0) == 2 * sp.Num(k, sp.cnt[k])
    ensures sp.Num(k, sp.cnt[k]) < Pow2(k) ==> sp.Num(k + 1, 0) < Pow2(k + 1)
  {
    hide First, Pow2, Fits;
    NextFirst(sp.cnt, k, 1, k);
    ShlOne(k); ShlOne(k + 1);
  }

  lemma RevShlOne(n: nat, k: nat)
    ensures Rev(2 * n, k + 1) == Rev(n, k)
  {
    RevShl(n, k, 1);
  }

  lemma ZerosLonger(n: nat, d: nat)
    requires d > 0 ==> n == Shl(Shr(n, d), d)
    ensures 2 * n == Shl(Shr(2 * n, d + 1), d + 1)
  {
    if d == 0 {
      assert Shr(2 * n, 1) == n;
    } else {
      assert Shr(2 * n, d + 1) == Shr(n, d);
      assert Shl(Shr(n, d), d + 1) == 2 * Shl(Shr(n, d), d);
    }
  }

  /** Before the longest codes there is always a string left. */
  lemma NotFull(sp: Spec, k: nat)
    requires sp.Ok() && 1 <= k < sp.g
    ensures sp.Num(k, sp.cnt[k]) < Pow2(k)
  {
    hide First, Shl, Pow2;
    assert End(sp.cnt, k) <= Pow2(k);
    if End(sp.cnt, k) == Pow2(k) {
      FirstBehind(sp.cnt, k, sp.g);
      ShlOne(k); ShlShl(1, k, sp.g - k); ShlOne(sp.g);
    }
  }

  /** Without space taken there is no table. */
  lemma NoTabs(sp: Spec, tabs: set<Tab>, stack: seq<Tab>, hn: nat, n: nat, k: nat)
    requires Core(sp, tabs, stack, hn, n, k) && hn == sp.root
    ensures tabs == {}
  {
  }
}
