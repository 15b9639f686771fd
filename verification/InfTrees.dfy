/** huft_build and its callers in zlib/inftrees.c: from code lengths to tables. */
module InfTrees {
  import opened Arith
  import opened BitStrings
  import opened Canonical
  import opened SymbolCodes
  import opened Huft
  import opened HuftBuild
  import opened TableSpace

  const MANY := 1440

  /** Offset of the codes of length k in the list of values. */
  function Offset(cnt: seq<nat>, k: nat): nat
    requires 1 <= k <= |cnt|
  {
    if k == 1 then 0 else Offset(cnt, k - 1) + cnt[k - 1]
  }

  /** huft_build: counts for each bit length. */
  method CountLengths(b: seq<nat>) returns (c: seq<nat>)
    requires forall i :: 0 <= i < |b| ==> b[i] <= MAX_BITS
    ensures c == CountsOf(b)
  {
    c := seq(MAX_BITS + 1, _ => 0);
    var i := 0;
    while i < |b|
      invariant 0 <= i <= |b| && |c| == MAX_BITS + 1
      invariant forall k :: 0 <= k <= MAX_BITS ==> c[k] == CountOf(b[..i], k)
    {
      assert b[..i + 1][..i] == b[..i];
      c := c[b[i] := c[b[i]] + 1];
      i := i + 1;
    }
    assert b[..|b|] == b;
  }

  lemma {:induction false} OffsetOrder(c: seq<nat>, j: nat, k: nat)
    requires 1 <= j < k <= |c|
    ensures Offset(c, j) + c[j] <= Offset(c, k)
    decreases k
  {
    if j < k - 1 { OffsetOrder(c, j, k - 1); }
  }

  /** The place of a symbol in the list of values in order of bit lengths. */
  ghost function PlaceOf(b: seq<nat>, sym: nat): nat
    requires sym < |b| && 1 <= b[sym] <= MAX_BITS
  {
    Offset(CountsOf(b), b[sym]) + RankOf(b, sym)
  }

  lemma PlaceInjective(b: seq<nat>, i: nat, j: nat)
    requires i < |b| && j < |b| && 1 <= b[i] <= MAX_BITS && 1 <= b[j] <= MAX_BITS
    requires PlaceOf(b, i) == PlaceOf(b, j)
    ensures i == j
  {
    RankBelowCount(b, i); RankBelowCount(b, j);
    if b[i] < b[j] { OffsetOrder(CountsOf(b), b[i], b[j]); }
    if b[j] < b[i] { OffsetOrder(CountsOf(b), b[j], b[i]); }
    if b[i] == b[j] { RankInjective(b, i, j); }
  }

  /** huft_build: starting offsets into the value table for each length. */
  method StartingOffsets(c: seq<nat>, g: nat) returns (x: seq<nat>)
    requires |c| == MAX_BITS + 1 && 1 <= g <= MAX_BITS
    ensures |x| == MAX_BITS + 1
    ensures forall k :: 1 <= k <= g ==> x[k] == Offset(c, k)
  {
    x := seq(MAX_BITS + 1, _ => 0);
    var j, i := 0, 1;
    while i < g
      invariant 1 <= i <= g && |x| == MAX_BITS + 1 && j == Offset(c, i)
      invariant forall k :: 1 <= k <= i ==> x[k] == Offset(c, k)
    {
      j := j + c[i];
      i := i + 1;
      x := x[i := j];
    }
  }

  /** huft_build: the values in order of bit lengths. */
  method SortByLength(b: seq<nat>, c: seq<nat>, g: nat) returns (v: seq<nat>)
    requires forall i :: 0 <= i < |b| ==> b[i] <= g
    requires c == CountsOf(b) && 1 <= g <= MAX_BITS && b != []
    ensures |v| == Offset(c, g) + c[g]
    ensures forall sym :: 0 <= sym < |b| && b[sym] > 0 ==> PlaceOf(b, sym) < |v| && v[PlaceOf(b, sym)] == sym
    ensures forall j :: 0 <= j < |v| ==> v[j] < |b|
  {
    hide CountOf, Offset;
    var x := StartingOffsets(c, g);
    v := seq(Offset(c, g) + c[g], _ => 0);
    var i := 0;
    CountNone();
    assert b[..0] == [];
    while i < |b|
      invariant 0 <= i <= |b| && |v| == Offset(c, g) + c[g] && |x| == MAX_BITS + 1
      invariant forall k :: 1 <= k <= g ==> x[k] == Offset(c, k) + CountOf(b[..i], k)
      invariant forall sym :: 0 <= sym < i && b[sym] > 0 ==> PlaceOf(b, sym) < |v| && v[PlaceOf(b, sym)] == sym
      invariant forall j :: 0 <= j < |v| ==> v[j] < |b|
    {
      var j := b[i];
      CountNext(b, i);
      if j != 0 {
        PlaceFits(b, i, g);
        forall sym | 0 <= sym < i && b[sym] > 0 ensures PlaceOf(b, sym) != PlaceOf(b, i) {
          if PlaceOf(b, sym) == PlaceOf(b, i) { PlaceInjective(b, sym, i); }
        }
        v := v[x[j] := i];
        x := x[j := x[j] + 1];
      }
      i := i + 1;
    }
  }

  lemma PlaceFits(b: seq<nat>, i: nat, g: nat)
    requires i < |b| && 1 <= b[i] <= g <= MAX_BITS
    ensures PlaceOf(b, i) < Offset(CountsOf(b), g) + CountOf(b, g)
  {
    RankBelowCount(b, i);
    if b[i] < g { OffsetOrder(CountsOf(b), b[i], g); }
  }

  /** The base of the last value, which stays in r when the values run out. */
  function LastBase(v: seq<nat>, s: nat, d: seq<nat>): nat {
    if v == [] then 0
    else
      var x := v[|v| - 1];
      if x < s then x else if x - s < |d| then d[x - s] else 0
  }

  /** The entry for place pos in the list of values v, with all k bits to drop: past the list
      an invalid code; below s the value itself, 256 being end of block; otherwise base d and
      extra bits e. */
  function LeafFor(v: seq<nat>, s: nat, d: seq<nat>, e: seq<nat>, pos: nat, k: nat): (r: Entry)
    ensures !r.IsLink()
  {
    if pos >= |v| then Entry(128 + 64, k, LastBase(v, s, d))
    else if v[pos] < s then Entry(if v[pos] < 256 then 0 else 32 + 64, k, v[pos])
    else if v[pos] - s < |d| && v[pos] - s < |e| then Entry(e[v[pos] - s] + 16 + 64, k, d[v[pos] - s])
    else Entry(128 + 64, k, 0)
  }

  /** One code of the layout loop: tables, entry, fill, next code. */
  method LayCode(t: Builder, k: nat, c: nat, e: Entry) returns (ok: bool)
    requires t.At(k, c) && c < t.cnt[k] && t.ZerosBehind(k, c) && t.CurrentTable(k) && t.Right(k, c) && t.Budget()
    requires e == t.sp.leaf(k, c)
    modifies t, t.hp
    ensures ok ==> t.Shape() && t.Right(k, c + 1) && t.Rooted() && t.stack != [] && t.Budget()
    ensures NoSkip(t.sp) && old(t.Sound()) && t.Enough() ==> ok
    ensures old(t.stack) == [] && old(t.hn) + Pow2(k) > t.many ==> !ok
    ensures ok && t.sp.Num(k, c + 1) < Pow2(k) ==> t.At(k, c + 1) && t.ZerosBehind(k, c + 1) && t.CurrentTable(k)
    ensures ok && NoSkip(t.sp) && old(t.Sound()) ==> t.Sound()
    ensures forall a :: 0 <= a < t.sp.root && a < t.hp.Length ==> t.hp[a] == old(t.hp[a])
  {
    hide First, End, Pow2, NoSkip, Core, Built, LinksOk, StackVars, Builder.Enough, BudgetOk;
    ok := t.MakeTables(k, c);
    if !ok { return; }
    t.FillCode(k, c, e.(bits := k - t.w));
    t.IsRooted(k, c);
    t.NextCode(k, c);
  }

  /** What the layout loops are about to do at code c of length k, if it exists. */
  ghost predicate Poised(t: Builder, k: nat, c: nat)
    reads t, t.hp
    requires 1 <= k <= MAX_BITS
  {
    && t.Right(k, c) && t.Shape() && t.Budget()
    && (t.sp.Num(k, c) < Pow2(k) ==> t.At(k, c) && t.ZerosBehind(k, c) && t.CurrentTable(k))
  }

  lemma CodeExists(sp: Spec, k: nat, c: nat)
    requires sp.Ok() && 1 <= k <= sp.g && c < sp.cnt[k]
    ensures sp.Num(k, c) < Pow2(k)
  {
    hide First, Pow2;
    assert End(sp.cnt, k) <= Pow2(k);
  }

  /** r.base behind the first p values. */
  ghost predicate Carries(v: seq<nat>, s: nat, d: seq<nat>, p: nat, base: nat) {
    p == |v| && v != [] ==> base == LastBase(v, s, d)
  }

  /** The entry for the value at place p, or the invalid code behind the last value; the
      invalid code leaves the base as it was. */
  method SetUpEntry(v: seq<nat>, s: nat, d: seq<nat>, e: seq<nat>, p: nat, k: nat, base0: nat)
    returns (r: Entry, p': nat)
    requires p <= |v| && v != [] && forall j :: 0 <= j < |v| ==> v[j] < s + |d| && v[j] < s + |e|
    requires Carries(v, s, d, p, base0)
    ensures r == LeafFor(v, s, d, e, p, k) && p' == Min(p + 1, |v|) && Carries(v, s, d, p', r.base)
  {
    p' := p;
    if p >= |v| {
      r := Entry(128 + 64, k, base0);
    } else {
      if v[p] < s {
        r := Entry(if v[p] < 256 then 0 else 32 + 64, k, v[p]);
      } else {
        r := Entry(e[v[p] - s] + 16 + 64, k, d[v[p] - s]);
      }
      p' := p + 1;
    }
  }

  /** `while (a--)`: all codes of length k, with values from place p0 on. */
  method LayLength(t: Builder, k: nat, v: seq<nat>, s: nat, d: seq<nat>, e: seq<nat>, p0: nat, base0: nat,
                   ghost off: nat)
    returns (ok: bool, p: nat, base: nat)
    requires 1 <= k <= t.g <= MAX_BITS && Poised(t, k, 0) && p0 == Min(off, |v|) && v != []
    requires Carries(v, s, d, p0, base0) && forall j :: 0 <= j < |v| ==> v[j] < s + |d| && v[j] < s + |e|
    requires forall c: nat :: t.sp.leaf(k, c) == LeafFor(v, s, d, e, off + c, k)
    modifies t, t.hp
    ensures ok ==> Poised(t, k, t.cnt[k]) && p == Min(off + t.cnt[k], |v|) && Carries(v, s, d, p, base)
    ensures ok && (t.cnt[k] > 0 || old(t.Rooted() && t.stack != [])) ==> t.Rooted() && t.stack != []
    ensures ok && NoSkip(t.sp) && old(t.Sound()) ==> t.Sound()
    ensures NoSkip(t.sp) && old(t.Sound()) && t.Enough() ==> ok
    ensures old(t.stack) == [] && t.cnt[k] > 0 && old(t.hn) + Pow2(k) > t.many ==> !ok
    ensures forall a :: 0 <= a < t.sp.root && a < t.hp.Length ==> t.hp[a] == old(t.hp[a])
  {
    hide First, End, Pow2, NoSkip, Core, Built, LinksOk, StackVars, LeafFor, LastBase, Builder.Rooted, Builder.Sound,
         Builder.At, Builder.Right, Builder.ZerosBehind, Builder.CurrentTable, Builder.Budget, Builder.Enough;
    ok, p, base := true, p0, base0;
    var c := 0;
    while c < t.cnt[k]
      invariant 0 <= c <= t.cnt[k] && Poised(t, k, c) && p == Min(off + c, |v|) && Carries(v, s, d, p, base)
      invariant c == 0 ==> t.stack == old(t.stack) && t.hn == old(t.hn)
      invariant c > 0 || old(t.Rooted() && t.stack != []) ==> t.Rooted() && t.stack != []
      invariant NoSkip(t.sp) && old(t.Sound()) ==> t.Sound()
      invariant old(t.stack) == [] && old(t.hn) + Pow2(k) > t.many ==> c == 0
      invariant forall a :: 0 <= a < t.sp.root && a < t.hp.Length ==> t.hp[a] == old(t.hp[a])
    {
      CodeExists(t.sp, k, c);
      var r;
      PastTheEnd(v, s, d, e, off + c, k);
      r, p := SetUpEntry(v, s, d, e, p, k, base);
      assert r == t.sp.leaf(k, c);
      base := r.base;
      ok := LayCode(t, k, c, r);
      if !ok { return; }
      c := c + 1;
    }
  }

  lemma PastTheEnd(v: seq<nat>, s: nat, d: seq<nat>, e: seq<nat>, pos: nat, k: nat)
    ensures LeafFor(v, s, d, e, pos, k) == LeafFor(v, s, d, e, Min(pos, |v|), k)
  {
  }

  /** `for (; k <= g; k++)`: all codes, from the shortest length kmin on. */
  method LayOut(t: Builder, kmin: nat, v: seq<nat>, s: nat, d: seq<nat>, e: seq<nat>, ghost c0: seq<nat>)
    returns (ok: bool)
    requires 1 <= kmin <= t.g <= MAX_BITS && Poised(t, kmin, 0) && t.cnt[kmin] > 0 && t.stack == [] && v != []
    requires forall j :: 0 <= j < |v| ==> v[j] < s + |d| && v[j] < s + |e|
    requires |c0| == MAX_BITS + 1 && forall k :: 1 <= k < t.g ==> t.cnt[k] == c0[k]
    requires Offset(c0, kmin) == 0
    requires forall k: nat, c: nat {:trigger t.sp.leaf(k, c)} ::
               1 <= k <= t.g ==> t.sp.leaf(k, c) == LeafFor(v, s, d, e, Offset(c0, k) + c, k)
    modifies t, t.hp
    ensures ok ==> t.Shape() && t.Right(t.g, t.cnt[t.g]) && t.Rooted() && t.Budget()
    ensures ok && NoSkip(t.sp) && old(t.Sound()) ==> t.Sound()
    ensures NoSkip(t.sp) && old(t.Sound()) && t.Enough() ==> ok
    ensures old(t.hn) + Pow2(kmin) > t.many ==> !ok
    ensures forall a :: 0 <= a < t.sp.root && a < t.hp.Length ==> t.hp[a] == old(t.hp[a])
  {
    hide First, End, Pow2, NoSkip, Core, Built, LinksOk, StackVars, LeafFor, LastBase, Builder.Rooted, Builder.Sound,
         Builder.At, Builder.Right, Builder.ZerosBehind, Builder.CurrentTable, Builder.Budget, Builder.Enough;
    ok := true;
    var k, p, base := kmin, 0, 0;
    while true
      invariant kmin <= k <= t.g && Poised(t, k, 0) && p == Min(Offset(c0, k), |v|) && Carries(v, s, d, p, base)
      invariant k > kmin ==> t.Rooted() && t.stack != []
      invariant k == kmin ==> t.stack == [] && t.hn == old(t.hn)
      invariant old(t.hn) + Pow2(kmin) > t.many ==> k == kmin
      invariant NoSkip(t.sp) && old(t.Sound()) ==> t.Sound()
      invariant forall a :: 0 <= a < t.sp.root && a < t.hp.Length ==> t.hp[a] == old(t.hp[a])
      decreases t.g - k
    {
      ok, p, base := LayLength(t, k, v, s, d, e, p, base, Offset(c0, k));
      if !ok { return; }
      if k == t.g { return; }
      NotFull(t.sp, k);
      t.LongerCodes(k);
      k := k + 1;
    }
  }

  /** Z_OK, Z_BUF_ERROR and Z_DATA_ERROR. */
  datatype Status = Ok | BufError | DataError

  /** The operation and value that stand for a symbol in a table. */
  function OpOf(sym: nat, s: nat, d: seq<nat>, e: seq<nat>): (nat, nat)
    requires sym < s + |d| && sym < s + |e|
  {
    if sym < s then (if sym < 256 then 0 else 32 + 64, sym) else (e[sym - s] + 16 + 64, d[sym - s])
  }

  /** The tables at t decode the canonical code of every symbol, and no other string. */
  ghost predicate Decodes(hp: seq<Entry>, t: nat, m: nat, b: seq<nat>, s: nat, d: seq<nat>, e: seq<nat>)
    requires |b| <= s + |d| && |b| <= s + |e| && forall i :: 0 <= i < |b| ==> b[i] <= MAX_BITS
  {
    && (forall sym, bits: Bits ::
          0 <= sym < |b| && b[sym] > 0 && |bits| >= MAX_BITS && StartsWith(bits, CodeOf(b, sym), b[sym]) ==>
          Walk(hp, t, m, bits) == Found(OpOf(sym, s, d, e).0, OpOf(sym, s, d, e).1, b[sym]))
    && (forall bits: Bits :: |bits| >= MAX_BITS && NoCode(b, bits) ==>
          Walk(hp, t, m, bits).Found? && Walk(hp, t, m, bits).exop == 128 + 64)
    && (forall sym, bits: Bits :: 0 <= sym < |b| && Only(b, sym) && |bits| >= MAX_BITS && NoCode(b, bits) ==>
          Walk(hp, t, m, bits) == Found(128 + 64, OpOf(sym, s, d, e).1, 1))
  }

  /** The counts with the last length filled up to a complete set of codes. */
  ghost predicate Padded(cnt: Counts, c0: Counts, g: nat) {
    && Complete(cnt, g) && cnt[g] >= c0[g] > 0
    && (forall k :: 1 <= k < g ==> cnt[k] == c0[k])
    && (forall k :: g < k <= MAX_BITS ==> c0[k] == 0)
  }

  /** What has been laid out for the counts and values of b. */
  ghost predicate LaidOut(sp: Spec, hp: seq<Entry>, tabs: set<Tab>, b: seq<nat>, v: seq<nat>,
                          s: nat, d: seq<nat>, e: seq<nat>)
    requires forall i :: 0 <= i < |b| ==> b[i] <= MAX_BITS
  {
    var c0 := CountsOf(b);
    && sp.Ok() && Padded(sp.cnt, c0, sp.g)
    && Built(sp, hp, tabs, sp.g, sp.cnt[sp.g])
    && (forall t :: t in tabs ==> t.Len() <= sp.g && 1 <= t.bits <= sp.l)
    && Tab(sp.root, 0, 0, sp.l) in tabs
    && (forall j :: 0 <= j < |v| ==> v[j] < |b|)
    && |v| == Offset(c0, sp.g) + c0[sp.g]
    && (forall sym :: 0 <= sym < |b| && b[sym] > 0 ==> PlaceOf(b, sym) < |v| && v[PlaceOf(b, sym)] == sym)
    && (forall k: nat, c: nat {:trigger sp.leaf(k, c)} :: 1 <= k <= sp.g ==>
          sp.leaf(k, c) == LeafFor(v, s, d, e, Offset(c0, k) + c, k))
  }

  lemma WalkCode(sp: Spec, hp: seq<Entry>, tabs: set<Tab>, bits: Bits, k: nat, r: nat)
    requires sp.Ok() && Built(sp, hp, tabs, sp.g, sp.cnt[sp.g]) && Tab(sp.root, 0, 0, sp.l) in tabs
    requires forall t :: t in tabs ==> t.Len() <= MAX_BITS && 1 <= t.bits
    requires 1 <= k <= sp.g && r < sp.cnt[k] && |bits| >= MAX_BITS && StartsWith(bits, sp.Num(k, r), k)
    requires !sp.leaf(k, r).IsLink()
    ensures Walk(hp, sp.root, sp.l, bits) == Found(sp.leaf(k, r).exop, sp.leaf(k, r).base, k)
  {
    hide Built, Walk, First, Fits;
    WalkFinds(sp, hp, tabs, Tab(sp.root, 0, 0, sp.l), bits, k, r, sp.g, sp.cnt[sp.g]);
    assert bits[0..] == bits;
    assert bits[..0] == [];
  }

  lemma DecodesSymbol(sp: Spec, hp: seq<Entry>, tabs: set<Tab>, b: seq<nat>, v: seq<nat>, s: nat, d: seq<nat>,
                      e: seq<nat>,
                      sym: nat, bits: Bits)
    requires |b| <= s + |d| && |b| <= s + |e| && forall i :: 0 <= i < |b| ==> b[i] <= MAX_BITS
    requires LaidOut(sp, hp, tabs, b, v, s, d, e)
    requires sym < |b| && b[sym] > 0 && |bits| >= MAX_BITS && StartsWith(bits, CodeOf(b, sym), b[sym])
    ensures Walk(hp, sp.root, sp.l, bits) == Found(OpOf(sym, s, d, e).0, OpOf(sym, s, d, e).1, b[sym])
  {
    hide Built, Walk, First, Fits, Offset, CountOf, StartsWith;
    var k, r := b[sym], RankOf(b, sym);
    LengthUsed(b, sym, sp.g);
    RankBelowCount(b, sym);
    FirstSame(sp.cnt, CountsOf(b), k);
    WalkCode(sp, hp, tabs, bits, k, r);
    assert v[PlaceOf(b, sym)] == sym;
  }

  lemma SymbolFor(sp: Spec, b: seq<nat>, bits: Bits, m: nat, r: nat) returns (sym: nat)
    requires forall i :: 0 <= i < |b| ==> b[i] <= MAX_BITS
    requires 1 <= m <= sp.g <= MAX_BITS && r < CountsOf(b)[m] && StartsWith(bits, sp.Num(m, r), m)
    requires forall k :: 1 <= k < sp.g ==> sp.cnt[k] == CountsOf(b)[k]
    ensures Front(b, sym, bits)
  {
    hide CountOf, First, StartsWith;
    sym := RankSurjective(b, m, r);
    FirstSame(sp.cnt, CountsOf(b), m);
  }

  lemma RejectsRest(sp: Spec, hp: seq<Entry>, tabs: set<Tab>, b: seq<nat>, v: seq<nat>, s: nat, d: seq<nat>,
                    e: seq<nat>, bits: Bits)
    returns (m: nat)
    requires |b| <= s + |d| && |b| <= s + |e| && forall i :: 0 <= i < |b| ==> b[i] <= MAX_BITS
    requires LaidOut(sp, hp, tabs, b, v, s, d, e)
    requires |bits| >= MAX_BITS && NoCode(b, bits)
    ensures 1 <= m <= sp.g && Walk(hp, sp.root, sp.l, bits) == Found(128 + 64, LastBase(v, s, d), m)
  {
    hide Built, Walk, First, Offset, CountOf, Be, Pow2, LeafFor, LastBase;
    var c0, g := CountsOf(b), sp.g;
    var r;
    m, r := Covered(sp.cnt, Be(bits[..g]), g);
    PrefixOfStream(bits, m, g);
    BehindValues(v, s, d, e, Offset(c0, m) + r, m);
    if r < c0[m] {
      var sym := SymbolFor(sp, b, bits, m, r);
    } else {
      WalkCode(sp, hp, tabs, bits, m, r);
    }
  }

  /** With one symbol only, its value is the last. */
  lemma OnlyBase(sp: Spec, hp: seq<Entry>, tabs: set<Tab>, b: seq<nat>, v: seq<nat>, s: nat, d: seq<nat>, e: seq<nat>,
                 sym: nat)
    requires |b| <= s + |d| && |b| <= s + |e| && forall i :: 0 <= i < |b| ==> b[i] <= MAX_BITS
    requires LaidOut(sp, hp, tabs, b, v, s, d, e) && Only(b, sym)
    ensures sp.g == 1 && LastBase(v, s, d) == OpOf(sym, s, d, e).1
  {
    hide Built, Fits, End, CountOf;
    OnlyGreatest(b, sym, sp.g);
    OnlyPlace(b, sym);
    assert PlaceOf(b, sym) == 0 && |v| == 1;
  }

  lemma OnlyGreatest(b: seq<nat>, sym: nat, g: nat)
    requires Only(b, sym) && 1 <= g <= MAX_BITS && CountsOf(b)[g] > 0 && forall k :: g < k <= MAX_BITS ==>
               CountsOf(b)[k] == 0
    ensures g == 1
  {
    hide CountOf;
    LengthUsed(b, sym, g);
    if 1 < g { var i := RankSurjective(b, g, 0); }
  }

  lemma {:induction false} OnlyPlace(b: seq<nat>, sym: nat)
    requires Only(b, sym)
    ensures CountOf(b, 1) == 1 && RankOf(b, sym) == 0
    decreases |b|
  {
    CountNoOnes(b[..sym]);
    var n := |b| - 1;
    if sym < n {
      assert b[..n][..sym] == b[..sym];
      OnlyPlace(b[..n], sym);
    }
  }

  lemma {:induction false} CountNoOnes(b: seq<nat>)
    requires forall i :: 0 <= i < |b| ==> b[i] == 0
    ensures CountOf(b, 1) == 0
  {
    if b != [] { CountNoOnes(b[..|b| - 1]); }
  }

  lemma BehindValues(v: seq<nat>, s: nat, d: seq<nat>, e: seq<nat>, pos: nat, k: nat)
    ensures pos >= |v| ==> LeafFor(v, s, d, e, pos, k) == Entry(128 + 64, k, LastBase(v, s, d))
  {
  }

  /** huft_build: the least and the greatest length in use. */
  method LengthRange(c: seq<nat>) returns (least: nat, g: nat)
    requires |c| == MAX_BITS + 1 && exists k :: 1 <= k <= MAX_BITS && c[k] > 0
    ensures 1 <= least <= g <= MAX_BITS && c[least] > 0 && c[g] > 0
    ensures forall k :: 1 <= k < least || g < k <= MAX_BITS ==> c[k] == 0
  {
    least := 1;
    while c[least] == 0
      invariant 1 <= least <= MAX_BITS && forall k :: 1 <= k < least ==> c[k] == 0
      decreases MAX_BITS - least
    {
      assert exists k :: least < k <= MAX_BITS && c[k] > 0;
      least := least + 1;
    }
    g := MAX_BITS;
    while c[g] == 0
      invariant least <= g <= MAX_BITS && forall k :: g < k <= MAX_BITS ==> c[k] == 0
      decreases g
    {
      g := g - 1;
    }
  }

  /** huft_build: how many codes of length g are missing; negative as soon as some length has
      more codes than there are strings. */
  method FillOut(c: Counts, least: nat, g: nat) returns (y: int)
    requires 1 <= least <= g <= MAX_BITS && forall k :: 1 <= k < least ==> c[k] == 0
    ensures y >= 0 <==> Fits(c, g)
    ensures y >= 0 ==> y == Pow2(g) - End(c, g)
  {
    hide First, Pow2;
    var j := least;
    y := Pow2(j);
    FirstIsZero(c, least);
    forall k | 1 <= k < least ensures End(c, k) <= Pow2(k) { FirstIsZero(c, k); }
    while j < g
      invariant least <= j <= g && y == Pow2(j) - First(c, j)
      invariant forall k {:trigger End(c, k)} :: 1 <= k < j ==> End(c, k) <= Pow2(k)
    {
      y := y - c[j];
      if y < 0 {
        assert End(c, j) > Pow2(j);
        return;
      }
      NextFirst(c, j, 1, j); ShlOne(j); ShlOne(j + 1);
      assert End(c, j) <= Pow2(j);
      j := j + 1;
      y := 2 * y;
    }
    y := y - c[g];
    assert y == Pow2(g) - End(c, g);
  }
}
